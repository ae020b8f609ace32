/**
 One stored vault document: reads give its revision, writes name the revision they
 replace, and any number of `setContent` and `initialize` calls overlap.
 */
module Storage {
  import opened Outcomes
  import opened Bytes

  datatype Doc = Absent | Doc(rev: nat, content: Buffer)

  function RevOf(doc: Doc): Option<nat> {
    if doc.Doc? then Some(doc.rev) else None
  }

  /** A put wins exactly when it names the revision that is there, or none when there is none. */
  function Put(doc: Doc, base: Option<nat>, content: Buffer): (Doc, bool) {
    if RevOf(doc) == base then (Doc(After(base), content), true) else (doc, false)
  }

  function After(base: Option<nat>): nat {
    if base.Some? then base.value + 1 else 1
  }

  /** The document of a store; a store never written has none. */
  function DocOf(disk: map<string, Doc>, store: string): Doc {
    if store in disk then disk[store] else Absent
  }

  /** A write that nothing disturbs. */
  function Written(doc: Doc, content: Buffer): Doc {
    Put(doc, RevOf(doc), content).0
  }

  /** The object with its calls run to completion one at a time. */
  class VaultDatabase {
    var doc: Doc

    constructor ()
      ensures doc == Absent
    {
      doc := Absent;
    }

    method GetContent() returns (content: Option<Buffer>)
      ensures content == if doc.Doc? then Some(doc.content) else None
    {
      content := if doc.Doc? then Some(doc.content) else None;
    }

    /** Undisturbed, a write always succeeds: it creates the document or replaces its only revision. */
    method SetContent(content: Buffer) returns (ok: bool)
      modifies this
      ensures ok && doc == Doc(if old(doc).Doc? then old(doc).rev + 1 else 1, content)
    {
      var base := RevOf(doc);
      var (after, won) := Put(doc, base, content);
      doc, ok := after, won;
    }

    /** Undisturbed, initial data is written exactly when there is no content yet. */
    method Initialize(initialData: Buffer) returns (ok: bool)
      modifies this
      ensures ok == old(doc).Absent?
      ensures doc == if old(doc).Absent? then Doc(1, initialData) else old(doc)
    {
      var content := GetContent();
      if content.Some? {
        return false;
      }
      ok := SetContent(initialData);
    }
  }

  // ---- overlapping calls ----

  /** Where a call stands: before its content check, before its revision read, or with a put on its way. */
  datatype Task = Initializing(content: Buffer) | Reading(content: Buffer) | Putting(content: Buffer, base: Option<nat>)

  datatype Write = Write(task: nat, base: Option<nat>, rev: nat, content: Buffer)

  /** `done` holds the results of finished calls; `chain` the writes that took effect, in order. */
  datatype State = State(doc: Doc, tasks: map<nat, Task>, done: map<nat, bool>, chain: seq<Write>)

  datatype Event = CallSet(k: nat, content: Buffer) | CallInitialize(k: nat, content: Buffer) | Resume(k: nat)

  predicate Enabled(s: State, e: Event) {
    if e.Resume? then e.k in s.tasks else e.k !in s.tasks && e.k !in s.done
  }

  function Finish(s: State, k: nat, result: bool): State {
    s.(tasks := s.tasks - {k}, done := s.done[k := result])
  }

  function Next(s: State, e: Event): State
    requires Enabled(s, e)
  {
    match e
    case CallSet(k, content) => s.(tasks := s.tasks[k := Reading(content)])
    case CallInitialize(k, content) => s.(tasks := s.tasks[k := Initializing(content)])
    case Resume(k) =>
      var t := s.tasks[k];
      if t.Initializing? then
        if s.doc.Doc? then Finish(s, k, false) else s.(tasks := s.tasks[k := Reading(t.content)])
      else if t.Reading? then s.(tasks := s.tasks[k := Putting(t.content, RevOf(s.doc))])
      else
        var (doc, won) := Put(s.doc, t.base, t.content);
        var s' := Finish(s, k, won);
        if won then s'.(doc := doc, chain := s.chain + [Write(k, t.base, doc.rev, t.content)]) else s'
  }

  ghost predicate Runs(s: State, events: seq<Event>, t: State)
    decreases |events|
  {
    if events == [] then s == t else Enabled(s, events[0]) && Runs(Next(s, events[0]), events[1..], t)
  }

  function Start(doc: Doc): State {
    State(doc, map[], map[], [])
  }

  /** The revision that the write at position `i` found. */
  function Found(doc: Doc, chain: seq<Write>, i: nat): Option<nat>
    requires i <= |chain|
  {
    if i == 0 then RevOf(doc) else Some(chain[i - 1].rev)
  }

  /** One linear chain from the first document: every write replaced exactly what the one before it left. */
  ghost predicate Linear(first: Doc, doc: Doc, chain: seq<Write>) {
    && (forall i :: 0 <= i < |chain| ==> chain[i].base == Found(first, chain, i) && chain[i].rev == After(chain[i].base))
    && doc == if chain == [] then first else Doc(chain[|chain| - 1].rev, chain[|chain| - 1].content)
  }

  /** The calls that returned true are exactly those in the chain, each there once. */
  ghost predicate Chained(chain: seq<Write>, done: map<nat, bool>) {
    && (forall i, j :: 0 <= i < j < |chain| ==> chain[i].task != chain[j].task)
    && (forall i :: 0 <= i < |chain| ==> chain[i].task in done && done[chain[i].task])
    && (forall k :: k in done && done[k] ==> InChain(chain, k))
  }

  ghost predicate InChain(chain: seq<Write>, k: nat) {
    exists i :: 0 <= i < |chain| && chain[i].task == k
  }

  ghost predicate WinnersChained(s: State) {
    Chained(s.chain, s.done) && s.tasks.Keys !! s.done.Keys
  }

  lemma LinearMore(first: Doc, doc: Doc, chain: seq<Write>, w: Write)
    requires Linear(first, doc, chain) && w.base == RevOf(doc) && w.rev == After(w.base)
    ensures Linear(first, Doc(w.rev, w.content), chain + [w])
  {
    var longer := chain + [w];
    forall i | 0 <= i < |longer| ensures longer[i].base == Found(first, longer, i) && longer[i].rev == After(longer[i].base) {
      if i < |chain| {
        var before := i - 1;
        assert longer[i] == chain[i] && (i > 0 ==> longer[before] == chain[before]);
        assert chain[i].base == Found(first, chain, i);
      } else {
        assert longer[i] == w;
      }
    }
  }

  lemma LinearNext(first: Doc, s: State, e: Event)
    requires Linear(first, s.doc, s.chain) && Enabled(s, e)
    ensures Linear(first, Next(s, e).doc, Next(s, e).chain)
  {
    if e.Resume? && s.tasks[e.k].Putting? && RevOf(s.doc) == s.tasks[e.k].base {
      var t := s.tasks[e.k];
      LinearMore(first, s.doc, s.chain, Write(e.k, t.base, After(t.base), t.content));
    }
  }

  lemma ChainedWin(chain: seq<Write>, done: map<nat, bool>, w: Write)
    requires Chained(chain, done) && w.task !in done
    ensures Chained(chain + [w], done[w.task := true])
  {
    var longer := chain + [w];
    forall k | InChain(chain, k) || k == w.task ensures InChain(longer, k) {
      var i := if k == w.task then |chain| else var i :| 0 <= i < |chain| && chain[i].task == k; i;
      assert longer[i].task == k;
    }
  }

  lemma WinnersNext(s: State, e: Event)
    requires WinnersChained(s) && Enabled(s, e)
    ensures WinnersChained(Next(s, e))
  {
    if e.Resume? && s.tasks[e.k].Putting? && RevOf(s.doc) == s.tasks[e.k].base {
      var t := s.tasks[e.k];
      ChainedWin(s.chain, s.done, Write(e.k, t.base, After(t.base), t.content));
    }
  }

  /** The content check of `initialize`: content there ends the call with false, none lets it go on to write. */
  lemma InitializeChecks(s: State, k: nat)
    requires Enabled(s, Resume(k)) && s.tasks[k].Initializing?
    ensures var t := Next(s, Resume(k));
            && t.doc == s.doc && t.chain == s.chain
            && if s.doc.Doc? then k !in t.tasks && t.done == s.done[k := false]
               else t.done == s.done && t.tasks == s.tasks[k := Reading(s.tasks[k].content)]
  {
  }

  /** A call starts with its own content and has done nothing yet. */
  lemma CallsStart(s: State, k: nat, content: Buffer)
    requires k !in s.tasks && k !in s.done
    ensures Next(s, CallSet(k, content)) == s.(tasks := s.tasks[k := Reading(content)])
    ensures Next(s, CallInitialize(k, content)) == s.(tasks := s.tasks[k := Initializing(content)])
  {
  }

  /** A call that returns false has changed nothing, in any state. */
  lemma LosersChangeNothing(s: State, k: nat)
    requires Enabled(s, Resume(k))
    ensures var s' := Next(s, Resume(k));
            k in s'.done && !s'.done[k] && k !in s.done ==> s'.doc == s.doc && s'.chain == s.chain
  {
  }

  lemma {:induction false} ChainRun(first: Doc, s: State, events: seq<Event>, t: State)
    requires Linear(first, s.doc, s.chain) && WinnersChained(s) && Runs(s, events, t)
    ensures Linear(first, t.doc, t.chain) && WinnersChained(t)
    decreases |events|
  {
    if events != [] {
      LinearNext(first, s, events[0]);
      WinnersNext(s, events[0]);
      ChainRun(first, Next(s, events[0]), events[1..], t);
    }
  }

  function Winners(done: map<nat, bool>): set<nat> {
    set k | k in done && done[k]
  }

  lemma {:induction false} CountWinners(chain: seq<Write>, winners: set<nat>)
    requires forall i, j :: 0 <= i < j < |chain| ==> chain[i].task != chain[j].task
    requires forall k :: k in winners <==> InChain(chain, k)
    ensures |winners| == |chain|
  {
    if chain == [] {
      assert winners == {};
    } else {
      var (n, front) := (|chain| - 1, chain[..|chain| - 1]);
      forall k ensures k in winners - {chain[n].task} <==> InChain(front, k) {
        if k in winners - {chain[n].task} {
          var i :| 0 <= i < |chain| && chain[i].task == k;
          assert front[i].task == k;
        }
      }
      CountWinners(front, winners - {chain[n].task});
      assert chain[n].task in winners;
    }
  }

  function Revision(doc: Doc): nat {
    if doc.Doc? then doc.rev else 0
  }

  /** Along a run the chain only grows, by one write for each revision, and while it does not the document stays. */
  lemma {:induction false} Progress(s: State, events: seq<Event>, t: State)
    requires Runs(s, events, t)
    ensures s.chain <= t.chain && Revision(t.doc) - Revision(s.doc) == |t.chain| - |s.chain|
    ensures if |t.chain| == |s.chain| then t.doc == s.doc else t.doc.Doc?
    decreases |events|
  {
    if events != [] {
      Progress(Next(s, events[0]), events[1..], t);
    }
  }

  /** As many calls return true as there are revision steps, under every interleaving. */
  lemma TrueResultsAreRevisions(first: Doc, events: seq<Event>, t: State)
    requires Runs(Start(first), events, t)
    ensures Linear(first, t.doc, t.chain)
    ensures |Winners(t.done)| == |t.chain| == Revision(t.doc) - Revision(first)
  {
    ChainRun(first, Start(first), events, t);
    CountWinners(t.chain, Winners(t.done));
    Progress(Start(first), events, t);
  }

  // ---- which writes win, and what they replace ----

  ghost predicate Apart(events: seq<Event>, k: nat) {
    forall e :: e in events ==> e.k != k
  }

  lemma {:induction false} TaskWaits(s: State, events: seq<Event>, t: State, k: nat)
    requires Runs(s, events, t) && Apart(events, k) && k in s.tasks
    ensures k in t.tasks && t.tasks[k] == s.tasks[k]
    decreases |events|
  {
    if events != [] {
      assert events[0] in events;
      TaskWaits(Next(s, events[0]), events[1..], t, k);
    }
  }

  /** A write wins exactly when no other write took effect since it read its revision, and then it is the next in the chain. */
  lemma WinsIffUndisturbed(s: State, k: nat, events: seq<Event>, t: State)
    requires Enabled(s, Resume(k)) && s.tasks[k].Reading? && Runs(Next(s, Resume(k)), events, t) && Apart(events, k)
    ensures Enabled(t, Resume(k))
    ensures var (u, base) := (Next(t, Resume(k)), RevOf(s.doc));
            && k in u.done && (u.done[k] <==> t.chain == s.chain)
            && u.chain == t.chain + if u.done[k] then [Write(k, base, After(base), s.tasks[k].content)] else []
  {
    var s' := Next(s, Resume(k));
    TaskWaits(s', events, t, k);
    Progress(s', events, t);
  }

  /**
   An `initialize` that found nothing creates the document exactly when no write took
   effect between its check and its revision read; else, if it wins, it replaces content.
   */
  lemma InitializeCreatesIff(s: State, k: nat, events: seq<Event>, t: State, more: seq<Event>, u: State)
    requires Enabled(s, Resume(k)) && s.tasks[k].Initializing? && s.doc.Absent?
    requires Runs(Next(s, Resume(k)), events, t) && Apart(events, k)
    requires Enabled(t, Resume(k)) && Runs(Next(t, Resume(k)), more, u) && Apart(more, k)
    ensures Enabled(u, Resume(k)) && u.tasks[k].Putting? && (u.tasks[k].base == None <==> t.chain == s.chain)
    ensures var v := Next(u, Resume(k));
            && k in v.done && (v.done[k] <==> u.chain == t.chain)
            && (v.done[k] ==> (u.doc.Doc? <==> t.chain != s.chain))
  {
    var s' := Next(s, Resume(k));
    TaskWaits(s', events, t, k);
    Progress(s', events, t);
    var t' := Next(t, Resume(k));
    TaskWaits(t', more, u, k);
    Progress(t', more, u);
    WinsIffUndisturbed(t, k, more, u);
  }

  /** Overlapped, `initialize` is not safe: data set after its check and before its revision read is replaced. */
  lemma InitializeOverwrites(initial: Buffer, user: Buffer)
    ensures exists events, t ::
      && Runs(Start(Absent), events, t) && t.done == map[1 := true, 0 := true]
      && t.chain == [Write(1, None, 1, user), Write(0, Some(1), 2, initial)] && t.doc == Doc(2, initial)
  {
    var s0 := Start(Absent);
    var s2 := State(Absent, map[0 := Reading(initial)], map[], []);
    var first := Write(1, None, 1, user);
    var s5 := State(Doc(1, user), map[0 := Reading(initial)], map[1 := true], [first]);
    var t := State(Doc(2, initial), map[], map[1 := true, 0 := true], [first, Write(0, Some(1), 2, initial)]);
    TwoSteps(s0, CallInitialize(0, initial), Resume(0), s2);
    var s3 := Next(s2, CallSet(1, user));
    assert s3.tasks == map[0 := Reading(initial), 1 := Reading(user)];
    TwoSteps(s2, CallSet(1, user), Resume(1), Next(s3, Resume(1)));
    var s4 := Next(s3, Resume(1));
    assert s4.tasks == map[0 := Reading(initial), 1 := Putting(user, None)];
    assert Next(s4, Resume(1)) == s5;
    TwoSteps(s4, Resume(1), Resume(0), Next(s5, Resume(0)));
    var s6 := Next(s5, Resume(0));
    assert Next(s6, Resume(0)) == t;
    assert [Resume(0)][1..] == [];
    assert Runs(s6, [Resume(0)], t);
    var (a, b, c) := ([CallInitialize(0, initial), Resume(0)], [CallSet(1, user), Resume(1)], [Resume(1), Resume(0)]);
    RunsThen(s0, a, s2, b, s4);
    RunsThen(s0, a + b, s4, c, s6);
    RunsThen(s0, a + b + c, s6, [Resume(0)], t);
  }

  lemma TwoSteps(s: State, e: Event, f: Event, t: State)
    requires Enabled(s, e) && Enabled(Next(s, e), f) && t == Next(Next(s, e), f)
    ensures Runs(s, [e, f], t)
  {
    assert [e, f][1..] == [f] && [f][1..] == [];
    assert Runs(Next(s, e), [f], t);
  }

  lemma {:induction false} RunsThen(s: State, events: seq<Event>, t: State, more: seq<Event>, u: State)
    requires Runs(s, events, t) && Runs(t, more, u)
    ensures Runs(s, events + more, u)
    decreases |events|
  {
    var all := events + more;
    if events == [] {
      assert all == more;
    } else {
      RunsThen(Next(s, events[0]), events[1..], t, more, u);
      assert all[0] == events[0] && all[1..] == events[1..] + more;
    }
  }
}
