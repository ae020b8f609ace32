/**
 The admin record: one stored document listing the vaults ever created, extended by a
 read followed by a put that names the revision it read.
 */
module Admin {
  import opened Outcomes
  import opened Vaults

  /** The stored document with its revision, or none yet. */
  datatype Doc = Missing | Doc(rev: nat, records: seq<Record>)

  /** A `recordVaultCreation` in flight: about to read, or with a put on its way. */
  datatype Task = Started(record: Record) | Read(record: Record, rev: nat, seen: seq<Record>)

  function Ids(records: seq<Record>): set<string> {
    set r | r in records :: r.vaultId
  }

  /** The read: rejected when there is no document, done when the id is listed, else a put goes out. */
  function AfterRead(doc: Doc, record: Record): Option<Task> {
    if doc.Missing? || record.vaultId in Ids(doc.records) then None
    else Some(Read(record, doc.rev, doc.records))
  }

  /** The put lands: it replaces exactly the revision it names. */
  function AfterPut(doc: Doc, t: Task): (Doc, bool)
    requires t.Read?
  {
    if doc.Doc? && doc.rev == t.rev then (Doc(doc.rev + 1, t.seen + [t.record]), true) else (doc, false)
  }

  /** `initialize`: an empty list unless there is a document. */
  function Initialized(doc: Doc): Doc {
    if doc.Missing? then Doc(1, []) else doc
  }

  /** The document there is stays; only a missing one becomes an empty list. */
  lemma InitializedKeeps(doc: Doc)
    ensures Initialized(doc).Doc? && (doc.Doc? ==> Initialized(doc) == doc)
    ensures doc.Missing? ==> Initialized(doc).records == []
  {
  }

  /** A put goes out exactly for a record the stored list does not name, based on all that was read. */
  lemma ReadPrepares(doc: Doc, record: Record)
    ensures var put := AfterRead(doc, record);
            && (put.Some? <==> doc.Doc? && forall i :: 0 <= i < |doc.records| ==> doc.records[i].vaultId != record.vaultId)
            && (put.Some? ==> put.value == Read(record, doc.rev, doc.records))
  {
    if doc.Doc? && record.vaultId in Ids(doc.records) {
      var r :| r in doc.records && r.vaultId == record.vaultId;
    }
    if doc.Doc? {
      assert forall i :: 0 <= i < |doc.records| ==> doc.records[i] in doc.records;
    }
  }

  /**
   A put that names another revision than the stored one changes nothing and fails; the
   right one stores what was read and the record.
   */
  lemma StalePutLoses(doc: Doc, t: Task)
    requires t.Read?
    ensures AfterPut(doc, t) ==
            if doc.Doc? && doc.rev == t.rev then (Doc(t.rev + 1, t.seen + [t.record]), true) else (doc, false)
  {
  }

  class AdminService {
    var doc: Doc

    constructor ()
      ensures doc == Missing
    {
      doc := Missing;
    }

    method Initialize()
      modifies this
      ensures doc == Initialized(old(doc))
    {
      if doc.Missing? {
        doc := Doc(1, []);
      }
    }

    method RecordRead(record: Record) returns (t: Option<Task>)
      ensures t == AfterRead(doc, record)
    {
      if doc.Missing? {
        return None;
      }
      var i := 0;
      while i < |doc.records|
        invariant i <= |doc.records|
        invariant forall j :: 0 <= j < i ==> doc.records[j].vaultId != record.vaultId
      {
        if doc.records[i].vaultId == record.vaultId {
          return None;
        }
        i := i + 1;
      }
      t := Some(Read(record, doc.rev, doc.records));
    }

    /** Without a document there is an error to log and nothing to load. */
    method GetAllVaultRecords() returns (records: seq<Record>)
      ensures records == if doc.Doc? then doc.records else []
    {
      records := if doc.Doc? then doc.records else [];
    }

    method RecordPut(t: Task) returns (ok: bool)
      requires t.Read?
      modifies this
      ensures (doc, ok) == AfterPut(old(doc), t)
    {
      ok := doc.Doc? && doc.rev == t.rev;
      if ok {
        doc := Doc(doc.rev + 1, t.seen + [t.record]);
      }
    }
  }

  // ---- any number of recordings at once ----

  /** Tasks in flight carry a number each; `won` lists the records whose put succeeded, in that order. */
  datatype State = State(doc: Doc, tasks: map<nat, Task>, won: seq<Record>)

  datatype Event = Start(k: nat, record: Record) | GetLands(k: nat) | PutLands(k: nat)

  predicate Enabled(s: State, e: Event) {
    match e
    case Start(k, _) => k !in s.tasks
    case GetLands(k) => k in s.tasks && s.tasks[k].Started?
    case PutLands(k) => k in s.tasks && s.tasks[k].Read?
  }

  function Next(s: State, e: Event): State
    requires Enabled(s, e)
  {
    match e
    case Start(k, record) => s.(tasks := s.tasks[k := Started(record)])
    case GetLands(k) =>
      var put := AfterRead(s.doc, s.tasks[k].record);
      s.(tasks := if put.None? then s.tasks - {k} else s.tasks[k := put.value])
    case PutLands(k) =>
      var (doc, ok) := AfterPut(s.doc, s.tasks[k]);
      State(doc, s.tasks - {k}, s.won + if ok then [s.tasks[k].record] else [])
  }

  /** A recording ends with its read or with its put, and touches no other. */
  lemma TaskSteps(s: State, k: nat)
    requires k in s.tasks
    ensures s.tasks[k].Started? ==>
              var (t, put) := (Next(s, GetLands(k)), AfterRead(s.doc, s.tasks[k].record));
              && t.doc == s.doc && t.won == s.won
              && t.tasks == if put.Some? then s.tasks[k := put.value] else s.tasks - {k}
    ensures s.tasks[k].Read? ==> Next(s, PutLands(k)).tasks == s.tasks - {k}
  {
  }

  ghost predicate Runs(s: State, events: seq<Event>, t: State)
    decreases |events|
  {
    if events == [] then s == t else Enabled(s, events[0]) && Runs(Next(s, events[0]), events[1..], t)
  }

  /** Along a run of an initialized record the winning puts only grow in number, one for each revision. */
  lemma {:induction false} Progress(s: State, events: seq<Event>, t: State)
    requires s.doc.Doc? && Runs(s, events, t)
    ensures t.doc.Doc? && s.won <= t.won && t.doc.rev - s.doc.rev == |t.won| - |s.won|
    ensures t.won == s.won ==> t.doc == s.doc
    decreases |events|
  {
    if events != [] {
      Progress(Next(s, events[0]), events[1..], t);
    }
  }

  ghost predicate Apart(events: seq<Event>, k: nat) {
    forall e :: e in events ==> e.k != k
  }

  lemma {:induction false} TaskWaits(s: State, events: seq<Event>, t: State, k: nat)
    requires Runs(s, events, t) && Apart(events, k) && k in s.tasks
    ensures k in t.tasks && t.tasks[k] == s.tasks[k]
    decreases |events|
  {
    if events != [] {
      assert events[0] in events;
      TaskWaits(Next(s, events[0]), events[1..], t, k);
    }
  }

  /** A put wins exactly when no other put won since its read; a losing one leaves the record as it was. */
  lemma WinsIffUndisturbed(s: State, k: nat, events: seq<Event>, t: State)
    requires Enabled(s, GetLands(k)) && AfterRead(s.doc, s.tasks[k].record).Some?
    requires Runs(Next(s, GetLands(k)), events, t) && Apart(events, k)
    ensures Enabled(t, PutLands(k))
    ensures var (u, record) := (Next(t, PutLands(k)), s.tasks[k].record);
            if t.won == s.won then u.won == s.won + [record] && u.doc == Doc(s.doc.rev + 1, s.doc.records + [record])
            else u.won == t.won && u.doc == t.doc
  {
    var s' := Next(s, GetLands(k));
    TaskWaits(s', events, t, k);
    Progress(s', events, t);
    StalePutLoses(t.doc, t.tasks[k]);
  }

  ghost predicate DistinctIds(records: seq<Record>) {
    forall i, j :: 0 <= i < j < |records| ==> records[i].vaultId != records[j].vaultId
  }

  /** A put that can still win carries the current list and a record that list does not hold. */
  ghost predicate Consistent(s: State) {
    && s.doc.Doc? && DistinctIds(s.doc.records)
    && forall k :: k in s.tasks && s.tasks[k].Read? ==>
         && s.tasks[k].rev <= s.doc.rev
         && (s.tasks[k].rev == s.doc.rev ==>
               s.tasks[k].seen == s.doc.records && s.tasks[k].record.vaultId !in Ids(s.doc.records))
  }

  /** From `s` to `t` the list only grew, by exactly the records whose put won, one for each revision. */
  ghost predicate Extends(s: State, t: State) {
    && s.doc.Doc? && t.doc.Doc? && s.won <= t.won
    && t.doc.records == s.doc.records + t.won[|s.won|..]
    && t.doc.rev - s.doc.rev == |t.won| - |s.won|
  }

  lemma ExtendsThen(s: State, t: State, u: State)
    requires Extends(s, t) && Extends(t, u)
    ensures Extends(s, u)
  {
    assert u.won[|s.won|..] == t.won[|s.won|..] + u.won[|t.won|..];
  }

  lemma ConsistentNext(s: State, e: Event)
    requires Consistent(s) && Enabled(s, e)
    ensures Consistent(Next(s, e)) && Extends(s, Next(s, e))
  {
    if e.PutLands? && s.tasks[e.k].rev == s.doc.rev {
      var (records, r) := (s.doc.records, s.tasks[e.k].record);
      forall i | 0 <= i < |records| ensures records[i].vaultId != r.vaultId {
        assert records[i] in records;
      }
      assert (s.won + [r])[|s.won|..] == [r];
    }
  }

  /** Under every interleaving: append-only, distinct ids, and exactly the winning puts make it into the list. */
  lemma {:induction false} AdminRun(s: State, events: seq<Event>, t: State)
    requires Consistent(s) && Runs(s, events, t)
    ensures Consistent(t) && Extends(s, t)
    decreases |events|
  {
    if events != [] {
      ConsistentNext(s, events[0]);
      AdminRun(Next(s, events[0]), events[1..], t);
      ExtendsThen(s, Next(s, events[0]), t);
    }
  }
}
