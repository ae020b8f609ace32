/**
 The peer discovery crawl as a work-list machine: what one answer does to the mask,
 to the queue of devices still to ask and to the active peer list, and what any
 complete crawl therefore amounts to.
 */
module Crawls {
  import opened JsMaps
  import opened Locations

  datatype VaultDecl = VaultDecl(nickname: string, vaultId: string)

  /** The identity document a peer answers with; a device it names stands for its location key, which determines it. */
  datatype Decl = Decl(uniqueId: string, vaults: seq<VaultDecl>, activePeerList: seq<Location>)

  /** What asking a location yields: nothing usable, text the parser or the validator throws on, or a valid document. */
  datatype Answer = Silent | Garbled | Valid(decl: Decl)

  datatype Request = Request(location: Location, answer: Answer)

  type PeerList = JsMap<Location, Decl>

  /** Only a document of another device is stored and expanded. */
  predicate Expands(me: string, a: Answer) {
    a.Valid? && a.decl.uniqueId != me
  }

  function Elements<T>(s: seq<T>): set<T> {
    set x | x in s
  }

  /** The locations of a peer list that the mask does not hold; repeats within the list stay. */
  function Unmasked(locations: seq<Location>, mask: set<Location>): (r: seq<Location>)
    ensures Elements(r) == Elements(locations) - mask
  {
    if locations == [] then []
    else
      var rest := Unmasked(locations[1..], mask);
      assert Elements(locations) == {locations[0]} + Elements(locations[1..]);
      assert Elements([locations[0]] + rest) == {locations[0]} + Elements(rest);
      if locations[0] in mask then rest else [locations[0]] + rest
  }

  /** It works through the list in order, location by location. */
  lemma {:induction false} UnmaskedInOrder(one: seq<Location>, other: seq<Location>, mask: set<Location>)
    ensures Unmasked(one + other, mask) == Unmasked(one, mask) + Unmasked(other, mask)
  {
    if one == [] {
      assert one + other == other;
    } else {
      assert (one + other)[1..] == one[1..] + other;
      UnmaskedInOrder(one[1..], other, mask);
    }
  }

  lemma UnmaskedOne(l: Location, mask: set<Location>)
    ensures Unmasked([l], mask) == if l in mask then [] else [l]
  {
    assert Unmasked([l][1..], mask) == [];
  }

  /** A crawl in progress: the mask and the locations still to ask, innermost loop first. */
  datatype Crawl = Crawl(mask: set<Location>, work: seq<Location>)

  /** The answer for the head of the queue arrives. */
  function Step(me: string, c: Crawl, a: Answer): Crawl
    requires c.work != []
  {
    if Expands(me, a) then
      var found := Unmasked(a.decl.activePeerList, c.mask);
      Crawl(c.mask + Elements(found), found + c.work[1..])
    else Crawl(c.mask, c.work[1..])
  }

  /** `log` takes the crawl from `c` to `d`, one answer at a time. */
  ghost predicate Follows(me: string, c: Crawl, log: seq<Request>, d: Crawl)
    decreases |log|
  {
    if log == [] then c == d
    else c.work != [] && log[0].location == c.work[0] && Follows(me, Step(me, c, log[0].answer), log[1..], d)
  }

  /** What one answer does to the active peer list. */
  function Record(me: string, apl: PeerList, r: Request): (apl': PeerList)
    requires apl.Valid()
    ensures apl'.Valid() && KeepsSlots(apl.slots, apl'.slots)
  {
    if r.answer.Garbled? then Delete(apl, r.location)
    else if Expands(me, r.answer) then Set(apl, r.location, r.answer.decl)
    else apl
  }

  function Replay(me: string, apl: PeerList, log: seq<Request>): (apl': PeerList)
    requires apl.Valid()
    ensures apl'.Valid() && KeepsSlots(apl.slots, apl'.slots)
    decreases |log|
  {
    if log == [] then apl else Replay(me, Record(me, apl, log[0]), log[1..])
  }

  function Asked(log: seq<Request>): (r: seq<Location>)
    ensures |r| == |log|
    ensures forall i :: 0 <= i < |r| ==> r[i] == log[i].location
  {
    seq(|log|, i requires 0 <= i < |log| => log[i].location)
  }

  /** What each kind of answer does to the crawl and to the list. */
  lemma OneAnswer(me: string, c: Crawl, apl: PeerList, r: Request)
    requires c.work != [] && r.location == c.work[0] && apl.Valid()
    ensures var (c', apl') := (Step(me, c, r.answer), Record(me, apl, r));
            match r.answer
            case Silent => c' == Crawl(c.mask, c.work[1..]) && apl' == apl
            case Garbled => c' == Crawl(c.mask, c.work[1..]) && apl'.View() == apl.View() - {r.location}
            case Valid(decl) =>
              if decl.uniqueId == me then c' == Crawl(c.mask, c.work[1..]) && apl' == apl
              else
                && c'.mask == c.mask + Elements(decl.activePeerList)
                && c'.work == Unmasked(decl.activePeerList, c.mask) + c.work[1..]
                && apl'.View() == apl.View()[r.location := decl]
  {
  }

  // ---- composing runs ----

  lemma {:induction false} FollowsThen(me: string, c: Crawl, log: seq<Request>, d: Crawl, log': seq<Request>, e: Crawl)
    requires Follows(me, c, log, d) && Follows(me, d, log', e)
    ensures Follows(me, c, log + log', e)
    decreases |log|
  {
    if log == [] {
      assert log + log' == log';
    } else {
      assert (log + log')[1..] == log[1..] + log';
      FollowsThen(me, Step(me, c, log[0].answer), log[1..], d, log', e);
    }
  }

  lemma FollowsOne(me: string, c: Crawl, log: seq<Request>, d: Crawl, r: Request)
    requires Follows(me, c, log, d) && d.work != [] && d.work[0] == r.location
    ensures Follows(me, c, log + [r], Step(me, d, r.answer))
  {
    assert [r][1..] == [];
    FollowsThen(me, c, log, d, [r], Step(me, d, r.answer));
  }

  lemma {:induction false} ReplayThen(me: string, apl: PeerList, log: seq<Request>, log': seq<Request>)
    requires apl.Valid()
    ensures Replay(me, apl, log + log') == Replay(me, Replay(me, apl, log), log')
    decreases |log|
  {
    if log == [] {
      assert log + log' == log';
    } else {
      assert (log + log')[1..] == log[1..] + log';
      ReplayThen(me, Record(me, apl, log[0]), log[1..], log');
    }
  }

  // ---- what every crawl keeps, whatever the network answers ----

  /** Asked or queued is exactly the root and what was marked since; every list handed out is marked. */
  ghost predicate Marked(me: string, before: set<Location>, root: Location, log: seq<Request>, c: Crawl) {
    && before <= c.mask
    && Elements(Asked(log) + c.work) == {root} + (c.mask - before)
    && forall r :: r in log && Expands(me, r.answer) ==> Elements(r.answer.decl.activePeerList) <= c.mask
  }

  lemma MarkedStep(me: string, before: set<Location>, root: Location, log: seq<Request>, c: Crawl, r: Request)
    requires Marked(me, before, root, log, c) && c.work != [] && r.location == c.work[0]
    ensures Marked(me, before, root, log + [r], Step(me, c, r.answer))
  {
    var c' := Step(me, c, r.answer);
    var found := if Expands(me, r.answer) then Unmasked(r.answer.decl.activePeerList, c.mask) else [];
    assert c'.work == found + c.work[1..] && c'.mask == c.mask + Elements(found);
    assert Asked(log + [r]) == Asked(log) + [r.location];
    HeadMoves(Asked(log), c.work, found);
    Grown({root}, before, c.mask, Elements(found));
  }

  /** Moving the head of the queue to those asked and putting more in its place adds just that. */
  lemma HeadMoves<T>(asked: seq<T>, work: seq<T>, found: seq<T>)
    requires work != []
    ensures Elements(asked + [work[0]] + (found + work[1..])) == Elements(asked + work) + Elements(found)
  {
    assert asked + work == asked + [work[0]] + work[1..];
  }

  lemma Grown<T>(root: set<T>, before: set<T>, mask: set<T>, found: set<T>)
    requires found !! mask && before <= mask
    ensures root + (mask + found - before) == root + (mask - before) + found
  {
  }

  lemma {:induction false} MarkedRun(
    me: string, before: set<Location>, root: Location, log: seq<Request>, c: Crawl, more: seq<Request>, d: Crawl)
    requires Marked(me, before, root, log, c) && Follows(me, c, more, d)
    ensures Marked(me, before, root, log + more, d)
    decreases |more|
  {
    if more == [] {
      assert log + more == log;
    } else {
      var (longer, rest) := (log + [more[0]], more[1..]);
      assert longer + rest == log + more;
      MarkedStep(me, before, root, log, c, more[0]);
      MarkedRun(me, before, root, longer, Step(me, c, more[0].answer), rest, d);
    }
  }

  /** A finished crawl asked the root and exactly the locations it marked, and marked every list it was handed. */
  lemma CrawlMarks(me: string, before: set<Location>, root: Location, log: seq<Request>, after: set<Location>)
    requires Follows(me, Crawl(before, [root]), log, Crawl(after, []))
    ensures before <= after
    ensures Elements(Asked(log)) == {root} + (after - before)
    ensures forall r :: r in log && Expands(me, r.answer) ==> Elements(r.answer.decl.activePeerList) <= after
  {
    assert Asked([]) + [root] == [root];
    MarkedRun(me, before, root, [], Crawl(before, [root]), log, Crawl(after, []));
    assert [] + log == log;
    assert Asked(log) + [] == Asked(log);
  }

  // ---- the number of requests ----

  /** Along the crawl no answer lists a location twice that is not masked yet. */
  ghost predicate FreshLists(me: string, c: Crawl, log: seq<Request>)
    decreases |log|
  {
    log != [] && c.work != [] ==>
      && (Expands(me, log[0].answer) ==> NoRepeats(Unmasked(log[0].answer.decl.activePeerList, c.mask)))
      && FreshLists(me, Step(me, c, log[0].answer), log[1..])
  }

  ghost predicate ListsDistinct(log: seq<Request>) {
    forall r :: r in log && r.answer.Valid? ==> NoRepeats(r.answer.decl.activePeerList)
  }

  lemma {:induction false} UnmaskedDistinct(locations: seq<Location>, mask: set<Location>)
    requires NoRepeats(locations)
    ensures NoRepeats(Unmasked(locations, mask))
  {
    if locations != [] {
      var (l, rest) := (locations[0], locations[1..]);
      UnmaskedDistinct(rest, mask);
      assert l !in rest && l !in Elements(Unmasked(rest, mask));
    }
  }

  lemma {:induction false} DistinctIsFresh(me: string, c: Crawl, log: seq<Request>)
    requires ListsDistinct(log)
    ensures FreshLists(me, c, log)
    decreases |log|
  {
    if log != [] && c.work != [] {
      assert log[0] in log;
      if Expands(me, log[0].answer) {
        UnmaskedDistinct(log[0].answer.decl.activePeerList, c.mask);
      }
      DistinctIsFresh(me, Step(me, c, log[0].answer), log[1..]);
    }
  }

  /** A sequence has at least as many places as elements, and as many exactly without repeats. */
  lemma {:induction false} ElementCount<T>(s: seq<T>)
    ensures |Elements(s)| <= |s| && (|Elements(s)| == |s| <==> NoRepeats(s))
  {
    if s == [] {
      assert Elements(s) == {};
    } else {
      var (x, rest) := (s[0], s[1..]);
      ElementCount(rest);
      assert Elements(s) == {x} + Elements(rest);
      if x in rest {
        var i :| 0 <= i < |rest| && rest[i] == x;
        assert s[0] == s[i + 1];
        assert Elements(s) == Elements(rest);
      } else {
        forall i, j | NoRepeats(s) && 0 <= i < j < |rest| ensures rest[i] != rest[j] {
          assert s[i + 1] == rest[i] && s[j + 1] == rest[j];
        }
      }
    }
  }

  lemma StepCounts(me: string, c: Crawl, a: Answer)
    requires c.work != []
    ensures var (c', found) := (Step(me, c, a), if Expands(me, a) then Unmasked(a.decl.activePeerList, c.mask) else []);
            && c.mask <= c'.mask
            && 1 + |c'.work| - |c.work| >= |c'.mask| - |c.mask|
            && (1 + |c'.work| - |c.work| == |c'.mask| - |c.mask| <==> NoRepeats(found))
  {
    var found := if Expands(me, a) then Unmasked(a.decl.activePeerList, c.mask) else [];
    ElementCount(found);
    assert c.mask !! Elements(found);
  }

  /** Requests and queue outgrow the mask by exactly the repeats of unmasked locations. */
  lemma {:induction false} RunCounts(me: string, c: Crawl, log: seq<Request>, d: Crawl)
    requires Follows(me, c, log, d)
    ensures c.mask <= d.mask
    ensures |log| + |d.work| - |c.work| >= |d.mask| - |c.mask|
    ensures |log| + |d.work| - |c.work| == |d.mask| - |c.mask| <==> FreshLists(me, c, log)
    decreases |log|
  {
    if log != [] {
      StepCounts(me, c, log[0].answer);
      RunCounts(me, Step(me, c, log[0].answer), log[1..], d);
    }
  }

  /**
   A finished crawl makes at least one request for the root and one for each location it
   marks, and no more exactly when no answer repeats a location that is not masked yet;
   then each is asked once, the root once more if it was marked.
   */
  lemma CrawlRequests(me: string, before: set<Location>, root: Location, log: seq<Request>, after: set<Location>)
    requires Follows(me, Crawl(before, [root]), log, Crawl(after, []))
    ensures before <= after && |log| >= 1 + |after - before|
    ensures |log| == 1 + |after - before| <==> FreshLists(me, Crawl(before, [root]), log)
    ensures multiset(Asked(log)) == multiset{root} + multiset(after - before) <==> FreshLists(me, Crawl(before, [root]), log)
  {
    RunCounts(me, Crawl(before, [root]), log, Crawl(after, []));
    assert after == before + (after - before);
    assert |multiset(Asked(log))| == |Asked(log)| && |multiset(after - before)| == |after - before|;
    if FreshLists(me, Crawl(before, [root]), log) {
      CountedRun(me, before, root, [], Crawl(before, [root]), log, Crawl(after, []));
      assert [] + log == log;
    }
  }

  ghost predicate Counted(before: set<Location>, root: Location, log: seq<Request>, c: Crawl) {
    before <= c.mask && multiset(Asked(log)) + multiset(c.work) == multiset{root} + multiset(c.mask - before)
  }

  lemma {:induction false} DistinctMultiset<T>(s: seq<T>)
    requires NoRepeats(s)
    ensures multiset(s) == multiset(Elements(s))
  {
    if s != [] {
      var (x, rest) := (s[0], s[1..]);
      DistinctMultiset(rest);
      assert s == [x] + rest && x !in rest;
      assert Elements(s) == {x} + Elements(rest);
      DisjointUnion({x}, Elements(rest));
    }
  }

  lemma CountedStep(me: string, before: set<Location>, root: Location, log: seq<Request>, c: Crawl, r: Request)
    requires Counted(before, root, log, c) && c.work != [] && r.location == c.work[0]
    requires Expands(me, r.answer) ==> NoRepeats(Unmasked(r.answer.decl.activePeerList, c.mask))
    ensures Counted(before, root, log + [r], Step(me, c, r.answer))
  {
    var (c', tail) := (Step(me, c, r.answer), c.work[1..]);
    assert Asked(log + [r]) == Asked(log) + [r.location];
    assert c.work == [r.location] + tail;
    if Expands(me, r.answer) {
      var found := Unmasked(r.answer.decl.activePeerList, c.mask);
      DistinctMultiset(found);
      assert c'.mask - before == (c.mask - before) + Elements(found);
      DisjointUnion(c.mask - before, Elements(found));
      Rebalance(multiset(Asked(log)), multiset{r.location}, multiset(tail), multiset(found),
                multiset{root}, multiset(c.mask - before));
    }
  }

  lemma DisjointUnion<T>(a: set<T>, b: set<T>)
    requires a !! b
    ensures multiset(a + b) == multiset(a) + multiset(b)
  {
  }

  lemma Rebalance<T>(
    asked: multiset<T>, head: multiset<T>, tail: multiset<T>, added: multiset<T>, root: multiset<T>, marked: multiset<T>)
    requires asked + (head + tail) == root + marked
    ensures (asked + head) + (added + tail) == root + (marked + added)
  {
    assert (asked + head) + (added + tail) == asked + (head + tail) + added;
  }

  lemma {:induction false} CountedRun(
    me: string, before: set<Location>, root: Location, log: seq<Request>, c: Crawl, more: seq<Request>, d: Crawl)
    requires Counted(before, root, log, c) && Follows(me, c, more, d) && FreshLists(me, c, more)
    ensures Counted(before, root, log + more, d)
    decreases |more|
  {
    if more == [] {
      assert log + more == log;
    } else {
      var (longer, rest) := (log + [more[0]], more[1..]);
      assert longer + rest == log + more;
      CountedStep(me, before, root, log, c, more[0]);
      CountedRun(me, before, root, longer, Step(me, c, more[0].answer), rest, d);
    }
  }

  // ---- a fixed network ----

  function AnswerOf(answers: map<Location, Answer>, l: Location): Answer {
    if l in answers then answers[l] else Silent
  }

  ghost predicate Conforms(answers: map<Location, Answer>, log: seq<Request>) {
    forall r :: r in log ==> r.answer == AnswerOf(answers, r.location)
  }

  function Neighbours(me: string, answers: map<Location, Answer>, l: Location): set<Location> {
    var a := AnswerOf(answers, l);
    if Expands(me, a) then Elements(a.decl.activePeerList) else {}
  }

  /** Every location the network's peer lists name. */
  function Mentioned(answers: map<Location, Answer>): (universe: set<Location>)
    ensures forall l :: AnswerOf(answers, l).Valid? ==> Elements(AnswerOf(answers, l).decl.activePeerList) <= universe
  {
    set l: Location, k: Location | l in answers && answers[l].Valid? && k in answers[l].decl.activePeerList :: k
  }

  /** On a fixed network every answer brings a crawl nearer to its end: it marks something, or the queue gets shorter. */
  lemma StepShrinks(me: string, answers: map<Location, Answer>, c: Crawl)
    requires c.work != []
    ensures var (c', universe) := (Step(me, c, AnswerOf(answers, c.work[0])), Mentioned(answers));
            || |universe - c'.mask| < |universe - c.mask|
            || (c'.mask == c.mask && |c'.work| < |c.work|)
  {
    var (a, universe) := (AnswerOf(answers, c.work[0]), Mentioned(answers));
    if Expands(me, a) {
      var found := Unmasked(a.decl.activePeerList, c.mask);
      if found == [] {
        assert c.mask + Elements(found) == c.mask;
      } else {
        assert found[0] in Elements(found);
        StrictSubset(universe - (c.mask + Elements(found)), universe - c.mask);
      }
    }
  }

  lemma SubsetSize<T>(a: set<T>, b: set<T>)
    requires a <= b
    ensures |a| <= |b|
  {
    assert b == a + (b - a);
  }

  lemma StrictSubset<T>(a: set<T>, b: set<T>)
    requires a < b
    ensures |a| < |b|
  {
    assert b == a + (b - a);
    assert b - a != {};
  }

  /** `p` walks peer lists from `a` to `b` in one or more hops, never landing on an avoided location. */
  ghost predicate IsPath(
    me: string, answers: map<Location, Answer>, avoid: set<Location>, a: Location, p: seq<Location>, b: Location)
  {
    && |p| > 1 && p[0] == a && p[|p| - 1] == b
    && forall i :: 0 < i < |p| ==> p[i] !in avoid && p[i] in Neighbours(me, answers, p[i - 1])
  }

  ghost predicate Reaches(me: string, answers: map<Location, Answer>, avoid: set<Location>, a: Location, b: Location) {
    exists p :: IsPath(me, answers, avoid, a, p, b)
  }

  lemma ReachesNext(
    me: string, answers: map<Location, Answer>, avoid: set<Location>, a: Location, b: Location, c: Location)
    requires a == b || Reaches(me, answers, avoid, a, b)
    requires c in Neighbours(me, answers, b) && c !in avoid
    ensures Reaches(me, answers, avoid, a, c)
  {
    if a == b {
      assert IsPath(me, answers, avoid, a, [a, c], c);
    } else {
      var p :| IsPath(me, answers, avoid, a, p, b);
      assert IsPath(me, answers, avoid, a, p + [c], c);
    }
  }

  /** A set that holds the first hops and is closed under the rest holds everything reached. */
  lemma {:induction false} PathStays(
    me: string, answers: map<Location, Answer>, avoid: set<Location>, a: Location, p: seq<Location>, b: Location,
    closed: set<Location>)
    requires IsPath(me, answers, avoid, a, p, b) && avoid <= closed
    requires forall l :: l == a || l in closed - avoid ==> Neighbours(me, answers, l) <= closed
    ensures b in closed
    decreases |p|
  {
    var n := |p| - 1;
    if n > 1 {
      assert IsPath(me, answers, avoid, a, p[..n], p[n - 1]);
      PathStays(me, answers, avoid, a, p[..n], p[n - 1], closed);
    }
  }

  ghost predicate OnlyReached(
    me: string, answers: map<Location, Answer>, before: set<Location>, root: Location, mask: set<Location>)
  {
    forall l :: l in mask - before ==> Reaches(me, answers, before, root, l)
  }

  lemma {:induction false} OnlyReachedRun(
    me: string, answers: map<Location, Answer>, before: set<Location>, root: Location,
    log: seq<Request>, c: Crawl, more: seq<Request>, d: Crawl)
    requires Marked(me, before, root, log, c) && Follows(me, c, more, d) && Conforms(answers, more)
    requires OnlyReached(me, answers, before, root, c.mask)
    ensures OnlyReached(me, answers, before, root, d.mask)
    decreases |more|
  {
    if more != [] {
      var r := more[0];
      var c' := Step(me, c, r.answer);
      assert (Asked(log) + c.work)[|log|] == r.location;
      assert r.location in Elements(Asked(log) + c.work);
      forall l | l in c'.mask - before ensures Reaches(me, answers, before, root, l) {
        if l !in c.mask {
          ReachesNext(me, answers, before, root, r.location, l);
        }
      }
      MarkedStep(me, before, root, log, c, r);
      OnlyReachedRun(me, answers, before, root, log + [r], c', more[1..], d);
    }
  }

  /**
   On a fixed network a crawl marks exactly what the root reaches without landing on
   a location already marked, although all siblings are marked before any is explored.
   */
  lemma CrawlReaches(
    me: string, answers: map<Location, Answer>, before: set<Location>, root: Location, log: seq<Request>,
    after: set<Location>)
    requires Follows(me, Crawl(before, [root]), log, Crawl(after, [])) && Conforms(answers, log)
    ensures forall l :: l in after <==> l in before || Reaches(me, answers, before, root, l)
  {
    CrawlMarks(me, before, root, log, after);
    assert Asked([]) + [root] == [root];
    OnlyReachedRun(me, answers, before, root, [], Crawl(before, [root]), log, Crawl(after, []));
    forall l | l == root || l in after - before ensures Neighbours(me, answers, l) <= after {
      assert l in Asked(log);
      var i :| 0 <= i < |log| && Asked(log)[i] == l;
      assert log[i] in log;
    }
    forall l | Reaches(me, answers, before, root, l) ensures l in after {
      var p :| IsPath(me, answers, before, root, p, l);
      PathStays(me, answers, before, root, p, l, after);
    }
  }

  /** The old list with every asked location brought up to date: documents set, garbled ones dropped, silent ones kept. */
  ghost function Overlay(
    me: string, answers: map<Location, Answer>, apl: map<Location, Decl>, asked: set<Location>): map<Location, Decl>
  {
    map l | l in apl.Keys + asked && (l in asked ==> !AnswerOf(answers, l).Garbled?)
              && (l in apl || Expands(me, AnswerOf(answers, l)))
      :: if l in asked && Expands(me, AnswerOf(answers, l)) then AnswerOf(answers, l).decl else apl[l]
  }

  lemma {:induction false} ReplayIsOverlay(me: string, answers: map<Location, Answer>, apl: PeerList, log: seq<Request>)
    requires apl.Valid() && Conforms(answers, log)
    ensures Replay(me, apl, log).View() == Overlay(me, answers, apl.View(), Elements(Asked(log)))
    decreases |log|
  {
    if log == [] {
      assert Elements(Asked(log)) == {};
    } else {
      var (r, rest) := (log[0], log[1..]);
      assert r in log;
      assert Asked(log) == [r.location] + Asked(rest);
      assert Elements(Asked(log)) == {r.location} + Elements(Asked(rest));
      RecordIsOverlay(me, answers, apl, r);
      ReplayIsOverlay(me, answers, Record(me, apl, r), rest);
      OverlayThen(me, answers, apl.View(), {r.location}, Elements(Asked(rest)));
    }
  }

  lemma RecordIsOverlay(me: string, answers: map<Location, Answer>, apl: PeerList, r: Request)
    requires apl.Valid() && r.answer == AnswerOf(answers, r.location)
    ensures Record(me, apl, r).View() == Overlay(me, answers, apl.View(), {r.location})
  {
  }

  lemma OverlayThen(
    me: string, answers: map<Location, Answer>, apl: map<Location, Decl>, s: set<Location>, t: set<Location>)
    ensures Overlay(me, answers, Overlay(me, answers, apl, s), t) == Overlay(me, answers, apl, s + t)
  {
  }

  lemma OverlayNothing(me: string, answers: map<Location, Answer>, apl: map<Location, Decl>)
    ensures Overlay(me, answers, apl, {}) == apl
  {
  }

  /** The whole effect of a crawl from an empty mask on a fixed network. */
  lemma CrawlExact(
    me: string, answers: map<Location, Answer>, apl: PeerList, root: Location, log: seq<Request>, after: set<Location>)
    requires apl.Valid() && Follows(me, Crawl({}, [root]), log, Crawl(after, [])) && Conforms(answers, log)
    ensures Replay(me, apl, log).View() == Overlay(me, answers, apl.View(), {root} + after)
    ensures forall l :: l in after <==> Reaches(me, answers, {}, root, l)
  {
    CrawlMarks(me, {}, root, log, after);
    assert after - {} == after;
    CrawlReaches(me, answers, {}, root, log, after);
    ReplayIsOverlay(me, answers, apl, log);
  }
}
