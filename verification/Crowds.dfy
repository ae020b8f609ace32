/**
 Any number of crawls at once: each has its own mask and queue, all write one active
 peer list, and the answers arrive in any order.
 */
module Crowds {
  import opened JsMaps
  import opened Locations
  import opened Crawls

  datatype Crowd = Crowd(crawls: seq<Crawl>, apl: PeerList)

  predicate Waiting(g: Crowd, i: nat) {
    i < |g.crawls| && g.crawls[i].work != []
  }

  function Served(answers: map<Location, Answer>, g: Crowd, i: nat): Request
    requires Waiting(g, i)
  {
    var l := g.crawls[i].work[0];
    Request(l, AnswerOf(answers, l))
  }

  /** The answer crawl `i` waits for arrives. */
  function Serve(me: string, answers: map<Location, Answer>, g: Crowd, i: nat): Crowd
    requires Waiting(g, i) && g.apl.Valid()
  {
    var r := Served(answers, g, i);
    Crowd(g.crawls[i := Step(me, g.crawls[i], r.answer)], Record(me, g.apl, r))
  }

  /** `schedule` names, answer by answer, the crawl that is served. */
  ghost predicate Runs(me: string, answers: map<Location, Answer>, g: Crowd, schedule: seq<nat>, h: Crowd)
    requires g.apl.Valid()
    decreases |schedule|
  {
    if schedule == [] then g == h
    else Waiting(g, schedule[0]) && Runs(me, answers, Serve(me, answers, g, schedule[0]), schedule[1..], h)
  }

  function Start(apl: PeerList, roots: seq<Location>): Crowd {
    Crowd(seq(|roots|, i requires 0 <= i < |roots| => Crawl({}, [roots[i]])), apl)
  }

  predicate Finished(g: Crowd) {
    forall i :: 0 <= i < |g.crawls| ==> g.crawls[i].work == []
  }

  // ---- what every interleaving keeps ----

  ghost function AskedByAny(logs: seq<seq<Request>>): set<Location> {
    set i, r | 0 <= i < |logs| && r in logs[i] :: r.location
  }

  lemma AskedByAnyMore(logs: seq<seq<Request>>, i: nat, r: Request)
    requires i < |logs|
    ensures AskedByAny(logs[i := logs[i] + [r]]) == AskedByAny(logs) + {r.location}
  {
    var logs' := logs[i := logs[i] + [r]];
    assert r in logs'[i];
    forall l | l in AskedByAny(logs) ensures l in AskedByAny(logs') {
      var k, q: Request :| 0 <= k < |logs| && q in logs[k] && q.location == l;
      assert q in logs'[k];
    }
    forall l | l in AskedByAny(logs') ensures l in AskedByAny(logs) + {r.location} {
      var k, q: Request :| 0 <= k < |logs'| && q in logs'[k] && q.location == l;
      assert q in logs[k] || q == r;
    }
  }

  /** One crawl of a crowd: its log so far, and how often it was served. */
  ghost predicate Tracked(me: string, answers: map<Location, Answer>, root: Location, log: seq<Request>, served: nat, c: Crawl) {
    && Follows(me, Crawl({}, [root]), log, c)
    && Conforms(answers, log)
    && served == |log|
  }

  /** `logs[i]` is what crawl `i` has seen so far; the shared list reflects all of them. */
  ghost predicate Tracks(
    me: string, answers: map<Location, Answer>, apl: PeerList, roots: seq<Location>,
    logs: seq<seq<Request>>, served: seq<nat>, g: Crowd)
  {
    && |logs| == |roots| == |g.crawls| && g.apl.Valid()
    && g.apl.View() == Overlay(me, answers, apl.View(), AskedByAny(logs))
    && forall i :: 0 <= i < |roots| ==> Tracked(me, answers, roots[i], logs[i], multiset(served)[i], g.crawls[i])
  }

  lemma TracksServe(
    me: string, answers: map<Location, Answer>, apl: PeerList, roots: seq<Location>,
    logs: seq<seq<Request>>, served: seq<nat>, g: Crowd, i: nat)
    requires Tracks(me, answers, apl, roots, logs, served, g) && Waiting(g, i)
    ensures Tracks(me, answers, apl, roots, logs[i := logs[i] + [Served(answers, g, i)]], served + [i], Serve(me, answers, g, i))
  {
    var r := Served(answers, g, i);
    var (logs', h) := (logs[i := logs[i] + [r]], Serve(me, answers, g, i));
    FollowsOne(me, Crawl({}, [roots[i]]), logs[i], g.crawls[i], r);
    AskedByAnyMore(logs, i, r);
    RecordIsOverlay(me, answers, g.apl, r);
    OverlayThen(me, answers, apl.View(), AskedByAny(logs), {r.location});
    forall k | 0 <= k < |roots| ensures Tracked(me, answers, roots[k], logs'[k], multiset(served + [i])[k], h.crawls[k]) {
      assert Tracked(me, answers, roots[k], logs[k], multiset(served)[k], g.crawls[k]);
    }
  }

  lemma {:induction false} TracksRun(
    me: string, answers: map<Location, Answer>, apl: PeerList, roots: seq<Location>,
    logs: seq<seq<Request>>, served: seq<nat>, g: Crowd, schedule: seq<nat>, h: Crowd) returns (all: seq<seq<Request>>)
    requires Tracks(me, answers, apl, roots, logs, served, g) && Runs(me, answers, g, schedule, h)
    ensures Tracks(me, answers, apl, roots, all, served + schedule, h)
    decreases |schedule|
  {
    if schedule == [] {
      all := logs;
      assert served + schedule == served;
    } else {
      var (i, rest) := (schedule[0], schedule[1..]);
      var (longer, logs', g') := (served + [i], logs[i := logs[i] + [Served(answers, g, i)]], Serve(me, answers, g, i));
      assert served + schedule == longer + rest;
      TracksServe(me, answers, apl, roots, logs, served, g, i);
      all := TracksRun(me, answers, apl, roots, logs', longer, g', rest, h);
    }
  }

  lemma TracksFromStart(
    me: string, answers: map<Location, Answer>, apl: PeerList, roots: seq<Location>, schedule: seq<nat>, h: Crowd)
    returns (logs: seq<seq<Request>>)
    requires apl.Valid() && Runs(me, answers, Start(apl, roots), schedule, h)
    ensures Tracks(me, answers, apl, roots, logs, schedule, h)
  {
    var none: seq<seq<Request>> := seq(|roots|, i => []);
    assert AskedByAny(none) == {};
    assert Tracks(me, answers, apl, roots, none, [], Start(apl, roots));
    logs := TracksRun(me, answers, apl, roots, none, [], Start(apl, roots), schedule, h);
    assert [] + schedule == schedule;
  }

  // ---- what every finished interleaving amounts to ----

  /** The locations asked by each crawl: its root and what it marked. */
  function Covered(roots: seq<Location>, crawls: seq<Crawl>): seq<set<Location>>
    requires |roots| == |crawls|
  {
    seq(|roots|, i requires 0 <= i < |roots| => {roots[i]} + crawls[i].mask)
  }

  /** The crawls one after another, each with its exact sequential effect. */
  ghost function InTurn(
    me: string, answers: map<Location, Answer>, apl: map<Location, Decl>, covered: seq<set<Location>>): map<Location, Decl>
    decreases |covered|
  {
    if covered == [] then apl else InTurn(me, answers, Overlay(me, answers, apl, covered[0]), covered[1..])
  }

  ghost function Union(sets: seq<set<Location>>): set<Location> {
    if sets == [] then {} else sets[0] + Union(sets[1..])
  }

  lemma {:induction false} UnionHas(sets: seq<set<Location>>, l: Location)
    ensures l in Union(sets) <==> exists i :: 0 <= i < |sets| && l in sets[i]
  {
    if sets != [] {
      UnionHas(sets[1..], l);
      if i :| 0 <= i < |sets[1..]| && l in sets[1..][i] {
        assert l in sets[i + 1];
      }
      if i :| 0 < i < |sets| && l in sets[i] {
        assert l in sets[1..][i - 1];
      }
    }
  }

  lemma {:induction false} InTurnIsOverlay(
    me: string, answers: map<Location, Answer>, apl: map<Location, Decl>, covered: seq<set<Location>>)
    ensures InTurn(me, answers, apl, covered) == Overlay(me, answers, apl, Union(covered))
    decreases |covered|
  {
    if covered == [] {
      OverlayNothing(me, answers, apl);
    } else {
      InTurnIsOverlay(me, answers, Overlay(me, answers, apl, covered[0]), covered[1..]);
      OverlayThen(me, answers, apl, covered[0], Union(covered[1..]));
    }
  }

  lemma UnionIsAsked(roots: seq<Location>, crawls: seq<Crawl>, logs: seq<seq<Request>>)
    requires |roots| == |crawls| == |logs|
    requires forall i :: 0 <= i < |roots| ==> Elements(Asked(logs[i])) == Covered(roots, crawls)[i]
    ensures AskedByAny(logs) == Union(Covered(roots, crawls))
  {
    var covered := Covered(roots, crawls);
    forall l ensures l in AskedByAny(logs) <==> l in Union(covered) {
      UnionHas(covered, l);
      if i :| 0 <= i < |roots| && l in covered[i] {
        var k :| 0 <= k < |Asked(logs[i])| && Asked(logs[i])[k] == l;
        assert logs[i][k] in logs[i];
      }
      if i, r: Request :| 0 <= i < |logs| && r in logs[i] && r.location == l {
        var k :| 0 <= k < |logs[i]| && logs[i][k] == r;
        assert Asked(logs[i])[k] == l;
        assert l in covered[i];
      }
    }
  }

  lemma FinishedOne(me: string, answers: map<Location, Answer>, root: Location, log: seq<Request>, served: nat, c: Crawl)
    requires Tracked(me, answers, root, log, served, c) && c.work == []
    ensures Elements(Asked(log)) == {root} + c.mask
    ensures forall l :: l in c.mask <==> Reaches(me, answers, {}, root, l)
  {
    CrawlMarks(me, {}, root, log, c.mask);
    assert c.mask - {} == c.mask;
    CrawlReaches(me, answers, {}, root, log, c.mask);
  }

  /**
   However the answers interleave, finished crawls have marked exactly what their roots
   reach, and the shared list is the one they leave when run one after another.
   */
  lemma FinishedRun(
    me: string, answers: map<Location, Answer>, apl: PeerList, roots: seq<Location>, schedule: seq<nat>, h: Crowd)
    requires apl.Valid() && Runs(me, answers, Start(apl, roots), schedule, h) && Finished(h)
    ensures |h.crawls| == |roots| && h.apl.Valid()
    ensures forall i, l :: 0 <= i < |roots| ==> (l in h.crawls[i].mask <==> Reaches(me, answers, {}, roots[i], l))
    ensures h.apl.View() == InTurn(me, answers, apl.View(), Covered(roots, h.crawls))
  {
    var logs := TracksFromStart(me, answers, apl, roots, schedule, h);
    forall i | 0 <= i < |roots|
      ensures Elements(Asked(logs[i])) == Covered(roots, h.crawls)[i]
      ensures forall l :: l in h.crawls[i].mask <==> Reaches(me, answers, {}, roots[i], l)
    {
      FinishedOne(me, answers, roots[i], logs[i], multiset(schedule)[i], h.crawls[i]);
    }
    UnionIsAsked(roots, h.crawls, logs);
    InTurnIsOverlay(me, answers, apl.View(), Covered(roots, h.crawls));
  }

  /** Two finished interleavings of the same crawls end with the same masks and the same list. */
  lemma Confluent(
    me: string, answers: map<Location, Answer>, apl: PeerList, roots: seq<Location>,
    one: seq<nat>, g: Crowd, other: seq<nat>, h: Crowd)
    requires apl.Valid()
    requires Runs(me, answers, Start(apl, roots), one, g) && Finished(g)
    requires Runs(me, answers, Start(apl, roots), other, h) && Finished(h)
    ensures g.apl.Valid() && h.apl.Valid() && g.apl.View() == h.apl.View()
    ensures g.crawls == h.crawls
  {
    FinishedRun(me, answers, apl, roots, one, g);
    FinishedRun(me, answers, apl, roots, other, h);
    forall i | 0 <= i < |roots| ensures g.crawls[i] == h.crawls[i] {
      assert forall l :: l in g.crawls[i].mask <==> l in h.crawls[i].mask;
    }
    assert g.crawls == h.crawls;
  }

  /** On lists without repeats each crawl is served a fixed number of times, so every interleaving has the same length. */
  lemma FinishedCounts(
    me: string, answers: map<Location, Answer>, apl: PeerList, roots: seq<Location>, schedule: seq<nat>, h: Crowd, i: nat)
    requires apl.Valid() && Runs(me, answers, Start(apl, roots), schedule, h) && Finished(h) && i < |roots|
    requires forall l :: l in answers && answers[l].Valid? ==> NoRepeats(answers[l].decl.activePeerList)
    ensures i < |h.crawls| && multiset(schedule)[i] == 1 + |h.crawls[i].mask|
  {
    var logs := TracksFromStart(me, answers, apl, roots, schedule, h);
    DistinctIsFresh(me, Crawl({}, [roots[i]]), logs[i]);
    CrawlRequests(me, {}, roots[i], logs[i], h.crawls[i].mask);
    assert h.crawls[i].mask - {} == h.crawls[i].mask;
  }

  // ---- every run can be finished, and how long it can be ----

  lemma {:induction false} RunsThen(
    me: string, answers: map<Location, Answer>, g: Crowd, schedule: seq<nat>, h: Crowd, more: seq<nat>, k: Crowd)
    requires g.apl.Valid() && h.apl.Valid() && Runs(me, answers, g, schedule, h) && Runs(me, answers, h, more, k)
    ensures Runs(me, answers, g, schedule + more, k)
    decreases |schedule|
  {
    var all := schedule + more;
    if schedule == [] {
      assert all == more;
    } else {
      RunsThen(me, answers, Serve(me, answers, g, schedule[0]), schedule[1..], h, more, k);
      assert all[0] == schedule[0] && all[1..] == schedule[1..] + more;
    }
  }

  /** Served alone, one crawl ends. */
  lemma {:induction false} FinishOne(me: string, answers: map<Location, Answer>, g: Crowd, i: nat)
    returns (schedule: seq<nat>, h: Crowd)
    requires g.apl.Valid() && i < |g.crawls|
    ensures h.apl.Valid() && Runs(me, answers, g, schedule, h) && |h.crawls| == |g.crawls|
    ensures forall j :: 0 <= j < |h.crawls| ==> if j == i then h.crawls[j].work == [] else h.crawls[j] == g.crawls[j]
    decreases |Mentioned(answers) - g.crawls[i].mask|, |g.crawls[i].work|
  {
    if g.crawls[i].work == [] {
      schedule, h := [], g;
    } else {
      var rest;
      StepShrinks(me, answers, g.crawls[i]);
      rest, h := FinishOne(me, answers, Serve(me, answers, g, i), i);
      schedule := [i] + rest;
      assert schedule[1..] == rest;
    }
  }

  lemma {:induction false} FinishFrom(me: string, answers: map<Location, Answer>, g: Crowd, i: nat)
    returns (schedule: seq<nat>, h: Crowd)
    requires g.apl.Valid() && i <= |g.crawls| && forall j :: 0 <= j < i ==> g.crawls[j].work == []
    ensures h.apl.Valid() && Runs(me, answers, g, schedule, h) && Finished(h)
    decreases |g.crawls| - i
  {
    if i == |g.crawls| {
      schedule, h := [], g;
    } else {
      var one, g' := FinishOne(me, answers, g, i);
      var rest;
      rest, h := FinishFrom(me, answers, g', i + 1);
      RunsThen(me, answers, g, one, g', rest, h);
      schedule := one + rest;
    }
  }

  /** Whatever has been answered so far, the crowd can still finish. */
  lemma EveryRunFinishes(
    me: string, answers: map<Location, Answer>, apl: PeerList, roots: seq<Location>, schedule: seq<nat>, g: Crowd)
    returns (more: seq<nat>, h: Crowd)
    requires apl.Valid() && Runs(me, answers, Start(apl, roots), schedule, g)
    ensures g.apl.Valid() && Runs(me, answers, g, more, h) && Finished(h)
    ensures Runs(me, answers, Start(apl, roots), schedule + more, h)
  {
    var _ := TracksFromStart(me, answers, apl, roots, schedule, g);
    more, h := FinishFrom(me, answers, g, 0);
    RunsThen(me, answers, Start(apl, roots), schedule, g, more, h);
  }

  function Sum(counts: seq<nat>): nat {
    if counts == [] then 0 else Sum(counts[..|counts| - 1]) + counts[|counts| - 1]
  }

  lemma {:induction false} SumUpdate(counts: seq<nat>, i: nat, n: nat)
    requires i < |counts|
    ensures Sum(counts[i := n]) == Sum(counts) - counts[i] + n
  {
    var last := |counts| - 1;
    if i == last {
      assert counts[i := n][..last] == counts[..last];
    } else {
      assert counts[i := n][..last] == counts[..last][i := n];
      SumUpdate(counts[..last], i, n);
    }
  }

  lemma {:induction false} SumZero(counts: seq<nat>)
    requires forall i :: 0 <= i < |counts| ==> counts[i] == 0
    ensures Sum(counts) == 0
  {
    if counts != [] {
      SumZero(counts[..|counts| - 1]);
    }
  }

  lemma {:induction false} CountsAddUp(schedule: seq<nat>, counts: seq<nat>)
    requires forall k :: k in schedule ==> k < |counts|
    requires forall i :: 0 <= i < |counts| ==> multiset(schedule)[i] == counts[i]
    ensures |schedule| == Sum(counts)
    decreases |schedule|
  {
    if schedule == [] {
      SumZero(counts);
    } else {
      var (k, rest) := (schedule[0], schedule[1..]);
      assert k in schedule && schedule == [k] + rest;
      assert forall j :: j in rest ==> j in schedule;
      assert multiset(schedule) == multiset{k} + multiset(rest);
      CountsAddUp(rest, counts[k := counts[k] - 1]);
      SumUpdate(counts, k, counts[k] - 1);
    }
  }

  lemma {:induction false} ServedExist(me: string, answers: map<Location, Answer>, g: Crowd, schedule: seq<nat>, h: Crowd)
    requires g.apl.Valid() && Runs(me, answers, g, schedule, h)
    ensures forall k :: k in schedule ==> k < |g.crawls|
    decreases |schedule|
  {
    if schedule != [] {
      var (k, rest) := (schedule[0], schedule[1..]);
      ServedExist(me, answers, Serve(me, answers, g, k), rest, h);
      assert schedule == [k] + rest;
    }
  }

  /** One request for the root of each crawl and one for each location it has marked. */
  function Counts(crawls: seq<Crawl>): (counts: seq<nat>)
    ensures |counts| == |crawls| && forall i :: 0 <= i < |crawls| ==> counts[i] == 1 + |crawls[i].mask|
  {
    seq(|crawls|, i requires 0 <= i < |crawls| => 1 + |crawls[i].mask|)
  }

  lemma FinishedLength(
    me: string, answers: map<Location, Answer>, apl: PeerList, roots: seq<Location>, schedule: seq<nat>, h: Crowd)
    requires apl.Valid() && Runs(me, answers, Start(apl, roots), schedule, h) && Finished(h)
    requires forall l :: l in answers && answers[l].Valid? ==> NoRepeats(answers[l].decl.activePeerList)
    ensures |schedule| == Sum(Counts(h.crawls))
  {
    FinishedRun(me, answers, apl, roots, schedule, h);
    ServedExist(me, answers, Start(apl, roots), schedule, h);
    var counts := Counts(h.crawls);
    forall i | 0 <= i < |counts| ensures multiset(schedule)[i] == counts[i] {
      FinishedCounts(me, answers, apl, roots, schedule, h, i);
    }
    CountsAddUp(schedule, counts);
  }

  /**
   On lists without repeats no run makes more requests than one for each root and one for
   each location a root reaches, and it is finished exactly when it has made as many.
   */
  lemma RunsAreBounded(
    me: string, answers: map<Location, Answer>, apl: PeerList, roots: seq<Location>, schedule: seq<nat>, g: Crowd)
    returns (h: Crowd)
    requires apl.Valid() && Runs(me, answers, Start(apl, roots), schedule, g)
    requires forall l :: l in answers && answers[l].Valid? ==> NoRepeats(answers[l].decl.activePeerList)
    ensures |h.crawls| == |roots|
    ensures forall i, l :: 0 <= i < |roots| ==> (l in h.crawls[i].mask <==> Reaches(me, answers, {}, roots[i], l))
    ensures |schedule| <= Sum(Counts(h.crawls)) && (|schedule| == Sum(Counts(h.crawls)) <==> Finished(g))
  {
    var more;
    more, h := EveryRunFinishes(me, answers, apl, roots, schedule, g);
    FinishedRun(me, answers, apl, roots, schedule + more, h);
    FinishedLength(me, answers, apl, roots, schedule + more, h);
    if Finished(g) {
      assert more == [];
    }
  }
}
