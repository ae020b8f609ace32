/**
 The service that owns the active peer list: the recursive crawl, the loop that
 re-crawls a peer while the list changes under it, and the device list sent to peers.
 */
module Activity {
  import opened Outcomes
  import opened JsMaps
  import opened Locations
  import opened Crawls

  /** The set object a crawl shares with all its recursive calls. */
  class DeviceMask {
    var seen: set<Location>

    constructor ()
      ensures seen == {}
    {
      seen := {};
    }
  }

  /** The network over time: what a location answers to the t-th request.  It may change at every request, for ever. */
  type Network = (nat, Location) -> Answer

  /** Whatever the network answers and when, its peer lists name locations of the universe only. */
  ghost predicate Within(net: Network, universe: set<Location>) {
    forall t, l :: net(t, l).Valid? ==> Elements(net(t, l).decl.activePeerList) <= universe
  }

  /** The network stays as it is. */
  ghost predicate Steady(net: Network, answers: map<Location, Answer>) {
    forall t, l :: net(t, l) == AnswerOf(answers, l)
  }

  /** However answers change: only the strangers ever answer with a document to list, and they never with garbage. */
  ghost predicate Sorts(me: string, net: Network, strangers: set<Location>) {
    forall t, l ::
      (Expands(me, net(t, l)) ==> l in strangers) && (net(t, l).Garbled? ==> l !in strangers)
  }

  /** A steady network has a universe and a set of strangers. */
  lemma SteadySorts(me: string, net: Network, answers: map<Location, Answer>)
    requires Steady(net, answers)
    ensures Within(net, Mentioned(answers)) && Sorts(me, net, Strangers(me, answers))
  {
    forall t, l ensures net(t, l).Valid? ==> Elements(net(t, l).decl.activePeerList) <= Mentioned(answers) {
      assert net(t, l) == AnswerOf(answers, l);
    }
  }

  function Strangers(me: string, answers: map<Location, Answer>): set<Location> {
    set l | l in answers && Expands(me, answers[l])
  }

  /**
   From request number `t` on, the crawl asks the head of its queue, hears what the
   network says at that moment, and so goes from `c` to `d` and the list from `apl` to `apl'`.
   */
  ghost predicate Crawled(
    me: string, net: Network, t: nat, log: seq<Request>, c: Crawl, d: Crawl, apl: PeerList, apl': PeerList)
    requires apl.Valid()
    decreases |log|
  {
    if log == [] then c == d && apl == apl'
    else
      && c.work != [] && log[0] == Request(c.work[0], net(t, c.work[0]))
      && Crawled(me, net, t + 1, log[1..], Step(me, c, log[0].answer), d, Record(me, apl, log[0]), apl')
  }

  /** Such a run is a run of the work-list machine, and the log alone explains the list. */
  lemma {:induction false} CrawledIs(
    me: string, net: Network, t: nat, log: seq<Request>, c: Crawl, d: Crawl, apl: PeerList, apl': PeerList)
    requires apl.Valid() && Crawled(me, net, t, log, c, d, apl, apl')
    ensures Follows(me, c, log, d)
    ensures apl' == Replay(me, apl, log)
    decreases |log|
  {
    if log != [] {
      CrawledIs(me, net, t + 1, log[1..], Step(me, c, log[0].answer), d, Record(me, apl, log[0]), apl');
    }
  }

  /** Every answer in it is the network's, at the moment of the request. */
  lemma {:induction false} CrawledAnswer(
    me: string, net: Network, t: nat, log: seq<Request>, c: Crawl, d: Crawl, apl: PeerList, apl': PeerList, i: nat)
    requires apl.Valid() && Crawled(me, net, t, log, c, d, apl, apl') && i < |log|
    ensures log[i].answer == net(t + i, log[i].location)
    decreases i
  {
    if i > 0 {
      CrawledAnswer(me, net, t + 1, log[1..], Step(me, c, log[0].answer), d, Record(me, apl, log[0]), apl', i - 1);
      assert t + i == t + 1 + (i - 1);
    }
  }

  lemma CrawledFirst(me: string, net: Network, t: nat, r: Request, c: Crawl, apl: PeerList)
    requires apl.Valid() && c.work == [r.location] && r.answer == net(t, r.location)
    ensures var found := if Expands(me, r.answer) then Unmasked(r.answer.decl.activePeerList, c.mask) else [];
            Crawled(me, net, t, [r], c, Crawl(c.mask + Elements(found), found), apl, Record(me, apl, r))
  {
    var found := if Expands(me, r.answer) then Unmasked(r.answer.decl.activePeerList, c.mask) else [];
    assert [r][1..] == [];
    assert found + c.work[1..] == found;
    assert Step(me, c, r.answer) == Crawl(c.mask + Elements(found), found);
  }

  lemma CrawledCons(
    me: string, net: Network, t: nat, next: nat, r: Request, rest: seq<Request>, c: Crawl, d: Crawl,
    apl: PeerList, apl': PeerList)
    requires apl.Valid() && next == t + 1 && c.work != [] && r == Request(c.work[0], net(t, c.work[0]))
    requires Crawled(me, net, next, rest, Step(me, c, r.answer), d, Record(me, apl, r), apl')
    ensures Crawled(me, net, t, [r] + rest, c, d, apl, apl')
  {
    assert ([r] + rest)[1..] == rest;
  }

  lemma {:induction false} CrawledConcat(
    me: string, net: Network, t: nat, t': nat, log: seq<Request>, more: seq<Request>, c: Crawl, d: Crawl, e: Crawl,
    apl: PeerList, apl': PeerList, apl'': PeerList)
    requires apl.Valid() && apl'.Valid() && t' == t + |log|
    requires Crawled(me, net, t, log, c, d, apl, apl') && Crawled(me, net, t', more, d, e, apl', apl'')
    ensures Crawled(me, net, t, log + more, c, e, apl, apl'')
    decreases |log|
  {
    if log == [] {
      assert log + more == more;
    } else {
      var (next, r, rest) := (t + 1, log[0], log[1..]);
      CrawledConcat(me, net, next, t', rest, more, Step(me, c, r.answer), d, e, Record(me, apl, r), apl', apl'');
      CrawledCons(me, net, t, next, r, rest + more, c, e, apl, apl'');
      TailOfSum(log, more);
    }
  }

  /** A finished crawl of the head of the queue, appended to what went before. */
  lemma CrawledThen(
    me: string, net: Network, t: nat, t': nat, log: seq<Request>, more: seq<Request>, c: Crawl, marked: set<Location>,
    l: Location, queue: seq<Location>, marked': set<Location>, apl: PeerList, apl': PeerList, apl'': PeerList)
    requires apl.Valid() && apl'.Valid() && t' == t + |log|
    requires Crawled(me, net, t, log, c, Crawl(marked, [l] + queue), apl, apl')
    requires Crawled(me, net, t', more, Crawl(marked, [l]), Crawl(marked', []), apl', apl'')
    ensures Crawled(me, net, t, log + more, c, Crawl(marked', queue), apl, apl'')
  {
    CrawledFrame(me, net, t', more, Crawl(marked, [l]), Crawl(marked', []), queue, apl', apl'');
    assert [] + queue == queue;
    CrawledConcat(me, net, t, t', log, more, c, Crawl(marked, [l] + queue), Crawl(marked', queue), apl, apl', apl'');
  }

  lemma {:induction false} CrawledFrame(
    me: string, net: Network, t: nat, log: seq<Request>, c: Crawl, d: Crawl, rest: seq<Location>, apl: PeerList, apl': PeerList)
    requires apl.Valid() && Crawled(me, net, t, log, c, d, apl, apl')
    ensures Crawled(me, net, t, log, c.(work := c.work + rest), d.(work := d.work + rest), apl, apl')
    decreases |log|
  {
    if log != [] {
      var c' := Step(me, c, log[0].answer);
      assert (c.work + rest)[1..] == c.work[1..] + rest;
      assert Step(me, c.(work := c.work + rest), log[0].answer) == c'.(work := c'.work + rest);
      CrawledFrame(me, net, t + 1, log[1..], c', d, rest, Record(me, apl, log[0]), apl');
    }
  }

  lemma SplitQueue(queue: seq<Location>, i: nat, next: nat)
    requires i < |queue| && next == i + 1
    ensures queue[i..] == [queue[i]] + queue[next..]
  {
  }

  lemma TailOfSum<T>(a: seq<T>, b: seq<T>)
    requires a != []
    ensures [a[0]] + (a[1..] + b) == a + b
  {
  }

  lemma Appended<T>(a: seq<T>, b: seq<T>, c: seq<T>)
    ensures a + b + c == a + (b + c)
  {
  }

  // ---- one crawl on a network that stays as it is ----

  /** The whole effect of `PublishDevice` with no mask: what the root reaches is asked, and only that changes. */
  lemma SettledCrawl(
    me: string, net: Network, answers: map<Location, Answer>, t: nat, log: seq<Request>, root: Location, seen: set<Location>,
    apl: PeerList, apl': PeerList)
    requires apl.Valid() && Crawled(me, net, t, log, Crawl({}, [root]), Crawl(seen, []), apl, apl') && Steady(net, answers)
    ensures apl'.View() == Overlay(me, answers, apl.View(), {root} + seen)
    ensures forall l :: l in seen <==> Reaches(me, answers, {}, root, l)
  {
    CrawledIs(me, net, t, log, Crawl({}, [root]), Crawl(seen, []), apl, apl');
    forall r | r in log ensures r.answer == AnswerOf(answers, r.location) {
      var i :| 0 <= i < |log| && log[i] == r;
      CrawledAnswer(me, net, t, log, Crawl({}, [root]), Crawl(seen, []), apl, apl', i);
    }
    CrawlExact(me, answers, apl, root, log, seen);
  }

  // ---- iterating a list that crawls change ----

  /** What the list iterator yields: a location and the document stored there at that moment. */
  datatype Visit = Visit(location: Location, decl: Decl)

  function Places(visits: seq<Visit>): (r: seq<Location>)
    ensures |r| == |visits|
    ensures forall i :: 0 <= i < |r| ==> r[i] == visits[i].location
  {
    seq(|visits|, i requires 0 <= i < |visits| => visits[i].location)
  }

  /** The roots crawled: the visited locations with the wanted identity, decoded and encoded again. */
  function Recrawls(visits: seq<Visit>, peerId: string): seq<Location> {
    if visits == [] then []
    else
      var last := visits[|visits| - 1];
      Recrawls(visits[..|visits| - 1], peerId) + if last.decl.uniqueId == peerId then [Key(Decode(last.location))] else []
  }

  ghost predicate AskedFor(me: string, answers: map<Location, Answer>, roots: seq<Location>, l: Location) {
    exists r :: r in roots && (l == r || Reaches(me, answers, {}, r, l))
  }

  lemma AskedForMore(me: string, answers: map<Location, Answer>, roots: seq<Location>, root: Location, l: Location)
    ensures AskedFor(me, answers, roots + [root], l) <==>
      AskedFor(me, answers, roots, l) || l == root || Reaches(me, answers, {}, root, l)
  {
    assert root in roots + [root];
    if r :| r in roots && (l == r || Reaches(me, answers, {}, r, l)) {
      assert r in roots + [root];
    }
  }

  /**
   The document yielded once these roots were crawled: what the network answers if they
   asked the location and it answers with one, else the old one, never dropped as garbled.
   */
  ghost predicate Current(
    me: string, answers: map<Location, Answer>, before: map<Location, Decl>, roots: seq<Location>, v: Visit)
  {
    var (answer, asked) := (AnswerOf(answers, v.location), AskedFor(me, answers, roots, v.location));
    if asked && Expands(me, answer) then v.decl == answer.decl
    else v.location in before && v.decl == before[v.location] && !(asked && answer.Garbled?)
  }

  /** The loop so far: every visit is current, what was asked follows from the visits, and so does the list. */
  ghost predicate Restored(
    me: string, answers: map<Location, Answer>, before: map<Location, Decl>, peerId: string,
    visits: seq<Visit>, asked: set<Location>, now: map<Location, Decl>)
  {
    && (forall i :: 0 <= i < |visits| ==> Current(me, answers, before, Recrawls(visits[..i], peerId), visits[i]))
    && (forall l :: l in asked <==> AskedFor(me, answers, Recrawls(visits, peerId), l))
    && now == Overlay(me, answers, before, asked)
  }

  lemma RestoredMore(
    me: string, answers: map<Location, Answer>, before: map<Location, Decl>, peerId: string,
    visits: seq<Visit>, asked: set<Location>, now: map<Location, Decl>, v: Visit)
    requires Restored(me, answers, before, peerId, visits, asked, now) && v.location in now && now[v.location] == v.decl
    ensures var longer := visits + [v];
            && Recrawls(longer, peerId) ==
               (if v.decl.uniqueId == peerId then Recrawls(visits, peerId) + [Key(Decode(v.location))]
                else Recrawls(visits, peerId))
            && forall i :: 0 <= i < |longer| ==> Current(me, answers, before, Recrawls(longer[..i], peerId), longer[i])
  {
    var longer := visits + [v];
    assert longer[..|visits|] == visits;
    forall i | 0 <= i < |longer| ensures Current(me, answers, before, Recrawls(longer[..i], peerId), longer[i]) {
      if i < |visits| {
        assert longer[..i] == visits[..i];
        assert Current(me, answers, before, Recrawls(visits[..i], peerId), visits[i]);
      }
    }
  }

  lemma RestoredPass(
    me: string, answers: map<Location, Answer>, before: map<Location, Decl>, peerId: string,
    visits: seq<Visit>, asked: set<Location>, now: map<Location, Decl>, v: Visit)
    requires Restored(me, answers, before, peerId, visits, asked, now)
    requires v.location in now && now[v.location] == v.decl && v.decl.uniqueId != peerId
    ensures Restored(me, answers, before, peerId, visits + [v], asked, now)
  {
    RestoredMore(me, answers, before, peerId, visits, asked, now, v);
  }

  lemma RestoredCrawl(
    me: string, answers: map<Location, Answer>, before: map<Location, Decl>, peerId: string,
    visits: seq<Visit>, asked: set<Location>, now: map<Location, Decl>, v: Visit, seen: set<Location>)
    requires Restored(me, answers, before, peerId, visits, asked, now)
    requires v.location in now && now[v.location] == v.decl && v.decl.uniqueId == peerId
    requires forall l :: l in seen <==> Reaches(me, answers, {}, Key(Decode(v.location)), l)
    ensures var more := {Key(Decode(v.location))} + seen;
            Restored(me, answers, before, peerId, visits + [v], asked + more, Overlay(me, answers, now, more))
  {
    var root := Key(Decode(v.location));
    RestoredMore(me, answers, before, peerId, visits, asked, now, v);
    forall l ensures l in asked + ({root} + seen) <==> AskedFor(me, answers, Recrawls(visits + [v], peerId), l) {
      AskedForMore(me, answers, Recrawls(visits, peerId), root, l);
    }
    OverlayThen(me, answers, before, asked, {root} + seen);
  }

  /** Slots before `i` have been yielded once each; a yielded key has stayed there or is gone for good. */
  ghost predicate Walked(strangers: set<Location>, apl: PeerList, i: nat, places: seq<Location>) {
    && i <= |apl.slots| && NoRepeats(places)
    && (forall j :: 0 <= j < i && apl.slots[j].Live? ==> apl.slots[j].key in places)
    && (forall k :: k in places ==> HeldBefore(apl, i, k) || Gone(strangers, apl, k))
  }

  ghost predicate HeldBefore(apl: PeerList, i: nat, k: Location) {
    exists j :: 0 <= j < i && j < |apl.slots| && apl.slots[j].Live? && apl.slots[j].key == k
  }

  /** Not listed, and never to be listed again. */
  ghost predicate Gone(strangers: set<Location>, apl: PeerList, k: Location) {
    k !in strangers && k !in apl.View()
  }

  lemma WalkedOn(strangers: set<Location>, apl: PeerList, i: nat, next: nat, visits: seq<Visit>, v: Visit)
    requires apl.Valid() && Walked(strangers, apl, i, Places(visits))
    requires i < |apl.slots| && next == i + 1 && apl.slots[i] == Live(v.location, v.decl)
    ensures Walked(strangers, apl, next, Places(visits + [v]))
  {
    var (places, k) := (Places(visits), v.location);
    assert Places(visits + [v]) == places + [k];
    ContentsAt(apl.slots, i);
    assert k !in places;
    assert HeldBefore(apl, i + 1, k);
    forall p | p in places && HeldBefore(apl, i, p) ensures HeldBefore(apl, i + 1, p) {
    }
  }

  lemma WalkedBlank(strangers: set<Location>, apl: PeerList, i: nat, next: nat, places: seq<Location>)
    requires Walked(strangers, apl, i, places) && i < |apl.slots| && next == i + 1 && apl.slots[i].Blank?
    ensures Walked(strangers, apl, next, places)
  {
    forall p | p in places && HeldBefore(apl, i, p) ensures HeldBefore(apl, i + 1, p) {
    }
  }

  /** A finished `RestorePeer` yielded no location twice, and every one that is still listed. */
  lemma WalkVisitsAll(strangers: set<Location>, apl: PeerList, visits: seq<Visit>)
    requires apl.Valid() && Walked(strangers, apl, |apl.slots|, Places(visits))
    ensures NoRepeats(Places(visits))
    ensures forall k :: k in apl.View() ==> k in Places(visits)
  {
    forall k | k in apl.View() ensures k in Places(visits) {
      ContentsKey(apl.slots, k);
    }
  }

  /** On a steady network one that was listed and was not yielded had been dropped as garbled first. */
  lemma RestoreVisitsAll(
    me: string, answers: map<Location, Answer>, strangers: set<Location>, before: map<Location, Decl>, peerId: string,
    visits: seq<Visit>, asked: set<Location>, apl: PeerList)
    requires apl.Valid() && Walked(strangers, apl, |apl.slots|, Places(visits))
    requires Restored(me, answers, before, peerId, visits, asked, apl.View())
    ensures forall k :: k in before && k !in Places(visits) ==> k in asked && AnswerOf(answers, k).Garbled?
  {
    WalkVisitsAll(strangers, apl, visits);
  }

  ghost predicate OfKind(me: string, strangers: set<Location>, r: Request) {
    (Expands(me, r.answer) ==> r.location in strangers) && (r.answer.Garbled? ==> r.location !in strangers)
  }

  /** The slots there are and the most that can still be appended. */
  ghost function Ahead(strangers: set<Location>, apl: PeerList): nat {
    |strangers - apl.View().Keys| + |apl.slots|
  }

  /** A slot is blanked only for a location that is then never listed again. */
  lemma {:induction false} ReplaySlots(me: string, strangers: set<Location>, apl: PeerList, log: seq<Request>)
    requires apl.Valid() && forall r :: r in log ==> OfKind(me, strangers, r)
    ensures var after := Replay(me, apl, log);
            && (forall j :: 0 <= j < |apl.slots| && apl.slots[j].Live? ==>
                  || (after.slots[j].Live? && after.slots[j].key == apl.slots[j].key)
                  || Gone(strangers, after, apl.slots[j].key))
            && (forall k :: Gone(strangers, apl, k) ==> Gone(strangers, after, k))
            && Ahead(strangers, after) <= Ahead(strangers, apl)
    decreases |log|
  {
    if log != [] {
      var apl' := Record(me, apl, log[0]);
      assert log[0] in log;
      RecordSlots(me, strangers, apl, log[0]);
      RecordAhead(me, strangers, apl, log[0]);
      ReplaySlots(me, strangers, apl', log[1..]);
    }
  }

  lemma RecordSlots(me: string, strangers: set<Location>, apl: PeerList, r: Request)
    requires apl.Valid() && OfKind(me, strangers, r)
    ensures var after := Record(me, apl, r);
            && (forall j :: 0 <= j < |apl.slots| && apl.slots[j].Live? ==>
                  || (after.slots[j].Live? && after.slots[j].key == apl.slots[j].key)
                  || Gone(strangers, after, apl.slots[j].key))
            && (forall k :: Gone(strangers, apl, k) ==> Gone(strangers, after, k))
  {
    if r.answer.Garbled? {
      var after := Delete(apl, r.location);
      assert Gone(strangers, after, r.location);
    }
  }

  lemma RecordAhead(me: string, strangers: set<Location>, apl: PeerList, r: Request)
    requires apl.Valid() && OfKind(me, strangers, r)
    ensures Ahead(strangers, Record(me, apl, r)) <= Ahead(strangers, apl)
  {
    var (known, l) := (apl.View().Keys, r.location);
    if r.answer.Garbled? {
      GapWithout(strangers, known, l);
      assert Delete(apl, l).View().Keys == known - {l};
    } else if Expands(me, r.answer) {
      GapWith(strangers, known, l);
      assert Set(apl, l, r.answer.decl).View().Keys == known + {l};
    }
  }

  lemma GapWithout<T>(s: set<T>, known: set<T>, l: T)
    requires l !in s
    ensures s - (known - {l}) == s - known
  {
  }

  lemma GapWith<T>(s: set<T>, known: set<T>, l: T)
    requires l in s
    ensures |s - (known + {l})| + (if l in known then 0 else 1) == |s - known|
  {
    if l in known {
      assert known + {l} == known;
    } else {
      assert s - known == (s - (known + {l})) + {l};
    }
  }

  /** A crawl neither moves the slots an iterator has passed nor adds to what can still come. */
  lemma WalkedThrough(
    me: string, net: Network, strangers: set<Location>, t: nat, log: seq<Request>, c: Crawl, d: Crawl,
    apl: PeerList, after: PeerList, i: nat, places: seq<Location>)
    requires apl.Valid() && Crawled(me, net, t, log, c, d, apl, after) && Sorts(me, net, strangers)
    requires Walked(strangers, apl, i, places)
    ensures after.Valid() && Walked(strangers, after, i, places) && Ahead(strangers, after) <= Ahead(strangers, apl)
  {
    CrawledIs(me, net, t, log, c, d, apl, after);
    forall r | r in log ensures OfKind(me, strangers, r) {
      var n :| 0 <= n < |log| && log[n] == r;
      CrawledAnswer(me, net, t, log, c, d, apl, after, n);
    }
    ReplaySlots(me, strangers, apl, log);
    WalkedStays(strangers, apl, after, i, places);
  }

  lemma WalkedStays(strangers: set<Location>, apl: PeerList, after: PeerList, i: nat, places: seq<Location>)
    requires Walked(strangers, apl, i, places) && KeepsSlots(apl.slots, after.slots)
    requires forall j :: 0 <= j < |apl.slots| && apl.slots[j].Live? ==>
               || (after.slots[j].Live? && after.slots[j].key == apl.slots[j].key)
               || Gone(strangers, after, apl.slots[j].key)
    requires forall k :: Gone(strangers, apl, k) ==> Gone(strangers, after, k)
    ensures Walked(strangers, after, i, places)
  {
    forall k | k in places ensures HeldBefore(after, i, k) || Gone(strangers, after, k) {
      if HeldBefore(apl, i, k) {
        var j :| 0 <= j < i && j < |apl.slots| && apl.slots[j].Live? && apl.slots[j].key == k;
        assert after.slots[j].Live? ==> after.slots[j].key == k;
      }
    }
  }

  // ---- the loop turn by turn, on any network ----

  /**
   One turn of the loop: the slot, what it held, the number of requests before it, the
   requests of the crawl it caused, and what that marked.
   */
  datatype Turn = Turn(at: nat, visit: Visit, since: nat, told: seq<Request>, seen: set<Location>)

  function Told(turns: seq<Turn>): seq<Request> {
    if turns == [] then [] else Told(turns[..|turns| - 1]) + turns[|turns| - 1].told
  }

  function Visits(turns: seq<Turn>): (r: seq<Visit>)
    ensures |r| == |turns|
    ensures forall i :: 0 <= i < |r| ==> r[i] == turns[i].visit
  {
    seq(|turns|, i requires 0 <= i < |turns| => turns[i].visit)
  }

  function Yielded(visits: seq<Visit>, turn: Option<Turn>): seq<Visit> {
    if turn.Some? then visits + [turn.value.visit] else visits
  }

  /** An entry with the wanted id as listed now causes exactly one crawl, any other none. */
  ghost predicate TurnTaken(me: string, peerId: string, net: Network, apl: PeerList, turn: Turn)
    requires apl.Valid()
  {
    && turn.at < |apl.slots| && apl.slots[turn.at] == Live(turn.visit.location, turn.visit.decl)
    && if turn.visit.decl.uniqueId == peerId then
         Crawled(me, net, turn.since, turn.told, Crawl({}, [Key(Decode(turn.visit.location))]), Crawl(turn.seen, []),
                 apl, Replay(me, apl, turn.told))
       else turn.told == []
  }

  /** The turn starts from the list and the request number that the turns before it left, at a later slot. */
  ghost predicate TurnAfter(
    me: string, peerId: string, net: Network, t: nat, apl: PeerList, before: seq<Turn>, turn: Turn)
    requires apl.Valid()
  {
    && turn.since == t + |Told(before)| && (forall other :: other in before ==> other.at < turn.at)
    && TurnTaken(me, peerId, net, Replay(me, apl, Told(before)), turn)
  }

  ghost predicate TurnsTaken(me: string, peerId: string, net: Network, t: nat, apl: PeerList, turns: seq<Turn>)
    requires apl.Valid()
  {
    forall i :: 0 <= i < |turns| ==> TurnAfter(me, peerId, net, t, apl, turns[..i], turns[i])
  }

  lemma ToldMore(turns: seq<Turn>, turn: Turn)
    ensures Told(turns + [turn]) == Told(turns) + turn.told
    ensures Visits(turns + [turn]) == Visits(turns) + [turn.visit]
  {
    assert (turns + [turn])[..|turns|] == turns;
  }

  lemma TurnsMore(
    me: string, peerId: string, net: Network, t: nat, apl: PeerList, now: PeerList, turns: seq<Turn>, turn: Turn)
    requires apl.Valid() && TurnsTaken(me, peerId, net, t, apl, turns)
    requires now == Replay(me, apl, Told(turns)) && turn.since == t + |Told(turns)| && TurnTaken(me, peerId, net, now, turn)
    requires forall other :: other in turns ==> other.at < turn.at
    ensures TurnsTaken(me, peerId, net, t, apl, turns + [turn])
  {
    var longer := turns + [turn];
    assert longer[..|turns|] == turns;
    forall i | 0 <= i < |longer| ensures TurnAfter(me, peerId, net, t, apl, longer[..i], longer[i]) {
      if i < |turns| {
        assert longer[..i] == turns[..i];
        assert TurnAfter(me, peerId, net, t, apl, turns[..i], turns[i]);
      }
    }
  }

  class ActivityService {
    const uniqueId: string
    var activePeerList: PeerList
    /** Every request sent, with its answer. */
    var log: seq<Request>

    constructor (uniqueId: string)
      ensures this.uniqueId == uniqueId && activePeerList == JsMap([]) && log == []
    {
      this.uniqueId := uniqueId;
      activePeerList := JsMap([]);
      log := [];
    }

    method SendLinkRequest(location: Location, net: Network) returns (answer: Answer)
      modifies this`log
      ensures answer == net(|old(log)|, location)
      ensures log == old(log) + [Request(location, answer)]
    {
      answer := net(|log|, location);
      log := log + [Request(location, answer)];
    }

    /** Asks one device, updates the list, and marks the devices it newly names before any is asked. */
    method Receive(location: Location, mask: DeviceMask, net: Network)
      returns (result: Option<Decl>, found: seq<Location>, ghost told: seq<Request>)
      requires activePeerList.Valid()
      modifies this, mask
      ensures activePeerList.Valid() && told == [Request(location, net(|old(log)|, location))] && log == old(log) + told
      ensures mask.seen == old(mask.seen) + Elements(found) && Elements(found) !! old(mask.seen)
      ensures Crawled(uniqueId, net, |old(log)|, told, Crawl(old(mask.seen), [location]), Crawl(mask.seen, found),
                      old(activePeerList), activePeerList)
      ensures var answer := told[0].answer;
              && result == (if answer.Valid? then Some(answer.decl) else None)
              && Elements(found) <= if answer.Valid? then Elements(answer.decl.activePeerList) else {}
    {
      result, found := None, [];
      var answer := SendLinkRequest(location, net);
      told := [Request(location, answer)];
      CrawledFirst(uniqueId, net, |old(log)|, told[0], Crawl(mask.seen, [location]), activePeerList);
      if answer.Garbled? {
        activePeerList := Delete(activePeerList, location);
      } else if answer.Valid? {
        result := Some(answer.decl);
        if answer.decl.uniqueId != uniqueId {
          activePeerList := Set(activePeerList, location, answer.decl);
          found := Unmasked(answer.decl.activePeerList, mask.seen);
          mask.seen := mask.seen + Elements(found);
        }
      }
    }

    /**
     Asks one device and, if it is a stranger, everyone it knows of.  The recursion
     answers its requests exactly as the work-list machine does, and terminates over
     any finite universe even if answers change for ever.
     */
    method PublishDevice(location: Location, deviceMask: DeviceMask?, net: Network, ghost universe: set<Location>)
      returns (result: Option<Decl>, ghost seen: set<Location>, ghost told: seq<Request>)
      requires activePeerList.Valid() && Within(net, universe)
      modifies this, deviceMask
      ensures deviceMask != null ==> seen == deviceMask.seen
      ensures activePeerList.Valid() && log == old(log) + told
      ensures var before := if deviceMask == null then {} else old(deviceMask.seen);
              && before <= seen <= before + universe
              && Crawled(uniqueId, net, |old(log)|, told, Crawl(before, [location]), Crawl(seen, []),
                         old(activePeerList), activePeerList)
      ensures var first := net(|old(log)|, location);
              result == if first.Valid? then Some(first.decl) else None
      decreases if deviceMask == null then |universe| + 1 else |universe - deviceMask.seen|
    {
      var mask: DeviceMask;
      if deviceMask == null {
        mask := new DeviceMask();
      } else {
        mask := deviceMask;
      }
      ghost var before := mask.seen;
      ghost var start := Crawl(before, [location]);
      var found;
      result, found, told := Receive(location, mask, net);

      ghost var marked := mask.seen;
      ghost var c := Crawl(marked, found);
      var i := 0;
      while i < |found|
        invariant i <= |found| && log == old(log) + told && activePeerList.Valid()
        invariant marked <= mask.seen <= before + universe
        invariant c.mask == mask.seen && c.work == found[i..]
        invariant Crawled(uniqueId, net, |old(log)|, told, start, c, old(activePeerList), activePeerList)
      {
        var peer, next := found[i], i + 1;
        ghost var (c', apl, t) := (c, activePeerList, |log|);
        Shrinks(universe, before, mask.seen, peer);
        SplitQueue(found, i, next);
        ghost var _, _, more := PublishDevice(peer, mask, net, universe);
        c := Crawl(mask.seen, found[next..]);
        Appended(old(log), told, more);
        CrawledThen(uniqueId, net, |old(log)|, t, told, more, start, c'.mask, peer, c.work,
                    c.mask, old(activePeerList), apl, activePeerList);
        i := next;
        told := told + more;
      }
      assert found[i..] == [];
      seen := mask.seen;
    }

    /** A crawl from the device a listed key decodes to, while an iterator stands at slot `next`. */
    method Recrawl(
      location: Location, net: Network, ghost universe: set<Location>, ghost strangers: set<Location>,
      ghost next: nat, ghost places: seq<Location>)
      returns (ghost seen: set<Location>, ghost told: seq<Request>)
      requires activePeerList.Valid() && Within(net, universe) && Sorts(uniqueId, net, strangers)
      requires Walked(strangers, activePeerList, next, places)
      modifies this
      ensures activePeerList.Valid() && Walked(strangers, activePeerList, next, places)
      ensures log == old(log) + told && activePeerList == Replay(uniqueId, old(activePeerList), told)
      ensures Crawled(uniqueId, net, |old(log)|, told, Crawl({}, [Key(Decode(location))]), Crawl(seen, []),
                      old(activePeerList), activePeerList)
      ensures Ahead(strangers, activePeerList) <= old(Ahead(strangers, activePeerList))
      ensures forall answers :: Steady(net, answers) ==>
                && activePeerList.View() ==
                   Overlay(uniqueId, answers, old(activePeerList.View()), {Key(Decode(location))} + seen)
                && forall l :: l in seen <==> Reaches(uniqueId, answers, {}, Key(Decode(location)), l)
    {
      ghost var apl, t := activePeerList, |log|;
      var root := Key(Decode(location));
      ghost var _, seen', told' := PublishDevice(root, null, net, universe);
      seen, told := seen', told';
      CrawledIs(uniqueId, net, t, told, Crawl({}, [root]), Crawl(seen, []), apl, activePeerList);
      WalkedThrough(uniqueId, net, strangers, t, told, Crawl({}, [root]), Crawl(seen, []), apl, activePeerList, next, places);
      forall answers | Steady(net, answers)
        ensures activePeerList.View() == Overlay(uniqueId, answers, apl.View(), {root} + seen)
        ensures forall l :: l in seen <==> Reaches(uniqueId, answers, {}, root, l)
      {
        SettledCrawl(uniqueId, net, answers, t, told, root, seen, apl, activePeerList);
      }
    }

    /**
     Re-crawls every listed peer of the given identity.  The loop runs over the live
     list: entries the nested crawls append are reached too, entries they delete are not.
     It ends even if answers change for ever, as long as no location answers now with a
     document, now with garbage.  `asked` are all locations the nested crawls asked.
     */
    method RestorePeer(peerId: string, net: Network, ghost universe: set<Location>, ghost strangers: set<Location>)
      returns (ghost turns: seq<Turn>, ghost asked: set<Location>)
      requires activePeerList.Valid() && Within(net, universe) && Sorts(uniqueId, net, strangers)
      modifies this
      ensures activePeerList.Valid()
      ensures Walked(strangers, activePeerList, |activePeerList.slots|, Places(Visits(turns)))
      ensures TurnsTaken(uniqueId, peerId, net, |old(log)|, old(activePeerList), turns)
      ensures log == old(log) + Told(turns) && activePeerList == Replay(uniqueId, old(activePeerList), Told(turns))
      ensures forall answers :: Steady(net, answers) ==>
                Restored(uniqueId, answers, old(activePeerList.View()), peerId, Visits(turns), asked, activePeerList.View())
    {
      ghost var before := activePeerList.View();
      turns, asked := [], {};
      forall answers ensures Overlay(uniqueId, answers, before, {}) == before {
        OverlayNothing(uniqueId, answers, before);
      }
      var i := 0;
      while i < |activePeerList.slots|
        invariant activePeerList.Valid() && Walked(strangers, activePeerList, i, Places(Visits(turns)))
        invariant TurnsTaken(uniqueId, peerId, net, |old(log)|, old(activePeerList), turns)
        invariant forall turn :: turn in turns ==> turn.at < i
        invariant log == old(log) + Told(turns) && activePeerList == Replay(uniqueId, old(activePeerList), Told(turns))
        invariant forall answers :: Steady(net, answers) ==>
                    Restored(uniqueId, answers, before, peerId, Visits(turns), asked, activePeerList.View())
        decreases Ahead(strangers, activePeerList) - i
      {
        var next := i + 1;
        ghost var apl := activePeerList;
        ghost var turn;
        turn, asked := VisitSlot(peerId, net, universe, strangers, i, next, before, Visits(turns), asked);
        if turn.Some? {
          TurnsMore(uniqueId, peerId, net, |old(log)|, old(activePeerList), apl, turns, turn.value);
          ToldMore(turns, turn.value);
          ReplayThen(uniqueId, old(activePeerList), Told(turns), turn.value.told);
          Appended(old(log), Told(turns), turn.value.told);
          turns := turns + [turn.value];
        }
        i := next;
      }
    }

    /** One turn of that loop: a blank slot is skipped, any other entry is yielded and, with the wanted id, crawled once. */
    method VisitSlot(
      peerId: string, net: Network, ghost universe: set<Location>, ghost strangers: set<Location>, i: nat, ghost next: nat,
      ghost before: map<Location, Decl>, ghost visits: seq<Visit>, ghost asked: set<Location>)
      returns (ghost turn: Option<Turn>, ghost asked': set<Location>)
      requires activePeerList.Valid() && Within(net, universe) && Sorts(uniqueId, net, strangers)
      requires i < |activePeerList.slots| && next == i + 1 && Walked(strangers, activePeerList, i, Places(visits))
      modifies this
      ensures activePeerList.Valid() && Walked(strangers, activePeerList, next, Places(Yielded(visits, turn)))
      ensures turn.None? <==> old(activePeerList).slots[i].Blank?
      ensures turn.None? ==> log == old(log) && activePeerList == old(activePeerList)
      ensures turn.Some? ==>
                && turn.value.at == i && turn.value.since == |old(log)|
                && TurnTaken(uniqueId, peerId, net, old(activePeerList), turn.value)
                && log == old(log) + turn.value.told
                && activePeerList == Replay(uniqueId, old(activePeerList), turn.value.told)
      ensures forall answers ::
                Steady(net, answers) && Restored(uniqueId, answers, before, peerId, visits, asked, old(activePeerList.View())) ==>
                  Restored(uniqueId, answers, before, peerId, Yielded(visits, turn), asked', activePeerList.View())
      ensures Ahead(strangers, activePeerList) <= old(Ahead(strangers, activePeerList))
    {
      turn, asked' := None, asked;
      var slot := activePeerList.slots[i];
      if slot.Blank? {
        WalkedBlank(strangers, activePeerList, i, next, Places(visits));
        return;
      }
      ghost var v, now := Visit(slot.key, slot.value), activePeerList.View();
      ContentsAt(activePeerList.slots, i);
      WalkedOn(strangers, activePeerList, i, next, visits, v);
      ghost var visits' := visits + [v];
      turn := Some(Turn(i, v, |old(log)|, [], {}));
      if slot.value.uniqueId == peerId {
        ghost var seen, told := Recrawl(slot.key, net, universe, strangers, next, Places(visits'));
        turn := Some(Turn(i, v, |old(log)|, told, seen));
        asked' := asked + ({Key(Decode(slot.key))} + seen);
        forall answers | Steady(net, answers) && Restored(uniqueId, answers, before, peerId, visits, asked, now)
          ensures Restored(uniqueId, answers, before, peerId, visits', asked', activePeerList.View())
        {
          RestoredCrawl(uniqueId, answers, before, peerId, visits, asked, now, v, seen);
        }
      } else {
        forall answers | Restored(uniqueId, answers, before, peerId, visits, asked, now)
          ensures Restored(uniqueId, answers, before, peerId, visits', asked, now)
        {
          RestoredPass(uniqueId, answers, before, peerId, visits, asked, now, v);
        }
      }
    }

    method GetDeviceList() returns (devices: seq<Device>)
      requires activePeerList.Valid()
      ensures devices == DeviceList(activePeerList.slots)
    {
      devices := [];
      var i := 0;
      while i < |activePeerList.slots|
        invariant i <= |activePeerList.slots|
        invariant devices + DeviceList(activePeerList.slots[i..]) == DeviceList(activePeerList.slots)
      {
        var slot := activePeerList.slots[i];
        if slot.Live? {
          devices := devices + [Decode(slot.key)];
        }
        i := i + 1;
      }
    }
  }

  lemma Shrinks(universe: set<Location>, before: set<Location>, now: set<Location>, l: Location)
    requires l in now && l in universe && l !in before && before <= now
    ensures |universe - now| < |universe - before| <= |universe|
  {
    StrictSubset(universe - now, universe - before);
    assert universe - before <= universe;
    SubsetSize(universe - before, universe);
  }
}
