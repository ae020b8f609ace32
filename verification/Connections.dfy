/**
 The table of live sync connections: a map of maps from vault id and location to a sync
 token, changed by publishing, removing and by error events that may come late.
 */
module Connections {
  import opened Outcomes
  import opened JsMaps
  import opened Locations

  /** Tokens are numbered as they are created; `origins` says for which vault and location. */
  datatype Table = Table(
    connections: map<string, map<Location, nat>>,
    origins: seq<(string, Location)>,
    cancelled: set<nat>)

  const EMPTY := Table(map[], [], {})

  function Inner(t: Table, vaultId: string): map<Location, nat> {
    if vaultId in t.connections then t.connections[vaultId] else map[]
  }

  /** A new location gets a new token; a known one keeps its own, and without a callback the call throws. */
  function Publish(t: Table, vaultId: string, location: Location, callback: bool): (Table, Attempt<nat>) {
    var inner := Inner(t, vaultId);
    if location in inner then (t, if callback then Returned(inner[location]) else Thrown)
    else
      var token := |t.origins|;
      (Table(t.connections[vaultId := inner[location := token]], t.origins + [(vaultId, location)], t.cancelled),
       Returned(token))
  }

  /** Cancels and drops the stored token; an unknown location under a known vault throws. */
  function Remove(t: Table, vaultId: string, location: Location): (Table, Attempt<bool>) {
    if vaultId !in t.connections then (t, Returned(false))
    else
      var inner := t.connections[vaultId];
      if location !in inner then (t, Thrown)
      else (Table(t.connections[vaultId := inner - {location}], t.origins, t.cancelled + {inner[location]}), Returned(true))
  }

  datatype Event =
    | Published(vaultId: string, location: Location, callback: bool)
    | Removed(vaultId: string, location: Location)
    | Failed(token: nat)

  /** Any token ever created may still report an error, cancelled or not. */
  predicate Enabled(t: Table, e: Event) {
    e.Failed? ==> e.token < |t.origins|
  }

  /** The error handler removes by vault and location, not by token. */
  function Next(t: Table, e: Event): Table
    requires Enabled(t, e)
  {
    match e
    case Published(vaultId, location, callback) => Publish(t, vaultId, location, callback).0
    case Removed(vaultId, location) => Remove(t, vaultId, location).0
    case Failed(token) => Remove(t, t.origins[token].0, t.origins[token].1).0
  }

  ghost predicate Runs(t: Table, events: seq<Event>, u: Table)
    decreases |events|
  {
    if events == [] then t == u else Enabled(t, events[0]) && Runs(Next(t, events[0]), events[1..], u)
  }

  ghost predicate Stored(t: Table, vaultId: string, location: Location, token: nat) {
    vaultId in t.connections && location in t.connections[vaultId] && t.connections[vaultId][location] == token
  }

  /** The tokens not cancelled are exactly those stored, each where it was created for. */
  ghost predicate Exact(t: Table) {
    && (forall v, l, n: nat :: Stored(t, v, l, n) ==> n < |t.origins| && t.origins[n] == (v, l) && n !in t.cancelled)
    && (forall n :: 0 <= n < |t.origins| && n !in t.cancelled ==> Stored(t, t.origins[n].0, t.origins[n].1, n))
    && (forall n :: n in t.cancelled ==> n < |t.origins|)
  }

  lemma ExactPublish(t: Table, vaultId: string, location: Location, callback: bool)
    requires Exact(t)
    ensures Exact(Publish(t, vaultId, location, callback).0)
  {
    var t' := Publish(t, vaultId, location, callback).0;
    if location !in Inner(t, vaultId) {
      var token := |t.origins|;
      assert Stored(t', vaultId, location, token);
      forall v, l, n: nat | Stored(t', v, l, n) ensures Stored(t, v, l, n) || (v, l, n) == (vaultId, location, token) {
      }
      forall v, l, n: nat | Stored(t, v, l, n) ensures Stored(t', v, l, n) {
      }
    }
  }

  lemma ExactRemove(t: Table, vaultId: string, location: Location)
    requires Exact(t)
    ensures Exact(Remove(t, vaultId, location).0)
  {
    var t' := Remove(t, vaultId, location).0;
    if vaultId in t.connections && location in t.connections[vaultId] {
      var token := t.connections[vaultId][location];
      assert Stored(t, vaultId, location, token);
      forall v, l, n: nat ensures Stored(t', v, l, n) <==> Stored(t, v, l, n) && (v, l) != (vaultId, location) {
      }
    }
  }

  /** Publishing throws exactly for a known place without a callback; otherwise it returns the one live token of the place. */
  lemma PublishAnswers(t: Table, vaultId: string, location: Location, callback: bool)
    requires Exact(t)
    ensures var (t', r) := Publish(t, vaultId, location, callback);
            && t'.cancelled == t.cancelled
            && (r.Thrown? <==> location in Inner(t, vaultId) && !callback)
            && (r.Thrown? ==> t' == t)
            && (r.Returned? ==> Stored(t', vaultId, location, r.value) && r.value !in t'.cancelled)
            && forall v, l, n: nat :: (v, l) != (vaultId, location) ==> (Stored(t', v, l, n) <==> Stored(t, v, l, n))
  {
    ExactPublish(t, vaultId, location, callback);
  }

  /** Removing cancels the token of the place and no other; without one nothing changes. */
  lemma RemoveAnswers(t: Table, vaultId: string, location: Location)
    requires Exact(t)
    ensures var (t', r) := Remove(t, vaultId, location);
            && (r == Returned(true) <==> location in Inner(t, vaultId))
            && (r == Returned(false) <==> vaultId !in t.connections)
            && (r.Thrown? <==> vaultId in t.connections && location !in t.connections[vaultId])
            && (if r == Returned(true) then
                  && t'.cancelled == t.cancelled + {Inner(t, vaultId)[location]}
                  && Inner(t, vaultId)[location] !in t.cancelled && location !in Inner(t', vaultId)
                else t' == t)
            && forall v, l, n: nat :: (v, l) != (vaultId, location) ==> (Stored(t', v, l, n) <==> Stored(t, v, l, n))
  {
    if location in Inner(t, vaultId) {
      assert Stored(t, vaultId, location, Inner(t, vaultId)[location]);
    }
  }

  /** In every reachable table the uncancelled tokens are exactly the stored ones. */
  lemma {:induction false} ExactRun(t: Table, events: seq<Event>, u: Table)
    requires Exact(t) && Runs(t, events, u)
    ensures Exact(u)
    decreases |events|
  {
    if events != [] {
      var e := events[0];
      match e {
        case Published(vaultId, location, callback) => ExactPublish(t, vaultId, location, callback);
        case Removed(vaultId, location) => ExactRemove(t, vaultId, location);
        case Failed(token) => ExactRemove(t, t.origins[token].0, t.origins[token].1);
      }
      ExactRun(Next(t, e), events[1..], u);
    }
  }

  /** So two live tokens are never for the same vault and location. */
  lemma OneTokenPerPlace(events: seq<Event>, t: Table, m: nat, n: nat)
    requires Runs(EMPTY, events, t)
    requires m < |t.origins| && n < |t.origins| && m !in t.cancelled && n !in t.cancelled
    ensures t.origins[m] == t.origins[n] ==> m == n
  {
    ExactRun(EMPTY, events, t);
    assert Stored(t, t.origins[m].0, t.origins[m].1, m);
    assert Stored(t, t.origins[n].0, t.origins[n].1, n);
  }

  /** A stored token is the last one created for its place. */
  ghost predicate Latest(t: Table) {
    forall v, l, n: nat, m :: Stored(t, v, l, n) && n < m < |t.origins| ==> t.origins[m] != (v, l)
  }

  lemma LatestNext(t: Table, e: Event)
    requires Exact(t) && Latest(t) && Enabled(t, e)
    ensures Latest(Next(t, e))
  {
    var t' := Next(t, e);
    forall v, l, n: nat, m | Stored(t', v, l, n) && n < m < |t'.origins| ensures t'.origins[m] != (v, l) {
      if Stored(t, v, l, n) {
        assert m < |t.origins| ==> t.origins[m] != (v, l);
      }
    }
  }

  lemma {:induction false} LatestRun(t: Table, events: seq<Event>, u: Table)
    requires Exact(t) && Latest(t) && Runs(t, events, u)
    ensures Latest(u)
    decreases |events|
  {
    if events != [] {
      var (e, t') := (events[0], Next(t, events[0]));
      LatestNext(t, e);
      assert Runs(t, [e], t') by {
        assert [e][1..] == [];
      }
      ExactRun(t, [e], t');
      LatestRun(t', events[1..], u);
    }
  }

  /**
   In every reachable table a late error of a cancelled token cancels the token stored at
   its place, which was created later; with none stored it throws and changes nothing.
   */
  lemma LateErrorCancelsNewer(events: seq<Event>, t: Table, token: nat)
    requires Runs(EMPTY, events, t) && token < |t.origins| && token in t.cancelled
    ensures var (v, l) := t.origins[token];
            var t' := Next(t, Failed(token));
            if l in Inner(t, v) then Inner(t, v)[l] > token && t'.cancelled == t.cancelled + {Inner(t, v)[l]}
            else t' == t
  {
    ExactRun(EMPTY, events, t);
    LatestRun(EMPTY, events, t);
    var (v, l) := t.origins[token];
    if l in Inner(t, v) {
      assert Stored(t, v, l, Inner(t, v)[l]);
    }
  }

  // ---- the object ----

  type Connection = JsMap<Location, nat>

  function Paired(vaultId: string, slots: seq<Slot<Location, nat>>): seq<(string, Location)> {
    if slots == [] then []
    else
      var (last, front) := (slots[|slots| - 1], slots[..|slots| - 1]);
      Paired(vaultId, front) + if last.Live? then [(vaultId, last.key)] else []
  }

  function Listed(slots: seq<Slot<string, Connection>>): seq<(string, Location)> {
    if slots == [] then []
    else
      var (last, front) := (slots[|slots| - 1], slots[..|slots| - 1]);
      Listed(front) + if last.Live? then Paired(last.key, last.value.slots) else []
  }

  lemma {:induction false} PairedExactly(vaultId: string, slots: seq<Slot<Location, nat>>)
    requires Distinct(slots)
    ensures NoRepeats(Paired(vaultId, slots))
    ensures forall p :: p in Paired(vaultId, slots) <==> p.0 == vaultId && p.1 in Contents(slots)
  {
    if slots != [] {
      var (last, front) := (slots[|slots| - 1], slots[..|slots| - 1]);
      PairedExactly(vaultId, front);
      if last.Live? {
        ContentsKey(front, last.key);
      }
    }
  }

  /** Both listings follow the order of the maps. */
  lemma {:induction false} PairedInOrder(vaultId: string, slots: seq<Slot<Location, nat>>)
    ensures |Paired(vaultId, slots)| == |Entries(slots)|
    ensures forall i :: 0 <= i < |Entries(slots)| ==> Paired(vaultId, slots)[i] == (vaultId, Entries(slots)[i].0)
  {
    if slots != [] {
      var (last, front) := (slots[|slots| - 1], slots[..|slots| - 1]);
      PairedInOrder(vaultId, front);
      assert slots == front + [last];
      EntriesInOrder(front, [last]);
      EntriesOne(last);
    }
  }

  lemma {:induction false} ListedInOrder(one: seq<Slot<string, Connection>>, other: seq<Slot<string, Connection>>)
    ensures Listed(one + other) == Listed(one) + Listed(other)
    decreases |other|
  {
    if other == [] {
      assert one + other == one;
    } else {
      var (all, last, front) := (one + other, other[|other| - 1], other[..|other| - 1]);
      assert all[..|all| - 1] == one + front && all[|all| - 1] == last;
      ListedInOrder(one, front);
      var paired := if last.Live? then Paired(last.key, last.value.slots) else [];
      assert Listed(all) == Listed(one) + Listed(front) + paired;
    }
  }

  /** The listing names every stored pair, and names it once. */
  lemma {:induction false} ListedExactly(slots: seq<Slot<string, Connection>>)
    requires Distinct(slots)
    requires forall i :: 0 <= i < |slots| && slots[i].Live? ==> slots[i].value.Valid()
    ensures NoRepeats(Listed(slots))
    ensures forall p :: p in Listed(slots) <==> p.0 in Contents(slots) && p.1 in Contents(slots)[p.0].View()
  {
    if slots != [] {
      var (last, front) := (slots[|slots| - 1], slots[..|slots| - 1]);
      ListedExactly(front);
      if last.Live? {
        ContentsKey(front, last.key);
        PairedExactly(last.key, last.value.slots);
        var (a, b) := (Listed(front), Paired(last.key, last.value.slots));
        forall i, j | 0 <= i < j < |a + b| ensures (a + b)[i] != (a + b)[j] {
          if i < |a| <= j {
            assert a[i] in a && b[j - |a|] in b;
          }
        }
      }
    }
  }

  /** The map object of one vault: the table and whoever looked it up share it. */
  class ConnectionMap {
    var tokens: Connection

    constructor ()
      ensures tokens == JsMap([])
    {
      tokens := JsMap([]);
    }
  }

  ghost function Objects(m: map<string, ConnectionMap>): set<ConnectionMap> {
    set v | v in m :: m[v]
  }

  ghost function Views(m: map<string, ConnectionMap>): map<string, map<Location, nat>>
    reads Objects(m)
  {
    map v | v in m :: m[v].tokens.View()
  }

  lemma ViewsUpdate(m: map<string, ConnectionMap>, vaultId: string, inner: ConnectionMap)
    ensures Views(m[vaultId := inner]) == Views(m)[vaultId := inner.tokens.View()]
  {
  }

  lemma AllStored(slots: seq<Slot<string, ConnectionMap>>)
    requires Distinct(slots)
    ensures forall v :: v in Contents(slots) ==> allocated(Contents(slots)[v])
  {
    forall v | v in Contents(slots) ensures allocated(Contents(slots)[v]) {
      ContentsKey(slots, v);
      var i :| 0 <= i < |slots| && slots[i].Live? && slots[i].key == v;
      ContentsAt(slots, i);
    }
  }

  lemma UpdateTwice<K, V>(m: map<K, V>, k: K, v: V, w: V)
    ensures m[k := v][k := w] == m[k := w]
  {
  }

  /** The slots with every map object replaced by what it holds now. */
  ghost function Snapshot(slots: seq<Slot<string, ConnectionMap>>): (r: seq<Slot<string, Connection>>)
    reads set i | 0 <= i < |slots| && slots[i].Live? :: slots[i].value
    ensures |r| == |slots|
    ensures forall i :: 0 <= i < |r| ==> r[i] == if slots[i].Live? then Live(slots[i].key, slots[i].value.tokens) else Blank
  {
    seq(|slots|, i requires 0 <= i < |slots|
                   reads set i | 0 <= i < |slots| && slots[i].Live? :: slots[i].value
                 => if slots[i].Live? then Live(slots[i].key, slots[i].value.tokens) else Blank)
  }

  lemma {:induction false} SnapshotContents(slots: seq<Slot<string, ConnectionMap>>)
    ensures Contents(Snapshot(slots)) == map v | v in Contents(slots) :: Contents(slots)[v].tokens
  {
    if slots != [] {
      var front := slots[..|slots| - 1];
      SnapshotContents(front);
      assert Snapshot(slots)[..|slots| - 1] == Snapshot(front);
    }
  }

  class ConnectionService {
    var connections: JsMap<string, ConnectionMap>
    var origins: seq<(string, Location)>
    var cancelled: set<nat>

    ghost function Maps(): set<ConnectionMap>
      reads this
    {
      Objects(connections.View())
    }

    /** Every vault has a map object of its own. */
    ghost predicate Valid()
      reads this, Maps()
    {
      var m := connections.View();
      && connections.Valid()
      && (forall v :: v in m ==> m[v].tokens.Valid())
      && (forall v, w :: v in m && w in m && v != w ==> m[v] != m[w])
    }

    ghost function State(): Table
      reads this, Maps()
    {
      Table(Views(connections.View()), origins, cancelled)
    }

    constructor ()
      ensures Valid() && State() == EMPTY
    {
      connections, origins, cancelled := JsMap([]), [], {};
    }

    /** The object the table holds for the vault, or a fresh one that it holds from now on. */
    method GetOrCreateMap(vaultId: string) returns (inner: ConnectionMap)
      requires Valid()
      modifies this`connections
      ensures Valid() && vaultId in connections.View() && inner == connections.View()[vaultId]
      ensures if vaultId in old(connections.View()) then connections == old(connections)
              else fresh(inner) && connections.View() == old(connections.View())[vaultId := inner]
      ensures inner.tokens.View() == Inner(old(State()), vaultId)
      ensures Views(connections.View()) == old(Views(connections.View()))[vaultId := inner.tokens.View()]
    {
      if Has(connections, vaultId) {
        inner := Get(connections, vaultId);
        assert Views(connections.View())[vaultId := inner.tokens.View()] == Views(connections.View());
      } else {
        inner := AddMap(vaultId);
      }
    }

    method AddMap(vaultId: string) returns (inner: ConnectionMap)
      requires Valid() && vaultId !in connections.View()
      modifies this`connections
      ensures Valid() && fresh(inner) && connections.View() == old(connections.View())[vaultId := inner]
      ensures inner.tokens.View() == map[]
      ensures Views(connections.View()) == old(Views(connections.View()))[vaultId := inner.tokens.View()]
    {
      ghost var (m, views) := (connections.View(), Views(connections.View()));
      AllStored(connections.slots);
      inner := new ConnectionMap();
      assert forall v :: v in m ==> m[v] != inner;
      connections := Set(connections, vaultId, inner);
      assert Views(m) == views;
      ViewsUpdate(m, vaultId, inner);
    }

    /** A change of the shared object is a change of the table, at one vault. */
    method Update(ghost vaultId: string, inner: ConnectionMap, tokens: Connection)
      requires Valid() && vaultId in connections.View() && inner == connections.View()[vaultId] && tokens.Valid()
      modifies inner
      ensures Valid() && Views(connections.View()) == old(Views(connections.View()))[vaultId := tokens.View()]
    {
      inner.tokens := tokens;
    }

    method PublishDatabaseConnection(vaultId: string, location: Location, callback: bool) returns (token: Attempt<nat>)
      requires Valid()
      modifies this, Maps()
      ensures Valid()
      ensures (State(), token) == Publish(old(State()), vaultId, location, callback)
    {
      ghost var before := State();
      var inner := GetOrCreateMap(vaultId);
      if Has(inner.tokens, location) {
        assert before.connections[vaultId := inner.tokens.View()] == before.connections;
        token := if callback then Returned(Get(inner.tokens, location)) else Thrown;
      } else {
        ghost var found := inner.tokens.View();
        var n := AddToken(vaultId, location, inner);
        UpdateTwice(before.connections, vaultId, found, found[location := n]);
        token := Returned(n);
      }
    }

    /** A new token for a place that has none, set in the object just looked up. */
    method AddToken(vaultId: string, location: Location, inner: ConnectionMap) returns (n: nat)
      requires Valid() && vaultId in connections.View() && inner == connections.View()[vaultId]
      modifies this`origins, inner
      ensures Valid() && n == old(|origins|) && origins == old(origins) + [(vaultId, location)]
      ensures Views(connections.View()) ==
              old(Views(connections.View()))[vaultId := old(inner.tokens.View())[location := n]]
    {
      ghost var found := inner.tokens.View();
      n := |origins|;
      var longer := Set(inner.tokens, location, n);
      assert longer.View() == found[location := n];
      Update(vaultId, inner, longer);
      origins := origins + [(vaultId, location)];
    }

    method RemoveRemoteConnection(vaultId: string, location: Location) returns (r: Attempt<bool>)
      requires Valid()
      modifies this, Maps()
      ensures Valid()
      ensures (State(), r) == Remove(old(State()), vaultId, location)
    {
      if !Has(connections, vaultId) {
        return Returned(false);
      }
      var inner := Get(connections, vaultId);
      if !Has(inner.tokens, location) {
        return Thrown;
      }
      cancelled := cancelled + {Get(inner.tokens, location)};
      Update(vaultId, inner, Delete(inner.tokens, location));
      r := Returned(true);
    }

    method GetAllConnections() returns (all: seq<(string, Location)>)
      requires Valid()
      ensures NoRepeats(all)
      ensures forall v, l :: (v, l) in all <==> v in State().connections && l in State().connections[v]
    {
      all := [];
      var i := 0;
      ghost var slots := Snapshot(connections.slots);
      while i < |connections.slots|
        invariant i <= |connections.slots| && all == Listed(slots[..i])
      {
        var (slot, next) := (connections.slots[i], i + 1);
        assert slots[..next][..i] == slots[..i];
        if slot.Live? {
          var (inner, j) := (slot.value.tokens.slots, 0);
          while j < |inner|
            invariant j <= |inner| && all == Listed(slots[..i]) + Paired(slot.key, inner[..j])
          {
            assert inner[..j + 1][..j] == inner[..j];
            if inner[j].Live? {
              all := all + [(slot.key, inner[j].key)];
            }
            j := j + 1;
          }
          assert inner[..j] == inner;
        }
        i := next;
      }
      assert slots[..i] == slots;
      SnapshotContents(connections.slots);
      SnapshotValid();
      ListedExactly(slots);
    }

    lemma SnapshotValid()
      requires Valid()
      ensures var slots := Snapshot(connections.slots);
              Distinct(slots) && forall i :: 0 <= i < |slots| && slots[i].Live? ==> slots[i].value.Valid()
    {
      var slots := Snapshot(connections.slots);
      forall i | 0 <= i < |slots| && slots[i].Live? ensures slots[i].value.Valid() {
        ContentsAt(connections.slots, i);
        assert connections.View()[connections.slots[i].key].tokens.Valid();
      }
    }
  }
}
