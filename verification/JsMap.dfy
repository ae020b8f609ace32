/**
 The ECMAScript `Map` (section 24.1 of ECMA-262) as a value: a list of slots in
 insertion order.  Deleting a key blanks its slot, setting a new key appends one,
 setting a known key overwrites its slot, and an iterator is an index into the
 list that skips blanks, so a loop sees entries appended while it runs.
 */
module JsMaps {
  datatype Slot<K, V> = Live(key: K, value: V) | Blank

  /** Live keys are pairwise distinct. */
  ghost predicate Distinct<K, V>(slots: seq<Slot<K, V>>) {
    forall i, j :: 0 <= i < j < |slots| && slots[i].Live? && slots[j].Live? ==> slots[i].key != slots[j].key
  }

  /** The map the slots denote. */
  ghost function Contents<K, V>(slots: seq<Slot<K, V>>): map<K, V> {
    if slots == [] then map[]
    else
      var last := slots[|slots| - 1];
      var m := Contents(slots[..|slots| - 1]);
      if last.Live? then m[last.key := last.value] else m
  }

  lemma {:induction false} ContentsKey<K, V>(slots: seq<Slot<K, V>>, k: K)
    ensures k in Contents(slots) <==> exists i :: 0 <= i < |slots| && slots[i].Live? && slots[i].key == k
  {
    if slots != [] {
      var n := |slots| - 1;
      ContentsKey(slots[..n], k);
      if k in Contents(slots[..n]) {
        var i :| 0 <= i < n && slots[..n][i].Live? && slots[..n][i].key == k;
        assert slots[i].Live? && slots[i].key == k;
      }
      if i :| 0 <= i < |slots| && slots[i].Live? && slots[i].key == k && i < n {
        assert slots[..n][i].Live? && slots[..n][i].key == k;
      }
    }
  }

  lemma {:induction false} ContentsAt<K, V>(slots: seq<Slot<K, V>>, i: nat)
    requires Distinct(slots) && i < |slots| && slots[i].Live?
    ensures slots[i].key in Contents(slots) && Contents(slots)[slots[i].key] == slots[i].value
  {
    var n := |slots| - 1;
    if i < n {
      assert slots[..n][i] == slots[i];
      ContentsAt(slots[..n], i);
    }
  }

  /** What one slot update does to the map: overwrite keeps the key, `Blank` drops it. */
  lemma {:induction false} ContentsUpdate<K, V>(slots: seq<Slot<K, V>>, i: nat, s: Slot<K, V>)
    requires Distinct(slots) && i < |slots| && slots[i].Live?
    requires s.Live? ==> s.key == slots[i].key
    ensures var m := Contents(slots);
            Contents(slots[i := s]) == if s.Live? then m[s.key := s.value] else m - {slots[i].key}
  {
    var n := |slots| - 1;
    if i == n {
      assert slots[i := s][..n] == slots[..n];
      ContentsKey(slots[..n], slots[i].key);
    } else {
      assert slots[i := s][..n] == slots[..n][i := s];
      ContentsUpdate(slots[..n], i, s);
    }
  }

  /** The live entries in iteration order. */
  function Entries<K, V>(slots: seq<Slot<K, V>>): seq<(K, V)> {
    if slots == [] then []
    else (if slots[0].Live? then [(slots[0].key, slots[0].value)] else []) + Entries(slots[1..])
  }

  lemma {:induction false} EntriesInOrder<K, V>(one: seq<Slot<K, V>>, other: seq<Slot<K, V>>)
    ensures Entries(one + other) == Entries(one) + Entries(other)
  {
    if one == [] {
      assert one + other == other;
    } else {
      assert (one + other)[1..] == one[1..] + other;
      EntriesInOrder(one[1..], other);
    }
  }

  lemma EntriesOne<K, V>(s: Slot<K, V>)
    ensures Entries([s]) == if s.Live? then [(s.key, s.value)] else []
  {
    assert Entries([s][1..]) == [];
  }

  /** Index of the slot holding `k`, or the length when there is none. */
  function Find<K(==), V>(slots: seq<Slot<K, V>>, k: K): (n: nat)
    ensures n <= |slots|
    ensures n < |slots| ==> slots[n].Live? && slots[n].key == k
    ensures n == |slots| ==> forall i :: 0 <= i < |slots| && slots[i].Live? ==> slots[i].key != k
  {
    if slots == [] then 0
    else if slots[0].Live? && slots[0].key == k then 0
    else 1 + Find(slots[1..], k)
  }

  /** `after` evolved from `before` without moving, re-keying or reviving a slot. */
  ghost predicate KeepsSlots<K, V>(before: seq<Slot<K, V>>, after: seq<Slot<K, V>>) {
    && |before| <= |after|
    && forall i :: 0 <= i < |before| && after[i].Live? ==> before[i].Live? && before[i].key == after[i].key
  }

  datatype JsMap<K, V> = JsMap(slots: seq<Slot<K, V>>) {
    ghost predicate Valid() {
      Distinct(slots)
    }

    ghost function View(): map<K, V> {
      Contents(slots)
    }
  }

  function Has<K(==), V>(m: JsMap<K, V>, k: K): (r: bool)
    ensures r <==> k in m.View()
  {
    ContentsKey(m.slots, k);
    Find(m.slots, k) < |m.slots|
  }

  function Get<K(==), V>(m: JsMap<K, V>, k: K): (v: V)
    requires m.Valid() && k in m.View()
    ensures v == m.View()[k]
  {
    ContentsKey(m.slots, k);
    ContentsAt(m.slots, Find(m.slots, k));
    m.slots[Find(m.slots, k)].value
  }

  function Set<K(==), V>(m: JsMap<K, V>, k: K, v: V): (r: JsMap<K, V>)
    requires m.Valid()
    ensures r.Valid() && r.View() == m.View()[k := v]
    ensures KeepsSlots(m.slots, r.slots)
    ensures forall j :: 0 <= j < |m.slots| && m.slots[j].Live? ==> r.slots[j].Live?
    ensures |r.slots| == |m.slots| + if k in m.View() then 0 else 1
  {
    ContentsKey(m.slots, k);
    var i := Find(m.slots, k);
    if i < |m.slots| then
      ContentsUpdate(m.slots, i, Live(k, v));
      JsMap(m.slots[i := Live(k, v)])
    else
      var slots := m.slots + [Live(k, v)];
      assert slots[..i] == m.slots;
      JsMap(slots)
  }

  function Delete<K(==), V>(m: JsMap<K, V>, k: K): (r: JsMap<K, V>)
    requires m.Valid()
    ensures r.Valid() && r.View() == m.View() - {k}
    ensures KeepsSlots(m.slots, r.slots) && |r.slots| == |m.slots|
    ensures forall j :: 0 <= j < |m.slots| ==>
              r.slots[j] == if m.slots[j].Live? && m.slots[j].key == k then Blank else m.slots[j]
  {
    ContentsKey(m.slots, k);
    var i := Find(m.slots, k);
    if i < |m.slots| then
      ContentsUpdate(m.slots, i, Blank);
      JsMap(m.slots[i := Blank])
    else m
  }
}
