/**
 The registry object itself: its two insertion-ordered maps, the operations that update
 them in place, and the two loops that drop a vault's nicknames.
 */
module Vaults {
  import opened Outcomes
  import opened JsMaps
  import opened Registries

  // ---- dropping the nicknames of one vault ----

  /** The slots with every nickname of `id` blanked and nothing else touched. */
  function Without(slots: seq<Slot<string, string>>, id: string): (r: seq<Slot<string, string>>)
    ensures |r| == |slots|
    ensures forall i :: 0 <= i < |r| ==> r[i] == if slots[i].Live? && slots[i].value == id then Blank else slots[i]
  {
    seq(|slots|, i requires 0 <= i < |slots| => if slots[i].Live? && slots[i].value == id then Blank else slots[i])
  }

  /** The nicknames of `id` in iteration order. */
  function NamesOf(slots: seq<Slot<string, string>>, id: string): seq<string> {
    if slots == [] then []
    else
      var (last, front) := (slots[|slots| - 1], slots[..|slots| - 1]);
      NamesOf(front, id) + if last.Live? && last.value == id then [last.key] else []
  }

  lemma {:induction false} WithoutContents(slots: seq<Slot<string, string>>, id: string)
    requires Distinct(slots)
    ensures Distinct(Without(slots, id))
    ensures Contents(Without(slots, id)) == map n | n in Contents(slots) && Contents(slots)[n] != id :: Contents(slots)[n]
  {
    if slots != [] {
      var n := |slots| - 1;
      WithoutContents(slots[..n], id);
      assert Without(slots, id)[..n] == Without(slots[..n], id);
      if slots[n].Live? {
        ContentsKey(slots[..n], slots[n].key);
      }
    }
  }

  /** The names are exactly those mapped to `id`, each once. */
  lemma {:induction false} NamesOfExactly(slots: seq<Slot<string, string>>, id: string)
    requires Distinct(slots)
    ensures forall name :: name in NamesOf(slots, id) <==> name in Contents(slots) && Contents(slots)[name] == id
    ensures forall i, j :: 0 <= i < j < |NamesOf(slots, id)| ==> NamesOf(slots, id)[i] != NamesOf(slots, id)[j]
  {
    if slots != [] {
      var n := |slots| - 1;
      NamesOfExactly(slots[..n], id);
      if slots[n].Live? {
        ContentsKey(slots[..n], slots[n].key);
      }
    }
  }

  /** They are listed in the order of the map. */
  lemma {:induction false} NamesInOrder(slots: seq<Slot<string, string>>, id: string)
    ensures NamesOf(slots, id) == NamesIn(Entries(slots), id)
  {
    if slots != [] {
      var (front, last) := (slots[..|slots| - 1], slots[|slots| - 1]);
      NamesInOrder(front, id);
      assert slots == front + [last];
      EntriesInOrder(front, [last]);
      EntriesOne(last);
      NamesInMore(Entries(front), Entries([last]), id);
    }
  }

  function NamesIn(entries: seq<(string, string)>, id: string): seq<string> {
    if entries == [] then []
    else (if entries[0].1 == id then [entries[0].0] else []) + NamesIn(entries[1..], id)
  }

  lemma {:induction false} NamesInMore(one: seq<(string, string)>, other: seq<(string, string)>, id: string)
    requires |other| <= 1
    ensures NamesIn(one + other, id) ==
            NamesIn(one, id) + if other != [] && other[0].1 == id then [other[0].0] else []
  {
    if one == [] {
      assert one + other == other;
      assert other != [] ==> NamesIn(other[1..], id) == [];
    } else {
      assert (one + other)[1..] == one[1..] + other;
      NamesInMore(one[1..], other, id);
    }
  }

  function Filtered(entries: seq<(string, string)>, id: string): seq<(string, string)> {
    if entries == [] then []
    else (if entries[0].1 != id then [entries[0]] else []) + Filtered(entries[1..], id)
  }

  /** The entries left are the old ones that do not name the vault, in their old order. */
  lemma {:induction false} WithoutKeepsOrder(slots: seq<Slot<string, string>>, id: string)
    ensures Entries(Without(slots, id)) == Filtered(Entries(slots), id)
  {
    if slots != [] {
      assert Without(slots, id)[1..] == Without(slots[1..], id);
      WithoutKeepsOrder(slots[1..], id);
      var rest := Entries(slots[1..]);
      if slots[0].Live? {
        var entry := (slots[0].key, slots[0].value);
        assert Entries(slots) == [entry] + rest;
        assert Filtered([entry] + rest, id) == (if entry.1 != id then [entry] else []) + Filtered(rest, id);
      } else {
        assert Entries(slots) == rest;
      }
    }
  }

  // ---- the object ----

  datatype Record = Record(vaultName: string, vaultId: string)

  /** Loading a list of records one after another. */
  function LoadAll(r: Registry, records: seq<Record>): Registry
    decreases |records|
  {
    if records == [] then r
    else LoadAll(LoadVault(r, records[0].vaultName, records[0].vaultId).0, records[1..])
  }

  class VaultService {
    var vaultIdMap: JsMap<string, string>
    var vaultMap: JsMap<string, Db>
    /** Creations handed to the admin service, if one is attached. */
    var adminAttached: bool
    var recorded: seq<Record>

    ghost predicate Valid()
      reads this
    {
      vaultIdMap.Valid() && vaultMap.Valid()
    }

    ghost function Reg(): Registry
      reads this
    {
      Registry(vaultIdMap.View(), vaultMap.View())
    }

    constructor ()
      ensures Valid() && Reg() == EMPTY && !adminAttached && recorded == []
    {
      vaultIdMap, vaultMap, adminAttached, recorded := JsMap([]), JsMap([]), false, [];
    }

    method AddEntry(name: string, id: string, db: Db)
      requires Valid() && db == Db(name, id)
      modifies this`vaultIdMap, this`vaultMap
      ensures Valid() && Reg() == SetEntry(old(Reg()), name, id)
    {
      vaultMap := Set(vaultMap, id, db);
      vaultIdMap := Set(vaultIdMap, name, id);
    }

    /** Creation is recorded just before the entry is made, and only then. */
    method Create(name: string, id: string) returns (reply: Reply)
      requires Valid()
      modifies this
      ensures Valid() && (Reg(), reply) == CreateVault(old(Reg()), name, id)
      ensures adminAttached == old(adminAttached)
      ensures recorded == old(recorded) + if reply.Opened? && adminAttached then [Record(name, id)] else []
    {
      if Has(vaultIdMap, name) || Has(vaultMap, id) {
        return Conflict;
      }
      if id == "" {
        return Failed;
      }
      var db := Db(name, id);
      if adminAttached {
        recorded := recorded + [Record(name, id)];
      }
      AddEntry(name, id, db);
      reply := Opened(db);
    }

    method Link(name: string, id: string) returns (reply: Reply)
      requires Valid()
      modifies this
      ensures Valid() && (Reg(), reply) == LinkVault(old(Reg()), name, id)
      ensures adminAttached == old(adminAttached)
      ensures recorded == old(recorded) +
              if reply.Opened? && id !in old(Reg()).vaults && adminAttached then [Record(name, id)] else []
    {
      if !Has(vaultMap, id) {
        reply := Create(name, id);
        return;
      }
      vaultIdMap := Set(vaultIdMap, name, id);
      reply := Opened(Get(vaultMap, id));
    }

    method Load(name: string, id: string) returns (reply: Reply)
      requires Valid()
      modifies this`vaultIdMap, this`vaultMap
      ensures Valid() && (Reg(), reply) == LoadVault(old(Reg()), name, id)
    {
      if Has(vaultIdMap, name) {
        return Conflict;
      } else if Has(vaultMap, id) {
        return Conflict;
      }
      if id == "" {
        return Failed;
      }
      AddEntry(name, id, Db(name, id));
      reply := Opened(Db(name, id));
    }

    method UseAdminService(records: seq<Record>)
      requires Valid()
      modifies this
      ensures Valid() && adminAttached && Reg() == LoadAll(old(Reg()), records) && recorded == old(recorded)
    {
      adminAttached := true;
      var i := 0;
      while i < |records|
        invariant i <= |records| && Valid() && adminAttached && recorded == old(recorded)
        invariant LoadAll(Reg(), records[i..]) == LoadAll(old(Reg()), records)
      {
        ghost var rest := records[i..];
        var _ := Load(records[i].vaultName, records[i].vaultId);
        i := i + 1;
        assert rest[1..] == records[i..];
      }
    }

    method GetVaultByName(name: string) returns (db: Option<Db>)
      requires Valid()
      ensures db == VaultByName(Reg(), name)
    {
      if !Has(vaultIdMap, name) || Get(vaultIdMap, name) == "" {
        return None;
      }
      var id := Get(vaultIdMap, name);
      db := if Has(vaultMap, id) then Some(Get(vaultMap, id)) else None;
    }

    /** `deleteVaultById` after the await: unmaps while iterating the live map. */
    method FinishDeleteVaultById(id: string) returns (deletedVaults: seq<string>)
      requires Valid()
      modifies this`vaultIdMap, this`vaultMap
      ensures Valid() && Reg() == Unregister(old(Reg()), id)
      ensures vaultIdMap.slots == Without(old(vaultIdMap.slots), id) && vaultMap == Delete(old(vaultMap), id)
      ensures deletedVaults == NamesOf(old(vaultIdMap.slots), id)
    {
      ghost var before := vaultIdMap.slots;
      deletedVaults := [];
      var i := 0;
      while i < |vaultIdMap.slots|
        invariant i <= |vaultIdMap.slots| == |before| && Valid() && vaultMap == old(vaultMap)
        invariant forall j :: 0 <= j < |before| ==>
                    vaultIdMap.slots[j] == if j < i && before[j].Live? && before[j].value == id then Blank else before[j]
        invariant deletedVaults == NamesOf(before[..i], id)
      {
        var (slot, next) := (vaultIdMap.slots[i], i + 1);
        assert before[..next][..i] == before[..i];
        if slot.Live? && slot.value == id {
          vaultIdMap := Delete(vaultIdMap, slot.key);
          deletedVaults := deletedVaults + [slot.key];
        }
        i := next;
      }
      assert before[..i] == before;
      assert vaultIdMap.slots == Without(before, id);
      WithoutContents(before, id);
      vaultMap := Delete(vaultMap, id);
    }

    method QueueNames(id: string) returns (mappedNames: seq<string>)
      ensures mappedNames == NamesOf(vaultIdMap.slots, id)
    {
      mappedNames := [];
      var i := 0;
      while i < |vaultIdMap.slots|
        invariant i <= |vaultIdMap.slots| && mappedNames == NamesOf(vaultIdMap.slots[..i], id)
      {
        assert vaultIdMap.slots[..i + 1][..i] == vaultIdMap.slots[..i];
        var slot := vaultIdMap.slots[i];
        if slot.Live? && slot.value == id {
          mappedNames := mappedNames + [slot.key];
        }
        i := i + 1;
      }
      assert vaultIdMap.slots[..i] == vaultIdMap.slots;
    }

    method DropNames(names: seq<string>)
      requires vaultIdMap.Valid()
      modifies this`vaultIdMap
      ensures vaultIdMap.Valid() && |vaultIdMap.slots| == |old(vaultIdMap.slots)|
      ensures forall j :: 0 <= j < |vaultIdMap.slots| ==>
                var slot := old(vaultIdMap.slots)[j];
                vaultIdMap.slots[j] == if slot.Live? && slot.key in names then Blank else slot
    {
      ghost var before := vaultIdMap.slots;
      var n := 0;
      while n < |names|
        invariant n <= |names| && vaultIdMap.Valid() && |vaultIdMap.slots| == |before|
        invariant forall j :: 0 <= j < |before| ==>
                    vaultIdMap.slots[j] == if before[j].Live? && before[j].key in names[..n] then Blank else before[j]
      {
        vaultIdMap := Delete(vaultIdMap, names[n]);
        assert names[..n + 1] == names[..n] + [names[n]];
        n := n + 1;
      }
      assert names[..n] == names;
    }

    /** The handle of `_getVaultById` before its await: collects the names, then unmaps them one by one. */
    method DeleteThroughHandle(id: string)
      requires Valid()
      modifies this`vaultIdMap, this`vaultMap
      ensures Valid() && Reg() == Unregister(old(Reg()), id)
      ensures vaultIdMap.slots == Without(old(vaultIdMap.slots), id) && vaultMap == Delete(old(vaultMap), id)
    {
      ghost var before := vaultIdMap.slots;
      var mappedNames := QueueNames(id);
      NamesOfExactly(before, id);
      forall j | 0 <= j < |before| && before[j].Live? ensures before[j].key in mappedNames <==> before[j].value == id {
        ContentsAt(before, j);
      }
      DropNames(mappedNames);
      assert vaultIdMap.slots == Without(before, id);
      WithoutContents(before, id);
      vaultMap := Delete(vaultMap, id);
    }
  }
}
