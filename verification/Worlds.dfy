/**
 Registry, stored documents and the clients' work in progress, seen without what the
 stored bytes mean: who may write where, and which judgement about contents survives.
 */
module Worlds {
  import opened Outcomes
  import opened Bytes
  import opened Registries
  import opened Storage

  /** What a client holds after fetching a vault: the database it read, its key, and the private key found inside. */
  datatype Draft = Draft(db: Db, key: Buffer, sk: Buffer)

  /** A content on its way to a store. */
  datatype Saving = Saving(db: Db, raw: Buffer)

  /** `destroying` names the stores whose vault was deleted and whose destruction has not finished. */
  datatype World = World(
    reg: Registry, disk: map<string, Doc>, drafts: map<nat, Draft>, writes: map<nat, Saving>, destroying: set<string>)

  /** Registers a new vault and stores its first content, unless its store already holds one. */
  function OpenStore(reg: Registry, disk: map<string, Doc>, name: string, id: string, raw: Buffer)
    : (Registry, map<string, Doc>, bool)
  {
    if VaultByName(reg, name).Some? then (reg, disk, false)
    else
      var (reg', reply) := CreateVault(reg, name, id);
      if !reply.Opened? then (reg, disk, false)
      else if DocOf(disk, name).Doc? then (reg', disk, false)
      else (reg', disk[name := Doc(1, raw)], true)
  }

  /** A store that could be opened is found under its name and holds just that content. */
  lemma OpenedStore(reg: Registry, disk: map<string, Doc>, name: string, id: string, raw: Buffer)
    ensures var (reg', disk', ok) := OpenStore(reg, disk, name, id, raw);
            ok ==> VaultByName(reg', name) == Some(Db(name, id)) && DocOf(disk', name) == Doc(1, raw)
  {
  }

  function Created(s: World, name: string, id: string, raw: Buffer): World {
    var (reg, disk, _) := OpenStore(s.reg, s.disk, name, id, raw);
    s.(reg := reg, disk := disk)
  }

  function Linked(s: World, name: string, id: string): World {
    s.(reg := LinkVault(s.reg, name, id).0)
  }

  /** A saving client lets go of its draft; the content is on its way if it got that far. */
  function Sent(s: World, k: nat, w: Option<Saving>): World {
    World(s.reg, s.disk, s.drafts - {k}, if w.Some? then s.writes[k := w.value] else s.writes, s.destroying)
  }

  function Landed(s: World, k: nat, wins: bool): World
    requires k in s.writes
  {
    var w := s.writes[k];
    var disk := if wins then s.disk[w.db.store := Written(DocOf(s.disk, w.db.store), w.raw)] else s.disk;
    World(s.reg, disk, s.drafts, s.writes - {k}, s.destroying)
  }

  /** `onDeleteVault`: unregistered at once, destroyed later. */
  function Deleted(s: World, name: string): World {
    var db := VaultByName(s.reg, name);
    if db.None? then s
    else s.(reg := Unregister(s.reg, s.reg.names[name]), destroying := s.destroying + {db.value.store})
  }

  /** The store is gone, and with it every handle on it. */
  function Destroyed(s: World, store: string): World {
    World(s.reg, s.disk - {store}, map k | k in s.drafts && s.drafts[k].db.store != store :: s.drafts[k],
          map k | k in s.writes && s.writes[k].db.store != store :: s.writes[k], s.destroying - {store})
  }

  // ---- soundness under a judgement of contents ----

  /** Whether a content may be stored for a vault id. */
  type Judge = (string, Buffer) -> bool

  /** Whether a password and the private key found under it belong to a vault id. */
  type Owner = (string, Buffer, Buffer) -> bool

  /** The database is live, or its store is about to disappear. */
  predicate Owned(s: World, db: Db) {
    db.store in s.destroying || (db.vaultId in s.reg.vaults && s.reg.vaults[db.vaultId] == db)
  }

  ghost predicate RegistrySound(s: World) {
    Integral(s.reg) && Anchored(s.reg) && forall id :: id in s.reg.vaults ==> s.reg.vaults[id].store !in s.destroying
  }

  /** Live vaults hold nothing or content judged good for them; other stores are empty or being destroyed. */
  ghost predicate DiskSound(judge: Judge, s: World) {
    forall store :: store in s.disk && s.disk[store].Doc? && store !in s.destroying ==>
      && store in s.reg.names && s.reg.names[store] in s.reg.vaults
      && s.reg.vaults[s.reg.names[store]].store == store
      && judge(s.reg.names[store], s.disk[store].content)
  }

  ghost predicate ClientsSound(judge: Judge, owns: Owner, s: World) {
    && (forall k :: k in s.drafts ==> owns(s.drafts[k].db.vaultId, s.drafts[k].key, s.drafts[k].sk) && Owned(s, s.drafts[k].db))
    && (forall k :: k in s.writes ==> judge(s.writes[k].db.vaultId, s.writes[k].raw) && Owned(s, s.writes[k].db))
  }

  ghost predicate Sound(judge: Judge, owns: Owner, s: World) {
    RegistrySound(s) && DiskSound(judge, s) && ClientsSound(judge, owns, s)
  }

  /** What a live vault holds is judged good for it. */
  lemma LiveJudged(judge: Judge, s: World, id: string)
    requires RegistrySound(s) && DiskSound(judge, s) && id in s.reg.vaults
    ensures var doc := DocOf(s.disk, s.reg.vaults[id].store);
            doc.Doc? ==> judge(id, doc.content)
  {
    assert s.reg.names[s.reg.vaults[id].store] == id;
  }

  lemma OwnedStays(judge: Judge, owns: Owner, s: World, t: World)
    requires ClientsSound(judge, owns, s) && t.drafts == s.drafts && t.writes == s.writes
    requires forall db :: Owned(s, db) ==> Owned(t, db)
    ensures ClientsSound(judge, owns, t)
  {
  }

  lemma CreatedSound(judge: Judge, owns: Owner, s: World, name: string, id: string, raw: Buffer)
    requires Sound(judge, owns, s) && name !in s.destroying && judge(id, raw)
    ensures Sound(judge, owns, Created(s, name, id, raw))
  {
    var t := Created(s, name, id, raw);
    if t.reg != s.reg {
      assert name !in s.reg.names && id !in s.reg.vaults && id != "" && t.reg == SetEntry(s.reg, name, id);
      CreatedRegistry(s, name, id);
      CreatedDisk(judge, s, name, id, raw);
      forall db | Owned(s, db) ensures Owned(t, db) {
      }
      OwnedStays(judge, owns, s, t);
    }
  }

  lemma CreatedRegistry(s: World, name: string, id: string)
    requires RegistrySound(s) && name !in s.destroying && name !in s.reg.names && id !in s.reg.vaults && id != ""
    ensures RegistrySound(s.(reg := SetEntry(s.reg, name, id)))
  {
  }

  /** The store of a fresh name is empty, and gains content judged good. */
  lemma CreatedDisk(judge: Judge, s: World, name: string, id: string, raw: Buffer)
    requires DiskSound(judge, s) && name !in s.destroying && judge(id, raw)
    requires name !in s.reg.names && id !in s.reg.vaults
    ensures DocOf(s.disk, name).Absent?
    ensures DiskSound(judge, s.(reg := SetEntry(s.reg, name, id), disk := s.disk[name := Doc(1, raw)]))
  {
  }

  lemma LinkedSound(judge: Judge, owns: Owner, s: World, name: string, id: string)
    requires Sound(judge, owns, s) && (id !in s.reg.vaults ==> name !in s.destroying)
    requires !Repoints(Registries.State.State(s.reg, multiset{}), Link(name, id))
    ensures Sound(judge, owns, Linked(s, name, id))
  {
    var (t, before) := (Linked(s, name, id), Registries.State.State(s.reg, multiset{}));
    AnchoredNext(before, Link(name, id));
    IntegralNext(before, Link(name, id));
    forall db | Owned(s, db) ensures Owned(t, db) {
    }
    OwnedStays(judge, owns, s, t);
    LinkedDisk(judge, s, name, id);
  }

  lemma LinkedDisk(judge: Judge, s: World, name: string, id: string)
    requires RegistrySound(s) && DiskSound(judge, s)
    requires !Repoints(Registries.State.State(s.reg, multiset{}), Link(name, id))
    ensures DiskSound(judge, Linked(s, name, id))
  {
    var t := Linked(s, name, id);
    forall store | store in s.disk && s.disk[store].Doc? && store !in s.destroying
      ensures store in t.reg.names && t.reg.names[store] == s.reg.names[store]
      ensures s.reg.names[store] in t.reg.vaults && t.reg.vaults[s.reg.names[store]] == s.reg.vaults[s.reg.names[store]]
    {
    }
  }

  lemma FetchedSound(judge: Judge, owns: Owner, s: World, k: nat, d: Draft)
    requires Sound(judge, owns, s) && owns(d.db.vaultId, d.key, d.sk) && Owned(s, d.db)
    ensures Sound(judge, owns, s.(drafts := s.drafts[k := d]))
  {
  }

  lemma SentSound(judge: Judge, owns: Owner, s: World, k: nat, w: Option<Saving>)
    requires Sound(judge, owns, s) && (w.Some? ==> judge(w.value.db.vaultId, w.value.raw) && Owned(s, w.value.db))
    ensures Sound(judge, owns, Sent(s, k, w))
  {
  }

  lemma LandedSound(judge: Judge, owns: Owner, s: World, k: nat, wins: bool)
    requires Sound(judge, owns, s) && k in s.writes
    ensures Sound(judge, owns, Landed(s, k, wins))
  {
    var w := s.writes[k];
    assert w.db.store in s.destroying || s.reg.names[w.db.store] == w.db.vaultId;
  }

  lemma DeletedSound(judge: Judge, owns: Owner, s: World, name: string)
    requires Sound(judge, owns, s)
    ensures Sound(judge, owns, Deleted(s, name))
  {
    var t := Deleted(s, name);
    if t != s {
      var id := s.reg.names[name];
      DeletedRegistry(s, id);
      DeletedDisk(judge, s, id);
      forall db | Owned(s, db) ensures Owned(t, db) {
      }
      OwnedStays(judge, owns, s, t);
    }
  }

  lemma DeletedRegistry(s: World, id: string)
    requires RegistrySound(s) && id in s.reg.vaults
    ensures RegistrySound(s.(reg := Unregister(s.reg, id), destroying := s.destroying + {s.reg.vaults[id].store}))
  {
  }

  lemma DeletedDisk(judge: Judge, s: World, id: string)
    requires RegistrySound(s) && DiskSound(judge, s) && id in s.reg.vaults
    ensures DiskSound(judge, s.(reg := Unregister(s.reg, id), destroying := s.destroying + {s.reg.vaults[id].store}))
  {
  }

  lemma DestroyedSound(judge: Judge, owns: Owner, s: World, store: string)
    requires Sound(judge, owns, s) && store in s.destroying
    ensures Sound(judge, owns, Destroyed(s, store))
  {
    var t := Destroyed(s, store);
    forall db | Owned(s, db) && db.store != store ensures Owned(t, db) {
    }
  }
}
