/**
 Several clients at work at once, and exactly which of their steps leave a live vault
 with content that does not verify under its id.
 */
module StoredContent {
  import opened Outcomes
  import opened Bytes
  import opened Codec
  import opened Sealing
  import opened Registries
  import Storage
  import Worlds
  import Shell

  type World = Worlds.World

  datatype Event =
    | Create(name: string, id: string, initial: Buffer)                // any bytes, from the shell or from a remote client
    | Link(name: string, id: string)
    | Fetch(k: nat, name: string, key: Buffer)
    | SaveHere(k: nat, content: Content, noise: Noise)                 // the shell: to the database it read from
    | SaveByName(k: nat, name: string, content: Content, noise: Noise) // a remote client: looked up again, then validated
    | Land(k: nat, wins: bool)                                         // `wins`: whether its revision check passes
    | Delete(name: string)
    | Destroyed(store: string)

  predicate Enabled(s: World, e: Event) {
    match e
    case Create(_, _, _) => true
    case Link(_, _) => true
    case Fetch(k, _, _) => k !in s.drafts
    case SaveHere(k, _, _) => k in s.drafts && k !in s.writes
    case SaveByName(k, _, _, _) => k in s.drafts && k !in s.writes
    case Land(k, _) => k in s.writes
    case Delete(_) => true
    case Destroyed(store) => store in s.destroying
  }

  /** The stored content of the named vault, with its database. */
  function ContentAt(s: World, name: string): Option<(Db, Buffer)> {
    match VaultByName(s.reg, name)
    case None => None
    case Some(db) =>
      match Storage.DocOf(s.disk, db.store)
      case Absent => None
      case Doc(_, raw) => Some((db, raw))
  }

  /** A client fetches and opens; on any failure it ends up with nothing. */
  function Fetched(c: Crypto, s: World, name: string, key: Buffer): Option<Worlds.Draft> {
    match ContentAt(s, name)
    case None => None
    case Some((db, raw)) =>
      match Open(c, key, db.vaultId, raw)
      case None => None
      case Some((sk, _)) => Some(Worlds.Draft(db, key, sk))
  }

  /** `onSetContent`: the content must verify under the id the name means now. */
  function ByName(c: Crypto, s: World, name: string, raw: Buffer): Option<Worlds.Saving> {
    match VaultByName(s.reg, name)
    case None => None
    case Some(db) => if Verifies(c, db.vaultId, raw) then Some(Worlds.Saving(db, raw)) else None
  }

  /** Such a content is sent exactly to the vault of that name, and only if it verifies there. */
  lemma ByNameSends(c: Crypto, s: World, name: string, raw: Buffer)
    ensures var (db, w) := (VaultByName(s.reg, name), ByName(c, s, name, raw));
            && (w.Some? <==> db.Some? && Verifies(c, db.value.vaultId, raw))
            && (w.Some? ==> w.value == Worlds.Saving(db.value, raw))
  {
  }

  function Next(c: Crypto, s: World, e: Event): World
    requires Enabled(s, e)
  {
    match e
    case Create(name, id, initial) =>
      var t := Shell.OnCreateVault(c, Shell.Session(s.reg, s.disk, None), name, id, initial).0;
      s.(reg := t.reg, disk := t.disk)
    case Link(name, id) => Worlds.Linked(s, name, id)
    case Fetch(k, name, key) =>
      var d := Fetched(c, s, name, key);
      if d.Some? then s.(drafts := s.drafts[k := d.value]) else s
    case SaveHere(k, content, noise) =>
      var d := s.drafts[k];
      var sealed := Seal(c, d.key, d.sk, content, noise);
      Worlds.Sent(s, k, if sealed.Thrown? then None else Some(Worlds.Saving(d.db, sealed.value)))
    case SaveByName(k, name, content, noise) =>
      var d := s.drafts[k];
      var sealed := Seal(c, d.key, d.sk, content, noise);
      Worlds.Sent(s, k, if sealed.Thrown? then None else ByName(c, s, name, sealed.value))
    case Land(k, wins) => Worlds.Landed(s, k, wins)
    case Delete(name) => Worlds.Deleted(s, name)
    case Destroyed(store) => Worlds.Destroyed(s, store)
  }

  ghost predicate Runs(c: Crypto, s: World, events: seq<Event>, t: World)
    decreases |events|
  {
    if events == [] then s == t else Enabled(s, events[0]) && Runs(c, Next(c, s, events[0]), events[1..], t)
  }

  const START: World := Worlds.World(EMPTY, map[], map[], map[], {})

  /** A save ends the client's work on its draft, and sends what could be sealed, or nothing. */
  lemma SaveSends(c: Crypto, s: World, k: nat, content: Content, noise: Noise)
    requires Enabled(s, SaveHere(k, content, noise))
    ensures var (d, t) := (s.drafts[k], Next(c, s, SaveHere(k, content, noise)));
            var sealed := Seal(c, d.key, d.sk, content, noise);
            && t.reg == s.reg && t.disk == s.disk && t.drafts == s.drafts - {k} && t.destroying == s.destroying
            && t.writes == if sealed.Returned? then s.writes[k := Worlds.Saving(d.db, sealed.value)] else s.writes
  {
  }

  /** What the other steps touch: a fetch one draft, a landing write its store, a destruction its store and the handles on it. */
  lemma StepsTouch(c: Crypto, s: World, e: Event)
    requires Enabled(s, e) && (e.Fetch? || e.Land? || e.Destroyed?)
    ensures var t := Next(c, s, e);
            && t.reg == s.reg
            && (e.Fetch? ==>
                  var d := Fetched(c, s, e.name, e.key);
                  t == s.(drafts := if d.Some? then s.drafts[e.k := d.value] else s.drafts))
            && (e.Land? ==>
                  && t.drafts == s.drafts && t.writes == s.writes - {e.k} && t.destroying == s.destroying
                  && (!e.wins ==> t.disk == s.disk)
                  && (e.wins ==>
                        var w := s.writes[e.k];
                        var doc := Storage.DocOf(t.disk, w.db.store);
                        doc.Doc? && doc.content == w.raw && t.disk == s.disk[w.db.store := doc]))
            && (e.Destroyed? ==>
                  && t.disk == s.disk - {e.store} && t.destroying == s.destroying - {e.store}
                  && (forall k :: k in t.drafts <==> k in s.drafts && s.drafts[k].db.store != e.store)
                  && (forall k :: k in t.writes <==> k in s.writes && s.writes[k].db.store != e.store))
  {
  }

  /** A delete unregisters the vault of that name, if there is one, and marks its store. */
  lemma DeleteTouches(c: Crypto, s: World, name: string)
    ensures var (db, t) := (VaultByName(s.reg, name), Next(c, s, Delete(name)));
            && t.disk == s.disk && t.drafts == s.drafts && t.writes == s.writes
            && if db.None? then t == s
               else t.reg == Unregister(s.reg, s.reg.names[name]) && t.destroying == s.destroying + {db.value.store}
  {
  }

  // ---- live vaults hold what verifies ----

  predicate Verified(c: Crypto, id: string, doc: Storage.Doc) {
    doc.Doc? ==> Verifies(c, id, doc.content)
  }

  predicate LiveVerify(c: Crypto, reg: Registry, disk: map<string, Storage.Doc>) {
    forall id :: id in reg.vaults ==> Verified(c, id, Storage.DocOf(disk, reg.vaults[id].store))
  }

  /** The content verifies for every live vault over the store. */
  predicate AcceptedAt(c: Crypto, reg: Registry, store: string, raw: Buffer) {
    forall id :: id in reg.vaults && reg.vaults[id].store == store ==> Verifies(c, id, raw)
  }

  /** A creation under this name and id would register. */
  predicate Fresh(reg: Registry, name: string, id: string) {
    name !in reg.names && id !in reg.vaults && id != ""
  }

  /** What registry and documents must look like before a step. */
  predicate Guarded(c: Crypto, s: World, e: Event)
    requires Enabled(s, e)
  {
    match e
    case Create(name, id, initial) =>
      var doc := Storage.DocOf(s.disk, name);
      Verifies(c, id, initial) && Fresh(s.reg, name, id) ==>
        if doc.Doc? then Verifies(c, id, doc.content) else AcceptedAt(c, s.reg, name, initial)
    case Link(name, id) => Fresh(s.reg, name, id) ==> Verified(c, id, Storage.DocOf(s.disk, name))
    case Land(k, wins) => wins ==> AcceptedAt(c, s.reg, s.writes[k].db.store, s.writes[k].raw)
    case _ => true
  }

  // ---- exactly which steps keep it ----

  lemma RegisteredKeepsIff(c: Crypto, reg: Registry, disk: map<string, Storage.Doc>, name: string, id: string)
    requires LiveVerify(c, reg, disk) && id !in reg.vaults
    ensures LiveVerify(c, SetEntry(reg, name, id), disk) <==> Verified(c, id, Storage.DocOf(disk, name))
  {
    var after := SetEntry(reg, name, id);
    assert after.vaults[id].store == name;
    assert forall other :: other in reg.vaults ==> after.vaults[other] == reg.vaults[other];
  }

  lemma WrittenKeepsIff(c: Crypto, reg: Registry, disk: map<string, Storage.Doc>, store: string, doc: Storage.Doc)
    requires LiveVerify(c, reg, disk) && doc.Doc?
    ensures LiveVerify(c, reg, disk[store := doc]) <==> AcceptedAt(c, reg, store, doc.content)
  {
    var after := disk[store := doc];
    forall id | id in reg.vaults
      ensures Verified(c, id, Storage.DocOf(after, reg.vaults[id].store)) <==>
              (reg.vaults[id].store == store ==> Verifies(c, id, doc.content))
    {
      assert Verified(c, id, Storage.DocOf(disk, reg.vaults[id].store));
    }
  }

  /**
   A creation breaks it when it finds old content that does not verify, or writes content
   another vault over the store rejects.
   */
  lemma CreateKeepsIff(c: Crypto, s: World, name: string, id: string, initial: Buffer)
    requires LiveVerify(c, s.reg, s.disk)
    ensures var e := Event.Create(name, id, initial);
            LiveVerify(c, Next(c, s, e).reg, Next(c, s, e).disk) <==> Guarded(c, s, e)
  {
    NextCreate(c, s, name, id, initial);
    if Verifies(c, id, initial) {
      CreatedKeepsIff(c, s, name, id, initial);
    }
  }

  lemma CreatedKeepsIff(c: Crypto, s: World, name: string, id: string, raw: Buffer)
    requires LiveVerify(c, s.reg, s.disk) && Verifies(c, id, raw)
    ensures var (t, doc) := (Worlds.Created(s, name, id, raw), Storage.DocOf(s.disk, name));
            LiveVerify(c, t.reg, t.disk) <==>
            (Fresh(s.reg, name, id) ==> if doc.Doc? then Verifies(c, id, doc.content) else AcceptedAt(c, s.reg, name, raw))
  {
    if Fresh(s.reg, name, id) {
      RegisteredKeepsIff(c, s.reg, s.disk, name, id);
      if Storage.DocOf(s.disk, name).Absent? {
        var reg := SetEntry(s.reg, name, id);
        WrittenKeepsIff(c, reg, s.disk, name, Storage.Doc(1, raw));
        AcceptedBeside(c, s.reg, name, id, raw);
      }
    }
  }

  lemma AcceptedBeside(c: Crypto, reg: Registry, name: string, id: string, raw: Buffer)
    requires id !in reg.vaults && Verifies(c, id, raw)
    ensures AcceptedAt(c, SetEntry(reg, name, id), name, raw) <==> AcceptedAt(c, reg, name, raw)
  {
    var after := SetEntry(reg, name, id);
    assert forall other :: other in reg.vaults ==> other in after.vaults && after.vaults[other] == reg.vaults[other];
  }

  /** A link breaks it only when it opens a vault over old content that does not verify under the linked id. */
  lemma LinkKeepsIff(c: Crypto, s: World, name: string, id: string)
    requires LiveVerify(c, s.reg, s.disk)
    ensures var t := Worlds.Linked(s, name, id);
            LiveVerify(c, t.reg, t.disk) <==> (Fresh(s.reg, name, id) ==> Verified(c, id, Storage.DocOf(s.disk, name)))
  {
    if Fresh(s.reg, name, id) {
      RegisteredKeepsIff(c, s.reg, s.disk, name, id);
    }
  }

  /** A write that lands breaks it when some live vault over its store rejects it. */
  lemma LandedKeepsIff(c: Crypto, s: World, k: nat)
    requires LiveVerify(c, s.reg, s.disk) && k in s.writes
    ensures var t := Worlds.Landed(s, k, true);
            LiveVerify(c, t.reg, t.disk) <==> AcceptedAt(c, s.reg, s.writes[k].db.store, s.writes[k].raw)
  {
    var w := s.writes[k];
    WrittenKeepsIff(c, s.reg, s.disk, w.db.store, Storage.Written(Storage.DocOf(s.disk, w.db.store), w.raw));
  }

  /** Deletes and destructions never break it. */
  lemma DeletedKeeps(c: Crypto, s: World, name: string, store: string)
    requires LiveVerify(c, s.reg, s.disk)
    ensures LiveVerify(c, Worlds.Deleted(s, name).reg, Worlds.Deleted(s, name).disk)
    ensures LiveVerify(c, Worlds.Destroyed(s, store).reg, Worlds.Destroyed(s, store).disk)
  {
    var t := Worlds.Destroyed(s, store);
    forall id | id in t.reg.vaults ensures Verified(c, id, Storage.DocOf(t.disk, t.reg.vaults[id].store)) {
      assert Verified(c, id, Storage.DocOf(s.disk, s.reg.vaults[id].store));
    }
  }

  /**
   From any state whose live contents verify, whatever the registry looks like, a step
   keeps that exactly when it is guarded.
   */
  lemma KeepsIffGuarded(c: Crypto, s: World, e: Event)
    requires LiveVerify(c, s.reg, s.disk) && Enabled(s, e)
    ensures LiveVerify(c, Next(c, s, e).reg, Next(c, s, e).disk) <==> Guarded(c, s, e)
  {
    match e
    case Create(name, id, initial) => CreateKeepsIff(c, s, name, id, initial);
    case Link(name, id) => LinkKeepsIff(c, s, name, id);
    case Land(k, wins) => LandedKeepsIff(c, s, k);
    case Delete(name) => DeletedKeeps(c, s, name, "");
    case Destroyed(store) => DeletedKeeps(c, s, "", store);
    case Fetch(_, _, _) =>
    case SaveHere(_, _, _) =>
    case SaveByName(_, _, _, _) =>
  }

  ghost predicate VerifiedThroughout(c: Crypto, s: World, events: seq<Event>)
    decreases |events|
  {
    && LiveVerify(c, s.reg, s.disk)
    && (events != [] && Enabled(s, events[0]) ==> VerifiedThroughout(c, Next(c, s, events[0]), events[1..]))
  }

  ghost predicate GuardedThroughout(c: Crypto, s: World, events: seq<Event>)
    decreases |events|
  {
    events != [] && Enabled(s, events[0]) ==>
      Guarded(c, s, events[0]) && GuardedThroughout(c, Next(c, s, events[0]), events[1..])
  }

  /** Along every run: all live contents verify at all times exactly when every step is guarded. */
  lemma {:induction false} RunVerifiesIff(c: Crypto, s: World, events: seq<Event>, t: World)
    requires LiveVerify(c, s.reg, s.disk)
    ensures VerifiedThroughout(c, s, events) <==> GuardedThroughout(c, s, events)
    ensures Runs(c, s, events, t) && GuardedThroughout(c, s, events) ==> LiveVerify(c, t.reg, t.disk)
    decreases |events|
  {
    if events != [] && Enabled(s, events[0]) {
      var s' := Next(c, s, events[0]);
      KeepsIffGuarded(c, s, events[0]);
      if Guarded(c, s, events[0]) {
        RunVerifiesIff(c, s', events[1..], t);
      }
    }
  }

  lemma SealVerifiesOwn(c: Crypto, key: Buffer, sk: Buffer, content: Content, noise: Noise)
    requires c.Lawful()
    ensures var sealed := Seal(c, key, sk, content, noise);
            sealed.Returned? ==> Verifies(c, c.idOf(sk), sealed.value)
  {
    if Seal(c, key, sk, content, noise).Returned? {
      OpenSeal(c, key, sk, content, noise, c.idOf(sk));
    }
  }

  /** Content that does not verify under the id is refused, and nothing changes. */
  lemma NextCreate(c: Crypto, s: World, name: string, id: string, initial: Buffer)
    ensures Next(c, s, Event.Create(name, id, initial)) ==
            if Verifies(c, id, initial) then Worlds.Created(s, name, id, initial) else s
  {
  }

  // ---- what a fetched key does to the next save ----

  /** A client fetched, and opened what it fetched; it saves; the save lands. */
  ghost predicate FetchedAndSaved(c: Crypto, s: World, fetch: Event, save: Event, t: World) {
    && fetch.Fetch? && save.SaveHere? && fetch.k == save.k
    && Enabled(s, fetch) && Fetched(c, s, fetch.name, fetch.key).Some? && Enabled(Next(c, s, fetch), save)
    && var s' := Next(c, Next(c, s, fetch), save);
       Enabled(s', Land(save.k, true)) && t == Next(c, s', Land(save.k, true))
  }

  /** The id of every live vault over the store treats all signatures of the key alike. */
  ghost predicate UniformOver(c: Crypto, reg: Registry, store: string, sk: Buffer) {
    forall id :: id in reg.vaults && reg.vaults[id].store == store ==> c.UniformAt(id, sk)
  }

  ghost predicate OwnedOver(c: Crypto, reg: Registry, store: string, sk: Buffer) {
    forall id :: id in reg.vaults && reg.vaults[id].store == store ==> c.Owns(id, sk)
  }

  /** All live contents still verify if and only if what it had found is a private key of every live vault over the store. */
  lemma SaveKeepsIff(c: Crypto, s: World, fetch: Event, save: Event, t: World)
    requires LiveVerify(c, s.reg, s.disk)
    ensures FetchedAndSaved(c, s, fetch, save, t) ==>
              var d := Fetched(c, s, fetch.name, fetch.key).value;
              UniformOver(c, s.reg, d.db.store, d.sk) ==>
                (LiveVerify(c, t.reg, t.disk) <==> OwnedOver(c, s.reg, d.db.store, d.sk))
  {
    if FetchedAndSaved(c, s, fetch, save, t) {
      var d := Fetched(c, s, fetch.name, fetch.key).value;
      var s1 := Next(c, s, fetch);
      assert s1 == s.(drafts := s.drafts[fetch.k := d]);
      SavedDraft(c, s1, save);
      var s2 := Next(c, s1, save);
      LandedKeepsIff(c, s2, save.k);
      if UniformOver(c, s.reg, d.db.store, d.sk) {
        forall id | id in s.reg.vaults && s.reg.vaults[id].store == d.db.store
          ensures Verifies(c, id, s2.writes[save.k].raw) <==> c.Owns(id, d.sk)
        {
          SealVerifies(c, d.key, d.sk, save.content, save.noise, id);
        }
      }
    }
  }

  lemma SavedDraft(c: Crypto, s: World, save: Event)
    requires save.SaveHere? && Enabled(s, save) && save.k in Next(c, s, save).writes
    ensures var (d, t) := (s.drafts[save.k], Next(c, s, save));
            var sealed := Seal(c, d.key, d.sk, save.content, save.noise);
            sealed.Returned? && t.reg == s.reg && t.disk == s.disk && t.writes[save.k] == Worlds.Saving(d.db, sealed.value)
  {
  }

  // ---- each guard can fail ----

  /** Creating a vault over a store whose destruction has not finished leaves it with the deleted vault's content. */
  lemma CreateDuringDestruction(c: Crypto, name: string, id: string, initial: Buffer, id': string, initial': Buffer)
    requires id != "" && Verifies(c, id, initial) && id' != "" && Verifies(c, id', initial') && !Verifies(c, id', initial)
    ensures var s2 := Next(c, Next(c, START, Event.Create(name, id, initial)), Delete(name));
            var s3 := Next(c, s2, Event.Create(name, id', initial'));
            name in s2.destroying && LiveVerify(c, s2.reg, s2.disk) && !LiveVerify(c, s3.reg, s3.disk)
  {
    NextCreate(c, START, name, id, initial);
    var s2 := Next(c, Next(c, START, Event.Create(name, id, initial)), Delete(name));
    Leftover(name, id, initial);
    CreateKeepsIff(c, s2, name, id', initial');
  }

  lemma Leftover(name: string, id: string, raw: Buffer)
    requires id != ""
    ensures Worlds.Deleted(Worlds.Created(START, name, id, raw), name) ==
            Worlds.World(EMPTY, map[name := Storage.Doc(1, raw)], map[], map[], {name})
  {
    var s := Worlds.Created(START, name, id, raw);
    assert VaultByName(s.reg, name) == Some(Db(name, id));
    assert Unregister(s.reg, id) == EMPTY;
  }

  /** So does a link that opens a remote vault over it. */
  lemma LinkDuringDestruction(c: Crypto, name: string, id: string, initial: Buffer, other: string)
    requires id != "" && Verifies(c, id, initial) && other != "" && !Verifies(c, other, initial)
    ensures var s2 := Next(c, Next(c, START, Event.Create(name, id, initial)), Delete(name));
            var s3 := Next(c, s2, Event.Link(name, other));
            name in s2.destroying && LiveVerify(c, s2.reg, s2.disk) && !LiveVerify(c, s3.reg, s3.disk)
  {
    NextCreate(c, START, name, id, initial);
    var s2 := Next(c, Next(c, START, Event.Create(name, id, initial)), Delete(name));
    Leftover(name, id, initial);
    LinkKeepsIff(c, s2, name, other);
  }

  /** A vault whose store has lost its name to a link; the vault it went to was deleted. */
  function Nameless(other: string, raw: Buffer): World {
    Worlds.World(Registry(map[], map[other := Db("x", other)]), map["b" := Storage.Doc(1, raw)], map[], map[], {"b"})
  }

  lemma NamelessSteps(other: string, id: string, raw: Buffer)
    requires id != "" && other != "" && id != other
    ensures var s2 := Worlds.Created(Worlds.Linked(START, "x", other), "b", id, raw);
            Worlds.Deleted(Worlds.Linked(s2, "x", id), "b") == Nameless(other, raw)
  {
    var s1 := Worlds.Linked(START, "x", other);
    assert s1.reg == Registry(map["x" := other], map[other := Db("x", other)]);
    var s2 := Worlds.Created(s1, "b", id, raw);
    assert s2.reg == Registry(map["x" := other, "b" := id], map[other := Db("x", other), id := Db("b", id)]);
    var s3 := Worlds.Linked(s2, "x", id);
    assert s3.reg.names == map["x" := id, "b" := id];
    assert VaultByName(s3.reg, "b") == Some(Db("b", id));
    assert Unregister(s3.reg, id) == Registry(map[], map[other := Db("x", other)]);
  }

  lemma FourSteps(c: Crypto, s0: World, a: Event, s1: World, b: Event, s2: World, d: Event, s3: World, e: Event, s4: World)
    requires Enabled(s0, a) && s1 == Next(c, s0, a) && Enabled(s1, b) && s2 == Next(c, s1, b)
    requires Enabled(s2, d) && s3 == Next(c, s2, d) && Enabled(s3, e) && s4 == Next(c, s3, e)
    ensures Runs(c, s0, [a, b, d, e], s4)
  {
    assert [a, b, d, e][1..] == [b, d, e] && [b, d, e][1..] == [d, e] && [d, e][1..] == [e] && [e][1..] == [];
    assert Runs(c, s4, [], s4);
    assert Runs(c, s3, [e], s4);
    assert Runs(c, s2, [d, e], s4);
    assert Runs(c, s1, [b, d, e], s4);
  }

  lemma NamelessRuns(c: Crypto, id: string, initial: Buffer, other: string)
    requires id !in {"", other} && other != "" && Verifies(c, id, initial)
    ensures Runs(c, START, [Event.Link("x", other), Event.Create("b", id, initial), Event.Link("x", id), Delete("b")],
                 Nameless(other, initial))
  {
    var s1 := Next(c, START, Event.Link("x", other));
    NextCreate(c, s1, "b", id, initial);
    var s2 := Next(c, s1, Event.Create("b", id, initial));
    var s3 := Next(c, s2, Event.Link("x", id));
    FourSteps(c, START, Event.Link("x", other), s1, Event.Create("b", id, initial), s2,
              Event.Link("x", id), s3, Delete("b"), Next(c, s3, Delete("b")));
    NamelessSteps(other, id, initial);
  }

  /** From there a creation breaks it although its store is empty and nobody destroys it. */
  lemma CreateBesideRepointed(c: Crypto, other: string, raw: Buffer, id: string, initial: Buffer)
    requires id !in {"", other} && Verifies(c, id, initial) && !Verifies(c, other, initial)
    ensures var s := Nameless(other, raw);
            var t := Next(c, s, Event.Create("x", id, initial));
            && Storage.DocOf(s.disk, "x").Absent? && "x" !in s.destroying
            && LiveVerify(c, s.reg, s.disk) && !LiveVerify(c, t.reg, t.disk)
  {
    var s := Nameless(other, raw);
    assert s.reg.vaults[other] == Db("x", other);
    CreateKeepsIff(c, s, "x", id, initial);
  }

  /** A wrong password that happens to decrypt can find a foreign key, and saving then leaves content that does not verify. */
  lemma WrongPasswordBreaks(stringify: Content -> Buffer, parse: Buffer -> Option<Content>, noise: Noise)
    requires forall content :: parse(stringify(content)) == Some(content)
    requires |stringify(map[])| <= 1000 && |noise.seed| <= 1000
    ensures exists c: Crypto, create, s, fetch, save, t ::
      && c.Lawful() && Enabled(START, create) && s == Next(c, START, create)
      && FetchedAndSaved(c, s, fetch, save, t) && LiveVerify(c, s.reg, s.disk) && !LiveVerify(c, t.reg, t.disk)
  {
    var (one, other) := (KeyFrame([1], stringify(map[])), KeyFrame([2], stringify(map[])));
    var c := Toy(Exchanging(one, other), stringify, parse);
    WrongPasswordOpens(stringify, parse, noise, [7]);
    var t := WrongPasswordRun(c, noise);
    assert Enabled(START, Event.Create("v", c.idOf([1]), Seal(c, [], [1], map[], noise).value));
  }

  lemma WrongPasswordRun(c: Crypto, noise: Noise) returns (t: World)
    requires c.Lawful() && c.idOf([1]) != "" && !c.Owns(c.idOf([1]), [2]) && c.UniformAt(c.idOf([1]), [2])
    requires Seal(c, [], [1], map[], noise).Returned? && Seal(c, [7], [2], map[], noise).Returned?
    requires Open(c, [7], c.idOf([1]), Seal(c, [], [1], map[], noise).value) == Some(([2], map[]))
    ensures var s := Next(c, START, Event.Create("v", c.idOf([1]), Seal(c, [], [1], map[], noise).value));
            && FetchedAndSaved(c, s, Fetch(0, "v", [7]), SaveHere(0, map[], noise), t)
            && LiveVerify(c, s.reg, s.disk) && !LiveVerify(c, t.reg, t.disk)
  {
    var (fetch, save) := (Fetch(0, "v", [7]), SaveHere(0, map[], noise));
    var s := Next(c, START, Event.Create("v", c.idOf([1]), Seal(c, [], [1], map[], noise).value));
    Born(c, "v", [], [1], noise, [7], [2]);
    t := Saved(c, s, fetch, save);
    SaveKeepsIff(c, s, fetch, save, t);
    assert s.reg.vaults[c.idOf([1])].store == "v";
  }

  /** A new vault, and what a fetch with another password makes of it. */
  lemma Born(c: Crypto, name: string, key: Buffer, sk: Buffer, noise: Noise, key': Buffer, sk': Buffer)
    requires c.Lawful() && c.idOf(sk) != "" && Seal(c, key, sk, map[], noise).Returned?
    requires Open(c, key', c.idOf(sk), Seal(c, key, sk, map[], noise).value) == Some((sk', map[]))
    ensures var (id, raw) := (c.idOf(sk), Seal(c, key, sk, map[], noise).value);
            var s := Next(c, START, Event.Create(name, id, raw));
            && s.drafts == map[] && s.writes == map[] && s.reg == SetEntry(EMPTY, name, id) && LiveVerify(c, s.reg, s.disk)
            && Fetched(c, s, name, key') == Some(Worlds.Draft(Db(name, id), key', sk'))
  {
    var (id, raw) := (c.idOf(sk), Seal(c, key, sk, map[], noise).value);
    OpenSeal(c, key, sk, map[], noise, id);
    NextCreate(c, START, name, id, raw);
    FirstStore(name, id, raw);
  }

  lemma FirstStore(name: string, id: string, raw: Buffer)
    requires id != ""
    ensures var s := Worlds.Created(START, name, id, raw);
            && s == Worlds.World(SetEntry(EMPTY, name, id), map[name := Storage.Doc(1, raw)], map[], map[], {})
            && ContentAt(s, name) == Some((Db(name, id), raw))
  {
  }

  lemma Saved(c: Crypto, s: World, fetch: Event, save: Event) returns (t: World)
    requires fetch.Fetch? && save.SaveHere? && fetch.k == save.k && fetch.k !in s.drafts && save.k !in s.writes
    requires var d := Fetched(c, s, fetch.name, fetch.key);
             d.Some? && Seal(c, d.value.key, d.value.sk, save.content, save.noise).Returned?
    ensures FetchedAndSaved(c, s, fetch, save, t)
  {
    var d := Fetched(c, s, fetch.name, fetch.key).value;
    var s1 := Next(c, s, fetch);
    assert s1 == s.(drafts := s.drafts[fetch.k := d]);
    var s2 := Next(c, s1, save);
    assert save.k in s2.writes;
    t := Next(c, s2, Land(save.k, true));
  }
}
