/**
 Clients that keep to rules they can check themselves: then live contents verify at all
 times, and each opens under the password of its vault.
 */
module Clients {
  import opened Outcomes
  import opened Bytes
  import opened Sealing
  import opened StoredContent
  import Registries
  import Restarts
  import Storage
  import Worlds

  /** No vault is opened over a store still being destroyed, and no link takes over another vault's opening name. */
  ghost predicate Orderly(s: World, e: Event) {
    match e
    case Create(name, _, _) => name !in s.destroying
    case Link(name, id) =>
      && !Registries.Repoints(Registries.State.State(s.reg, multiset{}), Registries.Link(name, id))
      && (id !in s.reg.vaults ==> name !in s.destroying)
    case _ => true
  }

  // ---- one step, for any judgement of contents and any notion of what belongs to a vault ----

  /** What the step stores or takes up is judged good. */
  ghost predicate Fits(c: Crypto, judge: Worlds.Judge, owner: Worlds.Owner, s: World, e: Event)
    requires Enabled(s, e)
  {
    match e
    case Create(_, id, initial) => Verifies(c, id, initial) ==> judge(id, initial)
    case Fetch(_, name, key) =>
      var d := Fetched(c, s, name, key);
      d.Some? ==> owner(d.value.db.vaultId, d.value.key, d.value.sk)
    case SaveHere(k, content, noise) =>
      var d := s.drafts[k];
      var sealed := Seal(c, d.key, d.sk, content, noise);
      sealed.Returned? ==> judge(d.db.vaultId, sealed.value)
    case SaveByName(k, name, content, noise) =>
      var d := s.drafts[k];
      var sealed := Seal(c, d.key, d.sk, content, noise);
      sealed.Returned? ==> var w := ByName(c, s, name, sealed.value); w.Some? ==> judge(w.value.db.vaultId, w.value.raw)
    case _ => true
  }

  lemma SoundNext(c: Crypto, judge: Worlds.Judge, owner: Worlds.Owner, s: World, e: Event)
    requires Worlds.Sound(judge, owner, s) && Enabled(s, e) && Orderly(s, e) && Fits(c, judge, owner, s, e)
    ensures Worlds.Sound(judge, owner, Next(c, s, e))
  {
    match e
    case Create(name, id, initial) =>
      NextCreate(c, s, name, id, initial);
      if Verifies(c, id, initial) {
        Worlds.CreatedSound(judge, owner, s, name, id, initial);
      }
    case Link(name, id) => Worlds.LinkedSound(judge, owner, s, name, id);
    case Fetch(k, name, key) =>
      var d := Fetched(c, s, name, key);
      if d.Some? {
        Worlds.FetchedSound(judge, owner, s, k, d.value);
      }
    case SaveHere(_, _, _) => SaveSound(c, judge, owner, s, e);
    case SaveByName(_, _, _, _) => SaveSound(c, judge, owner, s, e);
    case Land(k, wins) => Worlds.LandedSound(judge, owner, s, k, wins);
    case Delete(name) => Worlds.DeletedSound(judge, owner, s, name);
    case Destroyed(store) => Worlds.DestroyedSound(judge, owner, s, store);
  }

  lemma SaveSound(c: Crypto, judge: Worlds.Judge, owner: Worlds.Owner, s: World, e: Event)
    requires Worlds.Sound(judge, owner, s) && (e.SaveHere? || e.SaveByName?) && Enabled(s, e) && Fits(c, judge, owner, s, e)
    ensures Worlds.Sound(judge, owner, Next(c, s, e))
  {
    var d := s.drafts[e.k];
    var sealed := Seal(c, d.key, d.sk, e.content, e.noise);
    if sealed.Thrown? {
      Worlds.SentSound(judge, owner, s, e.k, None);
    } else {
      var w := if e.SaveHere? then Some(Worlds.Saving(d.db, sealed.value)) else ByName(c, s, e.name, sealed.value);
      Worlds.SentSound(judge, owner, s, e.k, w);
    }
  }

  // ---- careful clients: what they hold is a private key of the vault ----

  ghost function Verifying(c: Crypto): Worlds.Judge {
    (id, raw) => Verifies(c, id, raw)
  }

  ghost function Owning(c: Crypto): Worlds.Owner {
    (id, _, sk) => c.Owns(id, sk)
  }

  /** A fetch that opens, with whatever password, finds a private key of the vault. */
  ghost predicate Careful(c: Crypto, s: World, e: Event) {
    && Orderly(s, e)
    && (e.Fetch? ==>
          var d := Fetched(c, s, e.name, e.key);
          d.Some? ==> c.Owns(d.value.db.vaultId, d.value.sk))
  }

  lemma OwnedSeals(c: Crypto, key: Buffer, sk: Buffer, content: Content, noise: Noise, id: string)
    requires c.Owns(id, sk)
    ensures var sealed := Seal(c, key, sk, content, noise);
            sealed.Returned? ==> Verifies(c, id, sealed.value)
  {
    if Seal(c, key, sk, content, noise).Returned? {
      OpenWith(c, key, sk, content, noise, id, key);
    }
  }

  lemma CarefulFits(c: Crypto, s: World, e: Event)
    requires Worlds.Sound(Verifying(c), Owning(c), s) && Enabled(s, e) && Careful(c, s, e)
    ensures Fits(c, Verifying(c), Owning(c), s, e)
  {
    match e
    case SaveHere(k, content, noise) =>
      var d := s.drafts[k];
      assert Owning(c)(d.db.vaultId, d.key, d.sk);
      OwnedSeals(c, d.key, d.sk, content, noise, d.db.vaultId);
    case _ =>
  }

  ghost predicate CarefulRun(c: Crypto, s: World, events: seq<Event>)
    decreases |events|
  {
    events != [] && Enabled(s, events[0]) ==> Careful(c, s, events[0]) && CarefulRun(c, Next(c, s, events[0]), events[1..])
  }

  lemma {:induction false} SoundRun(c: Crypto, s: World, events: seq<Event>, t: World)
    requires Worlds.Sound(Verifying(c), Owning(c), s) && Runs(c, s, events, t) && CarefulRun(c, s, events)
    ensures Worlds.Sound(Verifying(c), Owning(c), t)
    decreases |events|
  {
    if events != [] {
      CarefulFits(c, s, events[0]);
      SoundNext(c, Verifying(c), Owning(c), s, events[0]);
      SoundRun(c, Next(c, s, events[0]), events[1..], t);
    }
  }

  /** After any careful run, what a live vault holds deserializes and verifies under its id. */
  lemma StoredContentVerifies(c: Crypto, events: seq<Event>, t: World)
    ensures Runs(c, START, events, t) && CarefulRun(c, START, events) ==> LiveVerify(c, t.reg, t.disk)
  {
    if Runs(c, START, events, t) && CarefulRun(c, START, events) {
      SoundRun(c, START, events, t);
      forall id | id in t.reg.vaults ensures Verified(c, id, Storage.DocOf(t.disk, t.reg.vaults[id].store)) {
        Worlds.LiveJudged(Verifying(c), t, id);
      }
    }
  }

  // ---- clients that use the password of the vault ----

  /** Sealed with this password and a private key of the vault, which it therefore holds. */
  ghost predicate SealedWith(c: Crypto, key: Buffer, id: string, raw: Buffer) {
    exists sk, content, noise :: c.Owns(id, sk) && Seal(c, key, sk, content, noise) == Returned(raw)
  }

  /** Opening under this password yields a private key of the vault. */
  ghost predicate FindsKey(c: Crypto, db: Registries.Db, key: Buffer, raw: Buffer) {
    var found := Open(c, key, db.vaultId, raw);
    found.Some? && c.Owns(db.vaultId, found.value.0)
  }

  /** The password the content was sealed with finds the key, so such a fetch is careful. */
  lemma OwnPasswordFindsKey(c: Crypto, db: Registries.Db, key: Buffer, raw: Buffer)
    requires c.Lawful()
    ensures SealedWith(c, key, db.vaultId, raw) ==> FindsKey(c, db, key, raw)
  {
    if SealedWith(c, key, db.vaultId, raw) {
      var sk, content, noise :| c.Owns(db.vaultId, sk) && Seal(c, key, sk, content, noise) == Returned(raw);
      OpenSeal(c, key, sk, content, noise, db.vaultId);
    }
  }

  /**
   Vaults are created with content sealed under their password; a fetch uses it or does
   not open; a save goes back to the vault fetched.
   */
  ghost predicate Faithful(c: Crypto, password: string -> Buffer, s: World, e: Event)
    requires Enabled(s, e)
  {
    && Orderly(s, e)
    && match e
       case Create(_, id, initial) => Verifies(c, id, initial) ==> SealedWith(c, password(id), id, initial)
       case Fetch(_, name, key) =>
         var d := Fetched(c, s, name, key);
         d.Some? ==> key == password(d.value.db.vaultId)
       case SaveByName(k, name, _, _) =>
         var db := Registries.VaultByName(s.reg, name);
         db.Some? ==> db.value.vaultId == s.drafts[k].db.vaultId
       case _ => true
  }

  ghost predicate FaithfulRun(c: Crypto, password: string -> Buffer, s: World, events: seq<Event>)
    decreases |events|
  {
    events != [] && Enabled(s, events[0]) ==>
      Faithful(c, password, s, events[0]) && FaithfulRun(c, password, Next(c, s, events[0]), events[1..])
  }

  ghost function Locked(c: Crypto, password: string -> Buffer): Worlds.Judge {
    (id, raw) => SealedWith(c, password(id), id, raw)
  }

  ghost function Unlocking(c: Crypto, password: string -> Buffer): Worlds.Owner {
    (id, key, sk) => key == password(id) && c.Owns(id, sk)
  }

  lemma OwnedLocks(c: Crypto, password: string -> Buffer, sk: Buffer, content: Content, noise: Noise, id: string)
    requires c.Owns(id, sk)
    ensures var sealed := Seal(c, password(id), sk, content, noise);
            sealed.Returned? ==> Locked(c, password)(id, sealed.value)
  {
    var sealed := Seal(c, password(id), sk, content, noise);
    if sealed.Returned? {
      assert SealedWith(c, password(id), id, sealed.value);
    }
  }

  lemma FaithfulFits(c: Crypto, password: string -> Buffer, s: World, e: Event)
    requires c.Lawful() && Worlds.Sound(Locked(c, password), Unlocking(c, password), s)
    requires Enabled(s, e) && Faithful(c, password, s, e)
    ensures Fits(c, Locked(c, password), Unlocking(c, password), s, e)
  {
    match e
    case Fetch(_, name, key) => FetchUnlocks(c, password, s, name, key);
    case SaveHere(k, content, noise) => DraftLocks(c, password, s, k, content, noise);
    case SaveByName(k, _, content, noise) => DraftLocks(c, password, s, k, content, noise);
    case _ =>
  }

  lemma DraftLocks(c: Crypto, password: string -> Buffer, s: World, k: nat, content: Content, noise: Noise)
    requires Worlds.Sound(Locked(c, password), Unlocking(c, password), s) && k in s.drafts
    ensures var d := s.drafts[k];
            var sealed := Seal(c, d.key, d.sk, content, noise);
            sealed.Returned? ==> Locked(c, password)(d.db.vaultId, sealed.value)
  {
    var d := s.drafts[k];
    assert Unlocking(c, password)(d.db.vaultId, d.key, d.sk);
    OwnedLocks(c, password, d.sk, content, noise, d.db.vaultId);
  }

  /** A fetch that opens with the password of the vault finds a private key of the vault. */
  lemma FetchUnlocks(c: Crypto, password: string -> Buffer, s: World, name: string, key: Buffer)
    requires c.Lawful() && Worlds.Sound(Locked(c, password), Unlocking(c, password), s)
    ensures var d := Fetched(c, s, name, key);
            d.Some? && key == password(d.value.db.vaultId) ==>
              Unlocking(c, password)(d.value.db.vaultId, d.value.key, d.value.sk)
  {
    if ContentAt(s, name).Some? {
      var (db, raw) := ContentAt(s, name).value;
      Worlds.LiveJudged(Locked(c, password), s, db.vaultId);
      if key == password(db.vaultId) {
        assert Locked(c, password)(db.vaultId, raw);
        OwnPasswordFindsKey(c, db, key, raw);
      }
    }
  }

  lemma {:induction false} LockedRun(c: Crypto, password: string -> Buffer, s: World, events: seq<Event>, t: World)
    requires c.Lawful() && Worlds.Sound(Locked(c, password), Unlocking(c, password), s)
    requires Runs(c, s, events, t) && FaithfulRun(c, password, s, events)
    ensures Worlds.Sound(Locked(c, password), Unlocking(c, password), t)
    decreases |events|
  {
    if events != [] {
      FaithfulFits(c, password, s, events[0]);
      SoundNext(c, Locked(c, password), Unlocking(c, password), s, events[0]);
      LockedRun(c, password, Next(c, s, events[0]), events[1..], t);
    }
  }

  /** After any such run, what a live vault holds opens under the vault's password, to a private key of the vault. */
  lemma PasswordOpens(c: Crypto, password: string -> Buffer, events: seq<Event>, t: World, id: string)
    requires c.Lawful()
    ensures Runs(c, START, events, t) && FaithfulRun(c, password, START, events) && id in t.reg.vaults ==>
              var doc := Storage.DocOf(t.disk, t.reg.vaults[id].store);
              doc.Doc? ==> FindsKey(c, t.reg.vaults[id], password(id), doc.content)
  {
    if Runs(c, START, events, t) && FaithfulRun(c, password, START, events) && id in t.reg.vaults {
      LockedRun(c, password, START, events, t);
      Worlds.LiveJudged(Locked(c, password), t, id);
      var doc := Storage.DocOf(t.disk, t.reg.vaults[id].store);
      if doc.Doc? {
        assert Locked(c, password)(id, doc.content);
        OwnPasswordFindsKey(c, t.reg.vaults[id], password(id), doc.content);
      }
    }
  }

  // ---- restarts ----

  /** A restart after a run without deletes opens the recorded vaults over the same documents, so they still verify. */
  lemma RestartKeepsContent(c: Crypto, events: seq<Restarts.Event>, s: Restarts.Service, disk: map<string, Storage.Doc>)
    requires Restarts.Runs(Restarts.FIRST_START, events, s) && Restarts.NoDeletes(events) && LiveVerify(c, s.reg, disk)
    ensures LiveVerify(c, Restarts.Next(s, Restarts.Restart).reg, disk)
  {
    Restarts.RestartRestores(events, s);
    var after := Restarts.Next(s, Restarts.Restart).reg;
    forall id | id in after.vaults ensures Verified(c, id, Storage.DocOf(disk, after.vaults[id].store)) {
      assert Restarts.RestoredAs(s.reg, after, id);
    }
  }
}
