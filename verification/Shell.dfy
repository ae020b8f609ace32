/**
 The shell's vault commands over registry, stored documents and the active session, and
 the plain map that a session with one vault amounts to.
 */
module Shell {
  import opened Outcomes
  import opened Bytes
  import opened Codec
  import opened Sealing
  import opened Registries
  import Storage
  import Vaults
  import Worlds

  /** The selected vault and the key derived from its password. */
  datatype Active = Active(name: string, key: Buffer)

  /** `disk` holds the document of each store by name. */
  datatype Session = Session(reg: Registry, disk: map<string, Storage.Doc>, active: Option<Active>)

  datatype Answer =
    | Missing                 // an argument was not given
    | NoVault                 // nothing selected, or the name no longer resolves
    | Unreadable              // no content, bad signature, wrong password or corrupt data
    | NotStored               // encoding or signing threw
    | Stored
    | Found(value: string)
    | NoEntry

  function Current(s: Session): Option<Db> {
    if s.active.None? then None else VaultByName(s.reg, s.active.value.name)
  }

  /** The private key and entries of the active vault, as both commands read them. */
  function ReadActive(c: Crypto, s: Session, db: Db): Option<(Buffer, Content)>
    requires s.active.Some?
  {
    match Storage.DocOf(s.disk, db.store)
    case Absent => None
    case Doc(_, raw) => Open(c, s.active.value.key, db.vaultId, raw)
  }

  /** `vault set`: the whole content is opened, changed in one entry and sealed again with the private key it held. */
  function Set(c: Crypto, s: Session, key: string, value: string, noise: Noise): (Session, Answer) {
    match Current(s)
    case None => (s, NoVault)
    case Some(db) =>
      match ReadActive(c, s, db)
      case None => (s, Unreadable)
      case Some((sk, content)) =>
        match Seal(c, s.active.value.key, sk, content[key := value], noise)
        case Thrown => (s, NotStored)
        case Returned(raw) => (s.(disk := s.disk[db.store := Storage.Written(Storage.DocOf(s.disk, db.store), raw)]), Stored)
  }

  /** `vault get`: an empty value reads as no entry. */
  function Get(c: Crypto, s: Session, key: string): Answer {
    match Current(s)
    case None => NoVault
    case Some(db) =>
      match ReadActive(c, s, db)
      case None => Unreadable
      case Some((_, content)) => if key in content && content[key] != "" then Found(content[key]) else NoEntry
  }

  /**
   `onCreateVault` up to the announcement to peers: checks the name and the signature
   before registering, stores only into an empty document.
   */
  function OnCreateVault(c: Crypto, s: Session, name: string, id: string, initial: Buffer): (Session, bool) {
    if !Verifies(c, id, initial) then (s, false)
    else
      var (reg, disk, ok) := Worlds.OpenStore(s.reg, s.disk, name, id, initial);
      (s.(reg := reg, disk := disk), ok)
  }

  /** `vault new` with a fresh private key; `announced` says whether peers could be told. */
  function New(c: Crypto, s: Session, name: string, key: Buffer, sk: Buffer, noise: Noise, announced: bool): (Session, bool) {
    match Seal(c, key, sk, map[], noise)
    case Thrown => (s, false)
    case Returned(raw) =>
      var (t, ok) := OnCreateVault(c, s, name, c.idOf(sk), raw);
      if ok && announced then (t.(active := Some(Active(name, key))), true) else (t, false)
  }

  // ---- the commands, step by step ----

  class ShellCommandServer {
    const vaults: Vaults.VaultService
    var disk: map<string, Storage.Doc>
    var activeVault: Option<Active>

    ghost predicate Valid()
      reads this, vaults
    {
      vaults.Valid()
    }

    ghost function Model(): Session
      reads this, vaults
    {
      Session(vaults.Reg(), disk, activeVault)
    }

    constructor (vaults: Vaults.VaultService)
      ensures this.vaults == vaults && disk == map[] && activeVault == None
    {
      this.vaults, disk, activeVault := vaults, map[], None;
    }

    method VaultNew(c: Crypto, name: Option<string>, key: Buffer, sk: Buffer, noise: Noise, announced: bool) returns (ok: bool)
      requires Valid()
      modifies this, vaults
      ensures Valid()
      ensures if name.None? then !ok && Model() == old(Model())
              else (Model(), ok) == New(c, old(Model()), name.value, key, sk, noise, announced)
    {
      if name.None? {
        return false;
      }
      var raw := SealContent(c, key, sk, map[], noise);
      if raw.Thrown? {
        return false;
      }
      var id := c.idOf(sk);
      var known := vaults.GetVaultByName(name.value);
      if known.Some? || !Verifies(c, id, raw.value) {
        return false;
      }
      var reply := vaults.Create(name.value, id);
      if !reply.Opened? || Storage.DocOf(disk, name.value).Doc? {
        return false;
      }
      disk := disk[name.value := Storage.Doc(1, raw.value)];
      if announced {
        activeVault := Some(Active(name.value, key));
      }
      ok := announced;
    }

    /** The encoders in the order the commands call them. */
    method SealContent(c: Crypto, key: Buffer, sk: Buffer, content: Content, noise: Noise) returns (raw: Attempt<Buffer>)
      ensures raw == Seal(c, key, sk, content, noise)
    {
      var plain := JoinKey(c.stringify(content), sk);
      if plain.Thrown? {
        return Thrown;
      }
      var payload := WrapPayload(VaultPayload(0, noise.seed, c.encrypt(key, noise.seed, plain.value)));
      if payload.Thrown? {
        return Thrown;
      }
      var signature := c.sign(sk, payload.value, noise.nonce);
      if signature.None? {
        return Thrown;
      }
      raw := Serialize(Dataset(signature.value, payload.value));
    }

    method VaultSet(c: Crypto, entryKey: Option<string>, entryData: Option<string>, noise: Noise) returns (answer: Answer)
      requires Valid()
      modifies this`disk
      ensures Valid()
      ensures if entryKey.None? || entryData.None? then answer == Missing && Model() == old(Model())
              else (Model(), answer) == Set(c, old(Model()), entryKey.value, entryData.value, noise)
    {
      if entryKey.None? || entryData.None? {
        return Missing;
      }
      if activeVault.None? {
        return NoVault;
      }
      var vault := vaults.GetVaultByName(activeVault.value.name);
      if vault.None? {
        return NoVault;
      }
      var (db, key) := (vault.value, activeVault.value.key);
      var doc := Storage.DocOf(disk, db.store);
      if doc.Absent? {
        return Unreadable;
      }
      var unsealed := Open(c, key, db.vaultId, doc.content);
      if unsealed.None? {
        return Unreadable;
      }
      var (privateKey, content) := unsealed.value;
      content := content[entryKey.value := entryData.value];
      var raw := SealContent(c, key, privateKey, content, noise);
      if raw.Thrown? {
        return NotStored;
      }
      disk := disk[db.store := Storage.Written(doc, raw.value)];
      answer := Stored;
    }

    method VaultGet(c: Crypto, entryKey: Option<string>) returns (answer: Answer)
      requires Valid()
      ensures answer == if entryKey.None? then Missing else Get(c, Model(), entryKey.value)
    {
      if entryKey.None? {
        return Missing;
      }
      if activeVault.None? {
        return NoVault;
      }
      var vault := vaults.GetVaultByName(activeVault.value.name);
      if vault.None? {
        return NoVault;
      }
      var doc := Storage.DocOf(disk, vault.value.store);
      if doc.Absent? {
        return Unreadable;
      }
      var unsealed := Open(c, activeVault.value.key, vault.value.vaultId, doc.content);
      if unsealed.None? {
        return Unreadable;
      }
      var (_, content) := unsealed.value;
      answer := if entryKey.value in content && content[entryKey.value] != "" then Found(content[entryKey.value]) else NoEntry;
    }
  }

  // ---- a session refines a map ----

  /** The active vault exists and its document opens, under the session's key, to its own private key and these entries. */
  ghost predicate Refines(c: Crypto, s: Session, sk: Buffer, content: Content) {
    && s.active.Some? && Current(s).Some?
    && Current(s).value.vaultId == c.idOf(sk)
    && ReadActive(c, s, Current(s).value) == Some((sk, content))
  }

  /** Content that does not verify under the id is refused, whoever sends it; nothing changes. */
  lemma CreateRefusesForged(c: Crypto, s: Session, name: string, id: string, initial: Buffer)
    ensures !Verifies(c, id, initial) ==> OnCreateVault(c, s, name, id, initial) == (s, false)
  {
  }

  /**
   Verified content creates a vault exactly if name and id are free and the store is
   empty; over a store with a document the vault is only registered.
   */
  lemma CreateAccepts(c: Crypto, s: Session, name: string, id: string, initial: Buffer)
    requires Verifies(c, id, initial)
    ensures var (t, ok) := OnCreateVault(c, s, name, id, initial);
            var free := name !in s.reg.names && id !in s.reg.vaults && id != "";
            && t.active == s.active && (ok <==> free && Storage.DocOf(s.disk, name).Absent?)
            && (!free ==> t == s)
            && (free ==>
                  && VaultByName(t.reg, name) == Some(Db(name, id))
                  && Storage.DocOf(t.disk, name) == if ok then Storage.Doc(1, initial) else Storage.DocOf(s.disk, name))
            && (forall other :: other != name ==> Storage.DocOf(t.disk, other) == Storage.DocOf(s.disk, other))
            && (Integral(s.reg) ==> forall other :: other != name ==> VaultByName(t.reg, other) == VaultByName(s.reg, other))
  {
  }

  /** `vault new` selects the vault exactly if it was created and announced. */
  lemma NewSelects(c: Crypto, s: Session, name: string, key: Buffer, sk: Buffer, noise: Noise, announced: bool)
    ensures var (sealed, (t, ok)) := (Seal(c, key, sk, map[], noise), New(c, s, name, key, sk, noise, announced));
            && (ok <==> announced && sealed.Returned? && OnCreateVault(c, s, name, c.idOf(sk), sealed.value).1)
            && t.active == (if ok then Some(Active(name, key)) else s.active)
            && (sealed.Returned? ==>
                  var u := OnCreateVault(c, s, name, c.idOf(sk), sealed.value).0;
                  t.reg == u.reg && t.disk == u.disk)
  {
  }

  /** Whatever keeps a command from reading the vault, it changes nothing and says why. */
  lemma UnreadAnswers(c: Crypto, s: Session, key: string, value: string, noise: Noise)
    ensures var current := Current(s);
            if current.None? then Set(c, s, key, value, noise) == (s, NoVault) && Get(c, s, key) == NoVault
            else
              var (db, doc) := (current.value, Storage.DocOf(s.disk, current.value.store));
              doc.Absent? || Open(c, s.active.value.key, db.vaultId, doc.content).None? ==>
                Set(c, s, key, value, noise) == (s, Unreadable) && Get(c, s, key) == Unreadable
  {
  }

  /** A new vault refines the empty map. */
  lemma NewRefines(c: Crypto, s: Session, name: string, key: Buffer, sk: Buffer, noise: Noise, announced: bool)
    requires c.Lawful()
    ensures var (t, ok) := New(c, s, name, key, sk, noise, announced);
            ok ==> Refines(c, t, sk, map[])
  {
    if Seal(c, key, sk, map[], noise).Returned? {
      OpenSeal(c, key, sk, map[], noise, c.idOf(sk));
      Worlds.OpenedStore(s.reg, s.disk, name, c.idOf(sk), Seal(c, key, sk, map[], noise).value);
    }
  }

  /** A stored `set` changes one entry of the map and keeps the private key; any other outcome changes nothing. */
  lemma SetRefines(c: Crypto, s: Session, sk: Buffer, content: Content, key: string, value: string, noise: Noise)
    requires c.Lawful() && Refines(c, s, sk, content)
    ensures var (t, answer) := Set(c, s, key, value, noise);
            && (answer == Stored <==> Sealable(c, s.active.value.key, sk, content[key := value], noise))
            && (answer == Stored ==> Refines(c, t, sk, content[key := value]))
            && (answer != Stored ==> answer == NotStored && t == s)
  {
    var longer := content[key := value];
    SealSucceedsIff(c, s.active.value.key, sk, longer, noise);
    if Sealable(c, s.active.value.key, sk, longer, noise) {
      OpenSeal(c, s.active.value.key, sk, longer, noise, Current(s).value.vaultId);
    }
  }

  /**
   A `set` touches no registry entry and exactly one document: that of the active vault's
   store, if it answers so.  Other vaults notice only when a re-pointed name made them
   share the store.
   */
  lemma SetLeavesOthers(c: Crypto, s: Session, key: string, value: string, noise: Noise, store: string)
    ensures var (t, answer) := Set(c, s, key, value, noise);
            && t.reg == s.reg && t.active == s.active
            && (Storage.DocOf(t.disk, store) != Storage.DocOf(s.disk, store) <==>
                  answer == Stored && Current(s).Some? && store == Current(s).value.store)
  {
    if Current(s).Some? {
      var doc := Storage.DocOf(s.disk, Current(s).value.store);
      assert doc.Doc? ==> forall raw :: Storage.Written(doc, raw).rev == doc.rev + 1;
    }
  }

  datatype Command = SetEntry(key: string, value: string, noise: Noise) | GetEntry(key: string)

  function Do(c: Crypto, s: Session, command: Command): (Session, Answer) {
    match command
    case SetEntry(key, value, noise) => Set(c, s, key, value, noise)
    case GetEntry(key) => (s, Get(c, s, key))
  }

  /** Commands run one at a time: the next line is read when the last command has finished. */
  function DoAll(c: Crypto, s: Session, commands: seq<Command>): (r: (Session, seq<Answer>))
    ensures |r.1| == |commands|
  {
    if commands == [] then (s, [])
    else
      var n := |commands| - 1;
      var (t, answers) := DoAll(c, s, commands[..n]);
      var (u, answer) := Do(c, t, commands[n]);
      (u, answers + [answer])
  }

  /** The last value stored for a key. */
  function LastStored(commands: seq<Command>, answers: seq<Answer>, key: string): Option<string>
    requires |commands| == |answers|
  {
    if commands == [] then None
    else
      var n := |commands| - 1;
      if commands[n].SetEntry? && commands[n].key == key && answers[n] == Stored then Some(commands[n].value)
      else LastStored(commands[..n], answers[..n], key)
  }

  ghost predicate Remembers(content: Content, commands: seq<Command>, answers: seq<Answer>)
    requires |commands| == |answers|
  {
    forall key ::
      if LastStored(commands, answers, key).Some?
      then key in content && content[key] == LastStored(commands, answers, key).value
      else key !in content
  }

  /** After these commands the map prescribes this answer. */
  ghost predicate AsMap(
    c: Crypto, key: Buffer, sk: Buffer, commands: seq<Command>, answers: seq<Answer>, command: Command, answer: Answer)
    requires |commands| == |answers|
  {
    match command
    case SetEntry(k, value, noise) =>
      exists content :: Remembers(content, commands, answers)
        && answer == if Sealable(c, key, sk, content[k := value], noise) then Stored else NotStored
    case GetEntry(key) =>
      var last := LastStored(commands, answers, key);
      answer == if last.Some? && last.value != "" then Found(last.value) else NoEntry
  }

  /** Every answer is what the map of the commands before it prescribes. */
  ghost predicate AnsweredAsMap(c: Crypto, key: Buffer, sk: Buffer, commands: seq<Command>, answers: seq<Answer>)
    requires |commands| == |answers|
  {
    forall i :: 0 <= i < |commands| ==> AsMap(c, key, sk, commands[..i], answers[..i], commands[i], answers[i])
  }

  function After(content: Content, command: Command, answer: Answer): Content {
    if command.SetEntry? && answer == Stored then content[command.key := command.value] else content
  }

  /** One command on a state that stands for a map: its answer, and the map it leads to. */
  lemma DoRefines(c: Crypto, s: Session, sk: Buffer, content: Content, command: Command)
    requires c.Lawful() && Refines(c, s, sk, content)
    ensures var (t, answer) := Do(c, s, command);
            && t.active == s.active && Refines(c, t, sk, After(content, command, answer))
            && match command
               case SetEntry(k, value, noise) =>
                 answer == if Sealable(c, s.active.value.key, sk, content[k := value], noise) then Stored else NotStored
               case GetEntry(k) =>
                 answer == if k in content && content[k] != "" then Found(content[k]) else NoEntry
  {
    if command.SetEntry? {
      SetRefines(c, s, sk, content, command.key, command.value, command.noise);
    }
  }

  lemma AnswerAsMap(
    c: Crypto, key: Buffer, sk: Buffer, content: Content, commands: seq<Command>, answers: seq<Answer>,
    command: Command, answer: Answer)
    requires |commands| == |answers| && Remembers(content, commands, answers)
    requires match command
             case SetEntry(k, value, noise) =>
               answer == if Sealable(c, key, sk, content[k := value], noise) then Stored else NotStored
             case GetEntry(k) =>
               answer == if k in content && content[k] != "" then Found(content[k]) else NoEntry
    ensures AsMap(c, key, sk, commands, answers, command, answer)
    ensures Remembers(After(content, command, answer), commands + [command], answers + [answer])
  {
    RemembersMore(content, After(content, command, answer), commands, answers, command, answer);
  }

  lemma DoAllMore(c: Crypto, s: Session, commands: seq<Command>, command: Command)
    ensures var (t, answers) := DoAll(c, s, commands);
            var (u, answer) := Do(c, t, command);
            DoAll(c, s, commands + [command]) == (u, answers + [answer])
  {
    assert (commands + [command])[..|commands|] == commands;
  }

  /** A run of commands from a state that stands for the empty map ends in one that stands for what was stored. */
  lemma {:induction false} RunRefines(c: Crypto, s: Session, key: Buffer, sk: Buffer, commands: seq<Command>)
    returns (content: Content)
    requires c.Lawful() && Refines(c, s, sk, map[]) && key == s.active.value.key
    ensures var (t, answers) := DoAll(c, s, commands);
            && t.active == s.active && Refines(c, t, sk, content)
            && Remembers(content, commands, answers) && AnsweredAsMap(c, key, sk, commands, answers)
    decreases |commands|
  {
    if commands == [] {
      content := map[];
    } else {
      var (front, command) := (commands[..|commands| - 1], commands[|commands| - 1]);
      assert front + [command] == commands;
      var before := RunRefines(c, s, key, sk, front);
      var (t, answers) := DoAll(c, s, front);
      var (u, answer) := Do(c, t, command);
      DoRefines(c, t, sk, before, command);
      content := After(before, command, answer);
      AnswerAsMap(c, key, sk, before, front, answers, command, answer);
      AnsweredMore(c, key, sk, front, answers, command, answer);
      DoAllMore(c, s, front, command);
    }
  }

  /**
   Any run of `set` and `get` after `vault new`: each `set` is stored exactly if the map
   it leads to can be sealed, each `get` shows the last value stored for its key unless
   that is empty, the document always opens to exactly the values stored last, and the
   private key in it stays the one the vault was born with.
   */
  lemma SessionIsMap(
    c: Crypto, s: Session, name: string, key: Buffer, sk: Buffer, noise: Noise, announced: bool, commands: seq<Command>)
    requires c.Lawful()
    ensures var (born, ok) := New(c, s, name, key, sk, noise, announced);
            var (t, answers) := DoAll(c, born, commands);
            ok ==> AnsweredAsMap(c, key, sk, commands, answers) && HoldsLastStored(c, t, sk, commands, answers)
  {
    NewRefines(c, s, name, key, sk, noise, announced);
    var (born, ok) := New(c, s, name, key, sk, noise, announced);
    if ok {
      NewSelects(c, s, name, key, sk, noise, announced);
      var content := RunRefines(c, born, key, sk, commands);
    }
  }

  ghost predicate HoldsLastStored(c: Crypto, t: Session, sk: Buffer, commands: seq<Command>, answers: seq<Answer>)
    requires |commands| == |answers|
  {
    exists content :: Refines(c, t, sk, content) && Remembers(content, commands, answers)
  }

  lemma RemembersMore(
    before: Content, after: Content, commands: seq<Command>, answers: seq<Answer>, command: Command, answer: Answer)
    requires |commands| == |answers| && Remembers(before, commands, answers)
    requires answer == Stored ==> command.SetEntry?
    requires after == if answer == Stored then before[command.key := command.value] else before
    ensures Remembers(after, commands + [command], answers + [answer])
  {
    assert (commands + [command])[..|commands|] == commands && (answers + [answer])[..|answers|] == answers;
  }

  lemma AnsweredMore(
    c: Crypto, key: Buffer, sk: Buffer, commands: seq<Command>, answers: seq<Answer>, command: Command, answer: Answer)
    requires |commands| == |answers| && AnsweredAsMap(c, key, sk, commands, answers)
    requires AsMap(c, key, sk, commands, answers, command, answer)
    ensures AnsweredAsMap(c, key, sk, commands + [command], answers + [answer])
  {
    var (cs, rs) := (commands + [command], answers + [answer]);
    forall i | 0 <= i < |cs| ensures AsMap(c, key, sk, cs[..i], rs[..i], cs[i], rs[i]) {
      if i < |commands| {
        assert cs[..i] == commands[..i] && rs[..i] == answers[..i];
      } else {
        assert cs[..i] == commands && rs[..i] == answers;
      }
    }
  }
}
