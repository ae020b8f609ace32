/**
 The vault registry as a state machine: the two maps every command and every delete
 continuation works on, and what all their interleavings keep.
 */
module Registries {
  import opened Outcomes

  /** A vault database object: the id it was opened for, and the name of the store beneath it. */
  datatype Db = Db(store: string, vaultId: string)

  /** `names` maps nicknames to vault ids, `vaults` maps vault ids to databases. */
  datatype Registry = Registry(names: map<string, string>, vaults: map<string, Db>)

  const EMPTY := Registry(map[], map[])

  datatype Reply = Opened(db: Db) | Conflict | Failed

  function SetEntry(r: Registry, name: string, id: string): Registry {
    Registry(r.names[name := id], r.vaults[id := Db(name, id)])
  }

  /** An empty id makes the database constructor throw after the conflict checks. */
  function CreateVault(r: Registry, name: string, id: string): (Registry, Reply) {
    if name in r.names || id in r.vaults then (r, Conflict)
    else if id == "" then (r, Failed)
    else (SetEntry(r, name, id), Opened(Db(name, id)))
  }

  /** A known id gains a nickname, whatever that nickname meant before; an unknown one is created. */
  function LinkVault(r: Registry, name: string, id: string): (Registry, Reply) {
    if id in r.vaults then (r.(names := r.names[name := id]), Opened(r.vaults[id]))
    else CreateVault(r, name, id)
  }

  /** Same checks and effect as creation; the thrown error becomes a failed reply. */
  function LoadVault(r: Registry, name: string, id: string): (Registry, Reply) {
    if name in r.names then (r, Conflict)
    else if id in r.vaults then (r, Conflict)
    else if id == "" then (r, Failed)
    else (SetEntry(r, name, id), Opened(Db(name, id)))
  }

  /** A vault leaves both maps. */
  function Unregister(r: Registry, id: string): Registry {
    Registry(map n | n in r.names && r.names[n] != id :: r.names[n], r.vaults - {id})
  }

  /** `getVaultByName`: both lookups fall back to null on a miss. */
  function VaultByName(r: Registry, name: string): Option<Db> {
    if name in r.names && r.names[name] != "" && r.names[name] in r.vaults then Some(r.vaults[r.names[name]]) else None
  }

  // ---- runs ----

  /**
   The stretches of code between awaits.  `deleteVaultById` looks up and starts the
   destruction (`BeginDelete`), and resumes when it is done or has failed; the handle of
   `_getVaultById` unregisters first (`HandleDelete`), at any time after it was handed out.
   */
  datatype Event =
    | Create(name: string, id: string)
    | Link(name: string, id: string)
    | Load(name: string, id: string)
    | BeginDelete(id: string)
    | EndDelete(id: string)
    | FailDelete(id: string)
    | HandleDelete(id: string)

  /** The registry and the ids whose `deleteVaultById` call awaits the destruction. */
  datatype State = State(reg: Registry, deleting: multiset<string>)

  predicate Enabled(s: State, e: Event) {
    e.EndDelete? || e.FailDelete? ==> e.id in s.deleting
  }

  function Next(s: State, e: Event): State
    requires Enabled(s, e)
  {
    match e
    case Create(name, id) => s.(reg := CreateVault(s.reg, name, id).0)
    case Link(name, id) => s.(reg := LinkVault(s.reg, name, id).0)
    case Load(name, id) => s.(reg := LoadVault(s.reg, name, id).0)
    case BeginDelete(id) => if id in s.reg.vaults then s.(deleting := s.deleting + multiset{id}) else s
    case EndDelete(id) => State(Unregister(s.reg, id), s.deleting - multiset{id})
    case FailDelete(id) => s.(deleting := s.deleting - multiset{id})
    case HandleDelete(id) => s.(reg := Unregister(s.reg, id))
  }

  ghost predicate Runs(s: State, events: seq<Event>, t: State)
    decreases |events|
  {
    if events == [] then s == t else Enabled(s, events[0]) && Runs(Next(s, events[0]), events[1..], t)
  }

  const START := State(EMPTY, multiset{})

  // ---- integrity: a nickname never dangles ----

  /** Every nickname leads to a registered vault, and every database carries its own key. */
  ghost predicate Integral(r: Registry) {
    && (forall n :: n in r.names ==> r.names[n] in r.vaults)
    && (forall id :: id in r.vaults ==> id != "" && r.vaults[id].vaultId == id)
  }

  lemma IntegralNext(s: State, e: Event)
    requires Integral(s.reg) && Enabled(s, e)
    ensures Integral(Next(s, e).reg)
  {
  }

  lemma {:induction false} IntegralRun(s: State, events: seq<Event>, t: State)
    requires Integral(s.reg) && Runs(s, events, t)
    ensures Integral(t.reg)
    decreases |events|
  {
    if events != [] {
      IntegralNext(s, events[0]);
      IntegralRun(Next(s, events[0]), events[1..], t);
    }
  }

  /** In every reachable state, looking a name up finds exactly the vault its entry names. */
  lemma NamesNeverDangle(events: seq<Event>, t: State, name: string)
    requires Runs(START, events, t)
    ensures VaultByName(t.reg, name).Some? <==> name in t.reg.names
    ensures name in t.reg.names ==> VaultByName(t.reg, name).value.vaultId == t.reg.names[name]
  {
    IntegralRun(START, events, t);
  }

  // ---- what one operation does to every lookup ----

  /** A creation that opens adds one lookup and changes no other; deleting the vault at once undoes it entirely. */
  lemma CreateThenDelete(r: Registry, name: string, id: string, other: string)
    requires Integral(r)
    ensures var (r', reply) := CreateVault(r, name, id);
            if reply.Opened? then
              && VaultByName(r', other) == (if other == name then Some(Db(name, id)) else VaultByName(r, other))
              && Unregister(r', id) == r
            else r' == r && (VaultByName(r, name).Some? || id in r.vaults || id == "")
  {
    var (r', reply) := CreateVault(r, name, id);
    if reply.Opened? {
      assert Unregister(r', id).names == r.names;
      assert Unregister(r', id).vaults == r.vaults;
    }
  }

  /** A link makes the name mean the vault, whichever it was before, and leaves every other lookup alone. */
  lemma LinkThenLookup(r: Registry, name: string, id: string, other: string)
    requires Integral(r)
    ensures var (r', reply) := LinkVault(r, name, id);
            if reply.Opened? then
              && reply.db.vaultId == id && VaultByName(r', name) == Some(reply.db)
              && (id in r.vaults ==> reply.db == r.vaults[id])
              && (other != name ==> VaultByName(r', other) == VaultByName(r, other))
            else r' == r && id !in r.vaults
  {
  }

  /** A delete ends the lookups that found the vault, and only those. */
  lemma DeleteThenLookup(r: Registry, id: string, name: string)
    requires Integral(r)
    ensures VaultByName(Unregister(r, id), name) ==
            var db := VaultByName(r, name);
            if db.Some? && db.value.vaultId == id then None else db
  {
  }

  /** A lookup finds what the two maps say, and nothing under an empty id. */
  lemma LookupFinds(r: Registry, name: string, db: Db)
    ensures VaultByName(r, name) == Some(db) <==>
            name in r.names && r.names[name] != "" && r.names[name] in r.vaults && r.vaults[r.names[name]] == db
  {
  }

  /** Which answer each operation gives; loading a vault differs from creating it in nothing. */
  lemma Replies(r: Registry, name: string, id: string)
    ensures var (created, linked) := (CreateVault(r, name, id).1, LinkVault(r, name, id).1);
            && LoadVault(r, name, id) == CreateVault(r, name, id)
            && (created == Conflict <==> name in r.names || id in r.vaults)
            && (created == Failed <==> id == "" && name !in r.names && id !in r.vaults)
            && (created.Opened? ==> created == Opened(Db(name, id)))
            && (linked == if id in r.vaults then Opened(r.vaults[id]) else created)
  {
  }

  /** What the events do: opening ones give their name a vault of their own, or change nothing. */
  lemma OpeningEvents(s: State, e: Event)
    requires Integral(s.reg) && Enabled(s, e) && (e.Create? || e.Load? || (e.Link? && e.id !in s.reg.vaults))
    ensures var t := Next(s, e);
            && t.deleting == s.deleting
            && if Opens(s, e) then VaultByName(t.reg, e.name) == Some(Db(e.name, e.id)) else t.reg == s.reg
  {
  }

  /** Both deletes end with the same registry, one at once, the other when the destruction is done; a failed one never does. */
  lemma DeleteEvents(s: State, id: string)
    ensures var (t, begun) := (Next(s, HandleDelete(id)), Next(s, BeginDelete(id)));
            && id !in t.reg.vaults && (forall n :: n in t.reg.names ==> t.reg.names[n] != id) && t.deleting == s.deleting
            && begun.reg == s.reg && (id in s.reg.vaults ==> id in begun.deleting)
            && (id !in s.reg.vaults ==> begun == s)
            && (id in s.reg.vaults ==>
                  && Next(begun, EndDelete(id)) == t
                  && Next(begun, FailDelete(id)) == s)
  {
    if id in s.reg.vaults {
      assert s.deleting + multiset{id} - multiset{id} == s.deleting;
    }
  }

  /** No event replaces a live database, renames by anything but a link, or forgets anything but a deleted vault. */
  lemma EntriesStay(s: State, e: Event)
    requires Enabled(s, e)
    ensures var (r, r') := (s.reg, Next(s, e).reg);
            && (forall id :: id in r.vaults && id in r'.vaults ==> r'.vaults[id] == r.vaults[id])
            && (forall id :: id in r.vaults && id !in r'.vaults ==> (e.EndDelete? || e.HandleDelete?) && id == e.id)
            && (forall n :: n in r.names && n in r'.names && r'.names[n] != r.names[n] ==> e.Link? && n == e.name)
            && (forall n :: n in r.names && n !in r'.names ==> (e.EndDelete? || e.HandleDelete?) && r.names[n] == e.id)
  {
  }

  // ---- anchors: a vault keeps the name it was opened under ----

  /** Every live vault is still mapped from the name of its store. */
  ghost predicate Anchored(r: Registry) {
    forall id :: id in r.vaults ==> r.vaults[id].store in r.names && r.names[r.vaults[id].store] == id
  }

  /** The event takes the opening name of one vault and gives it to another. */
  predicate Repoints(s: State, e: Event) {
    && e.Link? && e.id in s.reg.vaults
    && e.name in s.reg.names && s.reg.names[e.name] != e.id
    && s.reg.names[e.name] in s.reg.vaults && s.reg.vaults[s.reg.names[e.name]].store == e.name
  }

  /** One event breaks the anchors exactly when it is such a link. */
  lemma AnchoredNext(s: State, e: Event)
    requires Anchored(s.reg) && Enabled(s, e)
    ensures Anchored(Next(s, e).reg) <==> !Repoints(s, e)
  {
    var (r, r') := (s.reg, Next(s, e).reg);
    if Repoints(s, e) {
      var owner := r.names[e.name];
      assert owner in r'.vaults && r'.names[e.name] != owner;
    } else {
      forall id | id in r'.vaults ensures r'.vaults[id].store in r'.names && r'.names[r'.vaults[id].store] == id {
        assert id in r.vaults ==> r.names[r.vaults[id].store] == id;
      }
    }
  }

  /** Along the run no link takes over another vault's opening name. */
  ghost predicate NeverRepoints(s: State, events: seq<Event>)
    decreases |events|
  {
    events != [] ==> Enabled(s, events[0]) && !Repoints(s, events[0]) && NeverRepoints(Next(s, events[0]), events[1..])
  }

  /** Every link uses a fresh nickname or one that already means the same vault. */
  ghost predicate LinksFresh(s: State, events: seq<Event>)
    decreases |events|
  {
    events != [] ==>
      && Enabled(s, events[0])
      && (events[0].Link? && events[0].name in s.reg.names ==> s.reg.names[events[0].name] == events[0].id)
      && LinksFresh(Next(s, events[0]), events[1..])
  }

  lemma {:induction false} FreshNeverRepoints(s: State, events: seq<Event>)
    requires LinksFresh(s, events)
    ensures NeverRepoints(s, events)
    decreases |events|
  {
    if events != [] {
      FreshNeverRepoints(Next(s, events[0]), events[1..]);
    }
  }

  lemma {:induction false} AnchoredRun(s: State, events: seq<Event>, t: State)
    requires Anchored(s.reg) && Runs(s, events, t) && NeverRepoints(s, events)
    ensures Anchored(t.reg)
    decreases |events|
  {
    if events != [] {
      AnchoredNext(s, events[0]);
      AnchoredRun(Next(s, events[0]), events[1..], t);
    }
  }

  /** Hence no two live vaults share a store, and each is reachable under the name of its store. */
  lemma StoresNeverShared(events: seq<Event>, t: State, a: string, b: string)
    requires Runs(START, events, t) && NeverRepoints(START, events)
    requires a in t.reg.vaults && b in t.reg.vaults
    ensures t.reg.vaults[a].store == t.reg.vaults[b].store ==> a == b
    ensures VaultByName(t.reg, t.reg.vaults[a].store) == Some(t.reg.vaults[a])
  {
    AnchoredRun(START, events, t);
    IntegralRun(START, events, t);
  }

  // ---- names and stores, step by step ----

  ghost predicate HasName(r: Registry, id: string) {
    exists n :: n in r.names && r.names[n] == id
  }

  /** Every live vault can be reached by some name. */
  ghost predicate Named(r: Registry) {
    forall id :: id in r.vaults ==> HasName(r, id)
  }

  /** The event links a live vault under the only nickname of another. */
  ghost predicate TakesLastName(s: State, e: Event) {
    && e.Link? && e.id in s.reg.vaults
    && e.name in s.reg.names && s.reg.names[e.name] != e.id && s.reg.names[e.name] in s.reg.vaults
    && forall n :: n in s.reg.names && s.reg.names[n] == s.reg.names[e.name] ==> n == e.name
  }

  /** One event leaves a live vault without a name exactly when it is such a link. */
  lemma NamedNext(s: State, e: Event)
    requires Named(s.reg) && Enabled(s, e)
    ensures Named(Next(s, e).reg) <==> !TakesLastName(s, e)
  {
    var (r, r') := (s.reg, Next(s, e).reg);
    if TakesLastName(s, e) {
      assert !HasName(r', r.names[e.name]);
    } else {
      forall id | id in r'.vaults ensures HasName(r', id) {
        if id !in r.vaults || (e.Link? && id == e.id) {
          assert r'.names[e.name] == id;
        } else {
          var n :| n in r.names && r.names[n] == id && (e.Link? && e.id in r.vaults ==> n != e.name);
          assert n in r'.names && r'.names[n] == id;
        }
      }
    }
  }

  lemma {:induction false} NamedRun(s: State, events: seq<Event>, t: State)
    requires Named(s.reg) && Runs(s, events, t) && NeverTakesLastName(s, events)
    ensures Named(t.reg)
    decreases |events|
  {
    if events != [] {
      NamedNext(s, events[0]);
      NamedRun(Next(s, events[0]), events[1..], t);
    }
  }

  ghost predicate NeverTakesLastName(s: State, events: seq<Event>)
    decreases |events|
  {
    events != [] ==>
      Enabled(s, events[0]) && !TakesLastName(s, events[0]) && NeverTakesLastName(Next(s, events[0]), events[1..])
  }

  ghost predicate StoresDistinct(r: Registry) {
    forall a, b :: a in r.vaults && b in r.vaults && r.vaults[a].store == r.vaults[b].store ==> a == b
  }

  /** The event registers a vault that was not registered. */
  predicate Opens(s: State, e: Event) {
    (e.Create? || e.Link? || e.Load?) && e.id != "" && e.id !in s.reg.vaults && e.name !in s.reg.names
  }

  /** One event makes two live vaults share a store exactly when it opens one under the store name of another. */
  lemma StoresDistinctNext(s: State, e: Event)
    requires StoresDistinct(s.reg) && Enabled(s, e)
    ensures StoresDistinct(Next(s, e).reg) <==>
            !(Opens(s, e) && exists id :: id in s.reg.vaults && s.reg.vaults[id].store == e.name)
  {
    var (r, r') := (s.reg, Next(s, e).reg);
    if Opens(s, e) {
      assert r' == SetEntry(r, e.name, e.id);
      if id :| id in r.vaults && r.vaults[id].store == e.name {
        assert id != e.id && r'.vaults[id].store == r'.vaults[e.id].store;
      }
    } else {
      assert forall id :: id in r'.vaults ==> id in r.vaults && r'.vaults[id] == r.vaults[id];
    }
  }

  /** Such a link leads to a vault without a name, and its store is then opened twice. */
  lemma RepointingSharesStore()
    ensures exists events, t ::
      && Runs(START, events, t) && "1" in t.reg.vaults && "3" in t.reg.vaults
      && t.reg.vaults["1"].store == t.reg.vaults["3"].store
      && forall n :: n in t.reg.names ==> t.reg.names[n] != "1"
  {
    var e := [Create("a", "1"), Create("b", "2"), Link("a", "2"), HandleDelete("2"), Create("a", "3")];
    var s1 := Next(START, e[0]);
    var s2 := Next(s1, e[1]);
    var s3 := Next(s2, e[2]);
    var s4 := Next(s3, e[3]);
    var t := Next(s4, e[4]);
    assert s3.reg == Registry(map["a" := "2", "b" := "2"], map["1" := Db("a", "1"), "2" := Db("b", "2")]);
    assert s4.reg == Registry(map[], map["1" := Db("a", "1")]);
    assert Runs(t, e[5..], t);
    assert Runs(s4, e[4..], t);
    assert Runs(s3, e[3..], t);
    assert Runs(s2, e[2..], t);
    assert Runs(s1, e[1..], t);
    assert Runs(START, e, t);
  }
}
