/**
 The registry together with its admin record: vaults are created while earlier creations
 are still being recorded, and a restart rebuilds the registry from the stored list.
 */
module Restarts {
  import opened Registries
  import opened Vaults
  import Admin

  datatype Service = Service(reg: Registry, doc: Admin.Doc, tasks: map<nat, Admin.Task>)

  /** A restart forgets the tasks in flight; a put that is to land first is a `Records` event before it. */
  datatype Event =
    | Create(k: nat, name: string, id: string)
    | Link(k: nat, name: string, id: string)
    | Delete(id: string)
    | Records(e: Admin.Event)
    | Restart

  function Tasks(s: Service): Admin.State {
    Admin.State(s.doc, s.tasks, [])
  }

  predicate Enabled(s: Service, e: Event) {
    match e
    case Create(k, _, _) => k !in s.tasks
    case Link(k, _, _) => k !in s.tasks
    case Delete(_) => true
    case Records(a) => !a.Start? && Admin.Enabled(Tasks(s), a)
    case Restart => true
  }

  /** A creation that succeeds starts to be recorded. */
  function Recording(s: Service, r: (Registry, Reply), k: nat, record: Record): Service {
    Service(r.0, s.doc, if r.1.Opened? then s.tasks[k := Admin.Started(record)] else s.tasks)
  }

  function Next(s: Service, e: Event): Service
    requires Enabled(s, e)
  {
    match e
    case Create(k, name, id) => Recording(s, CreateVault(s.reg, name, id), k, Record(name, id))
    case Link(k, name, id) =>
      if id in s.reg.vaults then s.(reg := LinkVault(s.reg, name, id).0)
      else Recording(s, LinkVault(s.reg, name, id), k, Record(name, id))
    case Delete(id) => s.(reg := Unregister(s.reg, id))
    case Records(a) =>
      var t := Admin.Next(Tasks(s), a);
      Service(s.reg, t.doc, t.tasks)
    case Restart =>
      var doc := Admin.Initialized(s.doc);
      Service(LoadAll(EMPTY, doc.records), doc, map[])
  }

  ghost predicate Runs(s: Service, events: seq<Event>, t: Service)
    decreases |events|
  {
    if events == [] then s == t else Enabled(s, events[0]) && Runs(Next(s, events[0]), events[1..], t)
  }

  const FIRST_START := Service(EMPTY, Admin.Doc(1, []), map[])

  ghost predicate NoDeletes(events: seq<Event>) {
    forall e :: e in events ==> !e.Delete?
  }

  /** The start of the program, before any command or request is accepted: the objects go through the restart step. */
  method Boot(admin: Admin.AdminService, vaults: VaultService)
    requires vaults.Valid() && vaults.Reg() == EMPTY
    modifies admin, vaults
    ensures vaults.Valid() && vaults.adminAttached
    ensures forall s: Service :: s.doc == old(admin.doc) ==> Next(s, Restart) == Service(vaults.Reg(), admin.doc, map[])
  {
    admin.Initialize();
    var records := admin.GetAllVaultRecords();
    vaults.UseAdminService(records);
  }

  /** Every vault opened by a command starts to be recorded, and nothing else does. */
  lemma OpeningIsRecorded(s: Service, e: Event)
    requires Enabled(s, e) && (e.Create? || e.Link?)
    ensures var (t, opens) := (Next(s, e), e.id != "" && e.id !in s.reg.vaults && e.name !in s.reg.names);
            && t.doc == s.doc
            && t.tasks == (if opens then s.tasks[e.k := Admin.Started(Record(e.name, e.id))] else s.tasks)
            && (opens <==> e.id in t.reg.vaults && e.id !in s.reg.vaults)
  {
  }

  /** A delete touches the registry only; a restart rebuilds it from the record and forgets what was in flight. */
  lemma DeleteAndRestart(s: Service, id: string)
    requires s.doc.Doc?
    ensures var t := Next(s, Delete(id));
            && t.doc == s.doc && t.tasks == s.tasks && id !in t.reg.vaults
            && forall n :: VaultByName(t.reg, n) == VaultByName(Unregister(s.reg, id), n)
    ensures var t := Next(s, Restart);
            t.doc == s.doc && t.tasks == map[] && t.reg == LoadAll(EMPTY, s.doc.records)
  {
  }

  // ---- loading a list ----

  /** No earlier record has the name of this one. */
  ghost predicate FirstOfName(records: seq<Record>, i: nat)
    requires i < |records|
  {
    forall j :: 0 <= j < i ==> records[j].vaultName != records[i].vaultName
  }

  ghost predicate ListedFirst(records: seq<Record>, name: string, id: string) {
    exists i :: 0 <= i < |records| && FirstOfName(records, i) && records[i] == Record(name, id)
  }

  /** The registry holds exactly the first record for each name, over the store of that name. */
  ghost predicate HoldsFirsts(r: Registry, records: seq<Record>) {
    && (forall n, id :: ListedFirst(records, n, id) <==> n in r.names && r.names[n] == id)
    && (forall n, id :: ListedFirst(records, n, id) ==> id in r.vaults && r.vaults[id] == Db(n, id))
    && (forall id :: id in r.vaults ==> ListedFirst(records, r.vaults[id].store, id))
  }

  ghost predicate Loadable(records: seq<Record>) {
    Admin.DistinctIds(records) && forall r :: r in records ==> r.vaultId != ""
  }

  ghost predicate HasName(records: seq<Record>, name: string) {
    exists j :: 0 <= j < |records| && records[j].vaultName == name
  }

  lemma {:induction false} NameHasFirst(records: seq<Record>, i: nat)
    requires i < |records|
    ensures exists id :: ListedFirst(records, records[i].vaultName, id)
  {
    if FirstOfName(records, i) {
      assert ListedFirst(records, records[i].vaultName, records[i].vaultId);
    } else {
      var j :| 0 <= j < i && records[j].vaultName == records[i].vaultName;
      NameHasFirst(records, j);
    }
  }

  lemma ListedFirstMore(records: seq<Record>, record: Record, n: string, id: string)
    ensures ListedFirst(records + [record], n, id) <==>
      ListedFirst(records, n, id) || (record == Record(n, id) && !HasName(records, n))
  {
    var longer := records + [record];
    assert forall j :: 0 <= j < |records| ==> longer[j] == records[j];
    assert longer[|records|] == record;
    if ListedFirst(records, n, id) {
      var i :| 0 <= i < |records| && FirstOfName(records, i) && records[i] == Record(n, id);
      assert FirstOfName(longer, i) && longer[i] == Record(n, id);
    }
    if record == Record(n, id) && !HasName(records, n) {
      assert FirstOfName(longer, |records|);
    }
    if ListedFirst(longer, n, id) {
      var i :| 0 <= i < |longer| && FirstOfName(longer, i) && longer[i] == Record(n, id);
      if i < |records| {
        assert FirstOfName(records, i) && records[i] == Record(n, id);
      } else {
        forall j | 0 <= j < |records| ensures records[j].vaultName != n {
          assert longer[j].vaultName != longer[i].vaultName;
        }
      }
    }
  }

  lemma NamesAreListed(r: Registry, records: seq<Record>, name: string)
    requires HoldsFirsts(r, records)
    ensures HasName(records, name) <==> name in r.names
  {
    if j :| 0 <= j < |records| && records[j].vaultName == name {
      NameHasFirst(records, j);
    }
    if name in r.names {
      assert ListedFirst(records, name, r.names[name]);
    }
  }

  lemma HoldsFirstsMore(r: Registry, records: seq<Record>, record: Record)
    requires HoldsFirsts(r, records) && record.vaultId != "" && record.vaultId !in Admin.Ids(records)
    ensures HoldsFirsts(LoadVault(r, record.vaultName, record.vaultId).0, records + [record])
  {
    NamesAreListed(r, records, record.vaultName);
    forall i | 0 <= i < |records| ensures records[i].vaultId != record.vaultId {
      assert records[i] in records;
    }
    assert record.vaultId !in r.vaults;
    forall n, id ensures ListedFirst(records + [record], n, id) <==>
        ListedFirst(records, n, id) || (record == Record(n, id) && record.vaultName !in r.names) {
      ListedFirstMore(records, record, n, id);
    }
    if record.vaultName in r.names {
      assert HoldsFirsts(r, records + [record]);
    } else {
      assert HoldsFirsts(SetEntry(r, record.vaultName, record.vaultId), records + [record]);
    }
  }

  lemma {:induction false} LoadAllHolds(r: Registry, done: seq<Record>, records: seq<Record>)
    requires HoldsFirsts(r, done) && Loadable(done + records)
    ensures HoldsFirsts(LoadAll(r, records), done + records)
    decreases |records|
  {
    if records == [] {
      assert done + records == done;
    } else {
      var (r0, rest) := (records[0], records[1..]);
      var longer := done + [r0];
      assert longer + rest == done + records;
      assert (done + records)[|done|] == r0 && r0 in done + records;
      forall i | 0 <= i < |done| ensures done[i].vaultId != r0.vaultId {
        assert (done + records)[i] == done[i];
      }
      HoldsFirstsMore(r, done, r0);
      LoadAllHolds(LoadVault(r, r0.vaultName, r0.vaultId).0, longer, rest);
    }
  }

  /** From a list with distinct non-empty ids, an empty registry loads exactly the first record for each name. */
  lemma RestartLoadsFirsts(records: seq<Record>)
    requires Loadable(records)
    ensures HoldsFirsts(LoadAll(EMPTY, records), records)
  {
    assert [] + records == records;
    assert HoldsFirsts(EMPTY, []);
    LoadAllHolds(EMPTY, [], records);
  }

  // ---- runs without deletes, across restarts ----

  ghost predicate DistinctNames(records: seq<Record>) {
    forall i, j :: 0 <= i < j < |records| ==> records[i].vaultName != records[j].vaultName
  }

  /** A live vault that is recorded or about to be: its name is taken and its database is still the one opened first. */
  ghost predicate Live(r: Registry, record: Record) {
    && record.vaultId != "" && record.vaultName in r.names
    && record.vaultId in r.vaults && r.vaults[record.vaultId] == Db(record.vaultName, record.vaultId)
  }

  /** Recorded and soon-to-be-recorded names are pairwise distinct. */
  ghost predicate NamesApart(records: seq<Record>, tasks: map<nat, Admin.Task>) {
    && DistinctNames(records)
    && (forall k, r :: k in tasks && r in records ==> tasks[k].record.vaultName != r.vaultName)
    && (forall k, l :: k in tasks && l in tasks && k != l ==> tasks[k].record.vaultName != tasks[l].record.vaultName)
  }

  ghost predicate AllLive(r: Registry, records: seq<Record>, tasks: map<nat, Admin.Task>) {
    && (forall record :: record in records ==> Live(r, record))
    && (forall k :: k in tasks ==> Live(r, tasks[k].record))
  }

  ghost predicate Ledger(s: Service) {
    Admin.Consistent(Tasks(s)) && NamesApart(s.doc.records, s.tasks) && AllLive(s.reg, s.doc.records, s.tasks)
  }

  lemma LedgerRecording(s: Service, k: nat, name: string, id: string)
    requires Ledger(s) && k !in s.tasks
    ensures Ledger(Recording(s, CreateVault(s.reg, name, id), k, Record(name, id)))
  {
  }

  lemma TasksKeepRecords(s: Service, a: Admin.Event)
    requires Enabled(s, Records(a))
    ensures var t := Next(s, Records(a));
            forall k :: k in t.tasks ==> k in s.tasks && t.tasks[k].record == s.tasks[k].record
  {
  }

  lemma LedgerRecords(s: Service, a: Admin.Event)
    requires Ledger(s) && Enabled(s, Records(a))
    ensures Ledger(Next(s, Records(a)))
  {
    Admin.ConsistentNext(Tasks(s), a);
    TasksKeepRecords(s, a);
    var (t, won) := (Next(s, Records(a)), a.PutLands? && s.tasks[a.k].rev == s.doc.rev);
    if won {
      NamesApartWin(s.doc.records, s.tasks, a.k);
      assert t.doc.records == s.doc.records + [s.tasks[a.k].record] && t.tasks == s.tasks - {a.k};
    } else {
      NamesApartStill(s.doc.records, s.tasks, t.tasks);
    }
  }

  lemma NamesApartWin(records: seq<Record>, tasks: map<nat, Admin.Task>, k: nat)
    requires NamesApart(records, tasks) && k in tasks
    ensures NamesApart(records + [tasks[k].record], tasks - {k})
  {
    DistinctNamesMore(records, tasks[k].record);
  }

  lemma NamesApartStill(records: seq<Record>, tasks: map<nat, Admin.Task>, tasks': map<nat, Admin.Task>)
    requires NamesApart(records, tasks) && forall k :: k in tasks' ==> k in tasks && tasks'[k].record == tasks[k].record
    ensures NamesApart(records, tasks')
  {
  }

  lemma DistinctNamesMore(records: seq<Record>, record: Record)
    requires DistinctNames(records) && forall r :: r in records ==> r.vaultName != record.vaultName
    ensures DistinctNames(records + [record])
    ensures forall r :: r in records + [record] <==> r in records || r == record
  {
    forall i | 0 <= i < |records| ensures records[i].vaultName != record.vaultName {
      assert records[i] in records;
    }
  }

  /** The vault is registered under the recorded name and id, over the store of that name. */
  ghost predicate Holds(r: Registry, record: Record) {
    Live(r, record) && r.names[record.vaultName] == record.vaultId
  }

  lemma RestartHolds(records: seq<Record>, record: Record)
    requires Loadable(records) && DistinctNames(records) && record in records
    ensures Holds(LoadAll(EMPTY, records), record)
  {
    RestartLoadsFirsts(records);
    var i :| 0 <= i < |records| && records[i] == record;
    assert FirstOfName(records, i);
    assert ListedFirst(records, record.vaultName, record.vaultId);
  }

  lemma LedgerRestart(s: Service)
    requires Ledger(s)
    ensures Ledger(Next(s, Restart))
    ensures forall r :: r in s.doc.records ==> Holds(Next(s, Restart).reg, r)
  {
    forall r | r in s.doc.records ensures Holds(Next(s, Restart).reg, r) {
      RestartHolds(s.doc.records, r);
    }
  }

  lemma LedgerNext(s: Service, e: Event)
    requires Ledger(s) && Enabled(s, e) && !e.Delete?
    ensures Ledger(Next(s, e))
  {
    match e
    case Create(k, name, id) => LedgerRecording(s, k, name, id);
    case Link(k, name, id) =>
      if id !in s.reg.vaults {
        LedgerRecording(s, k, name, id);
      }
    case Records(a) => LedgerRecords(s, a);
    case Restart => LedgerRestart(s);
  }

  lemma {:induction false} LedgerRun(s: Service, events: seq<Event>, t: Service)
    requires Ledger(s) && Runs(s, events, t) && NoDeletes(events)
    ensures Ledger(t)
    decreases |events|
  {
    if events != [] {
      assert events[0] in events;
      LedgerNext(s, events[0]);
      LedgerRun(Next(s, events[0]), events[1..], t);
    }
  }

  /**
   After any run without deletes, however many restarts it held: the recorded names and
   ids are pairwise distinct, and one more restart registers every recorded vault under
   its name and id, on the very database it had.
   */
  lemma RestartRestores(events: seq<Event>, s: Service)
    requires Runs(FIRST_START, events, s) && NoDeletes(events)
    ensures s.doc.Doc? && DistinctNames(s.doc.records) && Admin.DistinctIds(s.doc.records)
    ensures forall r :: r in s.doc.records ==>
              Holds(Next(s, Restart).reg, r) && RestoredAs(s.reg, Next(s, Restart).reg, r.vaultId)
    ensures forall id :: id in Next(s, Restart).reg.vaults ==> id in Admin.Ids(s.doc.records)
  {
    LedgerRun(FIRST_START, events, s);
    LedgerRestart(s);
    RestartLoadsOnly(s.doc.records);
  }

  ghost predicate RestoredAs(before: Registry, after: Registry, id: string) {
    id in before.vaults && id in after.vaults && before.vaults[id] == after.vaults[id]
  }

  lemma RestartLoadsOnly(records: seq<Record>)
    requires Loadable(records)
    ensures forall id :: id in LoadAll(EMPTY, records).vaults ==> id in Admin.Ids(records)
  {
    var reg := LoadAll(EMPTY, records);
    RestartLoadsFirsts(records);
    forall id | id in reg.vaults ensures id in Admin.Ids(records) {
      var i :| 0 <= i < |records| && records[i] == Record(reg.vaults[id].store, id);
      assert records[i] in records;
    }
  }

  // ---- runs with deletes ----

  /** What the record keeps whatever is deleted. */
  ghost predicate Kept(s: Service) {
    && Admin.Consistent(Tasks(s)) && Loadable(s.doc.records)
    && forall k :: k in s.tasks ==> s.tasks[k].record.vaultId != ""
  }

  lemma KeptNext(s: Service, e: Event)
    requires Kept(s) && Enabled(s, e)
    ensures Kept(Next(s, e))
  {
    match e
    case Create(k, name, id) => KeptRecording(s, k, name, id);
    case Link(k, name, id) =>
      if id !in s.reg.vaults {
        KeptRecording(s, k, name, id);
      }
    case Delete(_) =>
    case Records(a) => KeptRecords(s, a);
    case Restart =>
  }

  lemma KeptRecording(s: Service, k: nat, name: string, id: string)
    requires Kept(s) && k !in s.tasks
    ensures Kept(Recording(s, CreateVault(s.reg, name, id), k, Record(name, id)))
  {
  }

  lemma KeptRecords(s: Service, a: Admin.Event)
    requires Kept(s) && Enabled(s, Records(a))
    ensures Kept(Next(s, Records(a)))
  {
    Admin.ConsistentNext(Tasks(s), a);
    var s' := Next(s, Records(a));
    TasksKeepRecords(s, a);
    if a.PutLands? && s.tasks[a.k].rev == s.doc.rev {
      assert s'.doc.records == s.doc.records + [s.tasks[a.k].record];
    }
  }

  lemma {:induction false} KeptRun(s: Service, events: seq<Event>, t: Service)
    requires Kept(s) && Runs(s, events, t)
    ensures Kept(t)
    decreases |events|
  {
    if events != [] {
      KeptNext(s, events[0]);
      KeptRun(Next(s, events[0]), events[1..], t);
    }
  }

  lemma LoadedIffFirst(records: seq<Record>, i: nat)
    requires Loadable(records) && i < |records|
    ensures var after := LoadAll(EMPTY, records);
            && (records[i].vaultId in after.vaults <==> FirstOfName(records, i))
            && (FirstOfName(records, i) ==> Holds(after, records[i]))
  {
    var (id, after) := (records[i].vaultId, LoadAll(EMPTY, records));
    RestartLoadsFirsts(records);
    if FirstOfName(records, i) {
      assert ListedFirst(records, records[i].vaultName, id);
    }
    if id in after.vaults {
      var name := after.vaults[id].store;
      assert ListedFirst(records, name, id);
      var j :| 0 <= j < |records| && FirstOfName(records, j) && records[j] == Record(name, id);
      assert j == i;
    }
  }

  /** After any run, deletes included, the records have distinct non-empty ids and a restart loads the first of each name. */
  lemma RestartAlwaysLoadsFirsts(events: seq<Event>, s: Service)
    requires Runs(FIRST_START, events, s)
    ensures s.doc.Doc? && Loadable(s.doc.records) && HoldsFirsts(Next(s, Restart).reg, s.doc.records)
  {
    KeptRun(FIRST_START, events, s);
    RestartLoadsFirsts(s.doc.records);
  }

  /** So after any run a restart registers exactly the vaults whose record is the first of its name, each under that name. */
  lemma SurvivesIffFirst(events: seq<Event>, s: Service, i: nat)
    requires Runs(FIRST_START, events, s) && s.doc.Doc? && i < |s.doc.records|
    ensures var (record, after) := (s.doc.records[i], Next(s, Restart).reg);
            && (record.vaultId in after.vaults <==> FirstOfName(s.doc.records, i))
            && (FirstOfName(s.doc.records, i) ==> Holds(after, record))
  {
    KeptRun(FIRST_START, events, s);
    LoadedIffFirst(s.doc.records, i);
  }

  /** The vault is recorded, and first under its name. */
  ghost predicate RecordedFirst(records: seq<Record>, id: string) {
    exists i :: 0 <= i < |records| && records[i].vaultId == id && FirstOfName(records, i)
  }

  /**
   After any run, deleting a vault lasts until the next restart, which brings it back
   exactly when its record is the first of its name.
   */
  lemma DeletedReturnsIff(events: seq<Event>, s: Service, id: string)
    requires Runs(FIRST_START, events, s)
    ensures var t := Next(s, Delete(id));
            && s.doc.Doc? && id !in t.reg.vaults
            && (id in Next(t, Restart).reg.vaults <==> RecordedFirst(s.doc.records, id))
  {
    KeptRun(FIRST_START, events, s);
    var records := s.doc.records;
    RestartLoadsOnly(records);
    assert Next(Next(s, Delete(id)), Restart).reg == LoadAll(EMPTY, records);
    if i :| 0 <= i < |records| && records[i].vaultId == id && FirstOfName(records, i) {
      LoadedIffFirst(records, i);
    }
    if id in LoadAll(EMPTY, records).vaults {
      var i :| 0 <= i < |records| && records[i].vaultId == id;
      LoadedIffFirst(records, i);
    }
  }

  /**
   With a delete neither holds: the record outlives the vault, its name is listed twice,
   and a restart brings the deleted vault back instead of the live one.
   */
  lemma DeletedVaultReturns()
    ensures exists events, s ::
      && Runs(FIRST_START, events, s) && s.doc.Doc? && s.doc.records == [Record("a", "1"), Record("a", "2")]
      && "1" !in s.reg.vaults && "2" in s.reg.vaults
      && "1" in Next(s, Restart).reg.vaults && "2" !in Next(s, Restart).reg.vaults
  {
    var (r1, r2) := (Record("a", "1"), Record("a", "2"));
    var events, s := DeletedAndReplaced(r1, r2);
    LoadsFirstOfTwo(r1, r2);
  }

  /** A vault is created and recorded, deleted, and another created and recorded under its name. */
  lemma DeletedAndReplaced(r1: Record, r2: Record) returns (events: seq<Event>, s: Service)
    requires r1 == Record("a", "1") && r2 == Record("a", "2")
    ensures Runs(FIRST_START, events, s) && s.doc == Admin.Doc(3, [r1, r2]) && s.reg == SetEntry(EMPTY, "a", "2")
  {
    var s3 := Service(SetEntry(EMPTY, "a", "1"), Admin.Doc(2, [] + [r1]), map[]);
    var s4 := Service(EMPTY, Admin.Doc(2, [] + [r1]), map[]);
    s := Service(SetEntry(EMPTY, "a", "2"), Admin.Doc(3, [] + [r1] + [r2]), map[]);
    var e1 := CreateAndRecord(FIRST_START, s3, r1);
    assert Next(s3, Delete("1")) == s4;
    assert [Delete("1")][1..] == [];
    assert Runs(s3, [Delete("1")], s4);
    var e2 := CreateAndRecord(s4, s, r2);
    RunsThen(FIRST_START, e1, s3, [Delete("1")], s4);
    RunsThen(FIRST_START, e1 + [Delete("1")], s4, e2, s);
    events := e1 + [Delete("1")] + e2;
  }

  lemma LoadsFirstOfTwo(r1: Record, r2: Record)
    requires r1 == Record("a", "1") && r2 == Record("a", "2")
    ensures LoadAll(EMPTY, [r1, r2]) == SetEntry(EMPTY, "a", "1")
  {
    var one := SetEntry(EMPTY, "a", "1");
    assert [r1, r2][1..] == [r2] && [r2][1..] == [];
    assert LoadAll(one, [r2]) == LoadAll(one, []);
  }

  /** One creation, recorded without interference. */
  lemma CreateAndRecord(s: Service, t: Service, r: Record) returns (events: seq<Event>)
    requires s.tasks == map[] && s.doc.Doc? && r.vaultId !in Admin.Ids(s.doc.records)
    requires r.vaultId != "" && r.vaultName !in s.reg.names && r.vaultId !in s.reg.vaults
    requires t == Service(SetEntry(s.reg, r.vaultName, r.vaultId), Admin.Doc(s.doc.rev + 1, s.doc.records + [r]), map[])
    ensures Runs(s, events, t)
  {
    events := [Event.Create(0, r.vaultName, r.vaultId), Records(Admin.GetLands(0)), Records(Admin.PutLands(0))];
    var s1 := Next(s, events[0]);
    var s2 := Next(s1, events[1]);
    assert Next(s2, events[2]) == t;
    assert Runs(t, events[3..], t);
    assert Runs(s2, events[2..], t);
    assert Runs(s1, events[1..], t);
  }

  lemma {:induction false} RunsThen(s: Service, events: seq<Event>, t: Service, more: seq<Event>, u: Service)
    requires Runs(s, events, t) && Runs(t, more, u)
    ensures Runs(s, events + more, u)
    decreases |events|
  {
    var all := events + more;
    if events == [] {
      assert all == more;
    } else {
      RunsThen(Next(s, events[0]), events[1..], t, more, u);
      assert all[0] == events[0] && all[1..] == events[1..] + more;
    }
  }
}
