/**
 * The specification of Monitor/SteamManager.cs on values: the `CMs` table as a
 * map, the status writes, the port ordering of a batch, the reconciliation of
 * a batch into the monitor registry, and the round robin over directory cells.
 * The class in SteamManager.dfy is proved against these functions.
 */
module RegistrySpec {
  import opened Wrappers
  import opened Clock
  import opened Steam
  import opened Records
  import opened Monitors

  // ---------------------------------------------------------------- the store

  /** The table's key: `Address` (that is, `GetString()`) and `IsWebSocket`. */
  type StoreKey = (string, bool)

  datatype StoreRow = StoreRow(datacenter: string, status: EResult)

  type Store = map<StoreKey, StoreRow>

  function RowKey(r: DatabaseRecord): StoreKey {
    (r.GetString(), r.isWebSocket)
  }

  /** `INSERT ... ON DUPLICATE KEY UPDATE Status`: a new row, or only the status of the existing one. */
  function Upsert(store: Store, r: DatabaseRecord, status: EResult): (store': Store)
    ensures store'.Keys == store.Keys + {RowKey(r)}
    ensures store'[RowKey(r)].status == status
    ensures RowKey(r) in store ==> store'[RowKey(r)].datacenter == store[RowKey(r)].datacenter
    ensures RowKey(r) !in store ==> store'[RowKey(r)].datacenter == r.datacenter
    ensures forall k | k in store && k != RowKey(r) :: store'[k] == store[k]
  {
    var k := RowKey(r);
    if k in store then store[k := store[k].(status := status)] else store[k := StoreRow(r.datacenter, status)]
  }

  /** `Upsert` of each record in turn. */
  function UpsertAll(store: Store, rs: seq<DatabaseRecord>, status: EResult): Store
    decreases |rs|
  {
    if rs == [] then store else Upsert(UpsertAll(store, rs[..|rs| - 1], status), rs[|rs| - 1], status)
  }

  /** The key a row moved from `from` to `to` lands on: the new address, the old transport. */
  function MovedKey(from: DatabaseRecord, to: DatabaseRecord): StoreKey {
    (to.GetString(), from.isWebSocket)
  }

  /**
   * `UPDATE CMs SET Address = new WHERE Address = old AND IsWebSocket = ...`:
   * the row moves to the new address with its datacenter and status. When
   * another row already holds that address, the update breaks the table's
   * key, MySQL refuses it with a duplicate-entry error, and nothing changes.
   */
  function MoveRow(store: Store, from: DatabaseRecord, to: DatabaseRecord): (store': Store)
    ensures RowKey(from) !in store ==> store' == store
    ensures RowKey(from) in store && MovedKey(from, to) in store && MovedKey(from, to) != RowKey(from) ==> store' == store
    ensures RowKey(from) in store && (MovedKey(from, to) !in store || MovedKey(from, to) == RowKey(from)) ==>
      && store'.Keys == store.Keys - {RowKey(from)} + {MovedKey(from, to)}
      && store'[MovedKey(from, to)] == store[RowKey(from)]
      && forall k | k in store && k != RowKey(from) && k != MovedKey(from, to) :: store'[k] == store[k]
  {
    var k, nk := RowKey(from), MovedKey(from, to);
    if k !in store then store
    else if nk in store && nk != k then store
    else (store - {k})[nk := store[k]]
  }

  /** `UPDATE CMs SET Status = ...` without a `WHERE`: every row gets the status. */
  function ResetStatuses(store: Store, status: EResult): (store': Store)
    ensures store'.Keys == store.Keys
    ensures forall k | k in store' :: store'[k] == store[k].(status := status)
  {
    map k | k in store :: store[k].(status := status)
  }

  /** `DELETE FROM CMs WHERE Address = ... AND IsWebSocket = ...`. */
  function DeleteRow(store: Store, r: DatabaseRecord): (store': Store)
    ensures store'.Keys == store.Keys - {RowKey(r)}
    ensures forall k | k in store' :: store'[k] == store[k]
  {
    store - {RowKey(r)}
  }

  lemma DeleteRowIdempotent(store: Store, r: DatabaseRecord)
    ensures DeleteRow(DeleteRow(store, r), r) == DeleteRow(store, r)
  {
  }

  // ------------------------------------------------------- status reporting

  /** The monitor's fields, the store, and whether a row was written. */
  datatype StatusReport = StatusReport(monitor: MonitorView, store: Store, wrote: bool)

  /**
   * `UpdateCMStatus(monitor, result)`: nothing when the status equals the last
   * one reported; otherwise an upsert and, when it succeeds, the monitor
   * remembers the status. `writeFails` stands for the `MySqlException` path.
   */
  function ReportStatus(m: MonitorView, store: Store, result: EResult, writeFails: bool): (rep: StatusReport)
    ensures rep.wrote <==> m.lastReportedStatus != result && !writeFails
  {
    if m.lastReportedStatus == result then StatusReport(m, store, false)
    else if writeFails then StatusReport(m, store, false)
    else StatusReport(m.(lastReportedStatus := result), Upsert(store, m.server, result), true)
  }

  /** A status equal to the last one reported changes nothing. */
  lemma RepeatedStatusChangesNothing(m: MonitorView, store: Store, result: EResult, writeFails: bool)
    requires m.lastReportedStatus == result
    ensures ReportStatus(m, store, result, writeFails) == StatusReport(m, store, false)
  {
  }

  /** A new status that is stored is remembered, and only the monitor's own row changes. */
  lemma NewStatusIsStored(m: MonitorView, store: Store, result: EResult)
    requires m.lastReportedStatus != result
    ensures var rep := ReportStatus(m, store, result, false);
      rep.wrote && rep.monitor == m.(lastReportedStatus := result) &&
      rep.store == Upsert(store, m.server, result) && rep.store[RowKey(m.server)].status == result
  {
  }

  /** A failed write leaves both the monitor and the store as they were, so the next report tries again. */
  lemma FailedWriteIsRetried(m: MonitorView, store: Store, result: EResult)
    requires m.lastReportedStatus != result
    ensures ReportStatus(m, store, result, true) == StatusReport(m, store, false)
    ensures ReportStatus(m, store, result, false).wrote
  {
  }

  /** Two identical reports in a row write at most once, whichever of them fails. */
  lemma TwoReportsWriteAtMostOnce(m: MonitorView, store: Store, result: EResult, fails1: bool, fails2: bool)
    ensures var first := ReportStatus(m, store, result, fails1);
      var second := ReportStatus(first.monitor, first.store, result, fails2);
      !(first.wrote && second.wrote) &&
      (first.wrote ==> second == StatusReport(first.monitor, first.store, false))
  {
  }

  // ---------------------------------------------------------- port ordering

  predicate SortedByPort(s: seq<DatabaseRecord>) {
    forall i, j | 0 <= i < j < |s| :: s[i].port <= s[j].port
  }

  /** The records of `s` on port `p`, in order. */
  function OnPort(s: seq<DatabaseRecord>, p: int): seq<DatabaseRecord> {
    if s == [] then [] else (if s[0].port == p then [s[0]] else []) + OnPort(s[1..], p)
  }

  /** Inserts `r` in front of the first record whose port is not below its own. */
  function InsertByPort(r: DatabaseRecord, s: seq<DatabaseRecord>): (t: seq<DatabaseRecord>)
    requires SortedByPort(s)
    ensures SortedByPort(t)
    ensures multiset(t) == multiset(s) + multiset{r}
  {
    if s == [] || r.port <= s[0].port then
      ConsSorted(r, s);
      [r] + s
    else
      var u := InsertByPort(r, s[1..]);
      InsertBehindHead(r, s, u);
      [s[0]] + u
  }

  /** The recursive case of `InsertByPort`: the head stays in front of the insertion into the tail. */
  lemma InsertBehindHead(r: DatabaseRecord, s: seq<DatabaseRecord>, u: seq<DatabaseRecord>)
    requires s != [] && SortedByPort(s) && s[0].port < r.port
    requires SortedByPort(u) && multiset(u) == multiset(s[1..]) + multiset{r}
    ensures SortedByPort([s[0]] + u)
    ensures multiset([s[0]] + u) == multiset(s) + multiset{r}
  {
    assert s == [s[0]] + s[1..];
    assert multiset(s) == multiset{s[0]} + multiset(s[1..]);
    PortsAbove(u, multiset(s[1..]) + multiset{r}, s[0].port);
    ConsSorted(s[0], u);
    assert multiset([s[0]] + u) == multiset{s[0]} + multiset(u);
  }

  /** A record on a port no higher than any of a sorted sequence's can go in front of it. */
  lemma ConsSorted(a: DatabaseRecord, u: seq<DatabaseRecord>)
    requires SortedByPort(u)
    requires forall k | 0 <= k < |u| :: a.port <= u[k].port
    ensures SortedByPort([a] + u)
  {
    var t := [a] + u;
    forall i, j | 0 <= i < j < |t|
      ensures t[i].port <= t[j].port
    {
      assert t[j] == u[j - 1];
      if i > 0 {
        assert t[i] == u[i - 1];
      }
    }
  }

  /** Every record of `u` is drawn from `m`, whose records are all on a port of at least `low`. */
  lemma PortsAbove(u: seq<DatabaseRecord>, m: multiset<DatabaseRecord>, low: int)
    requires multiset(u) == m
    requires forall x | x in m :: low <= x.port
    ensures forall k | 0 <= k < |u| :: low <= u[k].port
  {
    forall k | 0 <= k < |u|
      ensures low <= u[k].port
    {
      assert u[k] in multiset(u);
    }
  }

  lemma OnPortCons(r: DatabaseRecord, s: seq<DatabaseRecord>, p: int)
    ensures OnPort([r] + s, p) == (if r.port == p then [r] else []) + OnPort(s, p)
  {
    assert ([r] + s)[1..] == s;
  }

  /** Insertion puts `r` ahead of every record on its own port and moves no other record across one on the same port. */
  lemma {:induction false} InsertByPortOnPort(r: DatabaseRecord, s: seq<DatabaseRecord>, p: int)
    requires SortedByPort(s)
    ensures OnPort(InsertByPort(r, s), p) == (if r.port == p then [r] else []) + OnPort(s, p)
  {
    if s == [] || r.port <= s[0].port {
      assert InsertByPort(r, s) == [r] + s;
      OnPortCons(r, s, p);
    } else {
      SortedTail(s);
      var t := InsertByPort(r, s[1..]);
      assert InsertByPort(r, s) == [s[0]] + t;
      InsertByPortOnPort(r, s[1..], p);
      OnPortCons(s[0], t, p);
      var head := if s[0].port == p then [s[0]] else [];
      assert OnPort(s, p) == head + OnPort(s[1..], p);
      if r.port == p {
        assert head == [];
      }
    }
  }

  lemma SortedTail(s: seq<DatabaseRecord>)
    requires s != [] && SortedByPort(s)
    ensures SortedByPort(s[1..])
  {
  }

  /**
   * `OrderBy(cm => cm.Port)`: sorted by port, a permutation of the batch, and
   * stable (see `OrderByPortStable`).
   */
  function OrderByPort(s: seq<DatabaseRecord>): (t: seq<DatabaseRecord>)
    ensures SortedByPort(t)
    ensures multiset(t) == multiset(s)
  {
    if s == [] then []
    else
      assert s == [s[0]] + s[1..];
      InsertByPort(s[0], OrderByPort(s[1..]))
  }

  /** `OrderBy` is stable: on each port the records keep their order in the batch. */
  lemma {:induction false} OrderByPortStable(s: seq<DatabaseRecord>, p: int)
    ensures OnPort(OrderByPort(s), p) == OnPort(s, p)
  {
    if s != [] {
      OrderByPortStable(s[1..], p);
      InsertByPortOnPort(s[0], OrderByPort(s[1..]), p);
    }
  }

  // ----------------------------------------------------------- reconciling

  /** `++x % 40`: new monitors' first connects are spread over 40 seconds. */
  const StaggerSlots: int := 40

  /** The monitors by key, the store, and the counter `x` of monitors created so far. */
  datatype Registry = Registry(monitors: map<string, MonitorView>, store: Store, created: nat)

  /** The keys of a batch, `GetUniqueKey()` of each record. */
  function KeysOf(s: seq<DatabaseRecord>): (keys: set<string>)
    ensures forall i | 0 <= i < |s| :: s[i].GetUniqueKey() in keys
    decreases |s|
  {
    if s == [] then {} else KeysOf(s[..|s| - 1]) + {s[|s| - 1].GetUniqueKey()}
  }

  /** Every key of a batch is the key of one of its records. */
  lemma {:induction false} KeysOfWitness(s: seq<DatabaseRecord>, k: string)
    requires k in KeysOf(s)
    ensures exists i | 0 <= i < |s| :: s[i].GetUniqueKey() == k
    decreases |s|
  {
    if s[|s| - 1].GetUniqueKey() != k {
      KeysOfWitness(s[..|s| - 1], k);
      var i :| 0 <= i < |s| - 1 && s[..|s| - 1][i].GetUniqueKey() == k;
      assert s[i] == s[..|s| - 1][i];
    }
  }

  /** Reordering a batch does not change its keys. */
  lemma KeysOfPermutation(a: seq<DatabaseRecord>, b: seq<DatabaseRecord>)
    requires multiset(a) == multiset(b)
    ensures KeysOf(a) == KeysOf(b)
  {
    forall k | k in KeysOf(a)
      ensures k in KeysOf(b)
    {
      KeysOfWitness(a, k);
      var i :| 0 <= i < |a| && a[i].GetUniqueKey() == k;
      assert a[i] in multiset(b);
      var j :| 0 <= j < |b| && b[j] == a[i];
    }
    forall k | k in KeysOf(b)
      ensures k in KeysOf(a)
    {
      KeysOfWitness(b, k);
      var i :| 0 <= i < |b| && b[i].GetUniqueKey() == k;
      assert b[i] in multiset(a);
      var j :| 0 <= j < |a| && a[j] == b[i];
    }
  }

  /** How many records of `s` have key `k`. */
  function KeyCount(s: seq<DatabaseRecord>, k: string): (n: nat)
    ensures n > 0 <==> k in KeysOf(s)
    decreases |s|
  {
    if s == [] then 0 else KeyCount(s[..|s| - 1], k) + (if s[|s| - 1].GetUniqueKey() == k then 1 else 0)
  }

  /** Every entry is filed under its own server's key. */
  predicate KeyConsistent(monitors: map<string, MonitorView>) {
    forall k | k in monitors :: monitors[k].server.GetUniqueKey() == k
  }

  /** The migration test of `UpdateCMList`, as written. */
  predicate ShouldMigrate(m: MonitorView, cm: DatabaseRecord): (migrate: bool)
    ensures migrate ==> m.server.GetUniqueKey() != cm.GetUniqueKey()
  {
    KeyInjective(m.server, cm);
    m.reconnecting > 2 && m.server.port != cm.port && m.server.hostname != cm.hostname
  }

  /** A known entry met again: `LastSeen := now`, and the migration to `cm` when its test holds. */
  function Refreshed(m: MonitorView, cm: DatabaseRecord, now: Time): (m': MonitorView)
    ensures m'.lastSeen == At(now)
    ensures m'.isDisconnecting == m.isDisconnecting && m'.nextConnect == m.nextConnect
    ensures m'.lastReportedStatus == m.lastReportedStatus
    ensures ShouldMigrate(m, cm) ==> m'.server == cm && m'.reconnecting == 0
    ensures !ShouldMigrate(m, cm) ==> m'.server == m.server && m'.reconnecting == m.reconnecting
  {
    var seen := m.(lastSeen := At(now));
    if ShouldMigrate(seen, cm) then seen.(reconnecting := 0, server := cm) else seen
  }

  /** The store after meeting a known entry again: the row moves only on a migration the store accepts. */
  function MigratedStore(store: Store, m: MonitorView, cm: DatabaseRecord, storeDown: bool): Store {
    if ShouldMigrate(m, cm) && !storeDown then MoveRow(store, m.server, cm) else store
  }

  /**
   * One iteration of the `foreach` in `UpdateCMList`: a known key refreshes
   * `LastSeen` (and migrates when `ShouldMigrate` holds); an unknown key gets a
   * new monitor, a `Pending` report and a first connect `++x % 40` seconds on.
   */
  function ReconcileStep(g: Registry, cm: DatabaseRecord, now: Time, storeDown: bool): (g': Registry)
    ensures g'.monitors.Keys == g.monitors.Keys + {cm.GetUniqueKey()}
    ensures g'.created == if cm.GetUniqueKey() in g.monitors then g.created else g.created + 1
  {
    var key := cm.GetUniqueKey();
    if key in g.monitors then
      var m := g.monitors[key];
      Registry(g.monitors[key := Refreshed(m, cm, now)], MigratedStore(g.store, m, cm, storeDown), g.created)
    else
      var rep := ReportStatus(NewMonitorView(cm), g.store, Pending, storeDown);
      var x := g.created + 1;
      Registry(g.monitors[key := rep.monitor.(nextConnect := At(now + x % StaggerSlots))], rep.store, x)
  }

  /** The whole loop over a batch already in port order. */
  function Reconcile(g: Registry, s: seq<DatabaseRecord>, now: Time, storeDown: bool): Registry
    decreases |s|
  {
    if s == [] then g else ReconcileStep(Reconcile(g, s[..|s| - 1], now, storeDown), s[|s| - 1], now, storeDown)
  }

  /** Reconciling one more record of the batch is one more step. */
  lemma ReconcilePrefix(g: Registry, s: seq<DatabaseRecord>, i: nat, now: Time, storeDown: bool)
    requires i < |s|
    ensures Reconcile(g, s[..i + 1], now, storeDown) == ReconcileStep(Reconcile(g, s[..i], now, storeDown), s[i], now, storeDown)
  {
    assert s[..i + 1][..i] == s[..i];
    assert s[..i + 1][i] == s[i];
  }

  /** The records whose key is neither in `known` nor held by an earlier record: those that get a monitor. */
  function NewRecords(s: seq<DatabaseRecord>, known: set<string>): seq<DatabaseRecord>
    decreases |s|
  {
    if s == [] then []
    else
      var r := s[|s| - 1];
      var earlier := NewRecords(s[..|s| - 1], known);
      if r.GetUniqueKey() in known || r.GetUniqueKey() in KeysOf(s[..|s| - 1]) then earlier else earlier + [r]
  }

  /** The fields of the monitor created for `cm` as the `x`-th new one of a batch. */
  function CreatedView(cm: DatabaseRecord, x: nat, now: Time, storeDown: bool, seenAgain: bool): MonitorView {
    MonitorView(cm, false, At(now + x % StaggerSlots), if seenAgain then At(now) else MinValue, 0,
                if storeDown then Invalid else Pending)
  }

  /** Under the key invariant the migration branch is dead: a key lookup finds only a server of the same hostname. */
  lemma MigrationUnreachable(monitors: map<string, MonitorView>, cm: DatabaseRecord)
    requires KeyConsistent(monitors) && cm.GetUniqueKey() in monitors
    ensures !ShouldMigrate(monitors[cm.GetUniqueKey()], cm)
  {
    KeyInjective(monitors[cm.GetUniqueKey()].server, cm);
  }

  /** Under the key invariant a known key only refreshes `LastSeen`. */
  lemma StepKnown(g: Registry, cm: DatabaseRecord, now: Time, storeDown: bool)
    requires KeyConsistent(g.monitors) && cm.GetUniqueKey() in g.monitors
    ensures ReconcileStep(g, cm, now, storeDown) ==
      g.(monitors := g.monitors[cm.GetUniqueKey() := g.monitors[cm.GetUniqueKey()].(lastSeen := At(now))])
  {
    MigrationUnreachable(g.monitors, cm);
  }

  /** An unknown key gets the next created monitor, and a `Pending` row unless the store is down. */
  lemma StepNew(g: Registry, cm: DatabaseRecord, now: Time, storeDown: bool)
    requires cm.GetUniqueKey() !in g.monitors
    ensures ReconcileStep(g, cm, now, storeDown) ==
      Registry(g.monitors[cm.GetUniqueKey() := CreatedView(cm, g.created + 1, now, storeDown, false)],
               if storeDown then g.store else Upsert(g.store, cm, Pending), g.created + 1)
  {
  }

  /** A later record with the same key only marks a created monitor as seen. */
  lemma StepKeepsCreated(g: Registry, r: DatabaseRecord, cm: DatabaseRecord, x: nat, now: Time, storeDown: bool, seen: bool)
    requires KeyConsistent(g.monitors) && cm.GetUniqueKey() in g.monitors
    requires g.monitors[cm.GetUniqueKey()] == CreatedView(cm, x, now, storeDown, seen)
    ensures var g' := ReconcileStep(g, r, now, storeDown);
      cm.GetUniqueKey() in g'.monitors &&
      g'.monitors[cm.GetUniqueKey()] == CreatedView(cm, x, now, storeDown, seen || r.GetUniqueKey() == cm.GetUniqueKey())
  {
    if r.GetUniqueKey() in g.monitors {
      StepKnown(g, r, now, storeDown);
    } else {
      StepNew(g, r, now, storeDown);
    }
  }

  /** Reconciling loses no key and adds the key of every record of the batch. */
  lemma {:induction false} ReconcileKeys(g: Registry, s: seq<DatabaseRecord>, now: Time, storeDown: bool)
    ensures Reconcile(g, s, now, storeDown).monitors.Keys == g.monitors.Keys + KeysOf(s)
    decreases |s|
  {
    if s != [] {
      ReconcileKeys(g, s[..|s| - 1], now, storeDown);
    }
  }

  /** Reconciling keeps every entry filed under its own key. */
  lemma {:induction false} ReconcileKeepsKeyConsistent(g: Registry, s: seq<DatabaseRecord>, now: Time, storeDown: bool)
    requires KeyConsistent(g.monitors)
    ensures KeyConsistent(Reconcile(g, s, now, storeDown).monitors)
    decreases |s|
  {
    if s != [] {
      ReconcileKeepsKeyConsistent(g, s[..|s| - 1], now, storeDown);
    }
  }

  /** A known entry keeps everything but `LastSeen`, which is `now` exactly when the batch holds its key. */
  lemma {:induction false} ReconcileKnown(g: Registry, s: seq<DatabaseRecord>, now: Time, storeDown: bool, k: string)
    requires KeyConsistent(g.monitors) && k in g.monitors
    ensures k in Reconcile(g, s, now, storeDown).monitors
    ensures Reconcile(g, s, now, storeDown).monitors[k] ==
      if k in KeysOf(s) then g.monitors[k].(lastSeen := At(now)) else g.monitors[k]
    decreases |s|
  {
    if s != [] {
      var s', r := s[..|s| - 1], s[|s| - 1];
      var g1 := Reconcile(g, s', now, storeDown);
      assert Reconcile(g, s, now, storeDown) == ReconcileStep(g1, r, now, storeDown);
      ReconcileKnown(g, s', now, storeDown, k);
      ReconcileKeepsKeyConsistent(g, s', now, storeDown);
      if r.GetUniqueKey() in g1.monitors {
        StepKnown(g1, r, now, storeDown);
      } else {
        StepNew(g1, r, now, storeDown);
      }
    }
  }

  /** The keys of the new records are the batch's keys not known before. */
  lemma {:induction false} NewRecordsKeys(s: seq<DatabaseRecord>, known: set<string>)
    ensures KeysOf(NewRecords(s, known)) == KeysOf(s) - known
    decreases |s|
  {
    if s != [] {
      var s', r := s[..|s| - 1], s[|s| - 1];
      var earlier := NewRecords(s', known);
      NewRecordsKeys(s', known);
      if !(r.GetUniqueKey() in known || r.GetUniqueKey() in KeysOf(s')) {
        assert (earlier + [r])[..|earlier|] == earlier;
      }
    }
  }

  /** No two new records share a key: one monitor per key. */
  lemma {:induction false} NewRecordsDistinct(s: seq<DatabaseRecord>, known: set<string>)
    ensures var nr := NewRecords(s, known);
      forall a, b | 0 <= a < b < |nr| :: nr[a].GetUniqueKey() != nr[b].GetUniqueKey()
    decreases |s|
  {
    if s != [] {
      var s', r := s[..|s| - 1], s[|s| - 1];
      NewRecordsDistinct(s', known);
      NewRecordsKeys(s', known);
    }
  }

  /** Every new record is a record of the batch. */
  lemma {:induction false} NewRecordsFromBatch(s: seq<DatabaseRecord>, known: set<string>)
    ensures forall j | 0 <= j < |NewRecords(s, known)| :: NewRecords(s, known)[j] in s
    decreases |s|
  {
    if s != [] {
      var s' := s[..|s| - 1];
      NewRecordsFromBatch(s', known);
      assert forall x | x in s' :: x in s;
    }
  }

  /** On a batch in port order, the record that gets the monitor is one with the lowest port for its key. */
  lemma {:induction false} NewRecordHasLowestPort(s: seq<DatabaseRecord>, known: set<string>, j: int, i: int)
    requires SortedByPort(s)
    requires 0 <= j < |NewRecords(s, known)| && 0 <= i < |s|
    requires s[i].GetUniqueKey() == NewRecords(s, known)[j].GetUniqueKey()
    ensures NewRecords(s, known)[j].port <= s[i].port
    decreases |s|
  {
    var s', r := s[..|s| - 1], s[|s| - 1];
    var earlier := NewRecords(s', known);
    if j < |earlier| {
      assert NewRecords(s, known)[j] == earlier[j];
      if i < |s| - 1 {
        assert s'[i] == s[i];
        NewRecordHasLowestPort(s', known, j, i);
      } else {
        NewRecordsFromBatch(s', known);
        var i0 :| 0 <= i0 < |s'| && s'[i0] == earlier[j];
        assert s[i0] == earlier[j];
      }
    } else {
      assert NewRecords(s, known)[j] == r;
      assert forall i' | 0 <= i' < |s| - 1 :: s[i'].GetUniqueKey() != r.GetUniqueKey() by {
        forall i' | 0 <= i' < |s| - 1
          ensures s[i'].GetUniqueKey() != r.GetUniqueKey()
        {
          assert s'[i'] == s[i'];
        }
      }
    }
  }

  /** `x` ends as the number of monitors created. */
  lemma {:induction false} ReconcileCreatedCount(g: Registry, s: seq<DatabaseRecord>, now: Time, storeDown: bool)
    ensures Reconcile(g, s, now, storeDown).created == g.created + |NewRecords(s, g.monitors.Keys)|
    decreases |s|
  {
    if s != [] {
      var s' := s[..|s| - 1];
      ReconcileCreatedCount(g, s', now, storeDown);
      ReconcileKeys(g, s', now, storeDown);
    }
  }

  /**
   * The monitor created for the `j`-th new record (0-based) holds that record,
   * connects first `(created + j + 1) % 40` seconds after `now`, has reported
   * `Pending` unless the store was down, and was seen at `now` exactly when a
   * later record of the batch has the same key.
   */
  predicate CreatedAsExpected(g: Registry, s: seq<DatabaseRecord>, now: Time, storeDown: bool, j: int)
    requires 0 <= j < |NewRecords(s, g.monitors.Keys)|
  {
    var cm := NewRecords(s, g.monitors.Keys)[j];
    var r := Reconcile(g, s, now, storeDown);
    cm.GetUniqueKey() in r.monitors &&
    r.monitors[cm.GetUniqueKey()] == CreatedView(cm, g.created + j + 1, now, storeDown, KeyCount(s, cm.GetUniqueKey()) > 1)
  }

  lemma {:induction false} ReconcileCreated(g: Registry, s: seq<DatabaseRecord>, now: Time, storeDown: bool, j: int)
    requires KeyConsistent(g.monitors)
    requires 0 <= j < |NewRecords(s, g.monitors.Keys)|
    ensures CreatedAsExpected(g, s, now, storeDown, j)
    decreases |s|
  {
    if j < |NewRecords(s[..|s| - 1], g.monitors.Keys)| {
      ReconcileCreated(g, s[..|s| - 1], now, storeDown, j);
      CreatedByEarlierRecord(g, s, now, storeDown, j);
    } else {
      CreatedByLastRecord(g, s, now, storeDown, j);
    }
  }

  /** Induction step of `ReconcileCreated` for a monitor created before the last record. */
  lemma CreatedByEarlierRecord(g: Registry, s: seq<DatabaseRecord>, now: Time, storeDown: bool, j: int)
    requires KeyConsistent(g.monitors) && s != []
    requires 0 <= j < |NewRecords(s[..|s| - 1], g.monitors.Keys)|
    requires CreatedAsExpected(g, s[..|s| - 1], now, storeDown, j)
    ensures j < |NewRecords(s, g.monitors.Keys)| && CreatedAsExpected(g, s, now, storeDown, j)
  {
    var known := g.monitors.Keys;
    var s', r := s[..|s| - 1], s[|s| - 1];
    var earlier := NewRecords(s', known);
    var g1 := Reconcile(g, s', now, storeDown);
    assert Reconcile(g, s, now, storeDown) == ReconcileStep(g1, r, now, storeDown);
    ReconcileKeepsKeyConsistent(g, s', now, storeDown);
    var cm := earlier[j];
    var key := cm.GetUniqueKey();
    assert NewRecords(s, known)[j] == cm;
    NewRecordsKeys(s', known);
    assert key in KeysOf(earlier);
    var seen := KeyCount(s', key) > 1;
    assert g1.monitors[key] == CreatedView(cm, g.created + j + 1, now, storeDown, seen);
    assert KeyCount(s, key) == KeyCount(s', key) + (if r.GetUniqueKey() == key then 1 else 0);
    assert (seen || r.GetUniqueKey() == key) == (KeyCount(s, key) > 1);
    StepKeepsCreated(g1, r, cm, g.created + j + 1, now, storeDown, seen);
  }

  /** Induction step of `ReconcileCreated` for the monitor the last record creates. */
  lemma CreatedByLastRecord(g: Registry, s: seq<DatabaseRecord>, now: Time, storeDown: bool, j: int)
    requires s != []
    requires |NewRecords(s[..|s| - 1], g.monitors.Keys)| <= j < |NewRecords(s, g.monitors.Keys)|
    ensures CreatedAsExpected(g, s, now, storeDown, j)
  {
    var known := g.monitors.Keys;
    var s', r := s[..|s| - 1], s[|s| - 1];
    var earlier := NewRecords(s', known);
    var g1 := Reconcile(g, s', now, storeDown);
    assert Reconcile(g, s, now, storeDown) == ReconcileStep(g1, r, now, storeDown);
    ReconcileKeys(g, s', now, storeDown);
    ReconcileCreatedCount(g, s', now, storeDown);
    assert NewRecords(s, known) == earlier + [r] && j == |earlier|;
    var key := r.GetUniqueKey();
    assert key !in known && key !in KeysOf(s');
    assert KeyCount(s, key) == 1;
    assert key !in g1.monitors;
    StepNew(g1, r, now, storeDown);
    var res := Reconcile(g, s, now, storeDown);
    assert res.monitors[key] == CreatedView(r, g1.created + 1, now, storeDown, false);
    assert g1.created + 1 == g.created + j + 1;
    assert NewRecords(s, known)[j] == r;
    assert (KeyCount(s, key) > 1) == false;
    assert res.monitors[key] == CreatedView(r, g.created + j + 1, now, storeDown, KeyCount(s, key) > 1);
  }


  /** The store gains a `Pending` row for each new record, in batch order, unless it was down; nothing else is written. */
  lemma {:induction false} ReconcileStore(g: Registry, s: seq<DatabaseRecord>, now: Time, storeDown: bool)
    requires KeyConsistent(g.monitors)
    ensures Reconcile(g, s, now, storeDown).store ==
      if storeDown then g.store else UpsertAll(g.store, NewRecords(s, g.monitors.Keys), Pending)
    decreases |s|
  {
    if s != [] {
      var known := g.monitors.Keys;
      var s', r := s[..|s| - 1], s[|s| - 1];
      var earlier := NewRecords(s', known);
      var g1 := Reconcile(g, s', now, storeDown);
      ReconcileStore(g, s', now, storeDown);
      ReconcileKeys(g, s', now, storeDown);
      ReconcileKeepsKeyConsistent(g, s', now, storeDown);
      if r.GetUniqueKey() in g1.monitors {
        StepKnown(g1, r, now, storeDown);
      } else {
        StepNew(g1, r, now, storeDown);
        assert (earlier + [r])[..|earlier|] == earlier;
      }
    }
  }

  /**
   * What reconciling a batch in port order does, in one place: the keys of the
   * batch are added, known entries only change `LastSeen`, `x` counts the new
   * records, and the store gains their `Pending` rows.
   */
  lemma ReconcileOutcome(g: Registry, cmList: seq<DatabaseRecord>, now: Time, storeDown: bool)
    requires KeyConsistent(g.monitors)
    ensures var r := Reconcile(g, OrderByPort(cmList), now, storeDown);
      var nr := NewRecords(OrderByPort(cmList), g.monitors.Keys);
      r.monitors.Keys == g.monitors.Keys + KeysOf(cmList) &&
      KeyConsistent(r.monitors) &&
      (forall k | k in g.monitors ::
        r.monitors[k] == if k in KeysOf(cmList) then g.monitors[k].(lastSeen := At(now)) else g.monitors[k]) &&
      r.created == g.created + |nr| &&
      r.store == if storeDown then g.store else UpsertAll(g.store, nr, Pending)
  {
    var batch := OrderByPort(cmList);
    ReconcileKeys(g, batch, now, storeDown);
    KeysOfPermutation(batch, cmList);
    ReconcileKeepsKeyConsistent(g, batch, now, storeDown);
    ReconcileCreatedCount(g, batch, now, storeDown);
    ReconcileStore(g, batch, now, storeDown);
    forall k | k in g.monitors
      ensures Reconcile(g, batch, now, storeDown).monitors[k] ==
        if k in KeysOf(cmList) then g.monitors[k].(lastSeen := At(now)) else g.monitors[k]
    {
      ReconcileKnown(g, batch, now, storeDown, k);
    }
  }

  // ------------------------------------------------- directory refreshes

  /** `CellID` runs over `[0, 220)`. */
  const CellCount: nat := 220
  /** Every tenth cell the Shanghai cell (47, realm `steamchina`) is fetched as well. */
  const ChinaCellID: nat := 47
  const ChinaEvery: nat := 10
  /** The next refresh is due 11 minutes plus `Random.Next(10, 120)` seconds after one starts. */
  const ListRefreshBaseSeconds: int := 660
  const ListRefreshJitterMin: int := 10
  const ListRefreshJitterMax: int := 120

  /** `CellID` advances by one and wraps to 0 once it reaches 220. */
  function NextCellID(c: nat): (c': nat)
    ensures c' < CellCount
    ensures c < CellCount ==> c' == (c + 1) % CellCount
  {
    if c + 1 >= CellCount then 0 else c + 1
  }

  /** The cell fetched `k` refreshes after cell `c`. */
  function CellAfter(c: nat, k: nat): nat {
    if k == 0 then c else NextCellID(CellAfter(c, k - 1))
  }

  /** The refreshes walk the cells round robin. */
  lemma {:induction false} CellAfterIsRoundRobin(c: nat, k: nat)
    requires c < CellCount
    ensures CellAfter(c, k) == (c + k) % CellCount
  {
    if k > 0 {
      CellAfterIsRoundRobin(c, k - 1);
    }
  }

  /** Within 220 refreshes every cell is fetched, whatever cell comes first. */
  lemma EveryCellIsFetched(c: nat, target: nat)
    requires c < CellCount && target < CellCount
    ensures var k := (target - c) % CellCount; k < CellCount && CellAfter(c, k) == target
  {
    CellAfterIsRoundRobin(c, (target - c) % CellCount);
  }

  /**
   * The batch `UpdateCMListViaWebAPI` reconciles: the servers of the current
   * cell, followed on every tenth cell by the Shanghai cell's servers. A fetch
   * that throws (`None`) aborts the whole refresh.
   */
  function RefreshBatch(cellID: nat, global: Option<seq<DatabaseRecord>>, china: Option<seq<DatabaseRecord>>)
    : (batch: Option<seq<DatabaseRecord>>)
    ensures batch.None? <==> global.None? || (cellID % ChinaEvery == 0 && china.None?)
    ensures batch.Some? ==> global.Some? && |global.value| <= |batch.value|
    ensures batch.Some? ==> batch.value[..|global.value|] == global.value
    ensures batch.Some? && cellID % ChinaEvery == 0 ==> batch.value[|global.value|..] == china.value
    ensures batch.Some? && cellID % ChinaEvery != 0 ==> batch.value == global.value
  {
    match global
    case None => None
    case Some(servers) =>
      if cellID % ChinaEvery == 0 then
        match china
        case None => None
        case Some(chinaServers) => Some(servers + chinaServers)
      else Some(servers)
  }

  /** `NextCMListUpdate` after a refresh starts at `now`: 670 to 779 seconds later. */
  function ListRefreshDeadline(now: Time, jitterSeconds: int): (d: Instant)
    requires ListRefreshJitterMin <= jitterSeconds < ListRefreshJitterMax
    ensures d.At? && now + 670 <= d.seconds <= now + 779
  {
    At(now + ListRefreshBaseSeconds + jitterSeconds)
  }

  /** No further refresh starts until the 670 seconds have passed. */
  lemma NoRefreshBeforeDeadline(now: Time, jitterSeconds: int, later: Time)
    requires ListRefreshJitterMin <= jitterSeconds < ListRefreshJitterMax
    requires later <= now + 670
    ensures !Passed(later, ListRefreshDeadline(now, jitterSeconds))
  {
  }
}
