/**
 * The monitor registry of Monitor/SteamManager.cs as a class: the dictionary
 * of monitors by `GetUniqueKey()`, the `CMs` table (abstracted as a map), the
 * next directory refresh and the directory cell. Each method is proved against
 * the functions of `RegistrySpec`. Database failures are a `storeDown` /
 * `writeFails` parameter; the clock and random draws are parameters.
 */
module Manager {
  import opened Wrappers
  import opened Clock
  import opened Steam
  import opened Records
  import opened Monitors
  import opened RegistrySpec

  class SteamManager {
    var monitors: map<string, Monitor>
    var store: Store
    var nextCMListUpdate: Instant
    var cellID: nat

    /** Each monitor is filed under its own server's key, and the cell is in range. */
    ghost predicate Valid()
      reads this`monitors, this`cellID, monitors.Values
    {
      cellID < CellCount &&
      forall k | k in monitors :: monitors[k].server.GetUniqueKey() == k
    }

    /** The fields of every monitor, by key. */
    ghost function Views(): map<string, MonitorView>
      reads this`monitors, monitors.Values
    {
      map k | k in monitors :: monitors[k].View()
    }

    /** The table survives restarts, so the constructor takes its rows as they are. */
    constructor (store: Store)
      ensures Valid() && monitors == map[] && this.store == store
      ensures nextCMListUpdate == MinValue && cellID == 0
    {
      monitors := map[];
      this.store := store;
      nextCMListUpdate := MinValue;
      cellID := 0;
    }

    /** `UpdateCMStatus`: a write only when the status differs from the last one reported. */
    method UpdateCMStatus(monitor: Monitor, result: EResult, writeFails: bool) returns (wrote: bool)
      modifies this`store, monitor`lastReportedStatus
      ensures StatusReport(monitor.View(), store, wrote) == ReportStatus(old(monitor.View()), old(store), result, writeFails)
    {
      if monitor.lastReportedStatus == result {
        return false;
      }
      if writeFails {
        return false;
      }
      store := Upsert(store, monitor.server, result);
      monitor.lastReportedStatus := result;
      wrote := true;
    }

    /** `UpdateCMStatus` on a registered monitor, seen from the whole registry: only that monitor's entry changes. */
    method ReportRegistered(monitor: Monitor, result: EResult, writeFails: bool) returns (wrote: bool)
      requires Valid() && monitor in monitors.Values
      modifies this`store, monitor`lastReportedStatus
      ensures Valid()
      ensures StatusReport(monitor.View(), store, wrote) == ReportStatus(old(monitor.View()), old(store), result, writeFails)
      ensures Views() == old(Views())[monitor.server.GetUniqueKey() := monitor.View()]
    {
      var key := monitor.server.GetUniqueKey();
      ghost var views := Views();
      assert key in monitors && monitors[key] == monitor;
      assert forall k | k in monitors && k != key :: monitors[k] != monitor;
      wrote := UpdateCMStatus(monitor, result, writeFails);
      ghost var target := views[key := monitor.View()];
      ghost var views' := Views();
      forall k | k in views && k != key
        ensures k in views' && views'[k] == views[k]
      {
        var m := monitors[k];
        assert m != monitor;
        assert m.View() == old(m.View());
      }
      assert views'.Keys == target.Keys;
      assert views' == target;
    }

    /** `NotifyCMOnline`: reports `OK` for a registered monitor; the others are untouched. */
    method NotifyCMOnline(monitor: Monitor, writeFails: bool) returns (wrote: bool)
      requires Valid() && monitor in monitors.Values
      modifies this`store, monitor`lastReportedStatus
      ensures Valid()
      ensures StatusReport(monitor.View(), store, wrote) == ReportStatus(old(monitor.View()), old(store), OK, writeFails)
      ensures Views() == old(Views())[monitor.server.GetUniqueKey() := monitor.View()]
    {
      wrote := ReportRegistered(monitor, OK, writeFails);
    }

    /** `NotifyCMOffline`: reports the session's result for a registered monitor. */
    method NotifyCMOffline(monitor: Monitor, result: EResult, writeFails: bool) returns (wrote: bool)
      requires Valid() && monitor in monitors.Values
      modifies this`store, monitor`lastReportedStatus
      ensures Valid()
      ensures StatusReport(monitor.View(), store, wrote) == ReportStatus(old(monitor.View()), old(store), result, writeFails)
      ensures Views() == old(Views())[monitor.server.GetUniqueKey() := monitor.View()]
    {
      wrote := ReportRegistered(monitor, result, writeFails);
    }

    /**
     * `UpdateCMList`: the batch in port order, merged into the registry as
     * `Reconcile` specifies (`ReconcileOutcome` and `ReconcileCreated` say what
     * that is). Existing keys keep their monitor objects; every new key gets a
     * fresh one.
     */
    method UpdateCMList(cmList: seq<DatabaseRecord>, now: Time, storeDown: bool) returns (created: nat)
      requires Valid()
      modifies this`monitors, this`store, monitors.Values
      ensures Valid()
      ensures var r := Reconcile(Registry(old(Views()), old(store), 0), OrderByPort(cmList), now, storeDown);
        Views() == r.monitors && store == r.store && created == r.created
      ensures forall k | k in old(monitors) :: k in monitors && monitors[k] == old(monitors[k])
      ensures forall k | k in monitors && k !in old(monitors) :: fresh(monitors[k])
    {
      var batch := OrderByPort(cmList);
      created := ReconcileBatch(batch, now, storeDown);
    }

    /** The `foreach` of `UpdateCMList` over a batch already in port order. */
    method ReconcileBatch(batch: seq<DatabaseRecord>, now: Time, storeDown: bool) returns (created: nat)
      requires Valid()
      modifies this`monitors, this`store, monitors.Values
      ensures Valid()
      ensures var r := Reconcile(Registry(old(Views()), old(store), 0), batch, now, storeDown);
        Views() == r.monitors && store == r.store && created == r.created
      ensures forall k | k in old(monitors) :: k in monitors && monitors[k] == old(monitors[k])
      ensures forall k | k in monitors && k !in old(monitors) :: fresh(monitors[k])
    {
      ghost var start := Registry(Views(), store, 0);
      var x := 0;
      var i := 0;
      while i < |batch|
        invariant 0 <= i <= |batch|
        invariant Valid()
        invariant Views() == Reconcile(start, batch[..i], now, storeDown).monitors
        invariant store == Reconcile(start, batch[..i], now, storeDown).store
        invariant x == Reconcile(start, batch[..i], now, storeDown).created
        invariant forall k | k in old(monitors) :: k in monitors && monitors[k] == old(monitors[k])
        invariant forall k | k in monitors && k !in old(monitors) :: fresh(monitors[k])
      {
        ghost var prev := Reconcile(start, batch[..i], now, storeDown);
        ReconcilePrefix(start, batch, i, now, storeDown);
        x := ReconcileOne(batch[i], now, storeDown, x);
        i := i + 1;
      }
      assert batch[..i] == batch;
      created := x;
    }

    /** One iteration of the loop in `UpdateCMList`, as `ReconcileStep` specifies. */
    method ReconcileOne(cm: DatabaseRecord, now: Time, storeDown: bool, x: nat) returns (x': nat)
      requires Valid()
      modifies this`monitors, this`store, monitors.Values
      ensures Valid()
      ensures Registry(Views(), store, x') == ReconcileStep(Registry(old(Views()), old(store), x), cm, now, storeDown)
      ensures forall k | k in old(monitors) :: k in monitors && monitors[k] == old(monitors[k])
      ensures forall k | k in monitors && k !in old(monitors) :: fresh(monitors[k])
    {
      var key := cm.GetUniqueKey();
      ghost var before := Registry(Views(), store, x);
      if key in monitors {
        assert before.monitors[key] == monitors[key].View();
        RefreshKnown(monitors[key], cm, now, storeDown);
        x' := x;
      } else {
        var _ := AddMonitor(cm, now, storeDown, x);
        StepNew(before, cm, now, storeDown);
        x' := x + 1;
      }
    }

    /** The known-key path of the loop, for the registered `monitor` filed under `cm`'s key. */
    method RefreshKnown(monitor: Monitor, cm: DatabaseRecord, now: Time, storeDown: bool)
      requires Valid() && cm.GetUniqueKey() in monitors && monitors[cm.GetUniqueKey()] == monitor
      modifies this`store, monitor
      ensures Valid() && monitors == old(monitors)
      ensures Views() == old(Views())[cm.GetUniqueKey() := Refreshed(old(monitor.View()), cm, now)]
      ensures store == MigratedStore(old(store), old(monitor.View()), cm, storeDown)
    {
      var key := cm.GetUniqueKey();
      ghost var views := Views();
      assert forall k | k in monitors && k != key :: monitors[k] != monitor;
      MeetAgain(monitor, cm, now, storeDown);
      ghost var target := views[key := monitor.View()];
      ghost var views' := Views();
      forall k | k in views && k != key
        ensures k in views' && views'[k] == views[k]
      {
        var m := monitors[k];
        assert m != monitor;
        assert m.View() == old(m.View());
      }
      assert views'.Keys == target.Keys;
      assert views' == target;
    }

    /** `LastSeen := now`; then, when the migration test holds, the row moves and the monitor takes `cm`. */
    method MeetAgain(monitor: Monitor, cm: DatabaseRecord, now: Time, storeDown: bool)
      modifies this`store, monitor`lastSeen, monitor`reconnecting, monitor`server
      ensures monitor.View() == Refreshed(old(monitor.View()), cm, now)
      ensures store == MigratedStore(old(store), old(monitor.View()), cm, storeDown)
    {
      monitor.lastSeen := At(now);
      if monitor.reconnecting > 2 && monitor.server.port != cm.port && monitor.server.hostname != cm.hostname {
        if !storeDown {
          store := MoveRow(store, monitor.server, cm);
        }
        monitor.reconnecting := 0;
        monitor.server := cm;
      }
    }

    /** The unknown-key path of the loop: a new monitor, a `Pending` report, and a first connect `++x % 40` seconds on. */
    method AddMonitor(cm: DatabaseRecord, now: Time, storeDown: bool, x: nat) returns (monitor: Monitor)
      requires Valid() && cm.GetUniqueKey() !in monitors
      modifies this`monitors, this`store
      ensures fresh(monitor) && monitors == old(monitors)[cm.GetUniqueKey() := monitor]
      ensures Valid()
      ensures Views() == old(Views())[cm.GetUniqueKey() := CreatedView(cm, x + 1, now, storeDown, false)]
      ensures store == if storeDown then old(store) else Upsert(old(store), cm, Pending)
    {
      ghost var views := Views();
      var key := cm.GetUniqueKey();
      monitor := Register(cm);
      ghost var registered := Views();
      StartNew(monitor, cm, now, storeDown, x);
      ghost var created := monitor.View();
      ghost var views' := Views();
      assert views' == registered[key := created];
      assert registered == views[key := NewMonitorView(cm)];
      UpdateTwice(views, key, NewMonitorView(cm), created);
    }

    /** Writing a key twice keeps the second value. */
    static lemma UpdateTwice(m: map<string, MonitorView>, k: string, a: MonitorView, b: MonitorView)
      ensures m[k := a][k := b] == m[k := b]
    {
    }

    /** Files a new monitor for `cm` under its key; nothing else changes. */
    method Register(cm: DatabaseRecord) returns (monitor: Monitor)
      requires Valid() && cm.GetUniqueKey() !in monitors
      modifies this`monitors
      ensures fresh(monitor) && monitor.View() == NewMonitorView(cm)
      ensures monitors == old(monitors)[cm.GetUniqueKey() := monitor]
      ensures Valid()
      ensures Views() == old(Views())[cm.GetUniqueKey() := NewMonitorView(cm)]
    {
      ghost var views := Views();
      monitor := new Monitor(cm);
      monitors := monitors[cm.GetUniqueKey() := monitor];
      ghost var target := views[cm.GetUniqueKey() := NewMonitorView(cm)];
      ghost var views' := Views();
      forall k | k in views
        ensures k in views' && views'[k] == views[k]
      {
        var m := monitors[k];
        assert m == old(monitors[k]);
      }
      assert views'.Keys == target.Keys;
      assert views' == target;
    }

    /** The new monitor's first report (`Pending`) and its staggered first connection. */
    method StartNew(monitor: Monitor, cm: DatabaseRecord, now: Time, storeDown: bool, x: nat)
      requires Valid() && cm.GetUniqueKey() in monitors && monitors[cm.GetUniqueKey()] == monitor
      requires monitor.View() == NewMonitorView(cm)
      modifies this`store, monitor`lastReportedStatus, monitor`nextConnect
      ensures Valid() && monitors == old(monitors)
      ensures monitor.View() == CreatedView(cm, x + 1, now, storeDown, false)
      ensures Views() == old(Views())[cm.GetUniqueKey() := monitor.View()]
      ensures store == if storeDown then old(store) else Upsert(old(store), cm, Pending)
    {
      var key := cm.GetUniqueKey();
      ghost var views := Views();
      assert forall k | k in monitors && k != key :: monitors[k] != monitor;
      var _ := UpdateCMStatus(monitor, Pending, storeDown);
      monitor.Connect(Some(now + (x + 1) % StaggerSlots), now);
      ghost var target := views[key := monitor.View()];
      ghost var views' := Views();
      forall k | k in views && k != key
        ensures k in views' && views'[k] == views[k]
      {
        var m := monitors[k];
        assert m != monitor;
        assert m.View() == old(m.View());
      }
      assert views'.Keys == target.Keys;
      assert views' == target;
    }

    /**
     * `Tick`: each monitor of a snapshot of the registry is ticked once, and a
     * directory refresh is due when `now` has passed `NextCMListUpdate`; the
     * caller then runs `UpdateCMListViaWebAPI`.
     */
    method Tick(now: Time, jitterSeconds: int) returns (ticked: seq<Monitor>, connected: set<Monitor>, refresh: bool)
      requires ListRefreshJitterMin <= jitterSeconds < ListRefreshJitterMax
      requires Valid()
      modifies this`nextCMListUpdate, monitors.Values
      ensures Valid() && monitors == old(monitors)
      ensures forall m | m in old(monitors.Values) :: m in ticked
      ensures forall m | m in ticked :: m in old(monitors.Values)
      ensures forall a, b | 0 <= a < b < |ticked| :: ticked[a] != ticked[b]
      ensures forall m | m in old(monitors.Values) ::
        m.View() == old(m.View()).(nextConnect := TickDeadline(now, old(m.nextConnect)))
      ensures connected == set m | m in old(monitors.Values) && Reached(now, old(m.nextConnect))
      ensures refresh == Passed(now, old(nextCMListUpdate))
      ensures nextCMListUpdate == if refresh then ListRefreshDeadline(now, jitterSeconds) else old(nextCMListUpdate)
    {
      ticked, connected := TickAll(monitors.Values, now);
      assert forall k | k in monitors :: monitors[k] in old(monitors.Values);
      refresh := Passed(now, nextCMListUpdate);
      if refresh {
        nextCMListUpdate := ListRefreshDeadline(now, jitterSeconds);
      }
    }

    /** `RemoveCM`: the key goes whether or not the row's delete fails. */
    method RemoveCM(monitor: Monitor, storeDown: bool)
      requires Valid()
      modifies this`monitors, this`store
      ensures Valid()
      ensures monitors == old(monitors) - {monitor.server.GetUniqueKey()}
      ensures store == if storeDown then old(store) else DeleteRow(old(store), monitor.server)
    {
      monitors := monitors - {monitor.server.GetUniqueKey()};
      if !storeDown {
        store := DeleteRow(store, monitor.server);
      }
    }

    /** `Stop`: every monitor is told to disconnect, then every stored status is reset to `Invalid`. */
    method Stop(storeDown: bool)
      requires Valid()
      modifies this`store, monitors.Values
      ensures Valid() && monitors == old(monitors)
      ensures forall m | m in monitors.Values :: m.View() == old(m.View()).(isDisconnecting := true)
      ensures store == if storeDown then old(store) else ResetStatuses(old(store), Invalid)
    {
      DisconnectAll(monitors.Values);
      assert forall k | k in monitors :: monitors[k] in old(monitors.Values);
      if !storeDown {
        store := ResetStatuses(store, Invalid);
      }
    }

    /**
     * `UpdateCMListViaWebAPI` once the fetches are done: `global` and `china`
     * are the directory's answers for the current cell and for cell 47, `None`
     * when the fetch throws. The batch is reconciled, then the cell advances,
     * whatever happened.
     */
    method UpdateCMListViaWebAPI(global: Option<seq<DatabaseRecord>>, china: Option<seq<DatabaseRecord>>,
                                 now: Time, storeDown: bool) returns (created: nat)
      requires Valid()
      modifies this`monitors, this`store, this`cellID, monitors.Values
      ensures Valid()
      ensures cellID == NextCellID(old(cellID))
      ensures RefreshBatch(old(cellID), global, china).None? ==>
        monitors == old(monitors) && Views() == old(Views()) && store == old(store) && created == 0
      ensures RefreshBatch(old(cellID), global, china).Some? ==>
        var r := Reconcile(Registry(old(Views()), old(store), 0), OrderByPort(RefreshBatch(old(cellID), global, china).value), now, storeDown);
        Views() == r.monitors && store == r.store && created == r.created
    {
      var batch := RefreshBatch(cellID, global, china);
      created := 0;
      if batch.Some? {
        created := UpdateCMList(batch.value, now, storeDown);
      }
      AdvanceCell();
    }

    /** `cellID = (cellID + 1) % 220`: the only field that changes. */
    method AdvanceCell()
      requires Valid()
      modifies this`cellID
      ensures Valid() && cellID == NextCellID(old(cellID))
      ensures Views() == old(Views())
    {
      cellID := NextCellID(cellID);
    }
  }

  /** The `foreach` of `Tick` over the snapshot: `DoTick` once on each monitor, in the order returned. */
  method TickAll(snapshot: set<Monitor>, now: Time) returns (ticked: seq<Monitor>, connected: set<Monitor>)
    modifies snapshot
    ensures forall m | m in snapshot :: m in ticked
    ensures forall m | m in ticked :: m in snapshot
    ensures forall a, b | 0 <= a < b < |ticked| :: ticked[a] != ticked[b]
    ensures forall m | m in snapshot ::
      m.View() == old(m.View()).(nextConnect := TickDeadline(now, old(m.nextConnect)))
    ensures connected == set m | m in snapshot && Reached(now, old(m.nextConnect))
  {
    var pending := snapshot;
    ticked := [];
    connected := {};
    while pending != {}
      invariant pending <= snapshot
      invariant forall m | m in snapshot :: m in pending || m in ticked
      invariant forall m | m in ticked :: m in snapshot && m !in pending
      invariant forall a, b | 0 <= a < b < |ticked| :: ticked[a] != ticked[b]
      invariant forall m | m in snapshot - pending ::
        m.View() == old(m.View()).(nextConnect := TickDeadline(now, old(m.nextConnect)))
      invariant forall m | m in pending :: m.View() == old(m.View())
      invariant connected == set m | m in snapshot - pending && Reached(now, old(m.nextConnect))
      decreases pending
    {
      var monitor :| monitor in pending;
      var connect := monitor.DoTick(now);
      if connect {
        connected := connected + {monitor};
      }
      pending := pending - {monitor};
      ticked := ticked + [monitor];
    }
  }

  /** The `foreach` of `Stop`: `Disconnect()` on each monitor. */
  method DisconnectAll(snapshot: set<Monitor>)
    modifies snapshot
    ensures forall m | m in snapshot :: m.View() == old(m.View()).(isDisconnecting := true)
  {
    var pending := snapshot;
    while pending != {}
      invariant pending <= snapshot
      invariant forall m | m in snapshot - pending :: m.View() == old(m.View()).(isDisconnecting := true)
      invariant forall m | m in pending :: m.View() == old(m.View())
      decreases pending
    {
      var monitor :| monitor in pending;
      monitor.Disconnect();
      pending := pending - {monitor};
    }
  }
}
