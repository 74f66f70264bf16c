/**
 * The per-server reconnect state machine of Monitor/Monitor.cs. Session
 * callbacks become method calls; what the source passes to
 * `SteamManager.Instance.NotifyCMOnline/NotifyCMOffline` is returned as a
 * status report, and the connect and logon requests it sends to SteamKit2 are
 * returned as flags. Clock readings and random draws are parameters.
 */
module Monitors {
  import opened Wrappers
  import opened Clock
  import opened Steam
  import opened Records

  /** `DoTick` pushes the deadline one minute ahead when it connects. */
  const SafetyReconnectSeconds: int := 60
  /** `new Random().Next(10, 30)` seconds after a disconnect. */
  const RetryMinSeconds: int := 10
  const RetryMaxSeconds: int := 30
  /** Five minutes plus up to five more (`NextDouble() * 5` minutes) after a logon. */
  const RelogBaseSeconds: int := 300
  const RelogJitterSeconds: int := 300

  /** The values of a monitor's fields. */
  datatype MonitorView = MonitorView(
    server: DatabaseRecord,
    isDisconnecting: bool,
    nextConnect: Instant,
    lastSeen: Instant,
    reconnecting: int,
    lastReportedStatus: EResult)

  /** A monitor just constructed: never due, never seen, nothing reported (`EResult` defaults to `Invalid`). */
  function NewMonitorView(server: DatabaseRecord): MonitorView {
    MonitorView(server, false, MaxValue, MinValue, 0, Invalid)
  }

  /** The deadline after a tick at `now`: one minute ahead if it was due, else as it was. */
  function TickDeadline(now: Time, d: Instant): (d': Instant)
    ensures Reached(now, d) ==> d' == At(now + SafetyReconnectSeconds) && !Reached(now, d')
    ensures !Reached(now, d) ==> d' == d
  {
    if Reached(now, d) then At(now + SafetyReconnectSeconds) else d
  }

  /** Two ticks at the same instant connect at most once. */
  lemma TickAtMostOncePerInstant(now: Time, d: Instant)
    ensures !(Reached(now, d) && Reached(now, TickDeadline(now, d)))
  {
  }

  class Monitor {
    var server: DatabaseRecord
    var isDisconnecting: bool
    var nextConnect: Instant
    var lastSeen: Instant
    var reconnecting: int
    var lastReportedStatus: EResult

    function View(): MonitorView
      reads this
    {
      MonitorView(server, isDisconnecting, nextConnect, lastSeen, reconnecting, lastReportedStatus)
    }

    constructor (server: DatabaseRecord)
      ensures View() == NewMonitorView(server)
    {
      this.server := server;
      isDisconnecting := false;
      nextConnect := MaxValue;
      lastSeen := MinValue;
      reconnecting := 0;
      lastReportedStatus := Invalid;
    }

    /** `Connect(when)`: the next connect is due at `when`, or at once when `when` is null. */
    method Connect(when: Option<Time>, now: Time)
      modifies this`nextConnect
      ensures nextConnect == At(if when.Some? then when.value else now)
    {
      var due := if when.None? then now else when.value;
      nextConnect := At(due);
    }

    /** `Disconnect()`: marks the shutdown; the session's own `Disconnect` is not modelled. */
    method Disconnect()
      modifies this`isDisconnecting
      ensures isDisconnecting
    {
      isDisconnecting := true;
    }

    /** `DoTick()`: connects when due and pushes the deadline a minute ahead. */
    method DoTick(now: Time) returns (connect: bool)
      modifies this`nextConnect
      ensures connect == Reached(now, old(nextConnect))
      ensures nextConnect == TickDeadline(now, old(nextConnect))
    {
      connect := false;
      if Reached(now, nextConnect) {
        nextConnect := At(now + SafetyReconnectSeconds);
        connect := true;
      }
    }

    /** `OnConnected`: a failed connect is reported and nothing else; a good one logs on and reports nothing. */
    method OnConnected(result: EResult) returns (logOn: bool, report: Option<EResult>)
      ensures logOn <==> result == OK
      ensures report.Some? <==> !logOn
      ensures report.Some? ==> report.value == result
    {
      if result != OK {
        return false, Some(result);
      }
      return true, None;
    }

    /** `OnDisconnected`: unless shutting down, retry in 10 to 29 seconds and report `NoConnection`. */
    method OnDisconnected(now: Time, numSeconds: int) returns (report: Option<EResult>)
      requires RetryMinSeconds <= numSeconds < RetryMaxSeconds
      modifies this`nextConnect
      ensures isDisconnecting ==> nextConnect == old(nextConnect) && report == None
      ensures !isDisconnecting ==> report == Some(NoConnection)
      ensures !isDisconnecting ==> nextConnect == At(now + numSeconds)
      ensures !isDisconnecting ==> now + 10 <= nextConnect.seconds <= now + 29
    {
      if isDisconnecting {
        return None;
      }
      Connect(Some(now + numSeconds), now);
      report := Some(NoConnection);
    }

    /** `OnLoggedOn`: a good logon reports online and schedules a reconnect 5 to 10 minutes on; a bad one only reports. */
    method OnLoggedOn(result: EResult, now: Time, jitterSeconds: int) returns (report: Option<EResult>)
      requires 0 <= jitterSeconds < RelogJitterSeconds
      modifies this`nextConnect
      ensures report == Some(result)
      ensures result != OK ==> nextConnect == old(nextConnect)
      ensures result == OK ==> nextConnect == At(now + RelogBaseSeconds + jitterSeconds)
      ensures result == OK ==> now + 300 <= nextConnect.seconds < now + 600
    {
      if result != OK {
        return Some(result);
      }
      report := Some(OK);
      Connect(Some(now + RelogBaseSeconds + jitterSeconds), now);
    }

    /** `OnLoggedOff`: reports the result and never reschedules. */
    method OnLoggedOff(result: EResult) returns (report: Option<EResult>)
      ensures report == Some(result)
    {
      report := Some(result);
    }
  }

  /** A monitor that was only constructed never connects on a tick, whatever the clock says. */
  method FreshMonitorStaysIdle(server: DatabaseRecord, now: Time) returns (connect: bool)
    ensures !connect
  {
    var monitor := new Monitor(server);
    connect := monitor.DoTick(now);
  }

  /** Once `Connect(when)` has run, a tick at or after `when` connects, exactly once per instant. */
  method ConnectThenTick(monitor: Monitor, when: Time, now: Time) returns (first: bool, second: bool)
    requires now >= when
    modifies monitor
    ensures first && !second
    ensures monitor.nextConnect == At(now + SafetyReconnectSeconds)
    ensures monitor.isDisconnecting == old(monitor.isDisconnecting)
  {
    monitor.Connect(Some(when), now);
    first := monitor.DoTick(now);
    second := monitor.DoTick(now);
  }
}
