# SteamMonitor CM monitor core in Dafny

SteamMonitor watches Steam's connection-manager (CM) servers. It keeps one
monitor per server, keyed by transport and hostname. Each monitor connects to
its server on a schedule, logs on, and reports the outcome as a status in the
`CMs` table. The manager:

- fetches server lists from the Steam directory, one cell at a time;
- merges each list into its registry of monitors;
- ticks every monitor;
- writes a status only when it differs from the last one written.

This project models that core and proves its properties:

- the registry and reconciler of `Monitor/SteamManager.cs`;
- the reconnect state machine of `Monitor/Monitor.cs`;
- the address record and its key (`Monitor/DatabaseRecord.cs`);
- the endpoint parser and list assembly of `Monitor/SteamDirectory.cs`.

Layout:

- `Wrappers.dfy`: `Option` and `Result`.
- `Strings.dfy`: the .NET string operations the core uses, on `seq<char>`. These are `IndexOf`, `Split`, `Int32.Parse`/`TryParse` with its format and overflow errors, and `ToString`.
- `Clock.dfy`: `DateTime` in whole seconds, with `MinValue` and `MaxValue` as symbolic ends.
- `Steam.dfy`: the `EResult` codes the core names.
- `DatabaseRecord.dfy` (module `Records`): the record, its parsing constructor, `GetUniqueKey` and `GetString`.
- `SteamDirectory.dfy` (module `Directory`): `StringToServerRecord`, `ServerRecordToString`, and the continuation of `LoadAsync` as a method with loops.
- `Monitor.dfy` (module `Monitors`): class `Monitor` with its six fields, and the methods that update them.
- `Registry.dfy` (module `RegistrySpec`): the manager's behaviour on values. It covers:
  - the `CMs` table as a map;
  - `UpdateCMStatus` as `ReportStatus`;
  - `OrderBy(cm => cm.Port)`;
  - the reconciliation `Reconcile`;
  - the round robin over cells.

  The lemmas about reconciliation live here.
- `SteamManager.dfy` (module `Manager`): class `SteamManager`. It holds the dictionary of `Monitor` objects, the table, `NextCMListUpdate` and `CellID`. Every method is proved against the `RegistrySpec` functions through the ghost `Views()`, the fields of every monitor by key.

Modelling choices:

- **Parameters instead of library calls.** The clock (`now`), each random draw, `IPAddress.TryParse` and SteamKit2's `CreateWebSocketServer` are parameters. `CreateWebSocketServer` returns `None` where the library throws. Each drawn value is constrained to the range its `Random` call returns.
- **Database failures.**
  - `storeDown` means every table write of that manager call throws `MySqlException`.
  - `writeFails` means one status write by `UpdateCMStatus` throws.
  - In both cases the failed write changes nothing.
- **Reports instead of calls.** A monitor's handlers return the status they report instead of calling `SteamManager.Instance`. `NotifyCMOnline`/`NotifyCMOffline` take that status.
- **Three extra fields.** `Monitor.cs` as shown lacks `LastSeen`, `Reconnecting` and `LastReportedStatus`, which `SteamManager.cs` reads and writes. They are plain fields with the C# defaults: `MinValue`, `0` and `EResult.Invalid`.

Three behaviours one might expect are not what the code does, and the model follows the code:

- **Migration.** A known server migrates only when it has failed more than twice, its port differs *and* its hostname differs (`Monitor/SteamManager.cs:134`). The dictionary key contains the hostname, so that test can never hold. `RegistrySpec.MigrationUnreachable` proves the branch dead. The branch is still modelled, in `Manager.SteamManager.MeetAgain`.
- **No stale removal.** `UpdateCMList` only adds monitors and refreshes `LastSeen`; nothing removes a monitor whose server has not been listed for a while. `RegistrySpec.ReconcileKeys` states that no entry is removed.
- **Logon.** `OnLoggedOn` does not reset the reconnect count. On failure it only reports the result; on success it also schedules the periodic reconnect.

## Model

| member | source | states |
|---|---|---|
| Records.ParseRecord | Monitor/DatabaseRecord.cs:13-22 | A record built from an address has a hostname without ':' and a port within 32 bits. It keeps the given transport and datacenter. |
| Records.NoColonFails | Monitor/DatabaseRecord.cs:15-18 | The constructor fails with `ArgumentOutOfRange` exactly when the address holds no ':'. |
| Records.ParseSplitsAtFirstColon | Monitor/DatabaseRecord.cs:15-19 | On success, the address is the hostname, ':', then the port text, split at the first ':'. The port is that text's `int.Parse` value. |
| Records.SecondColonFails | Monitor/DatabaseRecord.cs:16-19 | An address with two or more ':' fails, because `int.Parse` rejects the port text with a format error. |
| Records.RecordRoundTrip | Monitor/DatabaseRecord.cs:13-28 | Parsing the text `GetString()` prints gives back the same record, for any hostname without ':' and any 32-bit port. |
| Records.CanonicalAddressRoundTrip | Monitor/DatabaseRecord.cs:13-28 | `GetString()` of a parsed address equals the address exactly when its port text is already in `ToString()` form. |
| Records.DatabaseRecord.GetUniqueKey | Monitor/DatabaseRecord.cs:27-27 | No contract of its own: `Records.KeySplitsAtFirstAt` and `Records.KeyInjective` state what the key determines. |
| Records.DatabaseRecord.GetString | Monitor/DatabaseRecord.cs:28-28 | For a hostname without ':', the first ':' of the address ends the hostname and the port's `ToString()` text follows it. |
| Records.KeySplitsAtFirstAt | Monitor/DatabaseRecord.cs:27-27 | The first '@' of `GetUniqueKey()` splits it back into `IsWebSocket`'s text and the hostname, whatever the hostname holds. |
| Records.KeyInjective | Monitor/DatabaseRecord.cs:27-27 | Two records share `GetUniqueKey()` if and only if they agree on transport and hostname. Port and datacenter do not matter. |
| Strings.ParseInt32 | Monitor/DatabaseRecord.cs:19-19 | `int.Parse` of the port text: every value it accepts lies within 32 bits. `int.TryParse` in `StringToServerRecord` (`Monitor/SteamDirectory.cs:63`) is the same function read as success or failure. |
| Strings.ParseIntToStringOverflow | Monitor/DatabaseRecord.cs:19-19 | The `ToString()` text of an integer outside 32 bits parses as an overflow error, not a format error. |
| Strings.ParseOverflow | Monitor/DatabaseRecord.cs:19-19 | Any well-formed number outside 32 bits (white space around it, an optional '+' or '-', leading zeros allowed) is an overflow error, not a format error. |
| Strings.ParseIntToString | Monitor/DatabaseRecord.cs:19-19 | `Int32.Parse` reads back every 32-bit integer from `ToString()`. |
| Strings.ParseRejectsForeignChar | Monitor/DatabaseRecord.cs:19-19 | Text holding a character that is not white space, a sign or a digit never parses as an integer. |
| Directory.StringToServerRecord | Monitor/SteamDirectory.cs:49-69 | Without exactly one ':' the result is `InvalidEndpointFormat`. A success is a TCP/UDP socket record on an IP endpoint whose port is in [0, 65535]. |
| Directory.StringToServerRecordSuccess | Monitor/SteamDirectory.cs:49-69 | A success took its IP address from the text before the ':' and its port from the text after it. |
| Directory.StringToServerRecordErrors | Monitor/SteamDirectory.cs:51-68 | With exactly one ':', the checks apply in source order: a bad IP gives `InvalidIpAddress`, then a bad port gives `InvalidPort`, then an out-of-range port gives `PortOutOfRange`. Otherwise the result is the socket record. |
| Directory.ServerRecordToString | Monitor/SteamDirectory.cs:71-74 | For a host without ':' (every IPv4 address), the first ':' ends the host and the port's `ToString()` text follows it. |
| Directory.ServerRecordRoundTrip | Monitor/SteamDirectory.cs:71-74 | `ServerRecordToString` of an IPv4 socket record parses back to the same record. |
| Directory.ParseSocketList | Monitor/SteamDirectory.cs:42-42 | Every socket entry is parsed in order. On success the list holds each entry's record. Otherwise it fails with the error of the first entry that does not parse. |
| Directory.CreateWebSocketList | Monitor/SteamDirectory.cs:43-43 | Every websocket entry goes through `CreateWebSocketServer` in order. On success the list holds each entry's record. Otherwise it fails with `InvalidWebSocketEndpoint`. |
| Directory.LoadAsync | Monitor/SteamDirectory.cs:27-46 | A non-OK result gives `WebApiFailure(result)`. Otherwise the load succeeds if and only if every socket entry parses and `CreateWebSocketServer` accepts every websocket entry. A failing socket entry gives the first such entry's error; with all sockets parsed, a refused websocket entry gives `InvalidWebSocketEndpoint`. On success the list has one entry per socket and websocket entry: the parsed sockets in order, then the websocket records in order. |
| Monitors.TickDeadline | Monitor/Monitor.cs:62-67 | When due, the deadline becomes one minute after `now` and is no longer due at `now`. Otherwise it is unchanged. |
| Monitors.TickAtMostOncePerInstant | Monitor/Monitor.cs:62-67 | Two ticks at the same instant connect at most once. |
| Monitors.Monitor.constructor | Monitor/Monitor.cs:15-21 | A new monitor holds its server, is not disconnecting, and never falls due (`MaxValue`). It has never been seen, has no reconnects and has reported nothing. |
| Monitors.Monitor.Connect | Monitor/Monitor.cs:38-46 | `nextConnect` becomes `when`, or `now` when `when` is null. Nothing else changes. |
| Monitors.Monitor.Disconnect | Monitor/Monitor.cs:48-52 | Sets `IsDisconnecting`. No other method may change that field, so once set it stays set. |
| Monitors.Monitor.DoTick | Monitor/Monitor.cs:54-68 | Connects exactly when `now >= nextConnect`, and then that field becomes `now + 60 s`. Otherwise nothing changes. |
| Monitors.Monitor.OnConnected | Monitor/Monitor.cs:70-80 | Logs on if and only if the result is OK. Reports the result as offline if and only if it does not log on. |
| Monitors.Monitor.OnDisconnected | Monitor/Monitor.cs:82-93 | While disconnecting, nothing changes and nothing is reported. Otherwise the next connect comes 10 to 29 s after `now` and `NoConnection` is reported. |
| Monitors.Monitor.OnLoggedOn | Monitor/Monitor.cs:95-110 | The result is always reported. On OK the next connect is in [now + 5 min, now + 10 min). On failure it is unchanged. |
| Monitors.Monitor.OnLoggedOff | Monitor/Monitor.cs:112-115 | Reports the result and never reschedules. |
| Monitors.FreshMonitorStaysIdle | Monitor/Monitor.cs:17-67 | A monitor that was only constructed does not connect on a tick at any time. |
| Monitors.ConnectThenTick | Monitor/Monitor.cs:38-67 | After `Connect(when)`, the first tick at or after `when` connects and a second tick at the same instant does not. |
| RegistrySpec.Upsert | Monitor/SteamManager.cs:200-212 | `INSERT ... ON DUPLICATE KEY UPDATE Status` sets the status of the row keyed by address and transport. A new row takes the record's datacenter; an existing row keeps its own. Other rows are unchanged. |
| RegistrySpec.MoveRow | Monitor/SteamManager.cs:140-149 | The migration's `UPDATE` re-keys the old row to the new address and keeps its transport, datacenter and status; the old key is gone and every other row is unchanged. A missing row changes nothing, and so does a new address another row already holds (MySQL's duplicate-key error, caught by the handler). |
| RegistrySpec.ResetStatuses | Monitor/SteamManager.cs:73-75 | Every row keeps its key and datacenter and gets the given status. |
| RegistrySpec.DeleteRow | Monitor/SteamManager.cs:103-113 | Exactly the server's row is removed. |
| RegistrySpec.DeleteRowIdempotent | Monitor/SteamManager.cs:101-118 | Removing twice equals removing once. |
| RegistrySpec.ReportStatus | Monitor/SteamManager.cs:188-220 | A row is written if and only if the status differs from the last one reported and the write does not fail. |
| RegistrySpec.RepeatedStatusChangesNothing | Monitor/SteamManager.cs:195-198 | A status equal to the last one reported writes nothing and changes nothing. |
| RegistrySpec.NewStatusIsStored | Monitor/SteamManager.cs:200-214 | A new status that is stored is remembered, and only that row's status changes. |
| RegistrySpec.FailedWriteIsRetried | Monitor/SteamManager.cs:214-219 | A failed write leaves monitor and table as they were, so the same report writes next time. |
| RegistrySpec.TwoReportsWriteAtMostOnce | Monitor/SteamManager.cs:195-219 | Two identical reports in a row write at most once, whichever of them fails. |
| RegistrySpec.InsertByPort | Monitor/SteamManager.cs:125-125 | Inserting into a port-sorted batch keeps it sorted and adds exactly the one record. |
| RegistrySpec.InsertByPortOnPort | Monitor/SteamManager.cs:125-125 | Insertion puts the record before those on its own port and keeps their order. |
| RegistrySpec.OrderByPort | Monitor/SteamManager.cs:125-125 | `OrderBy(cm => cm.Port)` is sorted by port and a permutation of the batch. |
| RegistrySpec.OrderByPortStable | Monitor/SteamManager.cs:125-125 | The ordering is stable: on each port the records keep their batch order. |
| RegistrySpec.ShouldMigrate | Monitor/SteamManager.cs:134-134 | The migration test: more than two reconnects, another port and another hostname. When it holds, the new record's key differs from the old server's. |
| RegistrySpec.Refreshed | Monitor/SteamManager.cs:129-158 | A known entry met again: `LastSeen` becomes `now`; disconnecting flag, schedule and last status are kept. On a migration the server is the new record and the reconnect count 0; otherwise both are kept. |
| RegistrySpec.Reconcile | Monitor/SteamManager.cs:125-170 | No contract of its own: the loop over the ordered batch as a fold of `ReconcileStep`; `RegistrySpec.ReconcileOutcome` and the lemmas it combines state its properties. |
| RegistrySpec.ReconcileStep | Monitor/SteamManager.cs:127-169 | One iteration adds the record's key. `x` grows by one exactly when the key was not known. |
| RegistrySpec.MigrationUnreachable | Monitor/SteamManager.cs:127-134 | When every entry is filed under its own key, the migration test never holds for the monitor a key lookup finds. |
| RegistrySpec.StepKnown | Monitor/SteamManager.cs:127-160 | Under the key invariant, a known key only sets that monitor's `LastSeen` to `now`. Table and count are unchanged. |
| RegistrySpec.StepNew | Monitor/SteamManager.cs:163-169 | An unknown key gets a monitor for the record. It reports `Pending` unless the table is down, and connects `x % 40` seconds after `now` with `x` incremented. |
| RegistrySpec.ReconcileKeys | Monitor/SteamManager.cs:125-170 | After the loop the keys are the old keys plus every batch key. No entry is removed. |
| RegistrySpec.ReconcileKeepsKeyConsistent | Monitor/SteamManager.cs:127-165 | The loop keeps every entry filed under its own server's key. |
| RegistrySpec.ReconcileKnown | Monitor/SteamManager.cs:127-160 | A known entry keeps server, reconnect count, schedule and status. Its `LastSeen` is `now` if and only if the batch holds its key. |
| RegistrySpec.NewRecordsKeys | Monitor/SteamManager.cs:125-165 | The records that create monitors carry exactly the batch keys not known before. |
| RegistrySpec.NewRecordsDistinct | Monitor/SteamManager.cs:125-165 | No two created monitors share a key: one monitor per key. |
| RegistrySpec.NewRecordHasLowestPort | Monitor/SteamManager.cs:125-165 | In a port-sorted batch, the record that creates a key's monitor has the lowest port among that key's records. |
| RegistrySpec.ReconcileCreatedCount | Monitor/SteamManager.cs:123-172 | `x` ends as the number of monitors created. |
| RegistrySpec.ReconcileCreated | Monitor/SteamManager.cs:163-169 | The k-th created monitor (1-based): holds its record; connects `(k % 40)` s after `now`; reported `Pending` unless the table was down; was seen again if and only if a later batch record has its key. |
| RegistrySpec.ReconcileStore | Monitor/SteamManager.cs:163-167 | The table gains a `Pending` upsert for each created monitor, in batch order, unless it was down. Nothing else is written. |
| RegistrySpec.ReconcileOutcome | Monitor/SteamManager.cs:121-176 | It combines, for a whole port-ordered batch: keys added, the key invariant kept, known entries only seen again, `x` equal to the number created, and the table's new rows. |
| RegistrySpec.NextCellID | Monitor/SteamManager.cs:251-254 | `CellID` always lands in [0, 220). From a cell in range it advances by one and wraps to 0 at 220. |
| RegistrySpec.CellAfterIsRoundRobin | Monitor/SteamManager.cs:251-254 | After k refreshes the cell is `(c + k) % 220`. |
| RegistrySpec.EveryCellIsFetched | Monitor/SteamManager.cs:251-254 | Every cell is fetched within 220 refreshes, from any starting cell. |
| RegistrySpec.RefreshBatch | Monitor/SteamManager.cs:226-249 | The batch is the current cell's servers, with the Shanghai cell's servers appended if and only if `CellID % 10 == 0`. A fetch that throws means no batch. |
| RegistrySpec.ListRefreshDeadline | Monitor/SteamManager.cs:89-89 | The next refresh deadline lies in [now + 670 s, now + 779 s]. |
| RegistrySpec.NoRefreshBeforeDeadline | Monitor/SteamManager.cs:87-89 | No refresh starts again before those 670 seconds have passed. |
| Manager.SteamManager.constructor | Monitor/SteamManager.cs:25-27 | An empty registry over the existing table, cell 0, and a refresh due at once. |
| Manager.SteamManager.UpdateCMStatus | Monitor/SteamManager.cs:188-220 | Monitor fields and table change exactly as `ReportStatus` says. |
| Manager.SteamManager.ReportRegistered | Monitor/SteamManager.cs:188-220 | The same, seen from the registry: only that monitor's entry changes. |
| Manager.SteamManager.NotifyCMOnline | Monitor/SteamManager.cs:178-181 | Reports `OK` for a registered monitor. The others are untouched. |
| Manager.SteamManager.NotifyCMOffline | Monitor/SteamManager.cs:183-186 | Reports the given result for a registered monitor. The others are untouched. |
| Manager.SteamManager.UpdateCMList | Monitor/SteamManager.cs:121-176 | Monitors, table and `x` end as `Reconcile` of the port-ordered batch gives them. Known keys keep their monitor objects, new keys get fresh ones, and the key invariant holds. |
| Manager.SteamManager.ReconcileBatch | Monitor/SteamManager.cs:125-170 | The `foreach` over the ordered batch: a loop whose invariant is `Reconcile` of the prefix done. |
| Manager.SteamManager.ReconcileOne | Monitor/SteamManager.cs:127-169 | One iteration does what `ReconcileStep` says. |
| Manager.SteamManager.RefreshKnown | Monitor/SteamManager.cs:127-160 | The known-key path changes only that entry, as `Refreshed`, and the table as `MigratedStore`. |
| Manager.SteamManager.MeetAgain | Monitor/SteamManager.cs:129-158 | `LastSeen := now`. When the migration test holds, the row moves (unless the table is down), the reconnect count resets, and the server is replaced. |
| Manager.SteamManager.AddMonitor | Monitor/SteamManager.cs:163-169 | A fresh monitor is filed under the new key and reports `Pending`. Its first connect is staggered by `(x + 1) % 40` s, and no other entry changes. |
| Manager.SteamManager.Register | Monitor/SteamManager.cs:163-165 | The new monitor is added under its key; no other entry changes. |
| Manager.SteamManager.StartNew | Monitor/SteamManager.cs:167-169 | The new monitor's `Pending` report and staggered connect. Only that entry and the table change. |
| Manager.SteamManager.Tick | Monitor/SteamManager.cs:78-93 | Every monitor of the snapshot is ticked exactly once, as `DoTick`. A refresh is due if and only if `now > NextCMListUpdate`, and then gets its new deadline. |
| Manager.TickAll | Monitor/SteamManager.cs:80-85 | The loop over the snapshot: each monitor once. The connected ones are exactly those that were due. |
| Manager.SteamManager.RemoveCM | Monitor/SteamManager.cs:95-119 | The key is removed whether or not the delete fails. The row goes unless the table is down. |
| Manager.SteamManager.Stop | Monitor/SteamManager.cs:62-76 | Every monitor is marked disconnecting and nothing else about it changes. Every status is reset to `Invalid` unless the table is down. |
| Manager.DisconnectAll | Monitor/SteamManager.cs:64-69 | `Disconnect()` on each monitor of the snapshot. |
| Manager.SteamManager.UpdateCMListViaWebAPI | Monitor/SteamManager.cs:222-255 | The cell always advances, even when a fetch throws, and the key invariant holds. Without a batch nothing else changes. With one, the registry ends as `Reconcile` of the port-ordered batch. |
| Manager.SteamManager.AdvanceCell | Monitor/SteamManager.cs:251-254 | Only `CellID` changes, to `NextCellID` of the old cell. |

## Left out

- SteamKit2 (`SteamClient`, `CallbackManager`, `SteamMonitorUser`) is a foreign library. A connect request is the `connect` result of `DoTick`, and a logon request is the `logOn` result of `OnConnected`. `RunWaitCallbacks` and the session's own `Disconnect` are not modelled.
- The MySQL connection (`GetConnection`), the SQL text and Dapper are not modelled. The `CMs` table is a map from (address, transport) to (datacenter, status).
- The web calls (`LoadCMList`, the request in `SteamDirectory.LoadAsync`) are not modelled. Their answers arrive as parameters.
- Concurrency is not modelled. `ConcurrentDictionary`, `Task.Run`, `async`/`await` and the fire-and-forget status writes are all sequential calls.
- Logging (`Log.Write*`) and the `lastAction` text are not modelled; they only reach the console.
- `Start` is not modelled: it seeds the registry from a database query. The private constructor's read of `database.txt` and `Environment.Exit` are not modelled either.
- `OnCMList` is left out. It calls a private method with an incompatible argument type and belongs to another revision of `Monitor.cs`.
- `DatabaseRecord.GetServerRecord` and `SteamDirectory.GetNextRandom` are not used by the modelled core.
- `Utils/MonitorThread.cs` and `Program.cs` (thread start, signals, exit) are not part of this model.
- Monitors.Monitor.OnLoggedOn: the jitter `NextDouble() * 5` minutes is a whole number of seconds in [0, 300), not a floating-point value.
- Monitors.Monitor.OnDisconnected: `new Random().Next(10, 30)` is a parameter in [10, 30).
- Manager.SteamManager.Tick: `Random.Next(10, 120)` is a parameter, and one clock reading `now` stands for the two `DateTime.Now` reads.
- Manager.SteamManager.Tick: the snapshot's enumeration order is not specified, so the contract states that each monitor is ticked exactly once; the order itself is not constrained.
- Manager.SteamManager.UpdateCMList: each write of one call either succeeds or, when `storeDown` holds, throws. A call where only some writes fail is not modelled.
- Manager.SteamManager.UpdateCMList: the derived facts are not repeated in its `ensures`; `RegistrySpec.ReconcileOutcome`, `RegistrySpec.ReconcileCreated` and `RegistrySpec.NewRecordHasLowestPort` state them about the `Reconcile` value the method is tied to. These facts are: keys added, known entries, count and table rows.
- Manager.SteamManager.UpdateCMListViaWebAPI: the `Where(s => !globalServers.Contains(s))` filter is modelled as plain concatenation. `DatabaseRecord` has reference equality and the Shanghai list holds fresh objects, so the filter removes nothing. Duplicate monitors are prevented by the key lookup instead.
- Manager.SteamManager.Stop: an exception from the final reset propagates in the source; here the table is simply left as it was.
- Manager.SteamManager.NotifyCMOnline: `Monitor.cs` as shown passes a second argument that this method does not take. The model follows `SteamManager.cs`.
- Directory.StringToServerRecord: `IPAddress.TryParse` is a parameter. Only the IPv4 round trip assumes anything about it: that it reads back the dotted text it prints. IPv6 text is kept unparsed.
- Strings.ParseInt32: trailing NUL characters, which `Int32.Parse` also accepts, are not modelled.
- Strings.ParseInt32: the sign symbols are fixed as `-` and `+`. `int.Parse`, `int.TryParse` and `ToString` use the current culture's signs, and other cultures are not modelled.
- Manager.TickAll, Monitors.Monitor.DoTick and Manager.SteamManager.UpdateCMList: one instant `now` stands for every clock read within a call. In the source each `DoTick` reads `DateTime.Now` itself, twice and after a 10 ms `RunWaitCallbacks`, and `UpdateCMList` reads it again in each iteration, between database awaits; the time that passes between those reads is not modelled.
- `DateTime` overflow near `MaxValue` is not modelled: times are unbounded integers of seconds.
