# Forced-reset watchdog master, modelled in Dafny

The master of this watchdog listens for slaves on TCP. Each slave sends `\n`-terminated lines:

- heartbeats, conventionally `HB`;
- one `SMART <json>` line with disk-health telemetry;
- optionally a `RESET` line asking to be power-cycled.

The master keeps `last_seen` (slave IP to time of the last line) and `reset_counts` (relay to number of successful resets). Once a second a monitor loop resets, through a relay on a PLC, every registered slave that has been silent for more than 180 seconds. A reset is the command `RS <relay>\r\n`. Each successful reset increments the relay's counter and appends `<relay> <count>` to a counts log. Telemetry from registered slaves is appended to a per-relay log.

The model is sequential. It has two layers:

- **Specification values.** Module `Liveness` holds the whole state as a `Store` value. `Dispatch` is the effect of one received line and `TickSpec` the effect of one monitor pass. The lemmas there state what these operations promise.
- **Imperative engine.** Module `ResetMaster` has class `Master`, with the maps and logs as fields, and the methods `Step` and `Tick`. Class `Connection` holds a connection's byte buffer and its `Receive` loop, which splits lines off the buffer. Each method of `Master` and `Connection` is proved to yield exactly the state the specification functions give. Each one that changes the master requires the invariant `Inv` (through `Valid()`) and is proved to keep it. `ResetRelay` also requires a registered relay, as both of its call sites in the source guarantee.

The other modules:

- `Framing`: the line framer.
- `Text`: `str.strip`, `startswith` and `str(n)`.
- `Config`: the constants and the slave-to-relay registry.
- `Plc`: the PLC command.
- `Wrappers`: `Option`.

Inputs that the source obtains from the outside world are parameters:

- the current time `now` is an integer;
- the actuator's outcome is a boolean: `plcOk` for one line; in `Receive`, `plc(k)` for the k-th line of the chunk; in `Tick`, `plc(i)` for registry entry `i`. Only the lines and entries that actually actuate consult it;
- `json.loads` is a partial function `parse: string -> Option<Json>`;
- UTF-8 decoding is a function `decode` from bytes to a string.

Each actuator call is recorded in the store's `attempts` sequence. This makes "the actuator is not called" and "called exactly once" statable.

The model follows the code of forced_reset_test_master.py, including in these cases:

- A `SMART ` payload may be any JSON value that `json.loads` accepts, not only an object.
- The master has no text fallback for unparseable telemetry: such a line is dropped, although it still counts as liveness. The `{"text": ...}` wrapping happens on the slave.
- The receive buffer is not capped.
- A `RESET` line is honoured when the registered relay name is truthy (non-empty). Telemetry only requires that the sender is registered. Every registered relay is non-empty, so both tests agree on the shipped registry.
- Counters are not reloaded at start-up: `Init` sets every registered relay to 0.
- The monitor has no cooldown. Because a tick never refreshes `last_seen`, a silent slave is actuated again on every tick (`TickRefiresStale`).

## Model

| member | source | states |
|---|---|---|
| Text.Strip | forced_reset_test_master.py:133 | the stripped line is the input between its longest whitespace prefix and suffix (the bounds `StripBounds` fixes); it is empty exactly when every character is whitespace, and otherwise starts and ends with a non-whitespace character |
| Text.StripBounds | forced_reset_test_master.py:133 | `strip()` removes exactly the longest whitespace prefix and suffix, using Python's `str.isspace` set |
| Text.StripIdempotent | forced_reset_test_master.py:133 | stripping a stripped line changes nothing |
| Text.StripOfTrimmed | forced_reset_test_master.py:133 | a line that neither starts nor ends with whitespace is unchanged by `strip()` |
| Text.StripOneTrailingSpace | forced_reset_test_master.py:133 | `strip()` removes one trailing whitespace character after a trimmed line |
| Text.StartsWith | forced_reset_test_master.py:140 | `startswith(p)` holds exactly when `p` is no longer than the line and matches it character by character |
| Text.Decimal | forced_reset_test_master.py:159 | `str(count)` is a non-empty string of decimal digits with no leading zero |
| Text.DecimalRoundTrip | forced_reset_test_master.py:159 | reading back a rendered count gives the count |
| Text.DecimalInjective | forced_reset_test_master.py:210 | distinct counts are logged as distinct strings |
| Config.RegistryIsDistinct | forced_reset_test_master.py:21-28 | no IP address and no relay occurs twice in `SLAVE_TO_RELAY` |
| Config.DistinctRelays | forced_reset_test_master.py:21-28 | two different registry entries name different relays |
| Config.Relays | forced_reset_test_master.py:38 | the counter keys are exactly the relays of the registry |
| Config.IndexFrom | forced_reset_test_master.py:21-28 | a registry lookup finds the entry of `ip` if there is one, and reports absence only when no entry has that IP |
| Config.RelayOf | forced_reset_test_master.py:90 | `SLAVE_TO_RELAY.get(ip)` is defined exactly for registered IPs and gives that entry's relay |
| Config.RegisteredRelaysNonEmpty | forced_reset_test_master.py:151-152 | every registered relay is non-empty, so the `if relay:` test passes for every registered sender |
| Plc.Command | forced_reset_test_master.py:19 | the command is `RS `, then the relay, then CRLF, five characters longer than the relay |
| Plc.CommandRelay | forced_reset_test_master.py:19 | the relay read back from a command is five characters shorter than the command |
| Plc.CommandRoundTrip | forced_reset_test_master.py:61 | the PLC reads back exactly the relay the command was formatted for |
| Plc.CommandInjective | forced_reset_test_master.py:61 | different relays get different commands |
| Plc.EncodeAsciiIgnore | forced_reset_test_master.py:61 | `encode("ascii", "ignore")` yields only ASCII bytes and, for an ASCII string, exactly its character codes |
| Plc.EncodeAsciiIgnoreChar | forced_reset_test_master.py:61 | a single character encodes to its code if it is ASCII and to nothing otherwise |
| Plc.EncodeAsciiIgnoreAppend | forced_reset_test_master.py:61 | encoding a concatenation is the concatenation of the encodings, so the ASCII characters are kept in order and the others dropped |
| Plc.CommandBytes | forced_reset_test_master.py:61 | the wire bytes are never longer than the formatted command |
| Plc.CommandBytesExact | forced_reset_test_master.py:61 | for an ASCII relay, the wire bytes decode to exactly `RS <relay>\r\n` |
| Plc.RegisteredCommandsExact | forced_reset_test_master.py:19-28 | for every registered relay, the PLC receives exactly its formatted command |
| Framing.IndexOfNewline | forced_reset_test_master.py:130-131 | the split point is the first `\n` in the buffer |
| Framing.SplitFirst | forced_reset_test_master.py:131 | `split(b"\n", 1)` gives a terminator-free line; that line, `\n` and the remainder rebuild the buffer |
| Framing.Frames | forced_reset_test_master.py:130-131 | splitting off lines until no `\n` is left leaves a terminator-free buffer no longer than the input |
| Framing.FramesSound | forced_reset_test_master.py:129-131 | framing loses nothing: the lines, each followed by `\n`, and then the leftover rebuild the input; no line and no leftover holds `\n` |
| Framing.FramesAdvance | forced_reset_test_master.py:130-131 | while the buffer holds a `\n`, the next split yields the next line of the stream and leaves the remaining lines to come |
| Framing.FramesExhausted | forced_reset_test_master.py:130 | once no `\n` is left, every line of the stream has been split off and the buffer is the leftover |
| Framing.FramesUnique | forced_reset_test_master.py:129-131 | the framer's decomposition is the only one into terminator-free lines and a terminator-free leftover |
| Framing.FramesChunked | forced_reset_test_master.py:126-131 | chunk boundaries do not matter: framing in two receives yields the same lines and leftover as one |
| Liveness.CountLine | forced_reset_test_master.py:159 | a counts-log line is the relay, a space, the count and a newline |
| Liveness.Count | forced_reset_test_master.py:106 | `reset_counts.get(relay, 0)`: the stored counter if the relay has one, 0 otherwise |
| Liveness.CountLineRoundTrip | forced_reset_test_master.py:159 | every counts-log line parses back to its relay and count |
| Liveness.Init | forced_reset_test_master.py:37-38 | at start-up nothing has been seen, every registered relay's counter is 0, and all logs are empty |
| Liveness.InitInv | forced_reset_test_master.py:37-38 | the start-up state is consistent |
| Liveness.CountsLogAgrees | forced_reset_test_master.py:156-159 | in a consistent state a relay has as many counts-log lines as its count, and the last one is its current count |
| Liveness.Actuate | forced_reset_test_master.py:154-161 | an actuation is recorded once; on success only that relay's counter rises by 1 and its new value is logged; on failure counters and log stay unchanged |
| Liveness.ActuatePreservesInv | forced_reset_test_master.py:205-210 | actuating a registered relay keeps counters and counts log consistent |
| Liveness.Touch | forced_reset_test_master.py:148 | `last_seen[slave_ip] = time.time()` sets the sender's entry to `now`, keeps every other entry, and leaves the counters, the counts log, the telemetry and the attempts unchanged |
| Liveness.TelemetryFor | forced_reset_test_master.py:90-108 | a record exists exactly for a registered sender; its relay is the sender's relay, its IP the sender, its count the relay's count at receipt (0 if unset), and its payload the parsed object |
| Liveness.RecordTelemetry | forced_reset_test_master.py:88-114 | the telemetry log grows by that record, and nothing else changes |
| Liveness.Classify | forced_reset_test_master.py:133-149 | a blank stripped line is ignored; `SMART ` is tested first and its payload is the rest of the stripped line; `RESET` only otherwise; every other line is a heartbeat |
| Liveness.ClassifyIgnoresPadding | forced_reset_test_master.py:133 | surrounding whitespace, including a trailing `\r`, never changes a line's class |
| Liveness.BareSmartIsHeartbeat | forced_reset_test_master.py:133-140 | `SMART` followed only by whitespace (nothing, a space, a `\r`, ...) is stripped to `SMART`, lacks the space, and counts as a heartbeat |
| Liveness.Dispatch | forced_reset_test_master.py:136-166 | a blank line changes nothing; any other line sets `last_seen[ip] = now` and leaves every other IP alone; counters never fall and rise by at most 1; all logs only grow |
| Liveness.DispatchHeartbeat | forced_reset_test_master.py:164-166 | a heartbeat changes only the sender's `last_seen` |
| Liveness.DispatchSmart | forced_reset_test_master.py:140-148 | telemetry never actuates or counts; it appends a record iff the payload parses and the sender is registered; it refreshes liveness even on a parse failure |
| Liveness.DispatchResetRegistered | forced_reset_test_master.py:149-163 | RESET from a registered IP calls the actuator once; on success exactly that relay's counter rises by 1 and `<relay> <count>` is logged; on failure only the attempt and liveness change |
| Liveness.DispatchResetIsActuate | forced_reset_test_master.py:149-163 | a RESET from a registered IP is exactly one actuation of its relay followed by the liveness refresh |
| Liveness.DispatchUnknownSender | forced_reset_test_master.py:151-152 | for an unregistered sender a blank line changes nothing and any other line changes exactly that sender's `last_seen` |
| Liveness.InvOnlyConcernsCounts | forced_reset_test_master.py:142-148 | changes to `last_seen` or to the telemetry never break the consistency of counters and counts log |
| Liveness.DispatchPreservesInv | forced_reset_test_master.py:149-163 | every line keeps the counters and the counts log consistent |
| Liveness.DispatchLines | forced_reset_test_master.py:130-166 | handling the lines of a chunk never lowers a counter |
| Liveness.DispatchLinesNext | forced_reset_test_master.py:130-166 | handling one more line of a chunk is one more dispatch, on the next line, with its own time and actuator outcome |
| Liveness.Due | forced_reset_test_master.py:200-203 | a slave never seen is not due; a seen slave is due exactly when at least 181 s have passed since its last line |
| Liveness.TickEntry | forced_reset_test_master.py:200-210 | an entry that is not due (never seen, or silent for at most 180 s) changes nothing; a due entry actuates its relay |
| Liveness.TickPrefix | forced_reset_test_master.py:199-212 | a partial tick never changes `last_seen` and only appends attempts |
| Liveness.TickSpec | forced_reset_test_master.py:198-212 | a full tick never changes `last_seen` and only appends attempts |
| Liveness.TickPrefixEffect | forced_reset_test_master.py:199-212 | a tick attempts the due relays in registry order and nothing else; each counter grows by exactly its number of successful actuations; the counts log gains exactly one `<relay> <old count + 1>` line per successful actuation, in registry order; liveness and telemetry are untouched |
| Liveness.TickPrefixCounters | forced_reset_test_master.py:199-207 | the liveness, telemetry, attempts and counters part of that statement, by induction over the registry |
| Liveness.TickPrefixCountBefore | forced_reset_test_master.py:206-207 | when the tick reaches an entry, that entry's relay still has its counter from before the tick, so the increment starts from it |
| Liveness.TickEntryLog | forced_reset_test_master.py:203-210 | one entry's step appends to the counts log exactly the line of its successful actuation, or nothing |
| Liveness.TickPrefixLog | forced_reset_test_master.py:199-210 | after a partial tick the counts log is the old log followed by the lines of the successful due entries so far, in registry order |
| Liveness.TickLogIsAppended | forced_reset_test_master.py:208-210 | a tick only appends to the counts log |
| Liveness.DueRelaysOccurrences | forced_reset_test_master.py:199-205 | a registry entry's relay is among the due relays once if the entry is due, and not at all otherwise |
| Liveness.SuccessesOfEntry | forced_reset_test_master.py:205-207 | a relay has one success in a tick iff its entry is due and its actuation succeeds |
| Liveness.TickResetRule | forced_reset_test_master.py:199-210 | per registered slave, a tick attempts exactly one reset iff the slave was seen and `now - last > 180`, and none otherwise; its counter rises by 1 iff that attempt succeeds |
| Liveness.TickSkipsNeverSeen | forced_reset_test_master.py:200-202 | a slave never seen is never actuated by the monitor |
| Liveness.TickTimeoutIsStrict | forced_reset_test_master.py:203 | exactly 180 s of silence does not fire; 181 s does |
| Liveness.TickRefiresStale | forced_reset_test_master.py:198-213 | a slave due at one tick is actuated again at any later tick if it stays silent |
| Liveness.TickMonotone | forced_reset_test_master.py:206-207 | a tick never lowers a counter |
| Liveness.TickPrefixPreservesInv | forced_reset_test_master.py:199-212 | a tick keeps the counters and the counts log consistent |
| ResetMaster.Master.constructor | forced_reset_test_master.py:37-38 | the engine starts in the start-up state, which is consistent |
| ResetMaster.Master.ResetRelay | forced_reset_test_master.py:154-161 | for a registered relay, the in-place actuation and counter update is the effect `Actuate` describes, keeps the invariant, and returns the actuator's outcome |
| ResetMaster.Master.HandleSmart | forced_reset_test_master.py:88-114 | the in-place telemetry append is the effect `RecordTelemetry` describes, and keeps the invariant |
| ResetMaster.Master.Step | forced_reset_test_master.py:132-166 | the in-place handling of one line produces exactly `Dispatch` of the old state and keeps the invariant |
| ResetMaster.Master.Tick | forced_reset_test_master.py:198-212 | the in-place `for` loop over the registry produces exactly `TickSpec` of the old state and keeps the invariant |
| ResetMaster.Connection.constructor | forced_reset_test_master.py:119-123 | a new connection has an empty buffer and is open |
| ResetMaster.Connection.Receive | forced_reset_test_master.py:125-166 | an empty chunk closes the connection and changes no state; otherwise the new buffer is the framer's leftover of old buffer plus chunk, the master state is the result of dispatching each complete line in order, and the invariant is kept |

## Left out

- Socket I/O: `accept`, `start_server`, the 10-second receive timeout, `conn.close`, and read errors that end `handle_client`. A receive is the `Receive` call; a peer close is an empty chunk.
- The body of `send_plc_reset`: its connect, send and reply wait, with their timeouts and caught exceptions. Its outcome is the boolean `plcOk`, `plc(k)` or `plc(i)`. The bytes it would send are `Plc.CommandBytes`.
- Threads and the missing locking between connection handlers and the monitor. The model is the sequential meaning of one line and of one tick. Lost updates from racing increments are not modelled.
- The endless loops of `monitor_loop` and `start_server`, and `time.sleep(1.0)`.
- Clock: `time.time()` is an integer `now` (per line, `clock(k)`), not a float. `recv_time` is the same integer, not a formatted UTC string.
- File system: `log`, `os.makedirs`, and failures to open or append. The counts log and telemetry logs are in-memory append-only sequences; a write failure does not affect in-memory state. The per-relay telemetry files are one sequence whose records carry their relay.
- Earlier runs' lines in the counts-log file: `Init` starts the counts log empty, so it holds only the lines this process appends. After a restart the real file still holds earlier lines while the counters restart at 0, so `Inv` and `CountsLogAgrees` speak about this run's lines only.
- `json.loads` and `json.dumps`: parsing is the `parse` parameter, and records are not serialised.
- UTF-8 decoding with `errors="ignore"` is the `decode` parameter. Decoding with `ignore` never raises, so the `except Exception: continue` after it is unreachable and not modelled.
- Operational log lines, such as "Received SMART from unknown IP", are not modelled.
- forced_reset_test_slave.py is not part of this model. It runs `smartctl` and `vlc`, sends over sockets and loops on timers.
