/**
 * The master's state as a value, and the meaning of its two operations:
 * `Dispatch` (one received line, the body of the inner loop of `handle_client`)
 * and `TickSpec` (one pass of `monitor_loop` over the registry). The imperative
 * classes in module ResetMaster are proved to implement exactly these functions;
 * the lemmas here state what the operations promise.
 */
module Liveness {
  import opened Wrappers
  import opened Text
  import opened Config

  /** A decoded telemetry payload; the parser that produces it is an input. */
  datatype Json =
    | JNull
    | JBool(b: bool)
    | JNumber(literal: string)
    | JString(s: string)
    | JArray(items: seq<Json>)
    | JObject(members: seq<(string, Json)>)

  /** `json.loads`, as a partial function: `None` where it raises. */
  type Parser = string -> Option<Json>

  /** One line of a relay's telemetry log (`smart_<relay>.jsonl`). */
  datatype TelemetryRecord = TelemetryRecord(recvTime: int, slaveIp: string, relay: string, resetCount: nat, smart: Json)

  /** One line `"<relay> <count>"` of the append-only reset-count log. */
  datatype CountEntry = CountEntry(relay: string, count: nat)

  /**
   * Everything the master keeps: `last_seen`, `reset_counts`, the lines appended
   * to the reset-count log and to the telemetry logs, and the relays the reset
   * actuator was called for, in call order.
   */
  datatype Store = Store(
    lastSeen: map<string, int>,
    resetCounts: map<string, nat>,
    countsLog: seq<CountEntry>,
    telemetry: seq<TelemetryRecord>,
    attempts: seq<string>)

  /** `reset_counts.get(relay, 0)`. */
  function Count(counts: map<string, nat>, relay: string): (c: nat)
    ensures relay in counts ==> c == counts[relay]
    ensures relay !in counts ==> c == 0
  {
    if relay in counts then counts[relay] else 0
  }

  // ---------------------------------------------------------------------------
  // The reset-count log

  /** The text of a count-log line as written by `f"{relay} {count}\n"`. */
  function CountLine(e: CountEntry): (line: string)
    ensures |line| > |e.relay| + 2 && line[|e.relay|] == ' ' && line[|line| - 1] == '\n'
  {
    e.relay + " " + Decimal(e.count) + "\n"
  }

  /** Index of the last space in `s`, if any. */
  function LastSpace(s: string): (r: Option<nat>)
    ensures r.Some? ==> r.value < |s| && s[r.value] == ' ' && forall k :: r.value < k < |s| ==> s[k] != ' '
    ensures r.None? ==> forall k :: 0 <= k < |s| ==> s[k] != ' '
  {
    if s == [] then None
    else if s[|s| - 1] == ' ' then Some(|s| - 1)
    else LastSpace(s[..|s| - 1])
  }

  /** Reads a count-log line back: the relay before the last space, the decimal count after it. */
  function ParseCountLine(line: string): (r: Option<CountEntry>)
  {
    if |line| == 0 || line[|line| - 1] != '\n' then None
    else
      var body := line[..|line| - 1];
      match LastSpace(body)
      case None => None
      case Some(i) =>
        var digits := body[i + 1..];
        if |digits| > 0 && forall k :: 0 <= k < |digits| ==> IsDigit(digits[k])
        then Some(CountEntry(body[..i], ParseDecimal(digits)))
        else None
  }

  /** A count-log line reads back as the entry it was written for. */
  lemma CountLineRoundTrip(e: CountEntry)
    ensures ParseCountLine(CountLine(e)) == Some(e)
  {
    var line := CountLine(e);
    var body := line[..|line| - 1];
    var d := Decimal(e.count);
    assert body == e.relay + " " + d;
    assert forall k :: |e.relay| < k < |body| ==> body[k] == d[k - |e.relay| - 1];
    assert forall k :: |e.relay| < k < |body| ==> body[k] != ' ';
    assert LastSpace(body) == Some(|e.relay|);
    assert body[|e.relay| + 1..] == d;
    assert body[..|e.relay|] == e.relay;
    DecimalRoundTrip(e.count);
  }

  /** The counts logged for `relay`, in log order. */
  function LoggedCounts(log: seq<CountEntry>, relay: string): seq<nat> {
    if log == [] then []
    else
      var last := log[|log| - 1];
      LoggedCounts(log[..|log| - 1], relay) + (if last.relay == relay then [last.count] else [])
  }

  /** `[1, 2, ..., n]`. */
  function Upto(n: nat): (s: seq<nat>)
    ensures |s| == n
    ensures forall k :: 0 <= k < n ==> s[k] == k + 1
  {
    if n == 0 then [] else Upto(n - 1) + [n]
  }

  /**
   * The consistency the master keeps: there is a counter for exactly the
   * registered relays, and the count-log lines of each relay read 1, 2, ..., up
   * to its counter, so the last line of a relay is its in-memory count.
   */
  ghost predicate Inv(st: Store) {
    && st.resetCounts.Keys == Relays()
    && forall r :: r in st.resetCounts ==> LoggedCounts(st.countsLog, r) == Upto(st.resetCounts[r])
  }

  /** The state at start-up: nothing seen, every registered relay's counter at 0, all logs empty. */
  function Init(): (st: Store)
    ensures st.lastSeen == map[] && st.countsLog == [] && st.telemetry == [] && st.attempts == []
    ensures st.resetCounts.Keys == Relays()
    ensures forall r :: Count(st.resetCounts, r) == 0
  {
    Store(map[], map r | r in Relays() :: 0, [], [], [])
  }

  lemma InitInv()
    ensures Inv(Init())
  {
  }

  /** In a consistent state the count log agrees with each counter: as many lines as the count, the last one the count. */
  lemma {:induction false} CountsLogAgrees(st: Store, relay: string)
    requires Inv(st) && relay in Relays()
    ensures |LoggedCounts(st.countsLog, relay)| == Count(st.resetCounts, relay)
    ensures Count(st.resetCounts, relay) > 0 ==>
              LoggedCounts(st.countsLog, relay)[Count(st.resetCounts, relay) - 1] == Count(st.resetCounts, relay)
  {
  }

  // ---------------------------------------------------------------------------
  // Actuation, liveness and telemetry: the three effects a line or a tick can have

  /**
   * One call of `send_plc_reset(relay)` whose outcome is `ok`, followed by the
   * source's bookkeeping: on success the counter is incremented and the new
   * value appended to the count log; on failure nothing but the attempt is recorded.
   */
  function Actuate(st: Store, relay: string, ok: bool): (st': Store)
    ensures st'.attempts == st.attempts + [relay]
    ensures st'.lastSeen == st.lastSeen && st'.telemetry == st.telemetry
    ensures ok ==> && st'.resetCounts == st.resetCounts[relay := Count(st.resetCounts, relay) + 1]
                   && st'.countsLog == st.countsLog + [CountEntry(relay, Count(st.resetCounts, relay) + 1)]
    ensures !ok ==> st'.resetCounts == st.resetCounts && st'.countsLog == st.countsLog
  {
    var tried := st.(attempts := st.attempts + [relay]);
    if ok then
      var c := Count(st.resetCounts, relay) + 1;
      tried.(resetCounts := st.resetCounts[relay := c], countsLog := st.countsLog + [CountEntry(relay, c)])
    else tried
  }

  /** An actuation of a registered relay, successful or not, keeps the counters and the count log consistent. */
  lemma ActuatePreservesInv(st: Store, relay: string, ok: bool)
    requires Inv(st) && relay in Relays()
    ensures Inv(Actuate(st, relay, ok))
  {
    var st' := Actuate(st, relay, ok);
    if ok {
      forall r | r in st'.resetCounts
        ensures LoggedCounts(st'.countsLog, r) == Upto(st'.resetCounts[r])
      {
        assert st'.countsLog[..|st'.countsLog| - 1] == st.countsLog;
      }
    }
  }

  /** `last_seen[ip] = time.time()`. */
  function Touch(st: Store, ip: string, now: int): (st': Store)
    ensures st'.lastSeen == st.lastSeen[ip := now]
    ensures && st'.resetCounts == st.resetCounts && st'.countsLog == st.countsLog
            && st'.telemetry == st.telemetry && st'.attempts == st.attempts
  {
    st.(lastSeen := st.lastSeen[ip := now])
  }

  /** The record `handle_smart_message` writes for `obj` from `ip`, or nothing for an unknown sender. */
  function TelemetryFor(st: Store, ip: string, obj: Json, now: int): (rec: Option<TelemetryRecord>)
    ensures rec.Some? <==> RelayOf(ip).Some?
    ensures rec.Some? ==> && rec.value.relay == RelayOf(ip).value
                          && rec.value.slaveIp == ip
                          && rec.value.resetCount == Count(st.resetCounts, RelayOf(ip).value)
                          && rec.value.smart == obj
                          && rec.value.recvTime == now
  {
    match RelayOf(ip)
    case None => None
    case Some(relay) => Some(TelemetryRecord(now, ip, relay, Count(st.resetCounts, relay), obj))
  }

  /** `handle_smart_message(ip, obj)`: appends the record, if there is one, to the telemetry log. */
  function RecordTelemetry(st: Store, ip: string, obj: Json, now: int): (st': Store)
    ensures st' == st.(telemetry := st.telemetry + match TelemetryFor(st, ip, obj, now)
                                                   case None => []
                                                   case Some(rec) => [rec])
  {
    match TelemetryFor(st, ip, obj, now)
    case None => st
    case Some(rec) => st.(telemetry := st.telemetry + [rec])
  }

  // ---------------------------------------------------------------------------
  // One received line

  /** The three kinds of protocol line, plus a line that is blank once stripped. */
  datatype Message = Blank | Smart(payload: string) | ResetRequest | Heartbeat

  /**
   * The classification of a decoded line: it is stripped, then tested for
   * `SMART ` (the rest of the line is the payload), then for `RESET`; anything
   * else that is not blank is a heartbeat.
   */
  function Classify(raw: string): (m: Message)
    ensures m == Blank <==> Strip(raw) == []
    ensures m.Smart? <==> StartsWith(Strip(raw), "SMART ")
    ensures m.Smart? ==> Strip(raw) == "SMART " + m.payload
    ensures m == ResetRequest <==> !StartsWith(Strip(raw), "SMART ") && StartsWith(Strip(raw), "RESET")
    ensures m == Heartbeat <==>
              Strip(raw) != [] && !StartsWith(Strip(raw), "SMART ") && !StartsWith(Strip(raw), "RESET")
  {
    var line := Strip(raw);
    if line == [] then Blank
    else if StartsWith(line, "SMART ") then Smart(line[|"SMART "|..])
    else if StartsWith(line, "RESET") then ResetRequest
    else Heartbeat
  }

  /** Surrounding whitespace, a trailing `\r` included, does not change a line's meaning. */
  lemma ClassifyIgnoresPadding(raw: string)
    ensures Classify(raw) == Classify(Strip(raw))
  {
    var line := Strip(raw);
    StripIdempotent(raw);
    assert Strip(line) == line;
  }

  /**
   * `SMART` followed only by whitespace (a space, a `\r` from a CRLF sender, or
   * nothing) is stripped to `SMART`, which lacks the space: it counts as a heartbeat.
   */
  lemma BareSmartIsHeartbeat(w: string)
    requires forall k :: 0 <= k < |w| ==> IsSpace(w[k])
    ensures Classify("SMART" + w) == Heartbeat
  {
    var word: string := "SMART";
    var raw := word + w;
    var b := StripBounds(raw);
    assert raw[0] == 'S' && raw[4] == 'T' && !IsSpace(raw[0]) && !IsSpace(raw[4]);
    assert forall k :: 5 <= k < |raw| ==> raw[k] == w[k - 5];
    assert b.0 == 0 && b.1 == 5;
    assert Strip(raw) == raw[..5] == word;
    assert !StartsWith(word, "SMART ");
    assert word[0] != "RESET"[0];
  }

  /**
   * The effect of one received line from `ip`, decoded as `raw`, at time `now`,
   * given the parser and the outcome `plcOk` the actuator would report if called.
   */
  function Dispatch(st: Store, ip: string, raw: string, now: int, plcOk: bool, parse: Parser): (st': Store)
    ensures Strip(raw) == [] ==> st' == st
    ensures Strip(raw) != [] ==> st'.lastSeen == st.lastSeen[ip := now]
    ensures forall r :: Count(st.resetCounts, r) <= Count(st'.resetCounts, r) <= Count(st.resetCounts, r) + 1
    ensures st.countsLog <= st'.countsLog && st.telemetry <= st'.telemetry && st.attempts <= st'.attempts
  {
    match Classify(raw)
    case Blank => st
    case Smart(payload) =>
      var recorded := match parse(payload)
                      case None => st
                      case Some(obj) => RecordTelemetry(st, ip, obj, now);
      Touch(recorded, ip, now)
    case ResetRequest =>
      var reset := match RelayOf(ip)
                   case Some(relay) => if relay != "" then Actuate(st, relay, plcOk) else st
                   case None => st;
      Touch(reset, ip, now)
    case Heartbeat => Touch(st, ip, now)
  }

  /** A heartbeat refreshes the sender's liveness and changes nothing else. */
  lemma DispatchHeartbeat(st: Store, ip: string, raw: string, now: int, plcOk: bool, parse: Parser)
    requires Classify(raw) == Heartbeat
    ensures Dispatch(st, ip, raw, now, plcOk, parse) == st.(lastSeen := st.lastSeen[ip := now])
  {
  }

  /**
   * A telemetry line never actuates nor counts; it appends one record exactly
   * when the payload parses and the sender is registered, and refreshes liveness
   * even when the payload does not parse.
   */
  lemma DispatchSmart(st: Store, ip: string, raw: string, now: int, plcOk: bool, parse: Parser)
    requires Classify(raw).Smart?
    ensures var st' := Dispatch(st, ip, raw, now, plcOk, parse);
            && st'.lastSeen == st.lastSeen[ip := now]
            && st'.resetCounts == st.resetCounts && st'.countsLog == st.countsLog && st'.attempts == st.attempts
            && (parse(Classify(raw).payload).None? || RelayOf(ip).None? ==> st'.telemetry == st.telemetry)
            && (parse(Classify(raw).payload).Some? && RelayOf(ip).Some? ==>
                  st'.telemetry == st.telemetry + [TelemetryRecord(now, ip, RelayOf(ip).value,
                                                                   Count(st.resetCounts, RelayOf(ip).value),
                                                                   parse(Classify(raw).payload).value)])
  {
  }

  /**
   * A reset request from a registered sender calls the actuator once for its
   * relay; on success that relay's counter rises by one and the new count is
   * logged, on failure only the attempt and the liveness refresh remain.
   */
  lemma DispatchResetRegistered(st: Store, ip: string, raw: string, now: int, plcOk: bool, parse: Parser)
    requires Classify(raw) == ResetRequest && RelayOf(ip).Some?
    ensures var st' := Dispatch(st, ip, raw, now, plcOk, parse);
            var relay := RelayOf(ip).value;
            && st'.lastSeen == st.lastSeen[ip := now]
            && st'.attempts == st.attempts + [relay]
            && st'.telemetry == st.telemetry
            && (plcOk ==> && st'.resetCounts == st.resetCounts[relay := Count(st.resetCounts, relay) + 1]
                          && st'.countsLog == st.countsLog + [CountEntry(relay, Count(st.resetCounts, relay) + 1)])
            && (!plcOk ==> st'.resetCounts == st.resetCounts && st'.countsLog == st.countsLog)
  {
    DispatchResetIsActuate(st, ip, raw, now, plcOk, parse);
  }

  /** A RESET line from a registered IP is one actuation of its relay, followed by the liveness refresh. */
  lemma DispatchResetIsActuate(st: Store, ip: string, raw: string, now: int, plcOk: bool, parse: Parser)
    requires Classify(raw) == ResetRequest && RelayOf(ip).Some?
    ensures Dispatch(st, ip, raw, now, plcOk, parse) == Touch(Actuate(st, RelayOf(ip).value, plcOk), ip, now)
  {
    RegisteredRelaysNonEmpty(ip);
  }

  /**
   * Whatever an unknown sender sends, the only change is its own `last_seen`
   * entry: no actuation, no count, no telemetry.
   */
  lemma DispatchUnknownSender(st: Store, ip: string, raw: string, now: int, plcOk: bool, parse: Parser)
    requires RelayOf(ip).None?
    ensures Dispatch(st, ip, raw, now, plcOk, parse) ==
            if Strip(raw) == [] then st else st.(lastSeen := st.lastSeen[ip := now])
  {
  }

  /** Consistency concerns only the counters and the count log. */
  lemma InvOnlyConcernsCounts(st: Store, st': Store)
    requires Inv(st) && st'.resetCounts == st.resetCounts && st'.countsLog == st.countsLog
    ensures Inv(st')
  {
  }

  /** Every line keeps the store consistent. */
  lemma DispatchPreservesInv(st: Store, ip: string, raw: string, now: int, plcOk: bool, parse: Parser)
    requires Inv(st)
    ensures Inv(Dispatch(st, ip, raw, now, plcOk, parse))
  {
    var st' := Dispatch(st, ip, raw, now, plcOk, parse);
    if Classify(raw) == ResetRequest && RelayOf(ip).Some? {
      var relay := RelayOf(ip).value;
      RegisteredRelaysNonEmpty(ip);
      DispatchResetIsActuate(st, ip, raw, now, plcOk, parse);
      ActuatePreservesInv(st, relay, plcOk);
      InvOnlyConcernsCounts(Actuate(st, relay, plcOk), st');
    } else {
      assert st'.resetCounts == st.resetCounts && st'.countsLog == st.countsLog;
      InvOnlyConcernsCounts(st, st');
    }
  }

  /**
   * The lines of one received chunk, handled in order: line `k` is decoded with
   * `decode`, arrives at `clock(k)` and, if it actuates, gets outcome `plc(k)`.
   * This is the state after the first `n` of them.
   */
  function DispatchLines(st: Store, ip: string, lines: seq<seq<Byte>>, n: nat, decode: seq<Byte> -> string,
                         parse: Parser, clock: nat -> int, plc: nat -> bool): (st': Store)
    requires n <= |lines|
    ensures forall r :: Count(st.resetCounts, r) <= Count(st'.resetCounts, r)
  {
    if n == 0 then st
    else Dispatch(DispatchLines(st, ip, lines, n - 1, decode, parse, clock, plc),
                  ip, decode(lines[n - 1]), clock(n - 1), plc(n - 1), parse)
  }

  /** Handling one more line of the chunk is one more `Dispatch`. */
  lemma DispatchLinesNext(st: Store, ip: string, lines: seq<seq<Byte>>, n: nat, decode: seq<Byte> -> string,
                          parse: Parser, clock: nat -> int, plc: nat -> bool)
    requires n < |lines|
    ensures DispatchLines(st, ip, lines, n + 1, decode, parse, clock, plc) ==
            Dispatch(DispatchLines(st, ip, lines, n, decode, parse, clock, plc), ip, decode(lines[n]), clock(n), plc(n), parse)
  {
  }

  // ---------------------------------------------------------------------------
  // One monitor tick

  /** A registered slave is due for a reset when it has been seen and its silence exceeds the timeout strictly. */
  predicate Due(lastSeen: map<string, int>, ip: string, now: int): (due: bool)
    ensures ip !in lastSeen ==> !due
    ensures ip in lastSeen ==> (due <==> now >= lastSeen[ip] + HeartbeatTimeout + 1)
  {
    ip in lastSeen && now - lastSeen[ip] > HeartbeatTimeout
  }

  /** The tick's handling of one registry entry `(ip, relay)`, with actuator outcome `ok`. */
  function TickEntry(st: Store, now: int, ip: string, relay: string, ok: bool): (st': Store)
    ensures !Due(st.lastSeen, ip, now) ==> st' == st
    ensures Due(st.lastSeen, ip, now) ==> st' == Actuate(st, relay, ok)
  {
    var last := if ip in st.lastSeen then Some(st.lastSeen[ip]) else None;
    match last
    case None => st
    case Some(t) => if now - t > HeartbeatTimeout then Actuate(st, relay, ok) else st
  }

  /** The state after the tick at `now` has handled the first `n` registry entries; entry `i` gets outcome `plc(i)`. */
  function TickPrefix(st: Store, now: int, plc: nat -> bool, n: nat): (st': Store)
    requires n <= |Registry|
    ensures st'.lastSeen == st.lastSeen && st.attempts <= st'.attempts
  {
    if n == 0 then st
    else TickEntry(TickPrefix(st, now, plc, n - 1), now, Registry[n - 1].0, Registry[n - 1].1, plc(n - 1))
  }

  /** One full tick of the monitor at `now`. */
  function TickSpec(st: Store, now: int, plc: nat -> bool): (st': Store)
    ensures st'.lastSeen == st.lastSeen && st.attempts <= st'.attempts
  {
    TickPrefix(st, now, plc, |Registry|)
  }

  /** The relays of the first `n` registry entries that are due at `now`, in registry order. */
  function DueRelays(lastSeen: map<string, int>, now: int, n: nat): seq<string>
    requires n <= |Registry|
  {
    if n == 0 then []
    else DueRelays(lastSeen, now, n - 1) + (if Due(lastSeen, Registry[n - 1].0, now) then [Registry[n - 1].1] else [])
  }

  /** How many times `x` occurs in `s`. */
  function Occurrences(s: seq<string>, x: string): nat {
    if s == [] then 0 else Occurrences(s[..|s| - 1], x) + (if s[|s| - 1] == x then 1 else 0)
  }

  /** How many of the first `n` registry entries with relay `relay` are due and actuate successfully. */
  function Successes(lastSeen: map<string, int>, now: int, plc: nat -> bool, n: nat, relay: string): nat
    requires n <= |Registry|
  {
    if n == 0 then 0
    else Successes(lastSeen, now, plc, n - 1, relay) +
         (if Due(lastSeen, Registry[n - 1].0, now) && plc(n - 1) && Registry[n - 1].1 == relay then 1 else 0)
  }

  /**
   * The counts-log lines the first `n` registry entries of a tick at `now` write:
   * for each entry that is due and whose actuation succeeds, in registry order,
   * its relay with the relay's count before the tick plus one.
   */
  function TickLog(st: Store, now: int, plc: nat -> bool, n: nat): seq<CountEntry>
    requires n <= |Registry|
  {
    if n == 0 then [] else TickLog(st, now, plc, n - 1) + EntryLog(st, now, plc, n - 1)
  }

  /** The counts-log line registry entry `i` contributes to a tick, if any. */
  function EntryLog(st: Store, now: int, plc: nat -> bool, i: nat): seq<CountEntry>
    requires i < |Registry|
  {
    var (ip, relay) := Registry[i];
    if Due(st.lastSeen, ip, now) && plc(i) then [CountEntry(relay, Count(st.resetCounts, relay) + 1)] else []
  }

  /**
   * What a (partial) tick does: it leaves `last_seen` and the telemetry alone,
   * attempts an actuation for each due entry in registry order and nothing else,
   * raises each counter by the number of its successful actuations, and appends
   * to the counts log one line per successful actuation, in registry order.
   */
  lemma TickPrefixEffect(st: Store, now: int, plc: nat -> bool, n: nat)
    requires n <= |Registry|
    ensures var t := TickPrefix(st, now, plc, n);
            && t.lastSeen == st.lastSeen
            && t.telemetry == st.telemetry
            && t.attempts == st.attempts + DueRelays(st.lastSeen, now, n)
            && (forall r :: Count(t.resetCounts, r) == Count(st.resetCounts, r) + Successes(st.lastSeen, now, plc, n, r))
            && t.countsLog == st.countsLog + TickLog(st, now, plc, n)
  {
    TickPrefixCounters(st, now, plc, n);
    TickPrefixLog(st, now, plc, n);
  }

  /** The liveness, telemetry, attempts and counters part of `TickPrefixEffect`. */
  lemma {:induction false} TickPrefixCounters(st: Store, now: int, plc: nat -> bool, n: nat)
    requires n <= |Registry|
    ensures var t := TickPrefix(st, now, plc, n);
            && t.lastSeen == st.lastSeen
            && t.telemetry == st.telemetry
            && t.attempts == st.attempts + DueRelays(st.lastSeen, now, n)
            && forall r :: Count(t.resetCounts, r) == Count(st.resetCounts, r) + Successes(st.lastSeen, now, plc, n, r)
  {
    if n > 0 {
      TickPrefixCounters(st, now, plc, n - 1);
    }
  }

  /** Before the tick reaches entry `n`, that entry's counter still has its value from before the tick. */
  lemma TickPrefixCountBefore(st: Store, now: int, plc: nat -> bool, n: nat)
    requires n < |Registry|
    ensures Count(TickPrefix(st, now, plc, n).resetCounts, Registry[n].1) == Count(st.resetCounts, Registry[n].1)
  {
    TickPrefixCounters(st, now, plc, n);
    SuccessesOfEntry(st.lastSeen, now, plc, n, n);
  }

  /** One entry's step of the tick appends at most the line for that entry's successful actuation. */
  lemma TickEntryLog(st: Store, st0: Store, now: int, plc: nat -> bool, n: nat)
    requires 0 < n <= |Registry| && st0.lastSeen == st.lastSeen
    requires Count(st0.resetCounts, Registry[n - 1].1) == Count(st.resetCounts, Registry[n - 1].1)
    ensures TickEntry(st0, now, Registry[n - 1].0, Registry[n - 1].1, plc(n - 1)).countsLog ==
            st0.countsLog + EntryLog(st, now, plc, n - 1)
  {
  }

  /** The counts-log part of `TickPrefixEffect`. */
  lemma {:induction false} TickPrefixLog(st: Store, now: int, plc: nat -> bool, n: nat)
    requires n <= |Registry|
    ensures TickPrefix(st, now, plc, n).countsLog == st.countsLog + TickLog(st, now, plc, n)
  {
    if n > 0 {
      var before := TickPrefix(st, now, plc, n - 1);
      TickPrefixLog(st, now, plc, n - 1);
      TickPrefixCountBefore(st, now, plc, n - 1);
      TickEntryLog(st, before, now, plc, n);
      assert st.countsLog + TickLog(st, now, plc, n) == st.countsLog + TickLog(st, now, plc, n - 1) + EntryLog(st, now, plc, n - 1);
    }
  }

  /** A tick only appends to the counts log. */
  lemma TickLogIsAppended(st: Store, now: int, plc: nat -> bool)
    ensures st.countsLog <= TickSpec(st, now, plc).countsLog
  {
    TickPrefixEffect(st, now, plc, |Registry|);
  }

  /** Registry entry `i` contributes to the due relays iff it is due; no other entry shares its relay. */
  lemma {:induction false} DueRelaysOccurrences(lastSeen: map<string, int>, now: int, n: nat, i: nat)
    requires n <= |Registry| && i < |Registry|
    ensures Occurrences(DueRelays(lastSeen, now, n), Registry[i].1) ==
            if i < n && Due(lastSeen, Registry[i].0, now) then 1 else 0
  {
    if n > 0 {
      DueRelaysOccurrences(lastSeen, now, n - 1, i);
      var s := DueRelays(lastSeen, now, n);
      var prev := DueRelays(lastSeen, now, n - 1);
      if n - 1 != i {
        DistinctRelays(n - 1, i);
      }
      if Due(lastSeen, Registry[n - 1].0, now) {
        assert s[..|s| - 1] == prev;
      } else {
        assert s == prev;
      }
    }
  }

  lemma {:induction false} SuccessesOfEntry(lastSeen: map<string, int>, now: int, plc: nat -> bool, n: nat, i: nat)
    requires n <= |Registry| && i < |Registry|
    ensures Successes(lastSeen, now, plc, n, Registry[i].1) ==
            if i < n && Due(lastSeen, Registry[i].0, now) && plc(i) then 1 else 0
  {
    if n > 0 {
      SuccessesOfEntry(lastSeen, now, plc, n - 1, i);
      if n - 1 != i {
        DistinctRelays(n - 1, i);
      }
    }
  }

  /**
   * The monitor's reset rule for registry entry `i = (ip, relay)`: the tick
   * attempts exactly one actuation of `relay` if `ip` has been seen and
   * `now - last > 180`, and none otherwise; the counter of `relay` rises by one
   * exactly when that attempt succeeds.
   */
  lemma TickResetRule(st: Store, now: int, plc: nat -> bool, i: nat)
    requires i < |Registry|
    ensures var t := TickSpec(st, now, plc);
            var (ip, relay) := Registry[i];
            && |t.attempts| >= |st.attempts|
            && Occurrences(t.attempts[|st.attempts|..], relay) == (if Due(st.lastSeen, ip, now) then 1 else 0)
            && Count(t.resetCounts, relay) == Count(st.resetCounts, relay) + (if Due(st.lastSeen, ip, now) && plc(i) then 1 else 0)
  {
    TickPrefixEffect(st, now, plc, |Registry|);
    var t := TickSpec(st, now, plc);
    assert t.attempts[|st.attempts|..] == DueRelays(st.lastSeen, now, |Registry|);
    DueRelaysOccurrences(st.lastSeen, now, |Registry|, i);
    SuccessesOfEntry(st.lastSeen, now, plc, |Registry|, i);
  }

  /** A slave that has never been seen is never reset by the monitor. */
  lemma TickSkipsNeverSeen(st: Store, now: int, plc: nat -> bool, i: nat)
    requires i < |Registry| && Registry[i].0 !in st.lastSeen
    ensures Registry[i].1 !in TickSpec(st, now, plc).attempts[|st.attempts|..]
  {
    TickResetRule(st, now, plc, i);
    var s := TickSpec(st, now, plc).attempts[|st.attempts|..];
    if Registry[i].1 in s {
      OccursWhenIn(s, Registry[i].1);
    }
  }

  lemma {:induction false} OccursWhenIn(s: seq<string>, x: string)
    requires x in s
    ensures Occurrences(s, x) > 0
  {
    if s[|s| - 1] != x {
      assert x in s[..|s| - 1];
      OccursWhenIn(s[..|s| - 1], x);
    }
  }

  /** The timeout comparison is strict: 180 seconds of silence do not fire, 181 do. */
  lemma TickTimeoutIsStrict(st: Store, last: int, plc: nat -> bool, i: nat)
    requires i < |Registry| && Registry[i].0 in st.lastSeen && st.lastSeen[Registry[i].0] == last
    ensures Occurrences(TickSpec(st, last + 180, plc).attempts[|st.attempts|..], Registry[i].1) == 0
    ensures Occurrences(TickSpec(st, last + 181, plc).attempts[|st.attempts|..], Registry[i].1) == 1
  {
    TickResetRule(st, last + 180, plc, i);
    TickResetRule(st, last + 181, plc, i);
  }

  /**
   * The tick does not refresh `last_seen` after an actuation, so a slave that
   * stays silent is due again, and actuated again, on every later tick.
   */
  lemma TickRefiresStale(st: Store, now: int, later: int, plc: nat -> bool, plc': nat -> bool, i: nat)
    requires i < |Registry| && Due(st.lastSeen, Registry[i].0, now) && now <= later
    ensures var t := TickSpec(st, now, plc);
            Occurrences(TickSpec(t, later, plc').attempts[|t.attempts|..], Registry[i].1) == 1
  {
    TickPrefixEffect(st, now, plc, |Registry|);
    TickResetRule(TickSpec(st, now, plc), later, plc', i);
  }

  /** A tick never lowers a counter. */
  lemma TickMonotone(st: Store, now: int, plc: nat -> bool, relay: string)
    ensures Count(st.resetCounts, relay) <= Count(TickSpec(st, now, plc).resetCounts, relay)
  {
    TickPrefixEffect(st, now, plc, |Registry|);
  }

  lemma {:induction false} TickPrefixPreservesInv(st: Store, now: int, plc: nat -> bool, n: nat)
    requires n <= |Registry| && Inv(st)
    ensures Inv(TickPrefix(st, now, plc, n))
  {
    if n > 0 {
      var prev := TickPrefix(st, now, plc, n - 1);
      TickPrefixPreservesInv(st, now, plc, n - 1);
      var (ip, relay) := Registry[n - 1];
      if Due(prev.lastSeen, ip, now) {
        ActuatePreservesInv(prev, relay, plc(n - 1));
      }
    }
  }
}
