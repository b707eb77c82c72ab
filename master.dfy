/**
 * The master's imperative engine. `Master` holds the module-level state of the
 * source (`last_seen`, `reset_counts`) together with the logs it appends to;
 * `Step` is the per-line body of `handle_client`, `Tick` one pass of
 * `monitor_loop`. `Connection` is one client connection: its byte buffer and the
 * receive loop that frames lines off it. Every method is proved to produce the
 * state described by the functions of module Liveness, and to keep `Inv`.
 */
module ResetMaster {
  import opened Wrappers
  import opened Text
  import opened Config
  import opened Framing
  import opened Liveness

  class Master {
    var lastSeen: map<string, int>
    var resetCounts: map<string, nat>
    var countsLog: seq<CountEntry>
    var telemetry: seq<TelemetryRecord>
    var attempts: seq<string>

    /** The master's state as a value. */
    function State(): Store
      reads this
    {
      Store(lastSeen, resetCounts, countsLog, telemetry, attempts)
    }

    ghost predicate Valid()
      reads this
    {
      Inv(State())
    }

    /** Start-up: `last_seen = {}` and `reset_counts = {relay: 0 for relay in SLAVE_TO_RELAY.values()}`. */
    constructor ()
      ensures State() == Init()
      ensures Valid()
    {
      lastSeen := map[];
      resetCounts := map r | r in Relays() :: 0;
      countsLog := [];
      telemetry := [];
      attempts := [];
      InitInv();
    }

    /**
     * A call of the actuator for `relay` that reports `plcOk`, and on success the
     * increment of the relay's counter and the append of its new value to the count log.
     */
    method ResetRelay(relay: string, plcOk: bool) returns (ok: bool)
      requires Valid() && relay in Relays()
      modifies this
      ensures Valid()
      ensures ok == plcOk
      ensures State() == Actuate(old(State()), relay, plcOk)
    {
      ghost var after := Actuate(State(), relay, plcOk);
      ActuatePreservesInv(State(), relay, plcOk);
      attempts := attempts + [relay];
      ok := plcOk;
      if ok {
        resetCounts := resetCounts[relay := Count(resetCounts, relay) + 1];
        countsLog := countsLog + [CountEntry(relay, resetCounts[relay])];
      }
      assert State() == after;
    }

    /** `handle_smart_message`: an unknown sender is ignored, a registered one gets a telemetry record. */
    method HandleSmart(ip: string, obj: Json, now: int)
      requires Valid()
      modifies this
      ensures Valid()
      ensures State() == RecordTelemetry(old(State()), ip, obj, now)
    {
      InvOnlyConcernsCounts(State(), RecordTelemetry(State(), ip, obj, now));
      var relay := RelayOf(ip);
      if relay.None? {
        return;
      }
      var rec := TelemetryRecord(now, ip, relay.value, Count(resetCounts, relay.value), obj);
      telemetry := telemetry + [rec];
    }

    /**
     * One line from `ip`, already decoded as `raw`, received at `now`; `plcOk` is
     * what the actuator reports if the line makes it send a reset.
     */
    method Step(ip: string, raw: string, now: int, plcOk: bool, parse: Parser)
      requires Valid()
      modifies this
      ensures Valid()
      ensures State() == Dispatch(old(State()), ip, raw, now, plcOk, parse)
    {
      DispatchPreservesInv(State(), ip, raw, now, plcOk, parse);
      var line := Strip(raw);
      if line == [] {
        return;
      }
      if StartsWith(line, "SMART ") {
        var jsonPart := line[|"SMART "|..];
        match parse(jsonPart) {
          case Some(obj) => HandleSmart(ip, obj, now);
          case None =>
        }
        lastSeen := lastSeen[ip := now];
      } else if StartsWith(line, "RESET") {
        var relay := RelayOf(ip);
        if relay.Some? && relay.value != "" {
          RegisteredRelaysNonEmpty(ip);
          var _ := ResetRelay(relay.value, plcOk);
        }
        lastSeen := lastSeen[ip := now];
      } else {
        lastSeen := lastSeen[ip := now];
      }
    }

    /**
     * One pass of the monitor at `now` over the registry, in order; `plc(i)` is
     * what the actuator reports if registry entry `i` is reset.
     */
    method Tick(now: int, plc: nat -> bool)
      requires Valid()
      modifies this
      ensures Valid()
      ensures State() == TickSpec(old(State()), now, plc)
    {
      for i := 0 to |Registry|
        invariant State() == TickPrefix(old(State()), now, plc, i)
      {
        TickPrefixPreservesInv(old(State()), now, plc, i);
        ghost var before := State();
        var (ip, relay) := Registry[i];
        if ip !in lastSeen {
          continue;
        }
        var last := lastSeen[ip];
        if now - last > HeartbeatTimeout {
          var _ := ResetRelay(relay, plc(i));
        }
        assert State() == TickEntry(before, now, ip, relay, plc(i));
      }
      TickPrefixPreservesInv(old(State()), now, plc, |Registry|);
    }
  }

  /** One accepted connection from `ip`: the bytes received but not yet terminated by `\n`. */
  class Connection {
    const ip: string
    const master: Master
    var buffer: seq<Byte>
    var open: bool

    constructor (ip: string, master: Master)
      ensures this.ip == ip && this.master == master
      ensures buffer == [] && open
    {
      this.ip := ip;
      this.master := master;
      buffer := [];
      open := true;
    }

    /**
     * One `conn.recv` that returned `data`. An empty chunk means the peer closed
     * the connection. Otherwise the chunk is appended to the buffer and every
     * complete line is split off and handled in order: line `k` of this chunk is
     * decoded with `decode`, stamped `clock(k)` and, if it resets, gets `plc(k)`.
     */
    method Receive(data: seq<Byte>, decode: seq<Byte> -> string, parse: Parser,
                   clock: nat -> int, plc: nat -> bool)
      requires open && master.Valid()
      modifies this, master
      ensures master.Valid()
      ensures data == [] ==> !open && buffer == old(buffer) && master.State() == old(master.State())
      ensures data != [] ==>
                && open
                && buffer == Frames(old(buffer) + data).1
                && master.State() == DispatchLines(old(master.State()), ip, Frames(old(buffer) + data).0,
                                                   |Frames(old(buffer) + data).0|, decode, parse, clock, plc)
    {
      if data == [] {
        open := false;
        return;
      }
      buffer := buffer + data;
      ghost var lines := Frames(buffer).0;
      ghost var remainder := Frames(buffer).1;
      var k := 0;
      while NL in buffer
        invariant open && k <= |lines|
        invariant Frames(buffer) == (lines[k..], remainder)
        invariant master.Valid()
        invariant master.State() == DispatchLines(old(master.State()), ip, lines, k, decode, parse, clock, plc)
        decreases |buffer|
      {
        FramesAdvance(buffer, lines, k, remainder);
        var (lineBytes, rest) := SplitFirst(buffer);
        buffer := rest;
        master.Step(ip, decode(lineBytes), clock(k), plc(k), parse);
        DispatchLinesNext(old(master.State()), ip, lines, k, decode, parse, clock, plc);
        k := k + 1;
      }
      FramesExhausted(buffer, lines, k, remainder);
    }
  }
}
