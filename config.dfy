/**
 * The master's static configuration: the heartbeat timeout and the registry
 * that maps each slave's IP address to the PLC relay wired to its power.
 */
module Config {
  import opened Wrappers

  /** Seconds of silence after which the monitor resets a slave. */
  const HeartbeatTimeout: int := 180

  /** The slave-to-relay registry, in the dictionary's iteration order. */
  const Registry: seq<(string, string)> := [
    ("192.168.0.100", "R500"),
    ("192.168.0.101", "R501"),
    ("192.168.0.102", "R502"),
    ("192.168.0.103", "R503"),
    ("192.168.0.104", "R504"),
    ("192.168.0.105", "R505")
  ]

  /** No IP address and no relay occurs twice in the registry. */
  predicate DistinctEntries(reg: seq<(string, string)>) {
    forall i, j :: 0 <= i < j < |reg| ==> reg[i].0 != reg[j].0 && reg[i].1 != reg[j].1
  }

  lemma RegistryIsDistinct()
    ensures DistinctEntries(Registry)
  {
  }

  /** Two different registry entries name different relays. */
  lemma DistinctRelays(i: nat, j: nat)
    requires i < |Registry| && j < |Registry| && i != j
    ensures Registry[i].1 != Registry[j].1
  {
    RegistryIsDistinct();
  }

  /** The relays of the registry: the keys of the counter table. */
  function Relays(): (rs: set<string>)
    ensures forall i :: 0 <= i < |Registry| ==> Registry[i].1 in rs
    ensures forall r :: r in rs ==> exists i :: 0 <= i < |Registry| && Registry[i].1 == r
  {
    set i | 0 <= i < |Registry| :: Registry[i].1
  }

  /** Position of `ip` among the registry entries from `from` on, if it is there. */
  function IndexFrom(ip: string, from: nat): (r: Option<nat>)
    requires from <= |Registry|
    ensures r.Some? ==> from <= r.value < |Registry| && Registry[r.value].0 == ip
    ensures r.None? ==> forall i :: from <= i < |Registry| ==> Registry[i].0 != ip
    decreases |Registry| - from
  {
    if from == |Registry| then None
    else if Registry[from].0 == ip then Some(from)
    else IndexFrom(ip, from + 1)
  }

  /** `SLAVE_TO_RELAY.get(ip)`: the relay registered for `ip`, or nothing for an unknown sender. */
  function RelayOf(ip: string): (r: Option<string>)
    ensures r.Some? <==> exists i :: 0 <= i < |Registry| && Registry[i].0 == ip
    ensures forall i :: 0 <= i < |Registry| && Registry[i].0 == ip ==> r == Some(Registry[i].1)
  {
    RegistryIsDistinct();
    match IndexFrom(ip, 0)
    case None => None
    case Some(i) => Some(Registry[i].1)
  }

  /** Every registered relay has a non-empty name, so the source's `if relay:` test passes for it. */
  lemma RegisteredRelaysNonEmpty(ip: string)
    requires RelayOf(ip).Some?
    ensures RelayOf(ip).value != "" && RelayOf(ip).value in Relays()
  {
  }
}
