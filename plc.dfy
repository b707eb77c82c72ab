/**
 * The command the reset actuator sends to the PLC: the template `RS {relay}\r\n`,
 * encoded as ASCII with non-ASCII characters dropped. The TCP exchange itself is
 * not modelled; its outcome is an input of the master's operations.
 */
module Plc {
  import opened Wrappers
  import opened Text
  import Config

  /** `PLC_CMD_TEMPLATE.format(relay=relay)`. */
  function Command(relay: string): (cmd: string)
    ensures |cmd| == |relay| + 5
    ensures StartsWith(cmd, "RS ")
    ensures cmd[3..3 + |relay|] == relay
    ensures cmd[|cmd| - 2..] == "\r\n"
  {
    "RS " + relay + "\r\n"
  }

  /** The relay named by a PLC command line, as the PLC reads it. */
  function CommandRelay(cmd: string): (r: Option<string>)
    ensures r.Some? ==> |r.value| + 5 == |cmd|
  {
    if |cmd| >= 5 && cmd[..3] == "RS " && cmd[|cmd| - 2..] == "\r\n" then Some(cmd[3..|cmd| - 2])
    else None
  }

  /** The PLC reads back exactly the relay the command was built for. */
  lemma CommandRoundTrip(relay: string)
    ensures CommandRelay(Command(relay)) == Some(relay)
  {
    var cmd := Command(relay);
    assert cmd[..3] == "RS ";
    assert cmd[3..|cmd| - 2] == relay;
  }

  /** Different relays get different commands. */
  lemma CommandInjective(r1: string, r2: string)
    requires Command(r1) == Command(r2)
    ensures r1 == r2
  {
    CommandRoundTrip(r1);
    CommandRoundTrip(r2);
  }

  predicate IsAscii(s: string) {
    forall k :: 0 <= k < |s| ==> s[k] as int < 0x80
  }

  /** `s.encode("ascii", "ignore")`: the code of every ASCII character of `s`, in order; others are dropped. */
  function EncodeAsciiIgnore(s: string): (b: seq<Byte>)
    ensures |b| <= |s|
    ensures forall k :: 0 <= k < |b| ==> b[k] < 0x80
    ensures IsAscii(s) ==> |b| == |s| && forall k :: 0 <= k < |s| ==> b[k] as int == s[k] as int
  {
    if s == [] then []
    else
      var rest := EncodeAsciiIgnore(s[1..]);
      if s[0] as int < 0x80 then [s[0] as int as Byte] + rest else rest
  }

  /** One character: its code if it is ASCII, nothing otherwise. */
  lemma EncodeAsciiIgnoreChar(c: char)
    ensures EncodeAsciiIgnore([c]) == if c as int < 0x80 then [c as int as Byte] else []
  {
    assert [c][1..] == [];
  }

  /** Encoding works character by character: the bytes of a concatenation are the concatenation of the bytes. */
  lemma {:induction false} EncodeAsciiIgnoreAppend(s: string, t: string)
    ensures EncodeAsciiIgnore(s + t) == EncodeAsciiIgnore(s) + EncodeAsciiIgnore(t)
  {
    if s == [] {
      assert s + t == t;
    } else {
      assert (s + t)[0] == s[0];
      assert (s + t)[1..] == s[1..] + t;
      EncodeAsciiIgnoreAppend(s[1..], t);
    }
  }

  /** ASCII bytes read back as characters. */
  function DecodeAscii(b: seq<Byte>): (s: string)
    ensures |s| == |b|
    ensures forall k :: 0 <= k < |b| ==> s[k] as int == b[k] as int
  {
    seq(|b|, k requires 0 <= k < |b| => b[k] as int as char)
  }

  /** The bytes `send_plc_reset` puts on the wire for `relay`. */
  function CommandBytes(relay: string): (b: seq<Byte>)
    ensures |b| <= |relay| + 5
  {
    EncodeAsciiIgnore(Command(relay))
  }

  /** For an ASCII relay name nothing is dropped: the wire bytes spell the command exactly. */
  lemma CommandBytesExact(relay: string)
    requires IsAscii(relay)
    ensures DecodeAscii(CommandBytes(relay)) == Command(relay)
  {
    var cmd := Command(relay);
    assert IsAscii(cmd) by {
      forall k | 0 <= k < |cmd| ensures cmd[k] as int < 0x80 {
        if 3 <= k < 3 + |relay| { assert cmd[k] == relay[k - 3]; }
      }
    }
  }

  /** Every registered relay is ASCII, so the PLC receives exactly `RS <relay>\r\n` for it. */
  lemma RegisteredCommandsExact(i: nat)
    requires i < |Config.Registry|
    ensures DecodeAscii(CommandBytes(Config.Registry[i].1)) == Command(Config.Registry[i].1)
  {
    CommandBytesExact(Config.Registry[i].1);
  }
}
