/**
 * The line framer of the connection handler: received chunks are appended to a
 * byte buffer and complete `\n`-terminated lines are split off its front, one at
 * a time, with `buffer.split(b"\n", 1)`. `Frames` is the result of splitting
 * until no terminator is left; the lemmas say the split loses nothing, is the
 * only such decomposition, and does not depend on how the stream was chunked.
 */
module Framing {
  import opened Text

  /** Position of the first terminator in `s`. */
  function IndexOfNewline(s: seq<Byte>): (i: nat)
    requires NL in s
    ensures i < |s| && s[i] == NL && NL !in s[..i]
  {
    if s[0] == NL then 0
    else
      var j := IndexOfNewline(s[1..]);
      assert s[..j + 1] == [s[0]] + s[1..][..j];
      1 + j
  }

  /** The byte stream made of `lines`, each followed by its terminator. */
  function Join(lines: seq<seq<Byte>>): seq<Byte> {
    if lines == [] then [] else lines[0] + [NL] + Join(lines[1..])
  }

  predicate NoNewlines(lines: seq<seq<Byte>>) {
    forall k :: 0 <= k < |lines| ==> NL !in lines[k]
  }

  /** `buffer.split(b"\n", 1)` for a buffer that holds a terminator: the first line and what follows it. */
  function SplitFirst(s: seq<Byte>): (p: (seq<Byte>, seq<Byte>))
    requires NL in s
    ensures NL !in p.0
    ensures p.0 + [NL] + p.1 == s
  {
    var i := IndexOfNewline(s);
    assert s == s[..i] + [NL] + s[i + 1..];
    (s[..i], s[i + 1..])
  }

  lemma JoinCons(line: seq<Byte>, lines: seq<seq<Byte>>)
    ensures Join([line] + lines) == line + [NL] + Join(lines)
  {
    assert ([line] + lines)[1..] == lines;
  }

  lemma NoNewlinesAppend(a: seq<seq<Byte>>, b: seq<seq<Byte>>)
    requires NoNewlines(a) && NoNewlines(b)
    ensures NoNewlines(a + b)
  {
    forall k | 0 <= k < |a + b| ensures NL !in (a + b)[k] {
      if k < |a| { assert (a + b)[k] == a[k]; } else { assert (a + b)[k] == b[k - |a|]; }
    }
  }

  /** The complete lines of `s`, in order, and the unterminated remainder left in the buffer. */
  function Frames(s: seq<Byte>): (r: (seq<seq<Byte>>, seq<Byte>))
    ensures NL !in r.1 && |r.1| <= |s|
    decreases |s|
  {
    if NL !in s then ([], s)
    else
      var split := SplitFirst(s);
      var rest := Frames(split.1);
      ([split.0] + rest.0, rest.1)
  }

  /**
   * Where the framer stands after `k` of the lines of a stream: while the buffer
   * still holds a terminator, the next split yields line `k` and leaves the rest
   * framed as the lines after it.
   */
  lemma FramesAdvance(buffer: seq<Byte>, lines: seq<seq<Byte>>, k: nat, remainder: seq<Byte>)
    requires k <= |lines| && Frames(buffer) == (lines[k..], remainder) && NL in buffer
    ensures k < |lines| && SplitFirst(buffer).0 == lines[k]
    ensures Frames(SplitFirst(buffer).1) == (lines[k + 1..], remainder)
  {
    var split := SplitFirst(buffer);
    assert lines[k..] == [split.0] + Frames(split.1).0;
    assert lines[k..][1..] == lines[k + 1..];
  }

  /** Once the buffer holds no terminator, every line has been split off and the buffer is the remainder. */
  lemma FramesExhausted(buffer: seq<Byte>, lines: seq<seq<Byte>>, k: nat, remainder: seq<Byte>)
    requires k <= |lines| && Frames(buffer) == (lines[k..], remainder) && NL !in buffer
    ensures k == |lines| && buffer == remainder
  {
  }

  /**
   * Framing loses nothing: the lines, each followed by its terminator, and then
   * the remainder give back the input; neither a line nor the remainder holds a terminator.
   */
  lemma {:induction false} FramesSound(s: seq<Byte>)
    ensures NoNewlines(Frames(s).0) && NL !in Frames(s).1
    ensures Join(Frames(s).0) + Frames(s).1 == s
    decreases |s|
  {
    if NL in s {
      var split := SplitFirst(s);
      var rest := Frames(split.1);
      FramesSound(split.1);
      assert Frames(s) == ([split.0] + rest.0, rest.1);
      JoinCons(split.0, rest.0);
      NoNewlinesAppend([split.0], rest.0);
      calc {
        Join([split.0] + rest.0) + rest.1;
        split.0 + [NL] + (Join(rest.0) + rest.1);
        s;
      }
    }
  }

  lemma {:induction false} JoinAppend(a: seq<seq<Byte>>, b: seq<seq<Byte>>)
    ensures Join(a + b) == Join(a) + Join(b)
  {
    if a == [] {
      assert a + b == b;
    } else {
      assert (a + b)[1..] == a[1..] + b;
      JoinAppend(a[1..], b);
    }
  }

  /**
   * The decomposition is unique: any sequence of terminator-free lines followed
   * by a terminator-free remainder is exactly what the framer recovers.
   */
  lemma {:induction false} FramesUnique(lines: seq<seq<Byte>>, rest: seq<Byte>)
    requires NoNewlines(lines) && NL !in rest
    ensures Frames(Join(lines) + rest) == (lines, rest)
  {
    var s := Join(lines) + rest;
    if lines == [] {
      assert s == rest;
    } else {
      var l0 := lines[0];
      var tail := Join(lines[1..]) + rest;
      assert s == l0 + [NL] + tail;
      assert s[|l0|] == NL;
      var i := IndexOfNewline(s);
      assert i == |l0|;
      assert s[..i] == l0 && s[i + 1..] == tail;
      FramesUnique(lines[1..], rest);
      assert [l0] + lines[1..] == lines;
    }
  }

  /**
   * Chunk boundaries do not matter: framing `a` and then framing its remainder
   * followed by `b` yields the same lines and remainder as framing `a + b` at once.
   */
  lemma FramesChunked(a: seq<Byte>, b: seq<Byte>)
    ensures Frames(a + b) == (Frames(a).0 + Frames(Frames(a).1 + b).0, Frames(Frames(a).1 + b).1)
  {
    var first := Frames(a);
    var second := Frames(first.1 + b);
    var lines := first.0 + second.0;
    FramesSound(a);
    FramesSound(first.1 + b);
    ConcatJoin(first.0, first.1, second.0, second.1, b);
    NoNewlinesAppend(first.0, second.0);
    FramesUnique(lines, second.1);
  }

  lemma ConcatJoin(l1: seq<seq<Byte>>, r1: seq<Byte>, l2: seq<seq<Byte>>, r2: seq<Byte>, b: seq<Byte>)
    requires Join(l2) + r2 == r1 + b
    ensures Join(l1 + l2) + r2 == (Join(l1) + r1) + b
  {
    JoinAppend(l1, l2);
    calc {
      Join(l1 + l2) + r2;
      Join(l1) + Join(l2) + r2;
      Join(l1) + (Join(l2) + r2);
      Join(l1) + (r1 + b);
      (Join(l1) + r1) + b;
    }
  }
}
