/**
 UTF-8 decoding one byte at a time, as the Encoding Standard defines it: an ill-formed sequence
 becomes U+FFFD and the offending byte is read again from the start state.
 */
module Utf8 {
  type Byte = x: int | 0 <= x < 256
  const NL: Byte := 0x0A
  const REPLACEMENT: char := 0xFFFD as char

  /** Between bytes: nothing pending, or a prefix `cp` whose next byte must lie in `lo..hi`. */
  datatype State = Start | Pending(cp: nat, need: nat, lo: nat, hi: nat)

  /** The continuation ranges keep `cp` a scalar value; the default is never reached. */
  function Scalar(cp: nat): char {
    if cp < 0xD800 || 0xE000 <= cp < 0x11_0000 then cp as char else REPLACEMENT
  }

  function First(b: Byte): (State, string) {
    if b < 0x80 then (Start, [Scalar(b)])
    else if 0xC2 <= b <= 0xDF then (Pending(b - 0xC0, 1, 0x80, 0xBF), "")
    else if 0xE0 <= b <= 0xEF then
      (Pending(b - 0xE0, 2, if b == 0xE0 then 0xA0 else 0x80, if b == 0xED then 0x9F else 0xBF), "")
    else if 0xF0 <= b <= 0xF4 then
      (Pending(b - 0xF0, 3, if b == 0xF0 then 0x90 else 0x80, if b == 0xF4 then 0x8F else 0xBF), "")
    else (Start, [REPLACEMENT])
  }

  function Step(s: State, b: Byte): (State, string) {
    match s
    case Start => First(b)
    case Pending(cp, need, lo, hi) =>
      if b < lo || hi < b then
        var (s', out) := First(b);
        (s', [REPLACEMENT] + out)
      else
        var cp' := cp * 64 + (b - 0x80) % 64;
        if need <= 1 then (Start, [Scalar(cp')]) else (Pending(cp', need - 1, 0x80, 0xBF), "")
  }

  /** `decoder.write(bytes)`. */
  function Write(s: State, bytes: seq<Byte>): (State, string)
    decreases |bytes|
  {
    if bytes == [] then (s, "")
    else
      var (s1, a) := Step(s, bytes[0]);
      var (s2, b) := Write(s1, bytes[1..]);
      (s2, a + b)
  }

  /** `decoder.end()`. */
  function End(s: State): string {
    if s.Start? then "" else [REPLACEMENT]
  }

  /** `buffer.toString("utf8")`. */
  function Decode(bytes: seq<Byte>): string {
    var (s, out) := Write(Start, bytes);
    out + End(s)
  }

  /** Writing in pieces is writing at once: chunk boundaries do not show. */
  lemma {:induction false} WriteAppend(s: State, a: seq<Byte>, b: seq<Byte>)
    ensures var (s1, x) := Write(s, a);
            var (s2, y) := Write(s1, b);
            Write(s, a + b) == (s2, x + y)
    decreases |a|
  {
    if a == [] {
      assert a + b == b;
      assert "" + Write(s, b).1 == Write(s, b).1;
    } else {
      var (s0, out) := Step(s, a[0]);
      var (s1, x) := Write(s0, a[1..]);
      var (s2, y) := Write(s1, b);
      WriteAppend(s0, a[1..], b);
      assert [a[0]] + a[1..] == a;
      WriteCons(s, a[0], a[1..]);
      WriteCons(s, a[0], a[1..] + b);
      assert [a[0]] + (a[1..] + b) == a + b;
      Regroup(out, x, y);
    }
  }

  lemma WriteCons(s: State, b: Byte, rest: seq<Byte>)
    ensures var (s0, out) := Step(s, b);
            var (s1, x) := Write(s0, rest);
            Write(s, [b] + rest) == (s1, out + x)
  {
    assert ([b] + rest)[1..] == rest;
  }

  lemma Regroup(x: string, y: string, z: string)
    ensures x + (y + z) == (x + y) + z
  {}

  /** A pending sequence never accepts a byte below 0x80. */
  ghost predicate Sane(s: State) {
    s.Pending? ==> s.lo >= 0x80
  }

  lemma {:induction false} WriteSane(s: State, bytes: seq<Byte>)
    requires Sane(s)
    ensures Sane(Write(s, bytes).0)
    decreases |bytes|
  {
    if bytes != [] { WriteSane(Step(s, bytes[0]).0, bytes[1..]); }
  }

  /** A newline byte always ends in the start state, so text up to a newline decodes on its own. */
  lemma DecodeAtNewline(a: seq<Byte>, b: seq<Byte>)
    requires a == [] || a[|a| - 1] == NL
    ensures Decode(a + b) == Decode(a) + Decode(b)
    ensures a != [] ==> Decode(a) != "" && Decode(a)[|Decode(a)| - 1] == '\n'
  {
    WriteAppend(Start, a, b);
    if a != [] {
      var h := a[..|a| - 1];
      assert a == h + [NL];
      WriteAppend(Start, h, [NL]);
      WriteSane(Start, h);
      var s1 := Write(Start, h).0;
      assert Step(s1, NL).0 == Start;
      var (s2, out) := Step(s1, NL);
      assert [NL][1..] == [] && Write(s2, []) == (Start, "");
      assert Write(s1, [NL]) == (Start, out + "");
      assert out[|out| - 1] == '\n';
    }
  }
}
