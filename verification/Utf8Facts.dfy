/** The decoder against an encoder written from the table of UTF-8 forms (section 3 of RFC 3629). */
module Utf8Facts {
  import opened Utf8

  function EncodeChar(c: char): seq<Byte> {
    var n := c as int;
    if n < 0x80 then [n]
    else if n < 0x800 then [0xC0 + n / 0x40, 0x80 + n % 0x40]
    else if n < 0x1_0000 then [0xE0 + n / 0x1000, 0x80 + n / 0x40 % 0x40, 0x80 + n % 0x40]
    else [0xF0 + n / 0x4_0000, 0x80 + n / 0x1000 % 0x40, 0x80 + n / 0x40 % 0x40, 0x80 + n % 0x40]
  }

  function Encode(s: string): seq<Byte> {
    if s == "" then [] else EncodeChar(s[0]) + Encode(s[1..])
  }

  lemma WriteOne(s: State, b: Byte)
    ensures Write(s, [b]) == Step(s, b)
  {
    assert [b][1..] == [];
    assert Step(s, b).1 + "" == Step(s, b).1;
  }

  /** A byte that completes nothing, then the others. */
  lemma WriteSilent(s: State, b: Byte, rest: seq<Byte>)
    requires Step(s, b).1 == ""
    ensures Write(s, [b] + rest) == Write(Step(s, b).0, rest)
  {
    WriteCons(s, b, rest);
    assert "" + Write(Step(s, b).0, rest).1 == Write(Step(s, b).0, rest).1;
  }

  /** The last byte of a form. */
  lemma WriteLast(cp: nat, lo: nat, hi: nat, b: Byte, c: char)
    requires 0x80 <= lo <= b <= hi <= 0xBF && c as int == cp * 64 + (b - 0x80)
    ensures Write(Pending(cp, 1, lo, hi), [b]) == (Start, [c])
  {
    WriteOne(Pending(cp, 1, lo, hi), b);
    assert (b - 0x80) % 64 == b - 0x80;
  }

  /** A byte inside a form. */
  lemma WriteInner(cp: nat, need: nat, lo: nat, hi: nat, b: Byte, rest: seq<Byte>)
    requires need >= 2 && 0x80 <= lo <= b <= hi <= 0xBF
    ensures Write(Pending(cp, need, lo, hi), [b] + rest) == Write(Pending(cp * 64 + (b - 0x80), need - 1, 0x80, 0xBF), rest)
  {
    assert (b - 0x80) % 64 == b - 0x80;
    WriteSilent(Pending(cp, need, lo, hi), b, rest);
  }

  lemma CharReads(c: char)
    ensures Write(Start, EncodeChar(c)) == (Start, [c])
  {
    var n := c as int;
    if n < 0x80 {
      WriteOne(Start, n);
    } else if n < 0x800 {
      TwoRead(c);
    } else if n < 0x1_0000 {
      ThreeRead(c);
    } else {
      FourRead(c);
    }
  }

  lemma TwoRead(c: char)
    requires 0x80 <= c as int < 0x800
    ensures Write(Start, EncodeChar(c)) == (Start, [c])
  {
    var n := c as int;
    var a, b: Byte := 0xC0 + n / 0x40, 0x80 + n % 0x40;
    assert EncodeChar(c) == [a] + [b];
    WriteSilent(Start, a, [b]);
    WriteLast(n / 0x40, 0x80, 0xBF, b, c);
  }

  /** The byte of `n` that carries its lowest six bits above the first `6 * k`. */
  function Low(n: nat, k: nat): Byte
    requires k <= 2
  {
    0x80 + (if k == 0 then n else if k == 1 then n / 0x40 else n / 0x1000) % 0x40
  }

  lemma TwoLeft(c: char, n: nat, lo: nat, hi: nat)
    requires n == c as int && 0x80 <= lo <= Low(n, 1) <= hi <= 0xBF
    ensures Write(Pending(n / 0x1000, 2, lo, hi), [Low(n, 1)] + [Low(n, 0)]) == (Start, [c])
  {
    WriteInner(n / 0x1000, 2, lo, hi, Low(n, 1), [Low(n, 0)]);
    assert n / 0x1000 * 64 + n / 0x40 % 0x40 == n / 0x40;
    WriteLast(n / 0x40, 0x80, 0xBF, Low(n, 0), c);
  }

  lemma ThreeLeft(c: char, n: nat, lo: nat, hi: nat)
    requires n == c as int && 0x80 <= lo <= Low(n, 2) <= hi <= 0xBF
    ensures Write(Pending(n / 0x4_0000, 3, lo, hi), [Low(n, 2)] + ([Low(n, 1)] + [Low(n, 0)])) == (Start, [c])
  {
    WriteInner(n / 0x4_0000, 3, lo, hi, Low(n, 2), [Low(n, 1)] + [Low(n, 0)]);
    assert n / 0x4_0000 * 64 + n / 0x1000 % 0x40 == n / 0x1000;
    TwoLeft(c, n, 0x80, 0xBF);
  }

  lemma ThreeRead(c: char)
    requires 0x800 <= c as int < 0x1_0000
    ensures Write(Start, EncodeChar(c)) == (Start, [c])
  {
    var n := c as int;
    var a: Byte := 0xE0 + n / 0x1000;
    var lo, hi := if a == 0xE0 then 0xA0 else 0x80, if a == 0xED then 0x9F else 0xBF;
    assert EncodeChar(c) == [a] + ([Low(n, 1)] + [Low(n, 0)]);
    WriteSilent(Start, a, [Low(n, 1)] + [Low(n, 0)]);
    assert lo <= Low(n, 1) <= hi;
    TwoLeft(c, n, lo, hi);
  }

  lemma FourRead(c: char)
    requires c as int >= 0x1_0000
    ensures Write(Start, EncodeChar(c)) == (Start, [c])
  {
    var n := c as int;
    var a: Byte := 0xF0 + n / 0x4_0000;
    var lo, hi := if a == 0xF0 then 0x90 else 0x80, if a == 0xF4 then 0x8F else 0xBF;
    assert EncodeChar(c) == [a] + ([Low(n, 2)] + ([Low(n, 1)] + [Low(n, 0)]));
    WriteSilent(Start, a, [Low(n, 2)] + ([Low(n, 1)] + [Low(n, 0)]));
    assert lo <= Low(n, 2) <= hi;
    ThreeLeft(c, n, lo, hi);
  }

  lemma {:induction false} EncodedReads(s: string)
    ensures Write(Start, Encode(s)) == (Start, s)
  {
    if s != "" {
      CharReads(s[0]);
      EncodedReads(s[1..]);
      WriteAppend(Start, EncodeChar(s[0]), Encode(s[1..]));
      assert [s[0]] + s[1..] == s;
    }
  }

  /** Well-formed text reads back as itself, whatever scalar values it holds. */
  lemma DecodeEncoded(s: string)
    ensures Decode(Encode(s)) == s
  {
    EncodedReads(s);
    assert s + "" == s;
  }

  // ----- nothing else reads without a replacement character -----

  /** The bytes `pre` are the start of a form, and `s` waits for the rest of it. */
  ghost predicate Waits(s: State, pre: seq<Byte>) {
    match s
    case Start => pre == []
    case Pending(cp, need, lo, hi) =>
      || (need == 1 && lo == 0x80 && hi == 0xBF && 0x02 <= cp < 0x20 && pre == [0xC0 + cp])
      || (need == 2 && cp < 0x10 && pre == [0xE0 + cp]
          && lo == (if cp == 0 then 0xA0 else 0x80) && hi == if cp == 0xD then 0x9F else 0xBF)
      || (need == 3 && cp <= 4 && pre == [0xF0 + cp]
          && lo == (if cp == 0 then 0x90 else 0x80) && hi == if cp == 4 then 0x8F else 0xBF)
      || (need == 1 && lo == 0x80 && hi == 0xBF && 0x20 <= cp < 0x400 && !(0x360 <= cp < 0x380)
          && pre == [0xE0 + cp / 0x40, 0x80 + cp % 0x40])
      || (need == 2 && lo == 0x80 && hi == 0xBF && 0x10 <= cp < 0x110 && pre == [0xF0 + cp / 0x40, 0x80 + cp % 0x40])
      || (need == 1 && lo == 0x80 && hi == 0xBF && 0x400 <= cp < 0x4400
          && pre == [0xF0 + cp / 0x1000, 0x80 + cp / 0x40 % 0x40, 0x80 + cp % 0x40])
  }

  /** One more byte: the form goes on, or it is a character's, or a replacement comes out. */
  lemma StepWaits(s: State, pre: seq<Byte>, b: Byte)
    requires Waits(s, pre)
    ensures var (s', out) := Step(s, b);
      REPLACEMENT in out
      || (out == "" && Waits(s', pre + [b]))
      || (s'.Start? && |out| == 1 && EncodeChar(out[0]) == pre + [b])
  {
    match s
    case Start =>
      assert pre + [b] == [b];
    case Pending(cp, need, lo, hi) =>
      if lo <= b <= hi {
        var n := cp * 64 + (b - 0x80) % 64;
        assert (b - 0x80) % 64 == b - 0x80;
        assert n / 0x40 == cp && n % 0x40 == b - 0x80;
        if need == 1 { LastByte(cp, pre, b); } else { MiddleByte(s, pre, b); }
      } else {
        assert ([REPLACEMENT] + First(b).1)[0] == REPLACEMENT;
      }
  }

  lemma LastByte(cp: nat, pre: seq<Byte>, b: Byte)
    requires Waits(Pending(cp, 1, 0x80, 0xBF), pre) && 0x80 <= b <= 0xBF
    ensures var n := cp * 64 + (b - 0x80); Scalar(n) as int == n && EncodeChar(Scalar(n)) == pre + [b]
  {
    var n := cp * 64 + (b - 0x80);
    assert n / 0x40 == cp && n % 0x40 == b - 0x80;
    assert n / 0x1000 == cp / 0x40 && n / 0x4_0000 == cp / 0x1000;
  }

  lemma MiddleByte(s: State, pre: seq<Byte>, b: Byte)
    requires s.Pending? && s.need > 1 && Waits(s, pre) && s.lo <= b <= s.hi
    ensures Waits(Pending(s.cp * 64 + (b - 0x80), s.need - 1, 0x80, 0xBF), pre + [b])
  {
    var n := s.cp * 64 + (b - 0x80);
    assert n / 0x40 == s.cp && n % 0x40 == b - 0x80 && n / 0x1000 == s.cp / 0x40;
  }

  lemma {:induction false} WriteBack(s: State, pre: seq<Byte>, bytes: seq<Byte>)
    requires Waits(s, pre)
    requires REPLACEMENT !in Write(s, bytes).1 && Write(s, bytes).0.Start?
    ensures Encode(Write(s, bytes).1) == pre + bytes
    decreases |bytes|
  {
    if bytes == [] {
      assert pre + bytes == [];
    } else {
      var (s1, a) := Step(s, bytes[0]);
      var rest := Write(s1, bytes[1..]).1;
      NoneInParts(a, rest);
      StepWaits(s, pre, bytes[0]);
      Ahead(pre, bytes);
      if a == "" {
        WriteBack(s1, pre + [bytes[0]], bytes[1..]);
        assert a + rest == rest;
      } else {
        WriteBack(s1, [], bytes[1..]);
        EncodeCons(a, rest);
      }
    }
  }

  lemma Ahead(pre: seq<Byte>, bytes: seq<Byte>)
    requires bytes != []
    ensures (pre + [bytes[0]]) + bytes[1..] == pre + bytes && [] + bytes[1..] == bytes[1..]
  {}

  lemma NoneInParts(a: string, b: string)
    requires REPLACEMENT !in a + b
    ensures REPLACEMENT !in a && REPLACEMENT !in b
  {
    assert forall c | c in a :: c in a + b;
    assert forall c | c in b :: c in a + b;
  }

  lemma EncodeCons(a: string, rest: string)
    requires |a| == 1
    ensures Encode(a + rest) == EncodeChar(a[0]) + Encode(rest)
  {
    assert (a + rest)[1..] == rest;
  }

  lemma EndMarked(out: string, s: State)
    ensures s.Pending? ==> REPLACEMENT in out + End(s)
  {
    if s.Pending? { assert (out + End(s))[|out|] == REPLACEMENT; }
  }

  /** Bytes read as a text without a replacement character exactly when they are that text's encoding. */
  lemma DecodesExactly(bytes: seq<Byte>, s: string)
    requires REPLACEMENT !in s
    ensures Decode(bytes) == s <==> bytes == Encode(s)
  {
    if Decode(bytes) == s {
      var (s', out) := Write(Start, bytes);
      EndMarked(out, s');
      assert out + "" == out;
      WriteBack(Start, [], bytes);
    }
    DecodeEncoded(s);
  }
}
