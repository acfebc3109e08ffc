/** JSON strings (packages/shared/src/catalog-signing.ts), as sequences of UTF-16 code units. */
module JsonStrings {
  import opened Keys

  const QUOTE: Unit := 0x22
  const BACKSLASH: Unit := 0x5C
  const LOWER_U: Unit := 0x75

  predicate High(u: Unit) { 0xD800 <= u <= 0xDBFF }
  predicate Low(u: Unit) { 0xDC00 <= u <= 0xDFFF }

  function Hex(d: nat): Unit
    requires d < 16
  {
    if d < 10 then 0x30 + d else 0x57 + d
  }

  function UEscape(u: Unit): Str {
    [BACKSLASH, LOWER_U, Hex(u / 0x1000), Hex(u / 0x100 % 16), Hex(u / 0x10 % 16), Hex(u % 16)]
  }

  function EscapeUnit(u: Unit): Str {
    if u == QUOTE || u == BACKSLASH then [BACKSLASH, u]
    else if u == 8 then [BACKSLASH, 0x62]
    else if u == 9 then [BACKSLASH, 0x74]
    else if u == 10 then [BACKSLASH, 0x6E]
    else if u == 12 then [BACKSLASH, 0x66]
    else if u == 13 then [BACKSLASH, 0x72]
    else if u < 0x20 || High(u) || Low(u) then UEscape(u)
    else [u]
  }

  /** `JSON.stringify` of a string, without the quotes: a surrogate pair stays, a lone one is escaped. */
  function Escape(s: Str): Str
    decreases |s|
  {
    if s == [] then []
    else if |s| > 1 && High(s[0]) && Low(s[1]) then [s[0], s[1]] + Escape(s[2..])
    else EscapeUnit(s[0]) + Escape(s[1..])
  }

  function Quote(s: Str): Str { [QUOTE] + Escape(s) + [QUOTE] }

  datatype Read = Bad | Read(value: Str, rest: Str)

  function HexValue(u: Unit): int {
    if 0x30 <= u <= 0x39 then u - 0x30
    else if 0x61 <= u <= 0x66 then u - 0x57
    else if 0x41 <= u <= 0x46 then u - 0x37
    else -1
  }

  /** One escape of RFC 8259, section 7, after its backslash: the unit and how many units it took. */
  function Unescape(z: Str): (int, nat)
    requires z != []
  {
    var c := z[0];
    if c == QUOTE || c == BACKSLASH || c == 0x2F then (c, 1)
    else if c == 0x62 then (8, 1)
    else if c == 0x66 then (12, 1)
    else if c == 0x6E then (10, 1)
    else if c == 0x72 then (13, 1)
    else if c == 0x74 then (9, 1)
    else if c == LOWER_U && |z| >= 5
            && HexValue(z[1]) >= 0 && HexValue(z[2]) >= 0 && HexValue(z[3]) >= 0 && HexValue(z[4]) >= 0 then
      (HexValue(z[1]) * 0x1000 + HexValue(z[2]) * 0x100 + HexValue(z[3]) * 0x10 + HexValue(z[4]), 5)
    else (-1, 1)
  }

  lemma UnescapeRange(z: Str)
    requires z != []
    ensures -1 <= Unescape(z).0 < 0x1_0000 && 1 <= Unescape(z).1 <= |z|
  {}

  /** Read a JSON string body up to its closing quote, as section 7 of RFC 8259 defines it. */
  function ReadBody(z: Str): (r: Read)
    ensures r.Read? ==> |r.rest| < |z|
    decreases |z|
  {
    if z == [] || (z[0] < 0x20) then Bad
    else if z[0] == QUOTE then Read([], z[1..])
    else if z[0] == BACKSLASH then
      if |z| == 1 then Bad
      else
        UnescapeRange(z[1..]);
        var (u, n) := Unescape(z[1..]);
        if u < 0 then Bad
        else match ReadBody(z[1 + n..]) case Bad => Bad case Read(v, rest) => Read([u] + v, rest)
    else match ReadBody(z[1..]) case Bad => Bad case Read(v, rest) => Read([z[0]] + v, rest)
  }

  /** One escaped unit reads back as itself, whatever follows. */
  lemma EscapeUnitReads(u: Unit, tail: Str)
    ensures ReadBody(EscapeUnit(u) + tail)
         == match ReadBody(tail) case Bad => Bad case Read(v, rest) => Read([u] + v, rest)
  {
    var e := EscapeUnit(u);
    var z := e + tail;
    if e == [u] {
      assert z[0] == u && z[1..] == tail;
    } else if |e| == 2 {
      assert z[0] == BACKSLASH && z[1..][0] == e[1] && z[2..] == tail;
    } else {
      UEscapeReads(u, tail);
    }
  }

  lemma UEscapeReads(u: Unit, tail: Str)
    ensures ReadBody(UEscape(u) + tail)
         == match ReadBody(tail) case Bad => Bad case Read(v, rest) => Read([u] + v, rest)
  {
    var z := UEscape(u) + tail;
    assert z[0] == BACKSLASH;
    var y := z[1..];
    assert y[0] == LOWER_U && y[1] == Hex(u / 0x1000) && y[2] == Hex(u / 0x100 % 16)
        && y[3] == Hex(u / 0x10 % 16) && y[4] == Hex(u % 16);
    HexDigits(u);
    assert Unescape(y) == (u, 5);
    assert z[6..] == tail;
  }

  lemma HexDigits(u: Unit)
    ensures u == (u / 0x1000) * 0x1000 + (u / 0x100 % 16) * 0x100 + (u / 0x10 % 16) * 0x10 + u % 16
  {
    var a := u / 0x10;
    var b := u / 0x100;
    var c := u / 0x1000;
    assert u == a * 0x10 + u % 16;
    assert a == b * 0x10 + a % 16;
    assert b == c * 0x10 + b % 16;
  }

  lemma PairReads(h: Unit, l: Unit, z: Str, v: Str, rest: Str)
    requires High(h) && Low(l) && ReadBody(z) == Read(v, rest)
    ensures ReadBody([h, l] + z) == Read([h, l] + v, rest)
  {
    var y := [h, l] + z;
    assert y[0] == h && y[1..] == [l] + z && ([l] + z)[1..] == z;
    assert ReadBody([l] + z) == Read([l] + v, rest);
    assert [h] + ([l] + v) == [h, l] + v;
  }

  /** A string reads back from its escaped form, and the reader stops at the closing quote. */
  lemma {:induction false} EscapeReads(s: Str, tail: Str)
    ensures ReadBody(Escape(s) + [QUOTE] + tail) == Read(s, tail)
    decreases |s|
  {
    if s == [] {
      assert Escape(s) + [QUOTE] + tail == [QUOTE] + tail;
      assert ([QUOTE] + tail)[1..] == tail;
    } else if |s| > 1 && High(s[0]) && Low(s[1]) {
      EscapeReads(s[2..], tail);
      PairReads(s[0], s[1], Escape(s[2..]) + [QUOTE] + tail, s[2..], tail);
      assert Escape(s) == [s[0], s[1]] + Escape(s[2..]);
      Regroup([s[0], s[1]], Escape(s[2..]), [QUOTE], tail);
      assert s == [s[0], s[1]] + s[2..];
    } else {
      EscapeReads(s[1..], tail);
      EscapeUnitReads(s[0], Escape(s[1..]) + [QUOTE] + tail);
      assert Escape(s) == EscapeUnit(s[0]) + Escape(s[1..]);
      Regroup(EscapeUnit(s[0]), Escape(s[1..]), [QUOTE], tail);
      assert s == [s[0]] + s[1..];
    }
  }

  lemma Regroup(a: Str, b: Str, c: Str, d: Str)
    ensures (a + b) + c + d == a + (b + c + d)
  {}
}
