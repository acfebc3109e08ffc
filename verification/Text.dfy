/** The standard Option type. */
module Wrappers {
  datatype Option<+T> = None | Some(value: T)
}

/**
 The string operations the parsers and printers share, with JavaScript's meaning:
 `indexOf`, `split` and `join` with a non-empty separator, `trim`, and decimal numerals.
 */
module Text {

  /** `sub` occurs in `s` at position `i`. */
  predicate At(s: string, i: int, sub: string) {
    0 <= i && i + |sub| <= |s| && s[i..i + |sub|] == sub
  }

  /** `s.indexOf(sub)`: the first place where `sub` occurs, or -1. */
  function IndexOf(s: string, sub: string): (r: int)
    requires sub != []
    ensures r == -1 || At(s, r, sub)
    ensures forall i :: At(s, i, sub) ==> 0 <= r <= i
  {
    if |s| < |sub| then -1
    else if s[..|sub|] == sub then 0
    else
      var r := IndexOf(s[1..], sub);
      assert forall i :: At(s, i, sub) ==> 1 <= i && At(s[1..], i - 1, sub) by { AtTail(s, sub); }
      if r < 0 then -1 else assert At(s, r + 1, sub) by { AtTail(s, sub); } r + 1
  }

  lemma AtTail(s: string, sub: string)
    requires s != []
    ensures forall i {:trigger At(s, i, sub)} :: 1 <= i ==> At(s, i, sub) == At(s[1..], i - 1, sub)
  {
    forall i {:trigger At(s, i, sub)} | 1 <= i ensures At(s, i, sub) == At(s[1..], i - 1, sub) {
      if i + |sub| <= |s| {
        assert s[i..i + |sub|] == s[1..][i - 1..i - 1 + |sub|];
      }
    }
  }

  /** `s.includes(sub)`. */
  predicate Includes(s: string, sub: string)
    requires sub != []
  {
    IndexOf(s, sub) >= 0
  }

  /** `s.split(sep)`: cut at the leftmost, non-overlapping occurrences of `sep`. */
  function Split(s: string, sep: string): (parts: seq<string>)
    requires sep != []
    ensures parts != []
    decreases |s|
  {
    var i := IndexOf(s, sep);
    if i < 0 then [s] else [s[..i]] + Split(s[i + |sep|..], sep)
  }

  /** `parts.join(sep)`. */
  function Join(parts: seq<string>, sep: string): string {
    if |parts| == 0 then ""
    else if |parts| == 1 then parts[0]
    else parts[0] + sep + Join(parts[1..], sep)
  }

  /** No `sep` starts inside `a` when `sep` follows it, so `a` ends where it was meant to. */
  ghost predicate Clear(a: string, sep: string) {
    forall i :: At(a + sep, i, sep) ==> i >= |a|
  }

  lemma ClearOfChar(a: string, c: char)
    requires c !in a
    ensures Clear(a, [c])
  {
    forall i | At(a + [c], i, [c]) ensures i >= |a| {
      assert (a + [c])[i..i + 1][0] == (a + [c])[i];
    }
  }

  lemma IndexOfAfterClear(a: string, sep: string, rest: string)
    requires sep != [] && Clear(a, sep)
    ensures IndexOf(a + sep + rest, sep) == |a|
  {
    var s := a + sep + rest;
    assert At(s, |a|, sep);
    var r := IndexOf(s, sep);
    if r < |a| {
      assert s[r..r + |sep|] == (a + sep)[r..r + |sep|];
      assert At(a + sep, r, sep);
    }
  }

  lemma IndexOfInClear(a: string, sep: string)
    requires sep != [] && Clear(a, sep)
    ensures IndexOf(a, sep) == -1
  {
    var r := IndexOf(a, sep);
    if r >= 0 {
      assert (a + sep)[r..r + |sep|] == a[r..r + |sep|];
      assert At(a + sep, r, sep);
    }
  }

  lemma SplitStep(a: string, sep: string, rest: string)
    requires sep != [] && Clear(a, sep)
    ensures Split(a + sep + rest, sep) == [a] + Split(rest, sep)
  {
    IndexOfAfterClear(a, sep, rest);
    var s := a + sep + rest;
    assert s[..|a|] == a && s[|a| + |sep|..] == rest;
  }

  /** Splitting undoes joining when no part lets a separator start inside it. */
  lemma {:induction false} SplitJoin(parts: seq<string>, sep: string)
    requires sep != [] && parts != []
    requires forall p | p in parts :: Clear(p, sep)
    ensures Split(Join(parts, sep), sep) == parts
  {
    if |parts| == 1 {
      IndexOfInClear(parts[0], sep);
    } else {
      SplitStep(parts[0], sep, Join(parts[1..], sep));
      SplitJoin(parts[1..], sep);
    }
  }

  /** `s.lastIndexOf(c)`: the last place where `c` occurs, or -1. */
  function LastIndexOf<T(==)>(s: seq<T>, c: T): (r: int)
    ensures -1 <= r < |s|
    ensures r >= 0 ==> s[r] == c
    ensures forall j :: r < j < |s| ==> s[j] != c
  {
    if s == [] then -1
    else if s[|s| - 1] == c then |s| - 1
    else LastIndexOf(s[..|s| - 1], c)
  }

  /** Cut at the last separator: what follows it is free of the separator on both sides. */
  lemma CutLast(a: string, x: string, b: string, y: string, c: char)
    requires c !in x && c !in y && a + [c] + x == b + [c] + y
    ensures a == b && x == y
  {
    LastIndexOfCut(a, x, c);
    LastIndexOfCut(b, y, c);
    var s := a + [c] + x;
    assert a == s[..|a|] && x == s[|a| + 1..] && b == s[..|b|] && y == s[|b| + 1..];
  }

  lemma LastIndexOfCut(a: string, x: string, c: char)
    requires c !in x
    ensures LastIndexOf(a + [c] + x, c) == |a|
  {
    var s := a + [c] + x;
    LastIndexOfUnique(s, c, |a|);
  }

  lemma LastIndexOfUnique(s: string, c: char, r: nat)
    requires r < |s| && s[r] == c && forall j :: r < j < |s| ==> s[j] != c
    ensures LastIndexOf(s, c) == r
  {}

  /** Cut at the first separator. */
  lemma CutFirst(a: string, x: string, b: string, y: string, c: char)
    requires c !in a && c !in b && a + [c] + x == b + [c] + y
    ensures a == b && x == y
  {
    ClearOfChar(a, c);
    ClearOfChar(b, c);
    IndexOfAfterClear(a, [c], x);
    IndexOfAfterClear(b, [c], y);
    var s := a + [c] + x;
    assert a == s[..|a|] && x == s[|a| + 1..] && b == s[..|b|] && y == s[|b| + 1..];
  }

  /** `line.replace(/\r$/, "")`. */
  function StripCR(line: string): string {
    if line != "" && line[|line| - 1] == '\r' then line[..|line| - 1] else line
  }

  // ----- white space -----

  /** The characters JavaScript's `trim` and `\s` treat as white space or line ends. */
  predicate IsBlank(c: char) {
    var n := c as int;
    9 <= n <= 13 || n == 32 || n == 0xA0 || n == 0x1680 || 0x2000 <= n <= 0x200A
    || n == 0x2028 || n == 0x2029 || n == 0x202F || n == 0x205F || n == 0x3000 || n == 0xFEFF
  }

  function TrimStart(s: string): string {
    if s != [] && IsBlank(s[0]) then TrimStart(s[1..]) else s
  }

  function TrimEnd(s: string): string {
    if s != [] && IsBlank(s[|s| - 1]) then TrimEnd(s[..|s| - 1]) else s
  }

  function Trim(s: string): string {
    TrimEnd(TrimStart(s))
  }

  /** Neither the first nor the last character is blank. */
  predicate Tight(s: string) {
    s != [] ==> !IsBlank(s[0]) && !IsBlank(s[|s| - 1])
  }

  lemma TrimTight(s: string)
    requires Tight(s)
    ensures TrimStart(s) == s && TrimEnd(s) == s && Trim(s) == s
  {}

  // ----- decimal numerals -----

  predicate IsDigit(c: char) { '0' <= c <= '9' }

  function DigitChar(d: nat): (c: char)
    requires d < 10
    ensures IsDigit(c) && c as int == '0' as int + d
  {
    ('0' as int + d) as char
  }

  /** `String(n)` for a natural number. */
  function Decimal(n: nat): (s: string)
    ensures s != [] && forall c | c in s :: IsDigit(c)
  {
    if n < 10 then [DigitChar(n)] else Decimal(n / 10) + [DigitChar(n % 10)]
  }

  /** The number a run of digits denotes. */
  function DigitsValue(s: string): nat
    requires forall c | c in s :: IsDigit(c)
  {
    if s == [] then 0
    else
      assert IsDigit(s[|s| - 1]);
      DigitsValue(s[..|s| - 1]) * 10 + (s[|s| - 1] as int - '0' as int)
  }

  lemma {:induction false} DecimalValue(n: nat)
    ensures DigitsValue(Decimal(n)) == n
  {
    if n >= 10 {
      DecimalValue(n / 10);
      var s := Decimal(n);
      assert s[..|s| - 1] == Decimal(n / 10);
    } else {
      var s := Decimal(n);
      assert s[..|s| - 1] == [];
    }
  }

  lemma DecimalInjective(m: nat, n: nat)
    requires Decimal(m) == Decimal(n)
    ensures m == n
  {
    DecimalValue(m);
    DecimalValue(n);
  }
}
