/** What the reader of a path column does to a text with one arrow: its brace groups, slashes and blanks. */
module GitBraces {
  import opened Text
  import opened GitLog

  predicate NoDouble(s: string) { forall i :: 0 <= i < |s| - 1 ==> !(s[i] == '/' && s[i + 1] == '/') }

  predicate ArrowAt(s: string, i: int) { 0 <= i < |s| - 1 && s[i] == '=' && s[i + 1] == '>' }

  ghost predicate Arrowless(s: string) { forall i :: !ArrowAt(s, i) }

  /** The opening brace at `i` is shut again in `s`. */
  ghost predicate Shut(s: string, i: nat) { exists j :: i < j < |s| && s[j] == '}' }

  /** Every opening brace is shut again. */
  ghost predicate Closed(s: string) { forall i: nat :: i < |s| && s[i] == '{' ==> Shut(s, i) }

  /** A part of a renamed path. */
  ghost predicate Part(s: string) { Arrowless(s) && NoDouble(s) }

  /** `was => now`. */
  function Arrow(was: string, now: string): string { was + " " + "=>" + (" " + now) }

  // ----- arrows -----

  lemma AtIsArrow(s: string, i: int)
    ensures At(s, i, "=>") == ArrowAt(s, i)
  {
    if 0 <= i && i + 2 <= |s| { assert s[i..i + 2] == [s[i], s[i + 1]]; }
  }

  /** `=>` is found at the first arrow there is. */
  lemma ArrowFound(s: string, i: int)
    requires ArrowAt(s, i) && forall j :: j < i ==> !ArrowAt(s, j)
    ensures Includes(s, "=>") && IndexOf(s, "=>") == i
  {
    AtIsArrow(s, i);
    AtIsArrow(s, IndexOf(s, "=>"));
  }

  lemma FirstArrow(a: string, b: string)
    requires a != "" && a[|a| - 1] == ' ' && Arrowless(a)
    ensures Includes(a + "=>" + b, "=>") && IndexOf(a + "=>" + b, "=>") == |a|
  {
    var t := a + "=>" + b;
    forall j | j < |a| ensures !ArrowAt(t, j) {
      if 0 <= j < |a| - 1 { assert !ArrowAt(a, j); }
    }
    ArrowFound(t, |a|);
  }

  lemma Spaced(s: string)
    requires Arrowless(s)
    ensures Arrowless(" " + s) && Arrowless(s + " ")
  {
    assert forall i :: ArrowAt(" " + s, i) ==> ArrowAt(s, i - 1);
    assert forall i :: ArrowAt(s + " ", i) ==> ArrowAt(s, i);
  }

  lemma ArrowlessPart(s: string, i: nat, j: nat)
    requires Arrowless(s) && i <= j <= |s|
    ensures Arrowless(s[i..j])
  {
    assert forall k :: ArrowAt(s[i..j], k) ==> ArrowAt(s, i + k);
  }

  lemma ArrowlessJoin(a: string, b: string)
    requires Arrowless(a) && Arrowless(b) && (b != "" ==> b[0] != '>')
    ensures Arrowless(a + b)
  {
    forall i ensures !ArrowAt(a + b, i) {
      if 0 <= i < |a| - 1 { assert !ArrowAt(a, i); }
      if |a| <= i { assert !ArrowAt(b, i - |a|); }
    }
  }

  lemma LastArrowNone(s: string)
    requires Arrowless(s)
    ensures LastArrow(s) == -1
  {
    AtIsArrow(s, LastArrow(s));
  }

  lemma {:induction false} LastArrowAt(a: string, b: string)
    requires Arrowless(b)
    ensures LastArrow(a + "=>" + b) == |a|
    decreases |b|
  {
    var s := a + "=>" + b;
    assert s[|s| - 2..] == [s[|s| - 2], s[|s| - 1]];
    if b == "" {
      assert s == a + "=>";
    } else {
      var n := |b| - 1;
      assert n >= 1 ==> !ArrowAt(b, n - 1);
      ArrowlessPart(b, 0, n);
      LastArrowAt(a, b[..n]);
      assert s[..|s| - 1] == a + "=>" + b[..n];
    }
  }

  lemma ArrowlessAfter(a: string, b: string)
    requires Arrowless(a) && Arrowless(b) && (a != "" ==> a[|a| - 1] != '=')
    ensures Arrowless(a + b)
  {
    forall i ensures !ArrowAt(a + b, i) {
      if 0 <= i < |a| - 1 { assert !ArrowAt(a, i); }
      if |a| <= i { assert !ArrowAt(b, i - |a|); }
    }
  }

  // ----- brace groups -----

  lemma CollapseStep(c: char, s: string)
    requires c != '{'
    ensures CollapseBraces([c] + s) == [c] + CollapseBraces(s)
  {
    assert ([c] + s)[1..] == s;
  }

  /** An opening brace whose group holds no arrow stays. */
  lemma CollapseInert(s: string)
    requires s != "" && s[0] == '{'
    requires IndexOf(s, "}") >= 1 ==> LastArrow(s[1..IndexOf(s, "}")]) < 0
    ensures CollapseBraces(s) == [s[0]] + CollapseBraces(s[1..])
  {}

  lemma BraceFound(s: string, j: nat)
    requires j < |s| && s[j] == '}' && s[0] == '{'
    ensures 1 <= IndexOf(s, "}") <= j && s[IndexOf(s, "}")] == '}'
  {
    assert s[j..j + 1] == "}";
    assert At(s, j, "}");
    var c := IndexOf(s, "}");
    assert s[c..c + 1] == "}";
    assert s[c..c + 1][0] == s[c];
  }

  /** A closed prefix without arrows is left alone, whatever follows. */
  lemma {:induction false} CollapsePrefix(p: string, z: string)
    requires Arrowless(p) && Closed(p)
    ensures CollapseBraces(p + z) == p + CollapseBraces(z)
    decreases |p|
  {
    if p == "" {
      assert p + z == z;
    } else {
      TailClosed(p);
      ArrowlessPart(p, 1, |p|);
      assert p[1..|p|] == p[1..];
      CollapsePrefix(p[1..], z);
      Regroup(p, z);
      Regroup(p, CollapseBraces(z));
      if p[0] == '{' {
        PrefixInert(p, z);
        assert (p + z)[1..] == p[1..] + z;
      } else {
        CollapseStep(p[0], p[1..] + z);
      }
    }
  }

  lemma PrefixInert(p: string, z: string)
    requires p != "" && p[0] == '{' && Arrowless(p) && Closed(p)
    ensures CollapseBraces(p + z) == [p[0]] + CollapseBraces((p + z)[1..])
  {
    var s := p + z;
    assert Shut(p, 0);
    var j :| 0 < j < |p| && p[j] == '}';
    assert s[j] == '}';
    BraceFound(s, j);
    var c := IndexOf(s, "}");
    assert s[1..c] == p[1..c];
    ArrowlessPart(p, 1, c);
    LastArrowNone(p[1..c]);
    CollapseInert(s);
  }

  lemma TailClosed(p: string)
    requires p != "" && Closed(p)
    ensures Closed(p[1..])
  {
    var t := p[1..];
    forall i: nat | i < |t| && t[i] == '{' ensures Shut(t, i) {
      assert p[i + 1] == '{';
      var j :| i + 1 < j < |p| && p[j] == '}';
      assert t[j - 1] == '}';
    }
  }

  lemma Regrouped(a: string, b: string, c: string)
    ensures a + (b + c) == (a + b) + c
  {}

  lemma Regroup(a: string, s: string)
    requires a != ""
    ensures a + s == [a[0]] + (a[1..] + s)
  {}

  lemma {:induction false} CollapseArrowless(s: string)
    requires Arrowless(s)
    ensures CollapseBraces(s) == s
    decreases |s|
  {
    if s != "" {
      ArrowlessPart(s, 1, |s|);
      assert s[1..|s|] == s[1..];
      CollapseArrowless(s[1..]);
      assert [s[0]] + s[1..] == s;
      if s[0] == '{' && IndexOf(s, "}") >= 1 {
        ArrowlessPart(s, 1, IndexOf(s, "}"));
        LastArrowNone(s[1..IndexOf(s, "}")]);
      }
    }
  }

  lemma CollapseHead(inner: string, rest: string)
    requires '}' !in inner && LastArrow(inner) >= 0
    ensures CollapseBraces("{" + inner + "}" + rest) == TrimStart(inner[LastArrow(inner) + 2..]) + CollapseBraces(rest)
  {
    var s := "{" + inner + "}" + rest;
    ClearOfChar("{" + inner, '}');
    IndexOfAfterClear("{" + inner, "}", rest);
    assert s[1..|inner| + 1] == inner && s[|inner| + 2..] == rest;
  }

  /** A group with the arrow gives way to what stands between the arrow and the first closing brace. */
  lemma CollapseOpen(y: string, w1: string, w2: string)
    requires '}' !in y && '}' !in w1 && Arrowless(w1) && Arrowless(w2) && (w1 != "" ==> !IsBlank(w1[0]))
    ensures CollapseBraces("{" + Arrow(y, w1) + "}" + w2) == w1 + w2
  {
    Spaced(w1);
    LastArrowAt(y + " ", " " + w1);
    NoneIn(y, w1, '}');
    CollapseHead(Arrow(y, w1), w2);
    assert Arrow(y, w1)[|y + " "| + 2..] == " " + w1;
    assert (" " + w1)[1..] == w1;
    CollapseArrowless(w2);
  }

  lemma {:induction false} NoClose(s: string)
    requires '}' !in s
    ensures CollapseBraces(s) == s
  {
    if s != "" {
      NoClose(s[1..]);
      ClearOfChar(s, '}');
      IndexOfInClear(s, "}");
      assert [s[0]] + s[1..] == s;
    }
  }

  lemma NoneIn(was: string, now: string, c: char)
    requires c !in was && c !in now && (c == '{' || c == '}')
    ensures c !in Arrow(was, now)
  {
    forall x | x in Arrow(was, now) ensures x != c {
      assert x in was || x == ' ' || x == '=' || x == '>' || x in now;
    }
  }

  /** The first brace that is opened and never shut. */
  lemma FindOpen(y: string) returns (k: nat)
    requires !Closed(y)
    ensures k < |y| && y[k] == '{' && Closed(y[..k]) && '}' !in y[k + 1..]
  {
    var q := LastIndexOf(y, '}');
    var i: nat :| i < |y| && y[i] == '{' && !Shut(y, i);
    assert q < 0 || (q < |y| && y[q] == '}');
    assert i > q;
    var tail := y[q + 1..];
    assert tail[i - q - 1] == '{';
    assert tail[i - q - 1..i - q] == "{";
    assert At(tail, i - q - 1, "{");
    var f := IndexOf(tail, "{");
    k := q + 1 + f;
    assert tail[f..f + 1] == "{";
    assert tail[f..f + 1][0] == tail[f];
    ClosedBefore(y, q, k);
  }

  lemma NotLate(y: string, k: nat)
    requires k < |y| && '}' !in y[k + 1..]
    ensures forall j :: k < j < |y| ==> y[j] != '}'
  {
    assert forall j :: k < j < |y| ==> y[j] == y[k + 1..][j - k - 1];
  }

  lemma ClosedBefore(y: string, q: int, k: nat)
    requires -1 <= q < k < |y| && (q >= 0 ==> y[q] == '}') && (forall j :: q < j < |y| ==> y[j] != '}')
    requires IndexOf(y[q + 1..], "{") == k - q - 1
    ensures Closed(y[..k]) && '}' !in y[k + 1..]
  {
    var h, tail := y[..k], y[q + 1..];
    FirstIs(tail, '{', k - q - 1);
    assert forall i :: q < i < k ==> h[i] == tail[i - q - 1];
    assert q >= 0 ==> h[q] == '}';
    assert forall i: nat :: i < |h| && h[i] == '{' && i < q ==> Shut(h, i);
  }

  /** The text around one arrow: nothing happens if what precedes is closed, else the open group gives way. */
  lemma CollapseAround(y: string, w1: string, w2: string) returns (k: nat)
    requires Arrowless(y) && Arrowless(w1) && Arrowless(w2) && '}' !in w1 && (w1 != "" ==> !IsBlank(w1[0]))
    requires Arrowless(w1 + "}" + w2)
    ensures k <= |y|
    ensures Closed(y) ==> CollapseBraces(Arrow(y, w1 + "}" + w2)) == Arrow(y, w1 + "}" + w2)
    ensures !Closed(y) ==>
      && k < |y| && y[k] == '{' && Closed(y[..k]) && '}' !in y[k + 1..]
      && CollapseBraces(Arrow(y, w1 + "}" + w2)) == y[..k] + (w1 + w2)
  {
    if Closed(y) {
      k := 0;
      ClosedAround(y, w1 + "}" + w2);
    } else {
      k := FindOpen(y);
      ArrowlessPart(y, 0, k);
      CutOut(y, k);
      OpenAround(y[..k], y[k + 1..], w1, w2);
    }
  }

  lemma CutOut(y: string, k: nat)
    requires k < |y| && y[k] == '{'
    ensures y == y[..k] + "{" + y[k + 1..] && y[0..k] == y[..k]
  {}

  lemma ClosedAround(y: string, w: string)
    requires Arrowless(y) && Arrowless(w) && Closed(y)
    ensures CollapseBraces(Arrow(y, w)) == Arrow(y, w)
  {
    CollapsePrefix(y, " " + "=>" + (" " + w));
    KeepSpace(w);
    Regrouped(y, " " + "=>", " " + w);
    Regrouped(y, " ", "=>");
  }

  lemma OpenAround(y1: string, y2: string, w1: string, w2: string)
    requires Arrowless(y1) && Closed(y1) && Arrowless(w1) && Arrowless(w2) && '}' !in y2 && '}' !in w1 && (w1 != "" ==> !IsBlank(w1[0]))
    ensures CollapseBraces(Arrow(y1 + "{" + y2, w1 + "}" + w2)) == y1 + (w1 + w2)
  {
    CollapsePrefix(y1, "{" + Arrow(y2, w1) + "}" + w2);
    CollapseOpen(y2, w1, w2);
    AroundOpen(y1, y2, w1, w2);
  }

  lemma AroundOpen(y1: string, y2: string, w1: string, w2: string)
    ensures Arrow(y1 + "{" + y2, w1 + "}" + w2) == y1 + ("{" + Arrow(y2, w1) + "}" + w2)
  {}

  lemma KeepSpace(w: string)
    requires Arrowless(w)
    ensures CollapseBraces(" " + "=>" + (" " + w)) == " " + "=>" + (" " + w)
  {
    CollapseArrowless(w);
    CollapseStep(' ', w);
    CollapseStep('>', " " + w);
    CollapseStep('=', ">" + (" " + w));
    CollapseStep(' ', "=" + (">" + (" " + w)));
    assert " " + "=>" + (" " + w) == " " + ("=" + (">" + (" " + w)));
  }

  // ----- the first closing brace -----

  /** A text cut at its first closing brace. */
  lemma CutAt(w: string) returns (w1: string, w2: string)
    requires '}' in w
    ensures w == w1 + "}" + w2 && '}' !in w1
  {
    var j :| 0 <= j < |w| && w[j] == '}';
    assert w[j..j + 1] == "}" && At(w, j, "}");
    var q := IndexOf(w, "}");
    assert w[q..q + 1] == "}" && w[q..q + 1][0] == w[q];
    FirstIs(w, '}', q);
    w1, w2 := w[..q], w[q + 1..];
  }

  lemma PiecesFit(w1: string, w2: string)
    requires Arrowless(w1 + "}" + w2) && NoDouble(w1 + "}" + w2)
    ensures Arrowless(w1) && Arrowless(w2) && NoDouble(w1) && NoDouble(w2)
  {
    var w := w1 + "}" + w2;
    assert w[0..|w1|] == w1 && w[|w1| + 1..|w|] == w2;
    ArrowlessPart(w, 0, |w1|);
    ArrowlessPart(w, |w1| + 1, |w|);
    NoDoublePart(w, 0, |w1|);
    NoDoublePart(w, |w1| + 1, |w|);
  }

  lemma NoDoublePart(s: string, i: nat, j: nat)
    requires NoDouble(s) && i <= j <= |s|
    ensures NoDouble(s[i..j])
  {}

  lemma FirstIs(w: string, c: char, q: nat)
    requires IndexOf(w, [c]) == q
    ensures forall k :: 0 <= k < q && k < |w| ==> w[k] != c
  {
    forall k | 0 <= k < q && k < |w| ensures w[k] != c {
      assert w[k..k + 1] == [w[k]];
      assert !At(w, k, [c]);
    }
  }

  // ----- doubled slashes -----

  lemma {:induction false} SlashesKept(s: string)
    requires NoDouble(s)
    ensures CollapseSlashes(s) == s
  {
    if |s| >= 2 {
      SlashesKept(s[1..]);
      assert [s[0]] + s[1..] == s;
    }
  }

  lemma {:induction false} SlashesMeet(a: string, b: string)
    requires a != "" && a[|a| - 1] == '/' && b != "" && b[0] == '/' && NoDouble(a) && NoDouble(b)
    ensures CollapseSlashes(a + b) == a + b[1..]
  {
    if |a| == 1 {
      SlashesKept(b);
      assert (a + b)[1..] == b;
      assert b == a + b[1..];
    } else {
      SlashesMeet(a[1..], b);
      SlashStep(a, b);
      Regroup(a, b[1..]);
    }
  }

  lemma SlashStep(a: string, b: string)
    requires |a| >= 2 && !(a[0] == '/' && a[1] == '/')
    ensures CollapseSlashes(a + b) == [a[0]] + CollapseSlashes(a[1..] + b)
  {
    assert (a + b)[0] == a[0] && (a + b)[1] == a[1] && (a + b)[1..] == a[1..] + b;
  }

  lemma NoDoubleJoin(a: string, b: string)
    requires NoDouble(a) && NoDouble(b)
    requires a != "" && b != "" ==> a[|a| - 1] != '/' || b[0] != '/'
    ensures NoDouble(a + b)
  {
    var s := a + b;
    forall i | 0 <= i < |s| - 1 ensures !(s[i] == '/' && s[i + 1] == '/') {
      if i >= |a| { assert s[i] == b[i - |a|] && s[i + 1] == b[i - |a| + 1]; }
    }
  }

  /** Two parts without doubled slashes lose at most the one where they meet, and only then change. */
  lemma SlashesJoin(a: string, b: string)
    requires NoDouble(a) && NoDouble(b)
    ensures var meet := a != "" && b != "" && a[|a| - 1] == '/' && b[0] == '/';
      CollapseSlashes(a + b) == if meet then a + b[1..] else a + b
  {
    if a != "" && b != "" && a[|a| - 1] == '/' && b[0] == '/' {
      SlashesMeet(a, b);
    } else {
      NoDoubleJoin(a, b);
      SlashesKept(a + b);
    }
  }

  lemma NoDoubleArrow(was: string, now: string)
    requires NoDouble(was) && NoDouble(now)
    ensures NoDouble(Arrow(was, now))
  {
    NoDoubleJoin(was, " ");
    NoDoubleJoin(was + " ", "=>");
    NoDoubleJoin(" ", now);
    NoDoubleJoin(was + " " + "=>", " " + now);
  }

  lemma OneSlash(y1: string, w1: string, w2: string)
    requires NoDouble(y1) && NoDouble(w1) && NoDouble(w2) && (w1 != "" ==> w1[0] != '/')
    ensures var y := y1 + w1;
      CollapseSlashes(y1 + (w1 + w2)) == if y != "" && w2 != "" && y[|y| - 1] == '/' && w2[0] == '/' then y + w2[1..] else y + w2
  {
    Regrouped(y1, w1, w2);
    NoDoubleJoin(y1, w1);
    SlashesJoin(y1 + w1, w2);
  }

  lemma {:induction false} SlashesCut(s: string)
    ensures |CollapseSlashes(s)| <= |s|
  {
    if |s| >= 2 { SlashesCut(s[1..]); }
  }

  // ----- blanks -----

  lemma TrimCuts(s: string)
    ensures |Trim(s)| <= |s| && (|Trim(s)| == |s| ==> Trim(s) == s)
  {
    StartCuts(s);
    EndCuts(TrimStart(s));
  }

  lemma {:induction false} StartCuts(s: string)
    ensures |TrimStart(s)| <= |s| && (|TrimStart(s)| == |s| ==> TrimStart(s) == s)
  {
    if s != "" { StartCuts(s[1..]); }
  }

  lemma {:induction false} EndCuts(s: string)
    ensures |TrimEnd(s)| <= |s| && (|TrimEnd(s)| == |s| ==> TrimEnd(s) == s)
    decreases |s|
  {
    if s != "" { EndCuts(s[..|s| - 1]); }
  }
}
