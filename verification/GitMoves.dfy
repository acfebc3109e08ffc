/** The simple rename `old => new`: exactly when the reader takes the new path from it. */
module GitMoves {
  import opened Text
  import opened GitLog
  import opened GitBraces

  /**
   The old path opens a group that the new path shuts, and what the reader puts in place of the group
   happens to be the brace it drops: `}{a => }b` is read as `}b`.
   */
  ghost predicate Coincides(was: string, path: string) {
    path != "" && path[0] == '}' && exists k: nat :: LastGroup(was, k) && StandsIn(was[..k], path[1..])
  }

  /** The opening brace at `k` is not shut again. */
  predicate LastGroup(was: string, k: nat) { k < |was| && was[k] == '{' && '}' !in was[k + 1..] }

  /** `u`, which stays before `w`, comes out as the closing brace before it. */
  predicate StandsIn(u: string, w: string) {
    || u == "}"
    || (u == "}/" && w != "" && w[0] == '/')
    || (w == "" && u != "" && u[0] == '}' && forall i :: 1 <= i < |u| ==> IsBlank(u[i]))
  }

  lemma ArrowBegins(was: string, path: string)
    requires Tight(Arrow(was, path))
    ensures was != "" && !IsBlank(was[0])
  {
    var t := Arrow(was, path);
    assert t[|was|] == ' ' && (was != "" ==> t[0] == was[0]);
  }

  lemma MovedExactly(was: string, path: string)
    requires Part(was) && Part(path) && Tight(path) && was != "" && !IsBlank(was[0]) && path != "" && path[0] != '/'
    ensures Includes(Arrow(was, path), "=>")
    ensures NewPathOf(Arrow(was, path)) == path <==> ('{' !in was && '{' !in path) || Coincides(was, path)
  {
    var t := Arrow(was, path);
    Spaced(was);
    FirstArrow(was + " ", " " + path);
    Contains(was, path);
    if '{' !in was && '{' !in path {
      NoneIn(was, path, '{');
      assert t[|was + " "| + 2..] == " " + path;
      assert (" " + path)[1..] == path;
      TrimTight(path);
    } else if Closed(was) || '}' !in path {
      StaysAsIs(was, path);
    } else {
      MovedOpen(was, path);
    }
  }

  lemma Contains(was: string, path: string)
    ensures forall c :: c in was || c in path ==> c in Arrow(was, path)
  {
    var t := Arrow(was, path);
    forall c | c in was ensures c in t {
      var k :| 0 <= k < |was| && was[k] == c;
      assert t[k] == c;
    }
    forall c | c in path ensures c in t {
      var k :| 0 <= k < |path| && path[k] == c;
      assert t[|was| + 4 + k] == c;
    }
  }

  /** Nothing is collapsed, so the arrow stays. */
  lemma StaysAsIs(was: string, path: string)
    requires Part(was) && Part(path) && Tight(path) && was != "" && !IsBlank(was[0]) && path != ""
    requires Closed(was) || '}' !in path
    ensures Trim(CollapseSlashes(CollapseBraces(Arrow(was, path)))) != path && !Coincides(was, path)
  {
    if Closed(was) { ClosedStays(was, path); } else { OpenStays(was, path); }
    LongerKept(was, path);
  }

  lemma ClosedStays(was: string, path: string)
    requires Arrowless(was) && Arrowless(path) && Closed(was)
    ensures CollapseBraces(Arrow(was, path)) == Arrow(was, path) && !Coincides(was, path)
  {
    ClosedAround(was, path);
    if k: nat :| LastGroup(was, k) { NotClosed(was, k); }
  }

  lemma OpenStays(was: string, path: string)
    requires Arrowless(was) && !Closed(was) && '}' !in path
    ensures CollapseBraces(Arrow(was, path)) == Arrow(was, path) && !Coincides(was, path)
  {
    var k := FindOpen(was);
    ArrowlessPart(was, 0, k);
    CutOut(was, k);
    Opened(was[..k], was[k + 1..], path);
  }

  lemma LongerKept(was: string, path: string)
    requires NoDouble(was) && NoDouble(path) && Tight(path) && was != "" && !IsBlank(was[0]) && path != ""
    ensures Trim(CollapseSlashes(Arrow(was, path))) != path
  {
    var t := Arrow(was, path);
    NoDoubleArrow(was, path);
    SlashesKept(t);
    assert t[|t| - 1] == path[|path| - 1];
    TrimTight(t);
    assert |t| > |path|;
  }

  lemma Opened(y1: string, y2: string, path: string)
    requires Arrowless(y1) && Closed(y1) && '}' !in y2 && '}' !in path
    ensures CollapseBraces(Arrow(y1 + "{" + y2, path)) == Arrow(y1 + "{" + y2, path)
  {
    var z := "{" + Arrow(y2, path);
    NoneIn(y2, path, '}');
    CollapsePrefix(y1, z);
    NoClose(z);
    OpenedText(y1, y2, path);
  }

  lemma OpenedText(y1: string, y2: string, path: string)
    ensures Arrow(y1 + "{" + y2, path) == y1 + ("{" + Arrow(y2, path))
  {}

  /** The last group of the old path runs to the first closing brace of the new one. */
  lemma MovedOpen(was: string, path: string)
    requires Part(was) && Part(path) && Tight(path) && was != "" && !IsBlank(was[0]) && path != "" && path[0] != '/'
    requires !Closed(was) && '}' in path
    ensures Trim(CollapseSlashes(CollapseBraces(Arrow(was, path)))) == path <==> Coincides(was, path)
  {
    var w1, w2 := CutAt(path);
    PiecesFit(w1, w2);
    var k := CollapseAround(was, w1, w2);
    NoDoublePart(was, 0, k);
    assert was[0..k] == was[..k];
    ReadOpen(was[..k], w1, w2);
    OnlyGroup(was, path, k);
    if w1 == "" { assert path[1..] == w2; } else { assert path[0] == w1[0] && w1[0] in w1; }
  }

  /** There is one group to consider. */
  lemma OnlyGroup(was: string, path: string, k: nat)
    requires LastGroup(was, k) && Closed(was[..k])
    ensures Coincides(was, path) <==> path != "" && path[0] == '}' && StandsIn(was[..k], path[1..])
  {
    if path != "" && path[0] == '}' {
      forall j: nat | LastGroup(was, j) && StandsIn(was[..j], path[1..]) ensures j == k {
        assert forall i :: 0 <= i < j ==> was[..j][i] == was[i] && was[i] != '{';
        if j < k { NotBefore(was, j, k); }
      }
    }
  }

  lemma NotClosed(was: string, k: nat)
    requires LastGroup(was, k)
    ensures !Closed(was)
  {
    NotBefore(was, k, |was|);
    assert was[..|was|] == was;
  }

  lemma NotBefore(was: string, j: nat, k: nat)
    requires LastGroup(was, j) && j < k <= |was|
    ensures !Closed(was[..k])
  {
    NotLate(was, j);
    var h := was[..k];
    assert forall i :: 0 <= i < k ==> h[i] == was[i];
    assert h[j] == '{' && !Shut(h, j);
  }

  /** What is read of `u{… => w1}w2`. */
  lemma ReadOpen(u: string, w1: string, w2: string)
    requires NoDouble(u) && NoDouble(w1) && NoDouble(w2) && '}' !in w1 && Tight(w1 + "}" + w2) && (w1 != "" ==> w1[0] != '/')
    requires u != "" ==> !IsBlank(u[0])
    ensures Trim(CollapseSlashes(u + (w1 + w2))) == w1 + "}" + w2 <==> w1 == "" && StandsIn(u, w2)
  {
    var c := CollapseSlashes(u + (w1 + w2));
    OneSlash(u, w1, w2);
    TrimCuts(c);
    if u == "" {
    } else if w2 != "" {
      ReadTail(u, w1, w2, c);
    } else {
      assert c == u + w1;
      ReadEnd(u, w1);
    }
  }

  lemma ReadTail(u: string, w1: string, w2: string, c: string)
    requires u != "" && w2 != "" && '}' !in w1 && Tight(w1 + "}" + w2) && (w1 != "" ==> w1[0] != '/') && !IsBlank(u[0])
    requires var y := u + w1; c == if y[|y| - 1] == '/' && w2[0] == '/' then y + w2[1..] else y + w2
    ensures Trim(c) == w1 + "}" + w2 <==> w1 == "" && StandsIn(u, w2)
  {
    var y, path := u + w1, w1 + "}" + w2;
    assert path[|path| - 1] == w2[|w2| - 1];
    assert c[0] == u[0] && c[|c| - 1] == w2[|w2| - 1];
    TrimTight(c);
    if y[|y| - 1] == '/' && w2[0] == '/' {
      assert c == y + w2[1..] && path == w1 + "}/" + w2[1..];
      SameEnd(y, w1 + "}/", w2[1..]);
      Rotated(u, w1, "}/");
    } else {
      SameEnd(y, w1 + "}", w2);
      Rotated(u, w1, "}");
    }
  }

  lemma SameEnd(a: string, b: string, z: string)
    ensures a + z == b + z <==> a == b
  {
    if a + z == b + z {
      assert |a + z| == |b + z|;
      assert a == (a + z)[..|a|] && b == (b + z)[..|a|];
    }
  }

  /** A text without `}` cannot be moved past one. */
  lemma Rotated(u: string, w1: string, e: string)
    requires '}' !in w1 && (e == "}" || e == "}/") && (w1 != "" ==> w1[0] != '/')
    ensures u + w1 == w1 + e <==> w1 == "" && u == e
  {
    assert "" + e == e && u + "" == u;
    var a, b := u + w1, w1 + e;
    assert |a| == |b| ==> |u| == |e|;
    assert b[|w1|] == '}' && b[|b| - 1] == e[|e| - 1];
    assert forall j :: |u| <= j < |a| ==> a[j] == w1[j - |u|] && a[j] in w1;
  }

  /** The new path ends where the group does: only blanks may be trimmed. */
  lemma ReadEnd(u: string, w1: string)
    requires u != "" && !IsBlank(u[0]) && '}' !in w1 && Tight(w1 + "}")
    ensures Trim(u + w1) == w1 + "}" <==> w1 == "" && StandsIn(u, "")
  {
    var c := u + w1;
    var m := |TrimEnd(c)|;
    TrimEndCut(c);
    assert TrimStart(c) == c;
    if w1 != "" {
      assert (w1 + "}")[0] == w1[0] && c[|u|] == w1[0];
      assert m > |u|;
      assert c[m - 1] == w1[m - 1 - |u|] && w1[m - 1 - |u|] in w1;
      assert (w1 + "}")[|w1|] == '}';
    } else {
      assert c == u && w1 + "}" == "}";
      TrimEndUnique(u);
    }
  }

  lemma {:induction false} TrimEndCut(s: string)
    ensures |TrimEnd(s)| <= |s| && TrimEnd(s) == s[..|TrimEnd(s)|]
    ensures forall i :: |TrimEnd(s)| <= i < |s| ==> IsBlank(s[i])
    decreases |s|
  {
    if s != "" && IsBlank(s[|s| - 1]) { TrimEndCut(s[..|s| - 1]); }
  }

  lemma {:induction false} TrimEndUnique(u: string)
    requires u != "" && !IsBlank(u[0])
    ensures |TrimEnd(u)| == 1 <==> forall i :: 1 <= i < |u| ==> IsBlank(u[i])
    ensures TrimEnd(u) != "" && TrimEnd(u)[0] == u[0]
    decreases |u|
  {
    if |u| > 1 && IsBlank(u[|u| - 1]) {
      TrimEndUnique(u[..|u| - 1]);
      assert forall i :: 1 <= i < |u| - 1 ==> u[..|u| - 1][i] == u[i];
    }
  }
}
