/** The path column of a numstat row: what `git` prints for a rename, and exactly when it is read right. */
module GitPaths {
  import opened Text
  import opened GitLog
  import opened GitBraces
  import opened GitMoves

  /**
   A path as git prints it: unchanged, `old => new`, or `dir{old => new}rest`, where the braces hold
   the part that moved between a common leading directory and a common trailing path.
   */
  datatype GitPath =
    | Plain(path: string)
    | Moved(was: string, path: string)
    | MovedWithin(dir: string, was: string, mid: string, rest: string)

  function PathText(p: GitPath): string {
    match p
    case Plain(path) => path
    case Moved(was, path) => Arrow(was, path)
    case MovedWithin(dir, was, mid, rest) => dir + ("{" + Arrow(was, mid) + "}" + rest)
  }

  /** The path after the change. A part that moved away leaves one slash of the two around it. */
  function NewPath(p: GitPath): string {
    match p
    case Plain(path) => path
    case Moved(_, path) => path
    case MovedWithin(dir, _, mid, rest) => if mid == "" && dir != "" && rest != "" then dir + rest[1..] else dir + mid + rest
  }

  ghost predicate Printable(s: string) { s != "" && Tight(s) && '\t' !in s && '\n' !in s && US !in s }

  /** A path column as git prints it, with no arrow of its own in a rename. */
  ghost predicate Shaped(p: GitPath) {
    && Printable(PathText(p)) && Printable(NewPath(p))
    && match p
       case Plain(_) => true
       case Moved(was, path) =>
         Part(was) && Part(path) && path[0] != '/'
       case MovedWithin(dir, was, mid, rest) =>
         && Part(dir) && Part(was) && Part(mid) && Part(rest) && Joints(dir, mid, rest)
         && (mid != "" ==> mid[0] != '/' && !IsBlank(mid[0]))
  }

  /** The common ends keep their slashes. */
  predicate Joints(dir: string, mid: string, rest: string) {
    && (dir != "" ==> dir[|dir| - 1] == '/')
    && (rest != "" ==> rest[0] == '/')
    && if mid != "" then mid[|mid| - 1] != '/' else dir != "" && rest != ""
  }

  /** After the first closing brace there are only closing braces. */
  predicate ShutsLast(s: string) { forall i, j :: 0 <= i < j < |s| && s[i] == '}' ==> s[j] == '}' }

  /** What decides: an arrow in an unchanged path, an opening brace in a simple rename, a group that is not the group. */
  ghost predicate ReadsRight(p: GitPath) {
    match p
    case Plain(path) => !Includes(path, "=>")
    case Moved(was, path) => ('{' !in was && '{' !in path) || Coincides(was, path)
    case MovedWithin(dir, was, mid, _) => Closed(dir) && '}' !in was && ShutsLast(mid)
  }

  ghost predicate GoodPath(p: GitPath) { Shaped(p) && ReadsRight(p) }

  /** The column is read as the new path, and as a rename if it is one. */
  ghost predicate Read(p: GitPath) {
    NewPathOf(PathText(p)) == NewPath(p) && (Includes(PathText(p), "=>") <==> !p.Plain?)
  }

  /** Exactly when a printed path column is read right, in all three forms. */
  lemma PathExactly(p: GitPath)
    requires Shaped(p)
    ensures Read(p) <==> ReadsRight(p)
  {
    match p
    case Plain(_) =>
    case Moved(was, path) =>
      ArrowBegins(was, path);
      MovedExactly(was, path);
    case MovedWithin(_, _, _, _) => WithinExactly(p);
  }

  // ----- a rename within a directory -----

  /** What stands before the arrow, and after it. */
  function Front(p: GitPath): string
    requires p.MovedWithin?
  {
    p.dir + "{" + p.was
  }

  function Back(p: GitPath): string
    requires p.MovedWithin?
  {
    p.mid + "}" + p.rest
  }

  lemma WithinText(p: GitPath)
    requires p.MovedWithin?
    ensures PathText(p) == Arrow(Front(p), Back(p))
  {}

  lemma BackFits(mid: string, rest: string)
    requires Part(mid) && Part(rest)
    ensures Part(mid + "}" + rest) && '}' in mid + "}" + rest
  {
    BraceBetween(mid, "}", rest);
    assert (mid + "}" + rest)[|mid|] == '}';
  }

  /** A brace between two parts joins nothing. */
  lemma BraceBetween(a: string, c: string, b: string)
    requires Part(a) && Part(b) && (c == "{" || c == "}")
    ensures Part(a + c + b)
  {
    ArrowlessJoin(a, c);
    ArrowlessAfter(a + c, b);
    NoDoubleJoin(a, c);
    NoDoubleJoin(a + c, b);
  }

  /** What stands before the first closing brace begins as the new part does. */
  lemma CutBegins(mid: string, rest: string, w1: string, w2: string)
    requires mid + "}" + rest == w1 + "}" + w2 && '}' !in w1
    ensures |w1| + |w2| == |mid| + |rest|
    ensures w1 != "" ==> mid != "" && w1[0] == mid[0]
  {
    var w := w1 + "}" + w2;
    assert |w| == |mid + "}" + rest|;
    assert w[|mid|] == '}';
    if w1 != "" {
      assert w1[0] in w1 && w[0] == w1[0];
      assert mid != "" ==> (mid + "}" + rest)[0] == mid[0];
    }
  }

  lemma WithinIncludes(p: GitPath)
    requires p.MovedWithin? && Arrowless(Front(p))
    ensures Includes(PathText(p), "=>") && '{' in PathText(p)
  {
    WithinText(p);
    Spaced(Front(p));
    FirstArrow(Front(p) + " ", " " + Back(p));
    assert PathText(p)[|p.dir|] == '{';
  }

  lemma WithinExactly(p: GitPath)
    requires Shaped(p) && p.MovedWithin?
    ensures Includes(PathText(p), "=>")
    ensures NewPathOf(PathText(p)) == NewPath(p) <==> Closed(p.dir) && '}' !in p.was && ShutsLast(p.mid)
  {
    BraceBetween(p.dir, "{", p.was);
    BackFits(p.mid, p.rest);
    WithinIncludes(p);
    WithinText(p);
    var w1, w2 := CutAt(Back(p));
    CutBegins(p.mid, p.rest, w1, w2);
    PiecesFit(w1, w2);
    var k := CollapseAround(Front(p), w1, w2);
    if Closed(Front(p)) {
      StaysWhole(p);
    } else {
      WithinOpen(p, w1, w2, k);
    }
  }

  lemma WithinOpen(p: GitPath, w1: string, w2: string, k: nat)
    requires Shaped(p) && p.MovedWithin? && Includes(PathText(p), "=>") && '{' in PathText(p)
    requires k < |Front(p)| && Front(p)[k] == '{' && Closed(Front(p)[..k]) && '}' !in Front(p)[k + 1..] && NoDouble(Front(p))
    requires Back(p) == w1 + "}" + w2 && '}' !in w1 && |w1| + |w2| == |p.mid| + |p.rest| && (w1 != "" ==> p.mid != "" && w1[0] == p.mid[0])
    requires NoDouble(w1) && NoDouble(w2)
    requires CollapseBraces(PathText(p)) == Front(p)[..k] + (w1 + w2)
    ensures NewPathOf(PathText(p)) == NewPath(p) <==> Closed(p.dir) && '}' !in p.was && ShutsLast(p.mid)
  {
    if '}' in p.was {
      KeepsTooMuch(p, w1, w2, k);
    } else if !Closed(p.dir) {
      LosesTooMuch(p, w1, w2, k);
    } else {
      OpensThere(p, k);
      BackExactly(p, w1, w2);
    }
  }

  /** The first open brace is the group's own. */
  lemma OpensThere(p: GitPath, k: nat)
    requires p.MovedWithin? && '}' !in p.was && Closed(p.dir)
    requires k < |Front(p)| && Front(p)[k] == '{' && Closed(Front(p)[..k]) && '}' !in Front(p)[k + 1..]
    ensures k == |p.dir| && Front(p)[..k] == p.dir
  {
    var y := Front(p);
    assert forall j :: 0 <= j < |p.dir| ==> p.dir[j] == y[j];
    if k < |p.dir| {
      NotShut(p, k);
    } else if k > |p.dir| {
      NotInWas(p, k);
    }
  }

  lemma NotShut(p: GitPath, k: nat)
    requires p.MovedWithin? && k < |p.dir| && '}' !in Front(p)[k + 1..]
    ensures !Shut(p.dir, k)
  {
    NotLate(Front(p), k);
    assert forall j :: 0 <= j < |p.dir| ==> p.dir[j] == Front(p)[j];
  }

  lemma NotInWas(p: GitPath, k: nat)
    requires p.MovedWithin? && '}' !in p.was && |p.dir| < k < |Front(p)|
    ensures !Closed(Front(p)[..k])
  {
    var h := Front(p)[..k];
    assert h[|p.dir|] == '{';
    forall j | |p.dir| < j < |h| ensures h[j] != '}' { assert h[j] == p.was[j - |p.dir| - 1]; }
    assert !Shut(h, |p.dir|);
  }

  /** Without an open group the column stays as it is, arrow and all. */
  lemma StaysWhole(p: GitPath)
    requires p.MovedWithin? && Closed(Front(p)) && Tight(PathText(p)) && NoDouble(Front(p)) && NoDouble(Back(p))
    requires CollapseBraces(PathText(p)) == PathText(p)
    ensures Trim(CollapseSlashes(CollapseBraces(PathText(p)))) != NewPath(p) && '}' in p.was
  {
    KeptWhole(p);
    ShutInWas(p);
  }

  lemma ShutInWas(p: GitPath)
    requires p.MovedWithin? && Closed(Front(p))
    ensures '}' in p.was
  {
    assert Front(p)[|p.dir|] == '{';
    var j :| |p.dir| < j < |Front(p)| && Front(p)[j] == '}';
    assert p.was[j - |p.dir| - 1] == '}';
  }

  /** With a closing brace in the old part, that brace and the one before it stay. */
  lemma KeepsTooMuch(p: GitPath, w1: string, w2: string, k: nat)
    requires Shaped(p) && p.MovedWithin? && '}' in p.was
    requires k < |Front(p)| && '}' !in Front(p)[k + 1..] && Front(p)[k] == '{' && NoDouble(Front(p)) && NoDouble(w1) && NoDouble(w2)
    requires Back(p) == w1 + "}" + w2 && '}' !in w1 && |w1| + |w2| == |p.mid| + |p.rest| && (w1 != "" ==> p.mid != "" && w1[0] == p.mid[0])
    ensures Trim(CollapseSlashes(Front(p)[..k] + (w1 + w2))) != NewPath(p)
  {
    var y := Front(p);
    AfterClose(p, k);
    NoDoublePart(y, 0, k);
    assert y[0..k] == y[..k];
    WithinText(p);
    assert PathText(p)[0] == y[0];
    LastKept(p);
    LastEnd(p.mid, p.rest, w1, w2);
    EndsTight(y[..k], w1, w2);
    NewLength(p);
  }

  lemma KeptWhole(p: GitPath)
    requires p.MovedWithin? && Tight(PathText(p)) && NoDouble(Front(p)) && NoDouble(Back(p))
    ensures Trim(CollapseSlashes(PathText(p))) != NewPath(p)
  {
    WithinText(p);
    NoDoubleArrow(Front(p), Back(p));
    SlashesKept(PathText(p));
    TrimTight(PathText(p));
    NewLength(p);
    assert |PathText(p)| > |p.dir| + |p.mid| + |p.rest|;
  }

  lemma AfterClose(p: GitPath, k: nat)
    requires p.MovedWithin? && '}' in p.was && k < |Front(p)| && '}' !in Front(p)[k + 1..] && Front(p)[k] == '{'
    ensures k >= |p.dir| + 2
  {
    var j :| 0 <= j < |p.was| && p.was[j] == '}';
    NotLate(Front(p), k);
    assert Front(p)[|p.dir| + 1 + j] == '}';
  }

  lemma NewLength(p: GitPath)
    requires p.MovedWithin?
    ensures |NewPath(p)| <= |p.dir| + |p.mid| + |p.rest|
    ensures p.mid != "" ==> |NewPath(p)| == |p.dir| + |p.mid| + |p.rest|
    ensures |NewPath(p)| >= |p.dir| + |p.mid| + |p.rest| - 1
  {}

  lemma LastKept(p: GitPath)
    requires Shaped(p) && p.MovedWithin?
    ensures if p.rest != "" then !IsBlank(p.rest[|p.rest| - 1]) else p.mid != "" && !IsBlank(p.mid[|p.mid| - 1])
  {
    WithinText(p);
    var n := NewPath(p);
    assert n == (if p.mid == "" then p.dir + p.rest[1..] else p.dir + p.mid + p.rest);
    if p.rest != "" {
      assert PathText(p)[|PathText(p)| - 1] == p.rest[|p.rest| - 1];
    } else {
      assert n[|n| - 1] == p.mid[|p.mid| - 1];
    }
  }

  /** Three parts that can double a slash once only. */
  lemma Collapsed(y1: string, w1: string, w2: string)
    requires NoDouble(y1) && NoDouble(w1) && NoDouble(w2) && (w1 != "" ==> w1[0] != '/')
    ensures var c := CollapseSlashes(y1 + (w1 + w2));
      |y1| + |w1| + |w2| - 1 <= |c| <= |y1| + |w1| + |w2|
      && (y1 != "" ==> c != "" && c[0] == y1[0])
      && (w2 != "" && y1 + w1 != "" ==> c[|c| - 1] == w2[|w2| - 1])
      && (w2 == "" ==> c == y1 + w1)
  {
    OneSlash(y1, w1, w2);
  }

  /** With tight ends trimming takes nothing. */
  lemma EndsTight(y1: string, w1: string, w2: string)
    requires NoDouble(y1) && NoDouble(w1) && NoDouble(w2) && (w1 != "" ==> w1[0] != '/') && y1 != "" && !IsBlank(y1[0])
    requires if w2 != "" then !IsBlank(w2[|w2| - 1]) else w1 != "" && !IsBlank(w1[|w1| - 1])
    ensures |Trim(CollapseSlashes(y1 + (w1 + w2)))| >= |y1| + |w1| + |w2| - 1
  {
    Collapsed(y1, w1, w2);
    TrimTight(CollapseSlashes(y1 + (w1 + w2)));
  }

  lemma LastEnd(mid: string, rest: string, w1: string, w2: string)
    requires mid + "}" + rest == w1 + "}" + w2 && '}' !in w1
    requires if rest != "" then !IsBlank(rest[|rest| - 1]) else mid != "" && !IsBlank(mid[|mid| - 1])
    ensures if w2 != "" then !IsBlank(w2[|w2| - 1]) else w1 != "" && !IsBlank(w1[|w1| - 1])
  {
    var w := mid + "}" + rest;
    assert |w| == |w1 + "}" + w2|;
    assert rest != "" ==> w[|w| - 1] == rest[|rest| - 1];
    assert w2 != "" ==> (w1 + "}" + w2)[|w| - 1] == w2[|w2| - 1];
    if w2 == "" {
      assert w[|mid|] == '}';
      assert forall i :: 0 <= i < |w1| ==> w[i] == w1[i] && w1[i] in w1;
      assert w1 == w[..|w1|] == mid;
    }
  }

  /** An earlier open brace takes a part of the directory away. */
  lemma LosesTooMuch(p: GitPath, w1: string, w2: string, k: nat)
    requires p.MovedWithin? && '}' !in p.was && !Closed(p.dir) && (p.dir != "" ==> p.dir[|p.dir| - 1] == '/')
    requires k < |Front(p)| && Front(p)[k] == '{' && Closed(Front(p)[..k])
    requires |w1| + |w2| == |p.mid| + |p.rest|
    ensures Trim(CollapseSlashes(Front(p)[..k] + (w1 + w2))) != NewPath(p)
  {
    WithinDir(p, k);
    var r := Front(p)[..k] + (w1 + w2);
    SlashesCut(r);
    TrimCuts(CollapseSlashes(r));
    NewLength(p);
  }

  lemma WithinDir(p: GitPath, k: nat)
    requires p.MovedWithin? && '}' !in p.was && !Closed(p.dir) && (p.dir != "" ==> p.dir[|p.dir| - 1] == '/')
    requires k < |Front(p)| && Front(p)[k] == '{' && Closed(Front(p)[..k])
    ensures k < |p.dir| - 1
  {
    if k > |p.dir| { NotInWas(p, k); }
    assert Front(p)[..|p.dir|] == p.dir;
    assert forall j :: 0 <= j < |p.dir| ==> p.dir[j] == Front(p)[j];
  }

  /** With the right group open, what is read hangs on the closing braces of the new part. */
  lemma BackExactly(p: GitPath, w1: string, w2: string)
    requires p.MovedWithin? && NoDouble(p.dir) && Joints(p.dir, p.mid, p.rest) && Tight(NewPath(p))
    requires Back(p) == w1 + "}" + w2 && '}' !in w1 && NoDouble(w1) && NoDouble(w2) && (w1 != "" ==> w1[0] != '/')
    ensures Trim(CollapseSlashes(p.dir + (w1 + w2))) == NewPath(p) <==> ShutsLast(p.mid)
  {
    OneSlash(p.dir, w1, w2);
    if '}' in p.mid {
      var m2 := CutMid(p.mid, p.rest, w1, w2);
      MidExactly(p, w1, m2, CollapseSlashes(p.dir + (w1 + w2)));
    } else {
      CutFirst(p.mid, p.rest, w1, w2, '}');
      MidKept(p, CollapseSlashes(p.dir + (w1 + w2)));
    }
  }

  lemma MidKept(p: GitPath, c: string)
    requires p.MovedWithin? && Joints(p.dir, p.mid, p.rest) && Tight(NewPath(p))
    requires var y := p.dir + p.mid;
      c == if y != "" && p.rest != "" && y[|y| - 1] == '/' && p.rest[0] == '/' then y + p.rest[1..] else y + p.rest
    ensures Trim(c) == NewPath(p)
  {
    var y := p.dir + p.mid;
    if p.mid == "" {
      assert y == p.dir;
    } else {
      assert y[|y| - 1] == p.mid[|p.mid| - 1];
    }
    assert c == NewPath(p);
    TrimTight(c);
  }

  lemma CutMid(mid: string, rest: string, w1: string, w2: string) returns (m2: string)
    requires '}' in mid && mid + "}" + rest == w1 + "}" + w2 && '}' !in w1
    ensures mid == w1 + "}" + m2 && w2 == m2 + "}" + rest
  {
    var a;
    a, m2 := CutAt(mid);
    assert mid + "}" + rest == a + "}" + (m2 + "}" + rest);
    CutFirst(a, m2 + "}" + rest, w1, w2, '}');
  }

  /** The new part has lost its first closing brace and kept the one that shut the group. */
  lemma MidExactly(p: GitPath, w1: string, m2: string, c: string)
    requires p.MovedWithin? && p.mid == w1 + "}" + m2 && '}' !in w1 && Tight(NewPath(p))
    requires var y, w2 := p.dir + w1, m2 + "}" + p.rest;
      c == if y != "" && y[|y| - 1] == '/' && w2[0] == '/' then y + w2[1..] else y + w2
    ensures Trim(c) == NewPath(p) <==> ShutsLast(p.mid)
  {
    TrimCuts(c);
    TrimTight(NewPath(p));
    ShutsLastTail(w1, m2);
    MidText(p, w1, m2);
    var y, w2 := p.dir + w1, m2 + "}" + p.rest;
    if y != "" && y[|y| - 1] == '/' && w2[0] == '/' {
      assert m2 != "" && m2[0] == '/';
    } else {
      Between(y, m2 + "}", "}" + m2, p.rest);
      Shifted(m2);
    }
  }

  lemma MidText(p: GitPath, w1: string, m2: string)
    requires p.MovedWithin? && p.mid == w1 + "}" + m2
    ensures NewPath(p) == (p.dir + w1) + ("}" + m2) + p.rest
    ensures (p.dir + w1) + (m2 + "}" + p.rest) == (p.dir + w1) + (m2 + "}") + p.rest
  {}

  lemma Shifted(m: string)
    ensures m + "}" == "}" + m <==> forall i :: 0 <= i < |m| ==> m[i] == '}'
  {
    if m + "}" == "}" + m { AllClosing(m, |m|); }
  }

  lemma Between(a: string, x: string, y: string, z: string)
    requires |x| == |y|
    ensures a + x + z == a + y + z <==> x == y
  {
    assert (a + x + z)[|a|..|a| + |x|] == x && (a + y + z)[|a|..|a| + |y|] == y;
  }

  lemma ShutsLastTail(w1: string, m2: string)
    requires '}' !in w1
    ensures ShutsLast(w1 + "}" + m2) <==> forall i :: 0 <= i < |m2| ==> m2[i] == '}'
  {
    var s := w1 + "}" + m2;
    assert s[|w1|] == '}';
    assert forall i :: 0 <= i < |m2| ==> s[|w1| + 1 + i] == m2[i];
    assert forall i :: 0 <= i < |w1| ==> s[i] == w1[i];
  }

  lemma {:induction false} AllClosing(m: string, n: nat)
    requires m + "}" == "}" + m && n <= |m|
    ensures forall i :: 0 <= i < n ==> m[i] == '}'
  {
    if n > 0 {
      AllClosing(m, n - 1);
      assert (m + "}")[n - 1] == ("}" + m)[n - 1];
    }
  }
}
