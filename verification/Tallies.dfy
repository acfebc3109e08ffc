/** Counting without regard to order. */
module Tallies {
  /** The image of a list. */
  function Each<T, B>(f: T -> B, xs: seq<T>): (r: seq<B>)
    ensures |r| == |xs| && forall i :: 0 <= i < |xs| ==> r[i] == f(xs[i])
  {
    seq(|xs|, i requires 0 <= i < |xs| => f(xs[i]))
  }

  /** How many elements of `xs` fall in bucket `b`. */
  function Tally<T, B(==)>(f: T -> B, xs: seq<T>, b: B): nat { multiset(Each(f, xs))[b] }

  lemma EachAppend<T, B>(f: T -> B, xs: seq<T>, x: T)
    ensures Each(f, xs + [x]) == Each(f, xs) + [f(x)]
  {
  }

  lemma TallyNext<T, B(!new)>(f: T -> B, xs: seq<T>, n: nat)
    requires n < |xs|
    ensures forall b :: Tally(f, xs[..n + 1], b) == Tally(f, xs[..n], b) + if f(xs[n]) == b then 1 else 0
  {
    assert xs[..n + 1] == xs[..n] + [xs[n]];
    EachAppend(f, xs[..n], xs[n]);
  }

  lemma TallyAll<T>(xs: seq<T>)
    ensures xs[..|xs|] == xs
  {
  }

  /** Counts over all the buckets there are add up to the number of elements. */
  lemma {:induction false} Total<B>(s: seq<B>, kinds: seq<B>)
    requires forall i, j :: 0 <= i < j < |kinds| ==> kinds[i] != kinds[j]
    requires forall i :: 0 <= i < |s| ==> s[i] in kinds
    ensures SumOver(kinds, multiset(s)) == |s|
  {
    if s == [] {
      NothingCounted(kinds);
    } else {
      var n := |s| - 1;
      assert s == s[..n] + [s[n]];
      Total(s[..n], kinds);
      OneMore(kinds, multiset(s[..n]), s[n]);
      assert multiset(s) == multiset(s[..n]) + multiset{s[n]};
    }
  }

  function SumOver<B>(kinds: seq<B>, m: multiset<B>): nat {
    if kinds == [] then 0 else SumOver(kinds[..|kinds| - 1], m) + m[kinds[|kinds| - 1]]
  }

  lemma {:induction false} NothingCounted<B>(kinds: seq<B>)
    ensures SumOver(kinds, multiset{}) == 0
  {
    if kinds != [] { NothingCounted(kinds[..|kinds| - 1]); }
  }

  lemma {:induction false} OneMore<B>(kinds: seq<B>, m: multiset<B>, b: B)
    requires forall i, j :: 0 <= i < j < |kinds| ==> kinds[i] != kinds[j]
    ensures SumOver(kinds, m + multiset{b}) == SumOver(kinds, m) + if b in kinds then 1 else 0
  {
    if kinds != [] {
      var n := |kinds| - 1;
      assert kinds == kinds[..n] + [kinds[n]];
      OneMore(kinds[..n], m, b);
    }
  }

  function Without<T>(xs: seq<T>, i: nat): seq<T>
    requires i < |xs|
  {
    xs[..i] + xs[i + 1..]
  }

  lemma WithoutCount<T>(xs: seq<T>, i: nat)
    requires i < |xs|
    ensures multiset(Without(xs, i)) == multiset(xs) - multiset{xs[i]}
    ensures multiset(xs) == multiset(Without(xs, i)) + multiset{xs[i]}
  {
    assert xs == xs[..i] + [xs[i]] + xs[i + 1..];
  }

  lemma EachWithout<T, B>(f: T -> B, xs: seq<T>, i: nat)
    requires i < |xs|
    ensures Each(f, Without(xs, i)) == Without(Each(f, xs), i)
  {
  }

  /** The image of a shuffled list is the shuffled image. */
  lemma {:induction false} Shuffled<T, B>(f: T -> B, xs: seq<T>, ys: seq<T>)
    requires multiset(xs) == multiset(ys)
    ensures multiset(Each(f, xs)) == multiset(Each(f, ys))
    decreases |xs|
  {
    if xs == [] {
      assert |multiset(xs)| == 0 && |multiset(ys)| == |ys|;
    } else {
      assert xs[0] in multiset(ys);
      var i :| 0 <= i < |ys| && ys[i] == xs[0];
      WithoutCount(xs, 0);
      WithoutCount(ys, i);
      Shuffled(f, Without(xs, 0), Without(ys, i));
      EachWithout(f, xs, 0);
      EachWithout(f, ys, i);
      WithoutCount(Each(f, xs), 0);
      WithoutCount(Each(f, ys), i);
    }
  }

  lemma SameMembers<T>(xs: seq<T>, ys: seq<T>)
    requires multiset(xs) == multiset(ys)
    ensures forall x: T :: x in xs <==> x in ys
  {
    assert forall x: T :: x in xs <==> x in multiset(xs);
  }

  function Kept<T>(p: T -> bool, xs: seq<T>): seq<T> {
    if xs == [] then []
    else Kept(p, xs[..|xs| - 1]) + if p(xs[|xs| - 1]) then [xs[|xs| - 1]] else []
  }

  lemma {:induction false} KeptCount<T(!new)>(p: T -> bool, xs: seq<T>)
    ensures forall x :: multiset(Kept(p, xs))[x] == if p(x) then multiset(xs)[x] else 0
  {
    if xs != [] {
      var n := |xs| - 1;
      KeptCount(p, xs[..n]);
      assert xs == xs[..n] + [xs[n]];
    }
  }

  lemma KeptShuffled<T(!new)>(p: T -> bool, xs: seq<T>, ys: seq<T>)
    requires multiset(xs) == multiset(ys)
    ensures multiset(Kept(p, xs)) == multiset(Kept(p, ys))
  {
    KeptCount(p, xs);
    KeptCount(p, ys);
  }

  /** Elements known to fall in a bucket are all counted there. */
  lemma {:induction false} KeptWithin<T(!new), B(!new)>(p: T -> bool, f: T -> B, xs: seq<T>, b: B)
    requires forall x :: x in xs && p(x) ==> f(x) == b
    ensures |Kept(p, xs)| <= Tally(f, xs, b)
  {
    if xs != [] {
      var n := |xs| - 1;
      assert forall x :: x in xs[..n] ==> x in xs;
      KeptWithin(p, f, xs[..n], b);
      TallyNext(f, xs, n);
      TallyAll(xs);
    }
  }

  /** A list without repeats has as many elements as its set. */
  lemma {:induction false} NoRepeats<T>(xs: seq<T>)
    requires forall i, j :: 0 <= i < j < |xs| ==> xs[i] != xs[j]
    ensures |set x | x in xs| == |xs|
  {
    if xs != [] {
      var n := |xs| - 1;
      NoRepeats(xs[..n]);
      assert (set x | x in xs) == (set x | x in xs[..n]) + {xs[n]};
    }
  }
}
