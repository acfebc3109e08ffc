/** Object keys of packages/shared/src/catalog-signing.ts: sequences of UTF-16 code units, and their order. */
module Keys {
  type Unit = x: int | 0 <= x < 0x1_0000
  type Str = seq<Unit>

  /** The order of `Array.prototype.sort` on strings: code unit by code unit. */
  predicate Less(a: Str, b: Str) {
    b != [] && (a == [] || a[0] < b[0] || (a[0] == b[0] && Less(a[1..], b[1..])))
  }

  lemma {:induction false} LessIrreflexive(a: Str)
    ensures !Less(a, a)
  {
    if a != [] { LessIrreflexive(a[1..]); }
  }

  lemma {:induction false} LessTransitive(a: Str, b: Str, c: Str)
    requires Less(a, b) && Less(b, c)
    ensures Less(a, c)
  {
    if a != [] && a[0] == b[0] && b[0] == c[0] { LessTransitive(a[1..], b[1..], c[1..]); }
  }

  lemma {:induction false} LessTotal(a: Str, b: Str)
    ensures Less(a, b) || a == b || Less(b, a)
  {
    if a != [] && b != [] && a[0] == b[0] {
      LessTotal(a[1..], b[1..]);
      assert a == [a[0]] + a[1..] && b == [b[0]] + b[1..];
    }
  }

  datatype Pair<T> = Pair(key: Str, value: T)

  function Insert<T>(p: Pair<T>, s: seq<Pair<T>>): seq<Pair<T>> {
    if s == [] || Less(p.key, s[0].key) then [p] + s else [s[0]] + Insert(p, s[1..])
  }

  /** `Object.keys(v).sort()`, carrying each key's value along. */
  function Sort<T>(s: seq<Pair<T>>): seq<Pair<T>> {
    if s == [] then [] else Insert(s[0], Sort(s[1..]))
  }

  ghost predicate DistinctKeys<T>(s: seq<Pair<T>>) {
    forall i, j :: 0 <= i < j < |s| ==> s[i].key != s[j].key
  }

  ghost predicate Sorted<T>(s: seq<Pair<T>>) {
    forall i, j :: 0 <= i < j < |s| ==> Less(s[i].key, s[j].key)
  }

  lemma {:induction false} InsertSorted<T(!new)>(p: Pair<T>, s: seq<Pair<T>>)
    requires Sorted(s) && forall x | x in s :: x.key != p.key
    ensures Sorted(Insert(p, s))
    ensures forall x :: x in Insert(p, s) <==> x == p || x in s
  {
    if s != [] {
      LessTotal(p.key, s[0].key);
      assert s[0] in s;
      if Less(p.key, s[0].key) {
        forall j | 1 <= j < |s| ensures Less(p.key, s[j].key) { LessTransitive(p.key, s[0].key, s[j].key); }
      } else {
        InsertSorted(p, s[1..]);
        assert forall x | x in s[1..] :: Less(s[0].key, x.key);
        forall x | x in Insert(p, s[1..]) ensures Less(s[0].key, x.key) {
          assert x == p || x in s[1..];
        }
        assert s == [s[0]] + s[1..];
      }
    }
  }

  lemma {:induction false} SortSorted<T(!new)>(s: seq<Pair<T>>)
    requires DistinctKeys(s)
    ensures Sorted(Sort(s)) && forall x :: x in Sort(s) <==> x in s
  {
    if s != [] {
      SortSorted(s[1..]);
      forall x | x in Sort(s[1..]) ensures x.key != s[0].key { assert x in s[1..]; }
      InsertSorted(s[0], Sort(s[1..]));
      assert s == [s[0]] + s[1..];
    }
  }

  /** A strictly sorted list is determined by its elements. */
  lemma {:induction false} SortedUnique<T(!new)>(a: seq<Pair<T>>, b: seq<Pair<T>>)
    requires Sorted(a) && Sorted(b) && forall x :: x in a <==> x in b
    ensures a == b
  {
    assert a != [] ==> a[0] in b;
    assert b != [] ==> b[0] in a;
    if a != [] {
      HeadsEqual(a, b);
      assert a == [a[0]] + a[1..] && b == [b[0]] + b[1..];
      LessIrreflexive(a[0].key);
      assert forall x | x in a[1..] :: Less(a[0].key, x.key);
      assert forall x | x in b[1..] :: Less(b[0].key, x.key);
      forall x ensures x in a[1..] <==> x in b[1..] {
        assert x in a[1..] ==> x in a;
        assert x in b[1..] ==> x in b;
      }
      SortedUnique(a[1..], b[1..]);
    }
  }

  lemma HeadsEqual<T(!new)>(a: seq<Pair<T>>, b: seq<Pair<T>>)
    requires a != [] && b != [] && Sorted(a) && Sorted(b) && forall x :: x in a <==> x in b
    ensures a[0] == b[0]
  {
    assert a[0] in b && b[0] in a;
    var i :| 0 <= i < |b| && b[i] == a[0];
    var j :| 0 <= j < |a| && a[j] == b[0];
    if i > 0 && j > 0 {
      LessTransitive(a[0].key, b[0].key, a[0].key);
      LessIrreflexive(a[0].key);
    }
  }
}
