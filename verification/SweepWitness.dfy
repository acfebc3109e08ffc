/** Calls that make the sweep of the touch throttle show on a clock that steps back, at any threshold. */
module SweepWitness {
  import opened TouchThrottle
  import opened SweepClock

  /** Filler keys, all different and none of them `a`. */
  function Filler(l: nat): string { seq(l + 2, _ => 'b') }

  lemma FillersDiffer(l: nat, m: nat)
    ensures Filler(l) == Filler(m) <==> l == m
    ensures Filler(l) != "a"
  {
    assert |Filler(l)| == l + 2 && |Filler(m)| == m + 2;
  }

  /** Calls that share the key `a` at `i` and `k` only, with a new key at `j`. */
  ghost predicate Shares(calls: seq<Call>, ts: seq<int>, throttleMs: int, i: nat, j: nat, k: nat) {
    && StepsBack(ts, throttleMs, i, j, k) && Timed(calls, ts)
    && (forall n :: 0 <= n <= k ==> (calls[n].id == "a" <==> n == i || n == k))
    && (forall n :: 0 <= n < j ==> calls[n].id != calls[j].id)
  }

  /** No map holds a key before its call. */
  lemma {:induction false} KeysSeen(sweepAt: nat, throttleMs: int, calls: seq<Call>, id: string)
    requires forall n :: 0 <= n < |calls| ==> calls[n].id != id
    ensures id !in SweptMap(sweepAt, throttleMs, calls) && id !in KeptMap(throttleMs, calls)
    decreases |calls|
  {
    if calls != [] { KeysSeen(sweepAt, throttleMs, calls[..|calls| - 1], id); }
  }

  /** From call `i` on, the kept map has the shared key at that reading; the swept one loses it at call `j`. */
  lemma {:induction false} SharedKey(calls: seq<Call>, sweepAt: nat, throttleMs: int, i: nat, j: nat)
    requires throttleMs >= 0 && i < j && i < |calls| && calls[i].now >= throttleMs
    requires forall n :: 0 <= n < |calls| ==> (calls[n].id == "a" <==> n == i)
    requires j < |calls| ==> Loses(calls, sweepAt, throttleMs, i, j)
    ensures var kept := KeptMap(throttleMs, calls); "a" in kept && kept["a"] == calls[i].now
    ensures var m := SweptMap(sweepAt, throttleMs, calls); "a" in m ==> m["a"] == calls[i].now && |calls| <= j
    decreases |calls|
  {
    var n := |calls| - 1;
    var before := calls[..n];
    var m, kept := SweptMap(sweepAt, throttleMs, before), KeptMap(throttleMs, before);
    if n == i {
      KeysSeen(sweepAt, throttleMs, before, "a");
      SharedFirst(m, kept, sweepAt, throttleMs, calls[i]);
    } else {
      assert j < n ==> before[..j] == calls[..j];
      SharedKey(before, sweepAt, throttleMs, i, j);
      SharedOn(m, kept, sweepAt, throttleMs, calls[n]);
      if n == j {
        KeysSeen(sweepAt, throttleMs, before, calls[j].id);
        SharedLost(m, sweepAt, throttleMs, calls[j], calls[i].now);
      }
    }
  }

  /** Call `j` has a new key, comes a throttle after call `i`, and finds the map full. */
  ghost predicate Loses(calls: seq<Call>, sweepAt: nat, throttleMs: int, i: nat, j: nat)
    requires i < j < |calls|
  {
    && calls[j].now - calls[i].now >= throttleMs
    && (forall n :: 0 <= n < j ==> calls[n].id != calls[j].id)
    && ("a" in SweptMap(sweepAt, throttleMs, calls[..j]) ==> |SweptMap(sweepAt, throttleMs, calls[..j])| >= sweepAt)
  }

  lemma SharedFirst(m: Touches, kept: Touches, sweepAt: nat, throttleMs: int, c: Call)
    requires c.id == "a" && c.now >= throttleMs && "a" !in m && "a" !in kept
    ensures var m' := Touched(m, sweepAt, c.id, throttleMs, c.now); "a" in m' && m'["a"] == c.now
    ensures var k' := Kept(kept, c.id, throttleMs, c.now); "a" in k' && k'["a"] == c.now
  {}

  lemma SharedOn(m: Touches, kept: Touches, sweepAt: nat, throttleMs: int, c: Call)
    requires c.id != "a" && "a" in kept
    ensures var m' := Touched(m, sweepAt, c.id, throttleMs, c.now); "a" in m' ==> "a" in m && m'["a"] == m["a"]
    ensures var k' := Kept(kept, c.id, throttleMs, c.now); "a" in k' && k'["a"] == kept["a"]
  {}

  /** A granted call of a new key, a throttle past the entry of `a`, sweeps that away. */
  lemma SharedLost(m: Touches, sweepAt: nat, throttleMs: int, c: Call, at: int)
    requires throttleMs >= 0 && at >= throttleMs && c.id !in m && c.id != "a" && c.now - at >= throttleMs
    requires "a" in m ==> m["a"] == at && |m| >= sweepAt
    ensures "a" !in Touched(m, sweepAt, c.id, throttleMs, c.now)
  {
    assert Due(m, c.id, throttleMs, c.now);
  }

  lemma SharedShows(calls: seq<Call>, ts: seq<int>, sweepAt: nat, throttleMs: int, i: nat, j: nat, k: nat)
    requires throttleMs >= 0 && Shares(calls, ts, throttleMs, i, j, k)
    requires "a" in SweptMap(sweepAt, throttleMs, calls[..j]) ==> |SweptMap(sweepAt, throttleMs, calls[..j])| >= sweepAt
    ensures !Agrees(sweepAt, throttleMs, calls)
  {
    assert calls[..k][..j] == calls[..j];
    SharedKey(calls[..k], sweepAt, throttleMs, i, j);
    DecisionAt(sweepAt, throttleMs, calls, k);
  }

  // ----- keys that fill the map just before call `j` -----

  function Min(a: int, b: int): int { if a < b then a else b }

  /** How many of the first `n` readings other than `i` a new key would be granted at. */
  function Others(ts: seq<int>, throttleMs: int, i: nat, n: nat): (r: nat)
    requires n <= |ts|
  {
    if n == 0 then 0
    else Others(ts, throttleMs, i, n - 1) + if ts[n - 1] >= throttleMs && n - 1 != i then 1 else 0
  }

  lemma {:induction false} OthersAre(ts: seq<int>, throttleMs: int, i: nat, n: nat)
    requires n <= |ts| && i < |ts| && ts[i] >= throttleMs
    ensures Others(ts, throttleMs, i, n) == Grantable(ts, throttleMs, n) - if i < n then 1 else 0
  {
    if n > 0 { OthersAre(ts, throttleMs, i, n - 1); }
  }

  lemma {:induction false} OthersGrow(ts: seq<int>, throttleMs: int, i: nat, n: nat, j: nat)
    requires n <= j <= |ts|
    ensures Others(ts, throttleMs, i, n) <= Others(ts, throttleMs, i, j)
    decreases j - n
  {
    if n < j { OthersGrow(ts, throttleMs, i, n, j - 1); }
  }

  /**
   Before `j` the last `sweepAt - 2` granted readings get a key each and those before them one in common,
   so that the map has `sweepAt` keys at `j` and not before. From `j` on every key is new.
   */
  function KeyFor(ts: seq<int>, throttleMs: int, sweepAt: nat, i: nat, j: nat, k: nat, n: nat): string
    requires n < |ts| && j < |ts| && sweepAt >= 2
  {
    if n == i || n == k then "a"
    else if n < j then
      OthersGrow(ts, throttleMs, i, n + 1, j);
      Filler(Min(Others(ts, throttleMs, i, j) - Others(ts, throttleMs, i, n + 1), sweepAt - 2))
    else Filler(sweepAt + n)
  }

  function Witness(ts: seq<int>, throttleMs: int, sweepAt: nat, i: nat, j: nat, k: nat): seq<Call>
    requires j < |ts| && sweepAt >= 2
  {
    seq(|ts|, n requires 0 <= n < |ts| => Call(KeyFor(ts, throttleMs, sweepAt, i, j, k, n), ts[n]))
  }

  lemma WitnessShares(ts: seq<int>, throttleMs: int, sweepAt: nat, i: nat, j: nat, k: nat)
    requires StepsBack(ts, throttleMs, i, j, k) && sweepAt >= 2
    ensures Shares(Witness(ts, throttleMs, sweepAt, i, j, k), ts, throttleMs, i, j, k)
  {
    var calls := Witness(ts, throttleMs, sweepAt, i, j, k);
    forall n | 0 <= n <= k
      ensures (calls[n].id == "a" <==> n == i || n == k) && (n < j ==> calls[n].id != calls[j].id)
    {
      if n == i || n == k {
        FillersDiffer(sweepAt + j, 0);
      } else if n < j {
        OthersGrow(ts, throttleMs, i, n + 1, j);
        FillersDiffer(Min(Others(ts, throttleMs, i, j) - Others(ts, throttleMs, i, n + 1), sweepAt - 2), sweepAt + j);
      } else {
        FillersDiffer(sweepAt + n, 0);
      }
    }
  }

  /** The fillers up to `top`, and `a`. */
  function Fillers(top: nat): set<string> {
    if top == 0 then {"a"} else Fillers(top - 1) + {Filler(top - 1)}
  }

  lemma {:induction false} FillersAre(top: nat)
    ensures forall x :: x in Fillers(top) <==> x == "a" || exists l: nat :: l < top && x == Filler(l)
  {
    if top > 0 { FillersAre(top - 1); }
  }

  lemma {:induction false} FillersCount(top: nat)
    ensures |Fillers(top)| == top + 1
  {
    if top > 0 {
      FillersCount(top - 1);
      NewFiller(top - 1);
      OneMore(Fillers(top - 1), Filler(top - 1));
    }
  }

  lemma OneMore<T>(s: set<T>, x: T)
    requires x !in s
    ensures |s + {x}| == |s| + 1
  {}

  lemma NewFiller(top: nat)
    ensures Filler(top) !in Fillers(top)
  {
    FillersAre(top);
    FillersDiffer(top, 0);
    forall l: nat | l < top ensures Filler(l) != Filler(top) { FillersDiffer(l, top); }
  }

  /** Which fillers the map holds after `d` of `t` others. */
  predicate HoldsFiller(sweepAt: nat, t: nat, d: nat, l: nat) { d >= 1 && l < sweepAt - 1 && (l == sweepAt - 2 || t - d <= l) }

  ghost predicate Filled(m: Touches, sweepAt: nat, t: nat, d: nat, a: bool)
    requires sweepAt >= 2
  {
    && m.Keys <= Fillers(sweepAt - 1)
    && ("a" in m <==> a)
    && (forall l: nat :: l < sweepAt - 1 ==> (Filler(l) in m <==> HoldsFiller(sweepAt, t, d, l)))
  }

  /** The map is as filled as it should be, or `a` has gone already. */
  ghost predicate FilledOrGone(m: Touches, sweepAt: nat, t: nat, d: nat, a: bool)
    requires sweepAt >= 2
  {
    (a && "a" !in m) || Filled(m, sweepAt, t, d, a)
  }

  /** Only a map with every key is swept. */
  lemma FilledSize(m: Touches, sweepAt: nat, t: nat, d: nat, a: bool)
    requires sweepAt >= 2 && Filled(m, sweepAt, t, d, a)
    ensures |m| >= sweepAt <==> a && d >= 1 && (sweepAt == 2 || t <= d)
  {
    FullKeys(m.Keys, sweepAt);
    FillersAre(sweepAt - 1);
    assert "a" in Fillers(sweepAt - 1) && Filler(0) in Fillers(sweepAt - 1);
    if a && d >= 1 && (sweepAt == 2 || t <= d) {
      FilledAll(m, sweepAt, t, d);
    } else {
      assert "a" in m <==> a;
      assert Filler(0) in m <==> HoldsFiller(sweepAt, t, d, 0);
    }
  }

  lemma FullKeys(keys: set<string>, sweepAt: nat)
    requires sweepAt >= 2 && keys <= Fillers(sweepAt - 1)
    ensures |keys| >= sweepAt <==> keys == Fillers(sweepAt - 1)
  {
    FillersCount(sweepAt - 1);
    SubsetSize(keys, Fillers(sweepAt - 1));
  }

  lemma FilledAll(m: Touches, sweepAt: nat, t: nat, d: nat)
    requires sweepAt >= 2 && Filled(m, sweepAt, t, d, true) && d >= 1 && (sweepAt == 2 || t <= d)
    ensures m.Keys == Fillers(sweepAt - 1)
  {
    FillersAre(sweepAt - 1);
    forall x | x in Fillers(sweepAt - 1) ensures x in m {
      if x != "a" {
        var l: nat :| l < sweepAt - 1 && x == Filler(l);
        assert HoldsFiller(sweepAt, t, d, l);
      }
    }
  }

  /** Every entry was granted. */
  predicate Late(m: Touches, throttleMs: int) { forall id | id in m :: m[id] >= throttleMs }

  lemma {:induction false} EntriesLate(sweepAt: nat, throttleMs: int, calls: seq<Call>)
    requires throttleMs >= 0
    ensures Late(SweptMap(sweepAt, throttleMs, calls), throttleMs)
    decreases |calls|
  {
    if calls != [] {
      var before, c := calls[..|calls| - 1], calls[|calls| - 1];
      EntriesLate(sweepAt, throttleMs, before);
      EntryLate(SweptMap(sweepAt, throttleMs, before), sweepAt, throttleMs, c);
    }
  }

  lemma EntryLate(m: Touches, sweepAt: nat, throttleMs: int, c: Call)
    requires throttleMs >= 0 && Late(m, throttleMs)
    ensures Late(Touched(m, sweepAt, c.id, throttleMs, c.now), throttleMs)
    ensures c.now < throttleMs ==> Touched(m, sweepAt, c.id, throttleMs, c.now) == m
  {
    assert c.id in m ==> m[c.id] >= throttleMs;
  }

  /** One more filler. */
  lemma FillOne(m: Touches, sweepAt: nat, t: nat, d: nat, a: bool, throttleMs: int, now: int)
    requires sweepAt >= 2 && sweepAt - 1 <= t && d < t && Filled(m, sweepAt, t, d, a) && now >= throttleMs
    ensures var m' := Touched(m, sweepAt, Filler(Min(t - d - 1, sweepAt - 2)), throttleMs, now);
      FilledOrGone(m', sweepAt, t, d + 1, a)
  {
    var l' := Min(t - d - 1, sweepAt - 2);
    FilledSize(m, sweepAt, t, d, a);
    FillersAre(sweepAt - 1);
    FillersDiffer(l', 0);
    forall l: nat | l < sweepAt - 1 ensures HoldsFiller(sweepAt, t, d + 1, l) == (HoldsFiller(sweepAt, t, d, l) || l == l') {}
    forall l: nat ensures Filler(l) == Filler(l') <==> l == l' { FillersDiffer(l, l'); }
  }

  lemma FillShared(m: Touches, sweepAt: nat, t: nat, d: nat, throttleMs: int, now: int)
    requires sweepAt >= 2 && Filled(m, sweepAt, t, d, false) && now >= throttleMs
    ensures Filled(Touched(m, sweepAt, "a", throttleMs, now), sweepAt, t, d, true)
  {
    FilledSize(m, sweepAt, t, d, false);
    FillersAre(sweepAt - 1);
    forall l: nat ensures Filler(l) != "a" { FillersDiffer(l, 0); }
  }

  lemma {:induction false} FillRun(calls: seq<Call>, ts: seq<int>, throttleMs: int, sweepAt: nat, i: nat, j: nat, k: nat)
    requires throttleMs >= 0 && StepsBack(ts, throttleMs, i, j, k) && |calls| <= j
    requires sweepAt >= 2 && Grantable(ts, throttleMs, j) >= sweepAt
    requires forall n :: 0 <= n < |calls| ==> calls[n] == Call(KeyFor(ts, throttleMs, sweepAt, i, j, k, n), ts[n])
    ensures var m := SweptMap(sweepAt, throttleMs, calls);
      FilledOrGone(m, sweepAt, Others(ts, throttleMs, i, j), Others(ts, throttleMs, i, |calls|), i < |calls|)
    decreases |calls|
  {
    if calls != [] {
      var n := |calls| - 1;
      FillRun(calls[..n], ts, throttleMs, sweepAt, i, j, k);
      EntriesLate(sweepAt, throttleMs, calls[..n]);
      FillStep(ts, throttleMs, sweepAt, i, j, k, n, SweptMap(sweepAt, throttleMs, calls[..n]));
    }
  }

  lemma FillStep(ts: seq<int>, throttleMs: int, sweepAt: nat, i: nat, j: nat, k: nat, n: nat, m: Touches)
    requires throttleMs >= 0 && StepsBack(ts, throttleMs, i, j, k) && n < j
    requires sweepAt >= 2 && Grantable(ts, throttleMs, j) >= sweepAt
    requires Late(m, throttleMs)
    requires FilledOrGone(m, sweepAt, Others(ts, throttleMs, i, j), Others(ts, throttleMs, i, n), i < n)
    ensures var m' := Touched(m, sweepAt, KeyFor(ts, throttleMs, sweepAt, i, j, k, n), throttleMs, ts[n]);
      FilledOrGone(m', sweepAt, Others(ts, throttleMs, i, j), Others(ts, throttleMs, i, n + 1), i < n + 1)
  {
    OthersAre(ts, throttleMs, i, j);
    OthersGrow(ts, throttleMs, i, n + 1, j);
    var t, d := Others(ts, throttleMs, i, j), Others(ts, throttleMs, i, n);
    if ts[n] < throttleMs {
      EntryLate(m, sweepAt, throttleMs, Call(KeyFor(ts, throttleMs, sweepAt, i, j, k, n), ts[n]));
    } else if n == i {
      FillShared(m, sweepAt, t, d, throttleMs, ts[n]);
    } else {
      FillOther(m, sweepAt, t, d, i < n, throttleMs, ts[n]);
    }
  }

  lemma FillOther(m: Touches, sweepAt: nat, t: nat, d: nat, a: bool, throttleMs: int, now: int)
    requires sweepAt >= 2 && sweepAt - 1 <= t && d < t && now >= throttleMs
    requires FilledOrGone(m, sweepAt, t, d, a)
    ensures var m' := Touched(m, sweepAt, Filler(Min(t - d - 1, sweepAt - 2)), throttleMs, now);
      FilledOrGone(m', sweepAt, t, d + 1, a)
  {
    var l := Min(t - d - 1, sweepAt - 2);
    FillersDiffer(l, 0);
    if a && "a" !in m {
      NotAdded(m, sweepAt, Filler(l), throttleMs, now);
    } else {
      FillOne(m, sweepAt, t, d, a, throttleMs, now);
    }
  }

  lemma NotAdded(m: Touches, sweepAt: nat, id: string, throttleMs: int, now: int)
    requires "a" !in m && id != "a"
    ensures "a" !in Touched(m, sweepAt, id, throttleMs, now)
  {}

  // ----- the exact condition -----

  lemma StepBackShows(ts: seq<int>, throttleMs: int, sweepAt: nat, i: nat, j: nat, k: nat) returns (calls: seq<Call>)
    requires throttleMs >= 0 && StepsBack(ts, throttleMs, i, j, k) && Grantable(ts, throttleMs, j) >= sweepAt
    ensures Timed(calls, ts) && !Agrees(sweepAt, throttleMs, calls)
  {
    if sweepAt >= 2 {
      calls := Witness(ts, throttleMs, sweepAt, i, j, k);
      FillRun(calls[..j], ts, throttleMs, sweepAt, i, j, k);
      OthersAre(ts, throttleMs, i, j);
      var m := SweptMap(sweepAt, throttleMs, calls[..j]);
      var t := Others(ts, throttleMs, i, j);
      if "a" in m { FilledSize(m, sweepAt, t, t, true); }
      WitnessShares(ts, throttleMs, sweepAt, i, j, k);
    } else {
      calls := Witness(ts, throttleMs, 2, i, j, k);
      WitnessShares(ts, throttleMs, 2, i, j, k);
    }
    SharedShows(calls, ts, sweepAt, throttleMs, i, j, k);
  }

  /**
   Exactly when the sweep cannot show at a given threshold: whatever the keys, the swept and the unswept
   throttle decide alike on a clock, if and only if it never, after as many grantable readings as the
   threshold, reads a throttle past one of them and then steps back inside that one's window.
   */
  lemma SweepInvisibleExactly(ts: seq<int>, throttleMs: int, sweepAt: nat)
    requires throttleMs >= 0
    ensures (forall calls | Timed(calls, ts) :: Agrees(sweepAt, throttleMs, calls)) <==> Steady(ts, throttleMs, sweepAt)
  {
    if Steady(ts, throttleMs, sweepAt) {
      forall calls | Timed(calls, ts) ensures Agrees(sweepAt, throttleMs, calls) {
        SteadyAgrees(sweepAt, throttleMs, calls, ts);
      }
    } else {
      var i, j, k :| StepsBack(ts, throttleMs, i, j, k) && Grantable(ts, throttleMs, j) >= sweepAt;
      var calls := StepBackShows(ts, throttleMs, sweepAt, i, j, k);
    }
  }

  /** At every threshold at once: such a step back never happens. */
  lemma SweepInvisibleAnywhere(ts: seq<int>, throttleMs: int)
    requires throttleMs >= 0
    ensures (forall sweepAt: nat, calls | Timed(calls, ts) :: Agrees(sweepAt, throttleMs, calls))
       <==> (forall i, j, k :: !StepsBack(ts, throttleMs, i, j, k))
  {
    if forall i, j, k :: !StepsBack(ts, throttleMs, i, j, k) {
      forall sweepAt: nat, calls | Timed(calls, ts) ensures Agrees(sweepAt, throttleMs, calls) {
        SweepInvisibleExactly(ts, throttleMs, sweepAt);
      }
    } else {
      SweepInvisibleExactly(ts, throttleMs, 0);
    }
  }
}
