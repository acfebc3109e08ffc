/** Exactly which clocks let the sweep of the touch throttle show (apps/ingest/src/auth.ts). */
module SweepClock {
  import opened TouchThrottle

  /** The maps after some calls, swept and never swept. */
  function SweptMap(sweepAt: nat, throttleMs: int, calls: seq<Call>): Touches {
    if calls == [] then map[]
    else
      var c := calls[|calls| - 1];
      Touched(SweptMap(sweepAt, throttleMs, calls[..|calls| - 1]), sweepAt, c.id, throttleMs, c.now)
  }

  function KeptMap(throttleMs: int, calls: seq<Call>): Touches {
    if calls == [] then map[]
    else
      var c := calls[|calls| - 1];
      Kept(KeptMap(throttleMs, calls[..|calls| - 1]), c.id, throttleMs, c.now)
  }

  lemma {:induction false} DecisionsSnoc(m: Touches, sweepAt: nat, throttleMs: int, a: seq<Call>, c: Call)
    ensures Decisions(m, sweepAt, throttleMs, a + [c])
         == Decisions(m, sweepAt, throttleMs, a) + [Due(SweptFrom(m, sweepAt, throttleMs, a), c.id, throttleMs, c.now)]
    ensures SweptFrom(m, sweepAt, throttleMs, a + [c])
         == Touched(SweptFrom(m, sweepAt, throttleMs, a), sweepAt, c.id, throttleMs, c.now)
    decreases |a|
  {
    if a == [] {
      assert a + [c] == [c] && [c][1..] == [];
    } else {
      assert (a + [c])[0] == a[0] && (a + [c])[1..] == a[1..] + [c];
      DecisionsSnoc(Touched(m, sweepAt, a[0].id, throttleMs, a[0].now), sweepAt, throttleMs, a[1..], c);
    }
  }

  function SweptFrom(m: Touches, sweepAt: nat, throttleMs: int, calls: seq<Call>): Touches
    decreases |calls|
  {
    if calls == [] then m
    else SweptFrom(Touched(m, sweepAt, calls[0].id, throttleMs, calls[0].now), sweepAt, throttleMs, calls[1..])
  }

  lemma {:induction false} KeptSnoc(m: Touches, throttleMs: int, a: seq<Call>, c: Call)
    ensures KeptDecisions(m, throttleMs, a + [c])
         == KeptDecisions(m, throttleMs, a) + [Due(KeptFrom(m, throttleMs, a), c.id, throttleMs, c.now)]
    ensures KeptFrom(m, throttleMs, a + [c]) == Kept(KeptFrom(m, throttleMs, a), c.id, throttleMs, c.now)
    decreases |a|
  {
    if a == [] {
      assert a + [c] == [c] && [c][1..] == [];
    } else {
      assert (a + [c])[0] == a[0] && (a + [c])[1..] == a[1..] + [c];
      KeptSnoc(Kept(m, a[0].id, throttleMs, a[0].now), throttleMs, a[1..], c);
    }
  }

  function KeptFrom(m: Touches, throttleMs: int, calls: seq<Call>): Touches
    decreases |calls|
  {
    if calls == [] then m else KeptFrom(Kept(m, calls[0].id, throttleMs, calls[0].now), throttleMs, calls[1..])
  }

  /** Decision `n` is made on the maps the first `n` calls leave. */
  lemma {:induction false} DecisionAt(sweepAt: nat, throttleMs: int, calls: seq<Call>, n: nat)
    requires n < |calls|
    ensures |Decisions(map[], sweepAt, throttleMs, calls)| == |calls| == |KeptDecisions(map[], throttleMs, calls)|
    ensures Decisions(map[], sweepAt, throttleMs, calls)[n]
         == Due(SweptMap(sweepAt, throttleMs, calls[..n]), calls[n].id, throttleMs, calls[n].now)
    ensures KeptDecisions(map[], throttleMs, calls)[n]
         == Due(KeptMap(throttleMs, calls[..n]), calls[n].id, throttleMs, calls[n].now)
    decreases |calls|
  {
    var l := |calls| - 1;
    var a, c := calls[..l], calls[l];
    assert calls == a + [c];
    DecisionsSnoc(map[], sweepAt, throttleMs, a, c);
    KeptSnoc(map[], throttleMs, a, c);
    MapsFrom(sweepAt, throttleMs, a);
    Lengths(sweepAt, throttleMs, a);
    if n < l {
      DecisionAt(sweepAt, throttleMs, a, n);
      assert a[..n] == calls[..n];
    }
  }

  lemma {:induction false} Lengths(sweepAt: nat, throttleMs: int, calls: seq<Call>)
    ensures |Decisions(map[], sweepAt, throttleMs, calls)| == |calls| == |KeptDecisions(map[], throttleMs, calls)|
    decreases |calls|
  {
    if calls != [] {
      var l := |calls| - 1;
      assert calls == calls[..l] + [calls[l]];
      DecisionsSnoc(map[], sweepAt, throttleMs, calls[..l], calls[l]);
      KeptSnoc(map[], throttleMs, calls[..l], calls[l]);
      Lengths(sweepAt, throttleMs, calls[..l]);
    }
  }

  lemma {:induction false} MapsFrom(sweepAt: nat, throttleMs: int, calls: seq<Call>)
    ensures SweptFrom(map[], sweepAt, throttleMs, calls) == SweptMap(sweepAt, throttleMs, calls)
    ensures KeptFrom(map[], throttleMs, calls) == KeptMap(throttleMs, calls)
    decreases |calls|
  {
    if calls != [] {
      var l := |calls| - 1;
      assert calls == calls[..l] + [calls[l]];
      DecisionsSnoc(map[], sweepAt, throttleMs, calls[..l], calls[l]);
      KeptSnoc(map[], throttleMs, calls[..l], calls[l]);
      MapsFrom(sweepAt, throttleMs, calls[..l]);
    }
  }

  // ----- the clock condition -----

  /** A reading, one a throttle later, and then one back inside the first one's window. */
  ghost predicate StepsBack(ts: seq<int>, throttleMs: int, i: nat, j: nat, k: nat) {
    i < j < k < |ts| && ts[i] >= throttleMs && ts[k] >= throttleMs
    && ts[j] - ts[i] >= throttleMs && ts[k] - ts[i] < throttleMs
  }

  /** How many of the first `n` readings a key not yet held would be granted at. */
  function Grantable(ts: seq<int>, throttleMs: int, n: nat): (r: nat)
    requires n <= |ts|
  {
    if n == 0 then 0 else Grantable(ts, throttleMs, n - 1) + if ts[n - 1] >= throttleMs then 1 else 0
  }

  /** No such step back after enough readings to fill the map. */
  ghost predicate Steady(ts: seq<int>, throttleMs: int, sweepAt: nat) {
    forall i, j, k :: StepsBack(ts, throttleMs, i, j, k) ==> Grantable(ts, throttleMs, j) < sweepAt
  }

  /** `calls` read the clock at `ts`, whatever their keys. */
  ghost predicate Timed(calls: seq<Call>, ts: seq<int>) {
    |calls| == |ts| && forall i :: 0 <= i < |ts| ==> calls[i].now == ts[i]
  }

  ghost predicate Agrees(sweepAt: nat, throttleMs: int, calls: seq<Call>) {
    Decisions(map[], sweepAt, throttleMs, calls) == KeptDecisions(map[], throttleMs, calls)
  }

  /** The time `v` was read among the first `n`. */
  ghost predicate Read(ts: seq<int>, n: nat, v: int) { exists i :: 0 <= i < n <= |ts| && ts[i] == v }

  /** It was read, and a later reading among the first `n`, when a sweep was possible, is a throttle past it. */
  ghost predicate Outdated(ts: seq<int>, throttleMs: int, sweepAt: nat, n: nat, v: int) {
    exists i: nat, j: nat :: i < j < n <= |ts| && ts[i] == v && ts[j] - ts[i] >= throttleMs && Grantable(ts, throttleMs, j) >= sweepAt
  }

  /**
   The swept map is the kept one without outdated entries, every entry is a reading that was granted,
   and there are no more of them than such readings.
   */
  ghost predicate Thinned(m: Touches, k: Touches, ts: seq<int>, throttleMs: int, sweepAt: nat, n: nat) {
    && n <= |ts| && |m| <= Grantable(ts, throttleMs, n)
    && (forall id | id in m :: id in k && m[id] == k[id])
    && (forall id | id in k :: k[id] >= throttleMs && Read(ts, n, k[id]))
    && (forall id | id in k && id !in m :: Outdated(ts, throttleMs, sweepAt, n, k[id]))
  }

  lemma ThinnedDue(m: Touches, k: Touches, ts: seq<int>, throttleMs: int, sweepAt: nat, n: nat, id: string)
    requires throttleMs >= 0 && n < |ts| && Steady(ts, throttleMs, sweepAt) && Thinned(m, k, ts, throttleMs, sweepAt, n)
    ensures Due(m, id, throttleMs, ts[n]) == Due(k, id, throttleMs, ts[n])
    ensures Due(k, id, throttleMs, ts[n]) ==> ts[n] >= throttleMs
  {
    if id in k && id !in m {
      var i: nat, j: nat :| i < j < n <= |ts| && ts[i] == k[id] && ts[j] - ts[i] >= throttleMs && Grantable(ts, throttleMs, j) >= sweepAt;
      assert !StepsBack(ts, throttleMs, i, j, n);
    }
  }

  lemma ThinnedStep(m: Touches, k: Touches, ts: seq<int>, throttleMs: int, n: nat, id: string, sweepAt: nat)
    requires throttleMs >= 0 && n < |ts| && Steady(ts, throttleMs, sweepAt) && Thinned(m, k, ts, throttleMs, sweepAt, n)
    ensures Thinned(Touched(m, sweepAt, id, throttleMs, ts[n]), Kept(k, id, throttleMs, ts[n]), ts, throttleMs, sweepAt, n + 1)
  {
    ThinnedDue(m, k, ts, throttleMs, sweepAt, n, id);
    TouchedSize(m, sweepAt, id, throttleMs, ts[n]);
    var m', k' := Touched(m, sweepAt, id, throttleMs, ts[n]), Kept(k, id, throttleMs, ts[n]);
    forall x | x in k' ensures k'[x] >= throttleMs && Read(ts, n + 1, k'[x]) {
      if x in k && k'[x] == k[x] {
        var i :| 0 <= i < n <= |ts| && ts[i] == k[x];
      } else {
        assert ts[n] == k'[x];
      }
    }
    forall x | x in k' && x !in m' ensures Outdated(ts, throttleMs, sweepAt, n + 1, k'[x]) {
      if x in m {
        var i :| 0 <= i < n <= |ts| && ts[i] == k[x];
        assert ts[n] - ts[i] >= throttleMs && Grantable(ts, throttleMs, n) >= sweepAt;
      } else {
        var i: nat, j: nat :| i < j < n <= |ts| && ts[i] == k[x] && ts[j] - ts[i] >= throttleMs && Grantable(ts, throttleMs, j) >= sweepAt;
      }
    }
  }

  /** A call adds at most its own key, and only when it is granted. */
  lemma TouchedSize(m: Touches, sweepAt: nat, id: string, throttleMs: int, now: int)
    ensures |Touched(m, sweepAt, id, throttleMs, now)| <= |m| + if Due(m, id, throttleMs, now) then 1 else 0
  {
    SubsetSize(Swept(m, throttleMs, now).Keys, m.Keys);
    SubsetSize(Touched(m, sweepAt, id, throttleMs, now).Keys, m.Keys + {id});
  }

  lemma {:induction false} SubsetSize<T>(a: set<T>, b: set<T>)
    requires a <= b
    ensures |a| <= |b| && (|a| == |b| ==> a == b)
  {
    if a != {} {
      var x :| x in a;
      SubsetSize(a - {x}, b - {x});
    }
  }

  lemma {:induction false} ThinnedRun(sweepAt: nat, throttleMs: int, calls: seq<Call>, ts: seq<int>, n: nat)
    requires throttleMs >= 0 && Timed(calls, ts) && Steady(ts, throttleMs, sweepAt) && n <= |ts|
    ensures Thinned(SweptMap(sweepAt, throttleMs, calls[..n]), KeptMap(throttleMs, calls[..n]), ts, throttleMs, sweepAt, n)
  {
    if n > 0 {
      ThinnedRun(sweepAt, throttleMs, calls, ts, n - 1);
      assert calls[..n][..n - 1] == calls[..n - 1];
      ThinnedStep(SweptMap(sweepAt, throttleMs, calls[..n - 1]), KeptMap(throttleMs, calls[..n - 1]), ts, throttleMs, n - 1,
                  calls[n - 1].id, sweepAt);
    }
  }

  lemma SteadyAgrees(sweepAt: nat, throttleMs: int, calls: seq<Call>, ts: seq<int>)
    requires throttleMs >= 0 && Timed(calls, ts) && Steady(ts, throttleMs, sweepAt)
    ensures Agrees(sweepAt, throttleMs, calls)
  {
    Lengths(sweepAt, throttleMs, calls);
    forall n | 0 <= n < |calls|
      ensures Decisions(map[], sweepAt, throttleMs, calls)[n] == KeptDecisions(map[], throttleMs, calls)[n]
    {
      DecisionAt(sweepAt, throttleMs, calls, n);
      ThinnedRun(sweepAt, throttleMs, calls, ts, n);
      ThinnedDue(SweptMap(sweepAt, throttleMs, calls[..n]), KeptMap(throttleMs, calls[..n]), ts, throttleMs, sweepAt, n, calls[n].id);
    }
  }
}
