/** The API-key touch throttle and its sweep (apps/ingest/src/auth.ts). Times are milliseconds. */
module TouchThrottle {
  const API_KEY_TOUCH_MAP_SWEEP_AT: nat := 4096

  type Touches = map<string, int>

  /** `lastTouchedAt.get(id) ?? 0`. */
  function LastOf(m: Touches, id: string): int { if id in m then m[id] else 0 }

  predicate Due(m: Touches, id: string, throttleMs: int, now: int) { now - LastOf(m, id) >= throttleMs }

  /** `sweepStaleTouches`: drop every entry at least `throttleMs` old. */
  function Swept(m: Touches, throttleMs: int, now: int): Touches {
    map k | k in m && now - m[k] < throttleMs :: m[k]
  }

  /** The map after one call; a granted call sweeps a large map and then records itself. */
  function Touched(m: Touches, sweepAt: nat, id: string, throttleMs: int, now: int): Touches {
    if !Due(m, id, throttleMs, now) then m
    else (if |m| >= sweepAt then Swept(m, throttleMs, now) else m)[id := now]
  }

  class ApiKeyTouches {
    var lastTouchedAt: Touches

    constructor ()
      ensures lastTouchedAt == map[]
    {
      lastTouchedAt := map[];
    }

    method SweepStale(throttleMs: int, now: int)
      modifies this
      ensures lastTouchedAt == Swept(old(lastTouchedAt), throttleMs, now)
      ensures forall k :: k in lastTouchedAt <==> k in old(lastTouchedAt) && now - old(lastTouchedAt)[k] < throttleMs
      ensures forall k | k in lastTouchedAt :: lastTouchedAt[k] == old(lastTouchedAt)[k]
    {
      var todo := lastTouchedAt.Keys;
      while todo != {}
        invariant todo <= old(lastTouchedAt).Keys
        invariant lastTouchedAt
               == map k | k in old(lastTouchedAt) && (k in todo || now - old(lastTouchedAt)[k] < throttleMs) :: old(lastTouchedAt)[k]
        decreases todo
      {
        var k :| k in todo;
        if now - lastTouchedAt[k] >= throttleMs { lastTouchedAt := lastTouchedAt - {k}; }
        todo := todo - {k};
      }
    }

    method ShouldTouch(id: string, throttleMs: int, now: int) returns (due: bool)
      modifies this
      ensures due == Due(old(lastTouchedAt), id, throttleMs, now)
      ensures lastTouchedAt == Touched(old(lastTouchedAt), 4096, id, throttleMs, now)
    {
      var last := if id in lastTouchedAt then lastTouchedAt[id] else 0;
      due := now - last >= throttleMs;
      if due {
        if |lastTouchedAt| >= API_KEY_TOUCH_MAP_SWEEP_AT { SweepStale(throttleMs, now); }
        lastTouchedAt := lastTouchedAt[id := now];
      }
    }
  }

  // ----- call sequences -----

  datatype Call = Call(id: string, now: int)

  /** The decisions of the throttle, starting from `m`. */
  function Decisions(m: Touches, sweepAt: nat, throttleMs: int, calls: seq<Call>): seq<bool>
    decreases |calls|
  {
    if calls == [] then []
    else
      var c := calls[0];
      [Due(m, c.id, throttleMs, c.now)] + Decisions(Touched(m, sweepAt, c.id, throttleMs, c.now), sweepAt, throttleMs, calls[1..])
  }

  /** The map that is never swept. */
  function Kept(m: Touches, id: string, throttleMs: int, now: int): Touches {
    if Due(m, id, throttleMs, now) then m[id := now] else m
  }

  function KeptDecisions(m: Touches, throttleMs: int, calls: seq<Call>): seq<bool>
    decreases |calls|
  {
    if calls == [] then []
    else
      var c := calls[0];
      [Due(m, c.id, throttleMs, c.now)] + KeptDecisions(Kept(m, c.id, throttleMs, c.now), throttleMs, calls[1..])
  }

  /** The clock starts at or after `from`, never below zero, and never goes back. */
  ghost predicate Clock(calls: seq<Call>, from: int) {
    0 <= from && forall i :: 0 <= i < |calls| ==> from <= calls[i].now && (i > 0 ==> calls[i - 1].now <= calls[i].now)
  }

  /** `m` is `k` without entries that were already stale at `now`; no entry lies in the future. */
  ghost predicate Pruned(m: Touches, k: Touches, throttleMs: int, now: int) {
    && (forall id | id in m :: id in k && m[id] == k[id])
    && (forall id | id in k :: 0 <= k[id] <= now && (id !in m ==> now - k[id] >= throttleMs))
  }

  lemma PrunedStep(m: Touches, k: Touches, sweepAt: nat, throttleMs: int, c: Call, now: int)
    requires Pruned(m, k, throttleMs, now) && 0 <= now <= c.now
    ensures Due(m, c.id, throttleMs, c.now) == Due(k, c.id, throttleMs, c.now)
    ensures Pruned(Touched(m, sweepAt, c.id, throttleMs, c.now), Kept(k, c.id, throttleMs, c.now), throttleMs, c.now)
  {}

  lemma {:induction false} SameDecisions(m: Touches, k: Touches, sweepAt: nat, throttleMs: int, calls: seq<Call>, now: int)
    requires Pruned(m, k, throttleMs, now) && Clock(calls, now)
    ensures Decisions(m, sweepAt, throttleMs, calls) == KeptDecisions(k, throttleMs, calls)
    decreases |calls|
  {
    if calls != [] {
      var c := calls[0];
      PrunedStep(m, k, sweepAt, throttleMs, c, now);
      ClockTail(calls, now);
      SameDecisions(Touched(m, sweepAt, c.id, throttleMs, c.now), Kept(k, c.id, throttleMs, c.now), sweepAt, throttleMs, calls[1..], c.now);
    }
  }

  lemma {:induction false} ClockTail(calls: seq<Call>, from: int)
    requires calls != [] && Clock(calls, from)
    ensures Clock(calls[1..], calls[0].now)
  {
    ClockMonotone(calls, from, |calls| - 1);
    forall i | 0 <= i < |calls[1..]| ensures calls[0].now <= calls[1..][i].now { ClockMonotone(calls, from, i + 1); }
  }

  lemma {:induction false} ClockMonotone(calls: seq<Call>, from: int, j: nat)
    requires Clock(calls, from) && j < |calls|
    ensures calls[0].now <= calls[j].now
  {
    if j > 0 { ClockMonotone(calls, from, j - 1); }
  }

  /** Sweeping at any size changes no decision, for any calls on a clock that never goes back. */
  lemma SweepInvisible(sweepAt: nat, throttleMs: int, calls: seq<Call>)
    requires Clock(calls, 0)
    ensures Decisions(map[], sweepAt, throttleMs, calls) == KeptDecisions(map[], throttleMs, calls)
  {
    SameDecisions(map[], map[], sweepAt, throttleMs, calls, 0);
  }

  // ----- what a decision means -----

  /** The time of the last granted call of `id` among the first `i`, or 0. */
  function LastGrant(calls: seq<Call>, granted: seq<bool>, id: string, i: nat): int
    requires |granted| == |calls| && i <= |calls|
  {
    if i == 0 then 0
    else if calls[i - 1].id == id && granted[i - 1] then calls[i - 1].now
    else LastGrant(calls, granted, id, i - 1)
  }

  lemma {:induction false} KeptMeaning(m: Touches, throttleMs: int, all: seq<Call>, granted: seq<bool>, i: nat)
    requires i <= |all| == |granted|
    requires granted[i..] == KeptDecisions(m, throttleMs, all[i..])
    requires forall id :: LastOf(m, id) == LastGrant(all, granted, id, i)
    ensures forall j :: i <= j < |all| ==>
      granted[j] == (all[j].now - LastGrant(all, granted, all[j].id, j) >= throttleMs)
    decreases |all| - i
  {
    if i < |all| {
      var c := all[i];
      assert all[i..][0] == c && all[i..][1..] == all[i + 1..];
      assert granted[i] == granted[i..][0] == Due(m, c.id, throttleMs, c.now);
      assert granted[i + 1..] == granted[i..][1..];
      KeptMeaning(Kept(m, c.id, throttleMs, c.now), throttleMs, all, granted, i + 1);
    }
  }

  lemma {:induction false} DecisionsLength(m: Touches, throttleMs: int, calls: seq<Call>)
    ensures |KeptDecisions(m, throttleMs, calls)| == |calls|
    decreases |calls|
  {
    if calls != [] { DecisionsLength(Kept(m, calls[0].id, throttleMs, calls[0].now), throttleMs, calls[1..]); }
  }

  /**
   A call is granted exactly when its key's last granted call, or time zero, is at least `throttleMs`
   back: granted touches of one key are that far apart, and a call that late is never refused.
   */
  lemma GrantedExactly(sweepAt: nat, throttleMs: int, calls: seq<Call>, j: nat)
    requires Clock(calls, 0) && j < |calls|
    ensures var granted := Decisions(map[], sweepAt, throttleMs, calls);
      |granted| == |calls| &&
      granted[j] == (calls[j].now - LastGrant(calls, granted, calls[j].id, j) >= throttleMs)
  {
    SweepInvisible(sweepAt, throttleMs, calls);
    DecisionsLength(map[], throttleMs, calls);
    var granted := KeptDecisions(map[], throttleMs, calls);
    assert granted[0..] == granted && calls[0..] == calls;
    KeptMeaning(map[], throttleMs, calls, granted, 0);
  }

  /** Two granted touches of one key are at least `throttleMs` apart. */
  lemma {:induction false} GrantsApart(sweepAt: nat, throttleMs: int, calls: seq<Call>, i: nat, j: nat)
    requires Clock(calls, 0) && i < j < |calls| && calls[i].id == calls[j].id
    requires |Decisions(map[], sweepAt, throttleMs, calls)| == |calls|
    requires Decisions(map[], sweepAt, throttleMs, calls)[i] && Decisions(map[], sweepAt, throttleMs, calls)[j]
    ensures calls[j].now - calls[i].now >= throttleMs
  {
    var granted := Decisions(map[], sweepAt, throttleMs, calls);
    GrantedExactly(sweepAt, throttleMs, calls, j);
    LastGrantAfter(calls, granted, calls[i].id, i, j);
  }

  lemma {:induction false} LastGrantAfter(calls: seq<Call>, granted: seq<bool>, id: string, i: nat, j: nat)
    requires Clock(calls, 0) && |granted| == |calls| && i < j <= |calls| && calls[i].id == id && granted[i]
    ensures LastGrant(calls, granted, id, j) >= calls[i].now
    decreases j
  {
    if j - 1 > i {
      LastGrantAfter(calls, granted, id, i, j - 1);
      Between(calls, i, j - 1);
    }
  }

  lemma {:induction false} Between(calls: seq<Call>, i: nat, j: nat)
    requires Clock(calls, 0) && i <= j < |calls|
    ensures calls[i].now <= calls[j].now
    decreases j - i
  {
    if i < j { Between(calls, i, j - 1); }
  }
}
