/**
 Which content survives: when the newest content enqueued for a key is in its row or is the archive's
 last accepted payload, and what happens when it is not.
 */
module Newest {
  import opened Wrappers
  import opened QueueTable
  import opened Delivery

  /** The newest content enqueued for `k` is in its row or is the archive's last accepted payload. */
  ghost predicate Newest(s: Sys, k: Key)
    requires k in s.latest
  {
    match RowOf(s.table.rows, k)
    case Some(r) => r.payload == s.latest[k]
    case None => k in s.accepted && s.accepted[k] == s.latest[k]
  }

  /** What the state says about the newest content of one key. */
  ghost predicate Tracked(sha: string -> string, s: Sys, k: Key) {
    var row := RowOf(s.table.rows, k);
    && (row.Some? ==> k in s.latest && row.value.payload == s.latest[k] && row.value.hash == sha(s.latest[k]))
    && (row.Some? ==> k !in s.overtaken)
    && (k in s.latest ==> (Newest(s, k) <==> k !in s.overtaken))
  }

  /** For a landed batch, what the archive last heard is what it holds. */
  ghost predicate LandedLast(s: Sys) {
    s.out.Some? && s.out.value.landed ==>
      forall r | r in s.out.value.batch :: r.key in s.accepted && s.accepted[r.key] == Heard(s.late, r)
  }

  /** No batch given up on names a key twice. */
  ghost predicate LimboDistinct(s: Sys) { forall b | b in s.limbo :: UniqueKeys(b) }

  ghost predicate NewestInv(sha: string -> string, s: Sys) {
    Inv(s) && LandedLast(s) && LimboDistinct(s) && forall k :: Tracked(sha, s, k)
  }

  lemma NewestCapture(sha: string -> string, s: Sys, key: Key, payload: string, k: Key)
    requires Valid(s.table) && Tracked(sha, s, k) && Tracked(sha, s, key) && Injective(sha)
    ensures Tracked(sha, Next(sha, s, Capture(key, payload)), k)
  {
    if !s.crashed { EnqueueView(s.table, sha, key, payload, k); }
  }

  lemma NewestClaim(sha: string -> string, s: Sys, now: nat, limit: nat, k: Key)
    requires Valid(s.table) && Tracked(sha, s, k)
    ensures Tracked(sha, Next(sha, s, Claiming(now, limit)), k)
  {
    ClaimView(s.table, now, limit, k);
  }

  lemma NewestSettle(sha: string -> string, s: Sys, o: PostOutcome, at: nat, k: Key)
    requires Valid(s.table) && BatchStored(s) && LandedLast(s) && Tracked(sha, s, k)
    ensures Tracked(sha, Next(sha, s, Settling(o, at)), k)
  {
    var s' := Next(sha, s, Settling(o, at));
    if s' != s {
      var b := s.out.value.batch;
      SettleView(s.table, b, o, at, k);
      var a := RowOf(s.table.rows, k);
      if o.Delivered? && a.Some? {
        if a.value.id in Ids(b) {
          BatchIds(s, k);
          var r :| r in b && r.key == k;
          assert forall q | q in b && q.key == k :: q == r;
          assert k in Dropped(s.table, s.late, b) <==> a.value.payload != Heard(s.late, r);
        } else {
          assert k !in Dropped(s.table, s.late, b);
        }
      }
    }
  }

  lemma NewestLand(sha: string -> string, s: Sys, k: Key)
    requires Valid(s.table) && BatchStored(s) && Tracked(sha, s, k)
    ensures Tracked(sha, Next(sha, s, Land), k)
  {
    if s.out.Some? { AcceptView(s.accepted, s.out.value.batch, k); }
  }

  lemma NewestLate(sha: string -> string, s: Sys, b: seq<Row>, k: Key)
    requires Tracked(sha, s, k) && LimboDistinct(s)
    ensures Tracked(sha, Next(sha, s, LateLand(b)), k)
  {
    if b in s.limbo {
      AcceptView(s.accepted, b, k);
      if r :| r in b && r.key == k {
        assert k in KeysOf(b);
        assert forall q | q in b && q.key == k :: q.payload == Accept(s.accepted, b)[k];
      }
    }
  }

  lemma NewestBoot(sha: string -> string, s: Sys, k: Key)
    requires Tracked(sha, s, k)
    ensures Tracked(sha, Next(sha, s, Boot), k)
  {
    UpdateView(s.table.rows, SetRecovered(), k);
  }

  lemma LandedStays(sha: string -> string, s: Sys, step: Step)
    requires BatchStored(s) && LandedLast(s) && LimboDistinct(s)
    ensures LandedLast(Next(sha, s, step)) && LimboDistinct(Next(sha, s, step))
  {
    if s.out.Some? {
      match step
      case Land =>
        forall r | r in s.out.value.batch { AcceptView(s.accepted, s.out.value.batch, r.key); }
      case LateLand(b) =>
        if b in s.limbo {
          forall r | r in s.out.value.batch { LateHeard(s.accepted, s.late, b, r.key); }
        }
      case _ =>
    }
  }

  /** A late landing tells the archive and the history the same thing. */
  lemma LateHeard(accepted: map<Key, string>, late: map<Key, string>, b: seq<Row>, k: Key)
    requires UniqueKeys(b)
    ensures (exists r :: r in b && r.key == k) ==>
              k in Accept(accepted, b) && k in Accept(late, b) && Accept(accepted, b)[k] == Accept(late, b)[k]
    ensures (forall r | r in b :: r.key != k) ==>
              && (k in Accept(late, b) <==> k in late) && (k in late ==> Accept(late, b)[k] == late[k])
              && (k in Accept(accepted, b) <==> k in accepted) && (k in accepted ==> Accept(accepted, b)[k] == accepted[k])
  {
    AcceptView(accepted, b, k);
    AcceptView(late, b, k);
  }

  lemma NewestStep(sha: string -> string, s: Sys, step: Step)
    requires NewestInv(sha, s) && Injective(sha)
    ensures NewestInv(sha, Next(sha, s, step))
  {
    StepKeeps(sha, s, step);
    LandedStays(sha, s, step);
    forall k ensures Tracked(sha, Next(sha, s, step), k) {
      assert Tracked(sha, s, k);
      match step
      case Capture(key, p) => assert Tracked(sha, s, key); NewestCapture(sha, s, key, p, k);
      case Claiming(now, limit) => NewestClaim(sha, s, now, limit, k);
      case Settling(o, at) => NewestSettle(sha, s, o, at, k);
      case Land => NewestLand(sha, s, k);
      case Boot => NewestBoot(sha, s, k);
      case LateLand(b) => NewestLate(sha, s, b, k);
      case Crash =>
    }
  }

  lemma {:induction false} NewestRun(sha: string -> string, s: Sys, steps: seq<Step>)
    requires NewestInv(sha, s) && Injective(sha)
    ensures NewestInv(sha, Run(sha, s, steps))
    decreases |steps|
  {
    if steps != [] {
      NewestStep(sha, s, steps[0]);
      NewestRun(sha, Next(sha, s, steps[0]), steps[1..]);
    }
  }

  /**
   Exactly when the newest content survives, in every run and for every key: its newest content is
   queued or is the archive's last word, if and only if since it was last enqueued no ack dropped its
   row while the archive had last heard other content, and no POST given up on brought other content
   after the row was gone, unless a later one brought it back.
   */
  lemma NewestExactly(sha: string -> string, steps: seq<Step>, k: Key)
    requires Injective(sha)
    requires k in Run(sha, Init, steps).latest
    ensures var s := Run(sha, Init, steps);
      Newest(s, k) <==> k !in s.overtaken
  {
    NewestRun(sha, Init, steps);
    assert Tracked(sha, Run(sha, Init, steps), k);
  }

  /** Whenever `k` is enqueued while a pending or abandoned POST still holds it, it is with that content. */
  ghost predicate Undisturbed(sha: string -> string, s: Sys, steps: seq<Step>, k: Key)
    decreases |steps|
  {
    steps == [] || (Calm(s, steps[0], k) && Undisturbed(sha, Next(sha, s, steps[0]), steps[1..], k))
  }

  ghost predicate Calm(s: Sys, step: Step, k: Key) {
    step.Capture? && step.key == k ==> Carry(s, k, step.payload)
  }

  /** Every pending or abandoned row of `k` carries `p`. */
  ghost predicate Carry(s: Sys, k: Key, p: string) {
    && (s.out.Some? ==> forall r | r in s.out.value.batch && r.key == k :: r.payload == p)
    && (forall b, r | b in s.limbo && r in b && r.key == k :: r.payload == p)
  }

  /** All that is on its way for `k` is its newest content, and what has landed or is no longer queued is too. */
  ghost predicate Settled(s: Sys, k: Key) {
    k in s.latest ==>
      && Carry(s, k, s.latest[k])
      && (RowOf(s.table.rows, k).None? ==> k in s.accepted && s.accepted[k] == s.latest[k])
      && (s.out.Some? && s.out.value.landed && (exists r :: r in s.out.value.batch && r.key == k) ==>
            k in s.accepted && s.accepted[k] == s.latest[k])
  }

  /** Nothing on its way names a key that was never enqueued. */
  ghost predicate OnlyKnown(s: Sys) { forall b, r | b in s.limbo && r in b :: r.key in s.latest }

  lemma SettledStep(sha: string -> string, s: Sys, step: Step, k: Key)
    requires NewestInv(sha, s) && Injective(sha) && OnlyKnown(s) && Settled(s, k) && Calm(s, step, k)
    ensures Settled(Next(sha, s, step), k)
  {
    assert Tracked(sha, s, k);
    match step
    case Capture(key, p) =>
      if !s.crashed {
        EnqueueView(s.table, sha, key, p, k);
        if s.out.Some? && key == k { BatchKnown(sha, s, k); }
      }
    case Claiming(now, limit) =>
      ClaimedKeys(s.table, now, limit);
      ClaimView(s.table, now, limit, k);
    case Land =>
      if s.out.Some? { AcceptView(s.accepted, s.out.value.batch, k); }
    case Settling(o, at) => SettledSettling(sha, s, o, at, k);
    case Crash =>
    case Boot => UpdateView(s.table.rows, SetRecovered(), k);
    case LateLand(b) => AcceptView(s.accepted, b, k);
  }

  lemma SettledSettling(sha: string -> string, s: Sys, o: PostOutcome, at: nat, k: Key)
    requires Valid(s.table) && BatchStored(s) && Tracked(sha, s, k) && Settled(s, k)
    ensures Settled(Next(sha, s, Settling(o, at)), k)
  {
    var s' := Next(sha, s, Settling(o, at));
    if s' != s && k in s.latest {
      var b := s.out.value.batch;
      SettleView(s.table, b, o, at, k);
      if RowOf(s.table.rows, k).Some? && RowOf(s.table.rows, k).value.id in Ids(b) { BatchIds(s, k); }
      GivenUpCarries(s, b, k, s.latest[k]);
      assert Carry(s', k, s.latest[k]);
    }
  }

  lemma GivenUpCarries(s: Sys, b: seq<Row>, k: Key, p: string)
    requires Carry(s, k, p) && s.out.Some? && s.out.value.batch == b
    ensures forall x, r | x in s.limbo + {b} && r in x && r.key == k :: r.payload == p
  {}

  lemma BatchKnown(sha: string -> string, s: Sys, k: Key)
    requires NewestInv(sha, s) && s.out.Some?
    ensures (exists r :: r in s.out.value.batch && r.key == k) ==> k in s.latest
  {
    assert Tracked(sha, s, k);
  }

  lemma OnlyKnownStep(sha: string -> string, s: Sys, step: Step)
    requires NewestInv(sha, s) && OnlyKnown(s)
    ensures OnlyKnown(Next(sha, s, step))
  {
    if s.out.Some? {
      forall r | r in s.out.value.batch ensures r.key in s.latest { BatchKnown(sha, s, r.key); }
    }
  }

  /**
   If no enqueue changes the content of `k` while a pending or abandoned POST still holds it, then in
   every run, late landings and crashes included, its newest content is in its row or is the last
   payload accepted.
   */
  lemma UndisturbedIsNewest(sha: string -> string, steps: seq<Step>, k: Key)
    requires Injective(sha) && Undisturbed(sha, Init, steps, k)
    requires k in Run(sha, Init, steps).latest
    ensures Newest(Run(sha, Init, steps), k)
  {
    UndisturbedRun(sha, Init, steps, k);
    NewestRun(sha, Init, steps);
    assert Tracked(sha, Run(sha, Init, steps), k);
  }

  lemma {:induction false} UndisturbedRun(sha: string -> string, s: Sys, steps: seq<Step>, k: Key)
    requires NewestInv(sha, s) && Injective(sha) && OnlyKnown(s) && Settled(s, k) && Undisturbed(sha, s, steps, k)
    ensures Settled(Run(sha, s, steps), k)
    decreases |steps|
  {
    if steps != [] {
      SettledStep(sha, s, steps[0], k);
      OnlyKnownStep(sha, s, steps[0]);
      NewestStep(sha, s, steps[0]);
      UndisturbedRun(sha, Next(sha, s, steps[0]), steps[1..], k);
    }
  }

  /** The failing family is real: rewrite a claimed row, then ack it, and the new content is gone. */
  lemma AckDropsRewrite(sha: string -> string, k: Key, a: string, b: string)
    requires sha(a) != sha(b)
    ensures var s := Run(sha, Init, [Capture(k, a), Claiming(0, 1), Capture(k, b), Land, Settling(Delivered, 0)]);
      RowOf(s.table.rows, k).None? && s.latest == map[k := b] && s.accepted == map[k := a]
  {
    var claimed := ClaimedOnce(sha, k, a);
    var rewritten := RewrittenRow(sha, k, a, b);
    assert Run(sha, rewritten, [Settling(Delivered, 0)]) == Next(sha, rewritten, Settling(Delivered, 0)) by {
      RunCons(sha, rewritten, Settling(Delivered, 0), []);
    }
    RunCons(sha, Next(sha, claimed, Capture(k, b)), Land, [Settling(Delivered, 0)]);
    RunCons(sha, claimed, Capture(k, b), [Land, Settling(Delivered, 0)]);
    var rest := [Capture(k, b), Land, Settling(Delivered, 0)];
    RunCons(sha, Next(sha, Init, Capture(k, a)), Claiming(0, 1), rest);
    RunCons(sha, Init, Capture(k, a), [Claiming(0, 1)] + rest);
    assert [Capture(k, a)] + ([Claiming(0, 1)] + rest)
        == [Capture(k, a), Claiming(0, 1), Capture(k, b), Land, Settling(Delivered, 0)];
    assert Delete(rewritten.table.rows, Ids(rewritten.out.value.batch)) == [];
  }

  /** The state after one capture and its claim. */
  lemma ClaimedOnce(sha: string -> string, k: Key, a: string) returns (s: Sys)
    ensures var r := Fresh(1, sha, k, a);
      s == Next(sha, Next(sha, Init, Capture(k, a)), Claiming(0, 1))
      && s == Sys(Table([r.(status := Inflight)], 2), Some(Outstanding([r], false)), false, map[], map[k := a], {}, {}, map[])
  {
    var s1 := CapturedOnce(sha, k, a);
    ClaimOne(Fresh(1, sha, k, a));
    s := Next(sha, s1, Claiming(0, 1));
  }

  lemma CapturedOnce(sha: string -> string, k: Key, a: string) returns (s: Sys)
    ensures s == Next(sha, Init, Capture(k, a))
         && s == Init.(table := Table([Fresh(1, sha, k, a)], 2), latest := map[k := a])
  {
    s := Next(sha, Init, Capture(k, a));
    assert s.table == Table([Fresh(1, sha, k, a)], 2);
  }

  lemma ClaimOne(r: Row)
    requires Due(r, 0)
    ensures Claim(Table([r], 2), 0, 1) == (Table([r.(status := Inflight)], 2), [r])
  {
    assert Select([r], 0, 1) == [r] by { assert Select([r][1..], 0, 0) == []; }
    assert Update([r], SetInflight(Ids([r]))) == [r.(status := Inflight)];
  }

  /** The claimed row is rewritten, and the archive accepts the claimed content. */
  lemma RewrittenRow(sha: string -> string, k: Key, a: string, b: string) returns (s: Sys)
    requires sha(a) != sha(b)
    ensures var claimed := Sys(Table([Fresh(1, sha, k, a).(status := Inflight)], 2),
                               Some(Outstanding([Fresh(1, sha, k, a)], false)), false, map[], map[k := a], {}, {}, map[]);
      s == Next(sha, Next(sha, claimed, Capture(k, b)), Land)
      && s.table == Table([Fresh(1, sha, k, b)], 2) && s.latest == map[k := b] && s.accepted == map[k := a]
      && s.out == Some(Outstanding([Fresh(1, sha, k, a)], true)) && !s.crashed
  {
    var r := Fresh(1, sha, k, a);
    var claimed := Sys(Table([r.(status := Inflight)], 2), Some(Outstanding([r], false)), false, map[], map[k := a], {}, {}, map[]);
    var s3 := Next(sha, claimed, Capture(k, b));
    assert s3.table.rows == [Fresh(1, sha, k, b)];
    assert Accept(map[], [r]) == map[k := a] by { assert Accept(map[k := a], [r][1..]) == map[k := a]; }
    s := Next(sha, s3, Land);
  }

  /** Why a late landing is set apart: the archive may be taken back to content it had moved past. */
  lemma LateLandGoesBack(sha: string -> string, k: Key, a: string, b: string)
    requires sha(a) != sha(b)
    ensures var r := Fresh(1, sha, k, a);
      var s := Run(sha, Init, [Capture(k, a), Claiming(0, 1), Settling(Cancelled, 0), Capture(k, b), Claiming(0, 1),
                               Land, Settling(Delivered, 0), LateLand([r])]);
      s.table.rows == [] && s.latest == map[k := b] && s.accepted == map[k := a] && s.late == map[k := a] && s.overtaken == {k}
  {
    var r := Fresh(1, sha, k, a);
    var s2 := ClaimedOnce(sha, k, a);
    var s3 := GivenUp(sha, k, a, s2);
    var s5 := ClaimedAgain(sha, k, a, b, s3);
    var s8 := LandedTwice(sha, k, a, b, s5);
    var tail := [LateLand([r])];
    RunCons(sha, Next(sha, Next(sha, s5, Land), Settling(Delivered, 0)), LateLand([r]), []);
    RunCons(sha, Next(sha, s5, Land), Settling(Delivered, 0), tail);
    RunCons(sha, s5, Land, [Settling(Delivered, 0)] + tail);
    var tail5 := [Land] + ([Settling(Delivered, 0)] + tail);
    RunCons(sha, Next(sha, s3, Capture(k, b)), Claiming(0, 1), tail5);
    RunCons(sha, s3, Capture(k, b), [Claiming(0, 1)] + tail5);
    var tail3 := [Capture(k, b)] + ([Claiming(0, 1)] + tail5);
    RunCons(sha, s2, Settling(Cancelled, 0), tail3);
    RunCons(sha, Next(sha, Init, Capture(k, a)), Claiming(0, 1), [Settling(Cancelled, 0)] + tail3);
    RunCons(sha, Init, Capture(k, a), [Claiming(0, 1)] + ([Settling(Cancelled, 0)] + tail3));
    assert [Capture(k, a)] + ([Claiming(0, 1)] + ([Settling(Cancelled, 0)] + tail3))
        == [Capture(k, a), Claiming(0, 1), Settling(Cancelled, 0), Capture(k, b), Claiming(0, 1),
            Land, Settling(Delivered, 0), LateLand([r])];
  }

  lemma GivenUp(sha: string -> string, k: Key, a: string, s2: Sys) returns (s: Sys)
    requires var r := Fresh(1, sha, k, a);
      s2 == Sys(Table([r.(status := Inflight)], 2), Some(Outstanding([r], false)), false, map[], map[k := a], {}, {}, map[])
    ensures s == Next(sha, s2, Settling(Cancelled, 0))
         && s == Sys(Table([Fresh(1, sha, k, a)], 2), None, false, map[], map[k := a], {[Fresh(1, sha, k, a)]}, {}, map[])
  {
    var r := Fresh(1, sha, k, a);
    s := Next(sha, s2, Settling(Cancelled, 0));
    assert r in [r];
    assert Update([r.(status := Inflight)], SetReleased(Ids([r]))) == [r];
  }

  lemma ClaimedAgain(sha: string -> string, k: Key, a: string, b: string, s3: Sys) returns (s: Sys)
    requires sha(a) != sha(b)
    requires s3 == Sys(Table([Fresh(1, sha, k, a)], 2), None, false, map[], map[k := a], {[Fresh(1, sha, k, a)]}, {}, map[])
    ensures var q := Fresh(1, sha, k, b);
      s == Next(sha, Next(sha, s3, Capture(k, b)), Claiming(0, 1))
      && s == Sys(Table([q.(status := Inflight)], 2), Some(Outstanding([q], false)), false, map[], map[k := b],
                  {[Fresh(1, sha, k, a)]}, {}, map[])
  {
    var s4 := Next(sha, s3, Capture(k, b));
    assert s4.table == Table([Fresh(1, sha, k, b)], 2);
    ClaimOne(Fresh(1, sha, k, b));
    s := Next(sha, s4, Claiming(0, 1));
  }

  lemma LandedTwice(sha: string -> string, k: Key, a: string, b: string, s5: Sys) returns (s: Sys)
    requires a != b
    requires var q := Fresh(1, sha, k, b);
      s5 == Sys(Table([q.(status := Inflight)], 2), Some(Outstanding([q], false)), false, map[], map[k := b],
                {[Fresh(1, sha, k, a)]}, {}, map[])
    ensures s == Next(sha, Next(sha, Next(sha, s5, Land), Settling(Delivered, 0)), LateLand([Fresh(1, sha, k, a)]))
    ensures s.table.rows == [] && s.latest == map[k := b] && s.accepted == map[k := a] && s.late == map[k := a] && s.overtaken == {k}
  {
    var r, q := Fresh(1, sha, k, a), Fresh(1, sha, k, b);
    AcceptOne(map[], q);
    var s6 := Next(sha, s5, Land);
    assert s6.accepted == map[k := b] && s6.late == map[];
    var s7 := Next(sha, s6, Settling(Delivered, 0));
    assert q in [q];
    assert s7.table.rows == [] && s7.overtaken == {};
    AcceptOne(map[k := b], r);
    AcceptOne(map[], r);
    s := Next(sha, s7, LateLand([r]));
    assert r in [r];
    assert Reverted(s7.table, s7.latest, [r]) == {k};
  }

  lemma AcceptOne(accepted: map<Key, string>, r: Row)
    ensures Accept(accepted, [r]) == accepted[r.key := r.payload]
  {
    assert [r][1..] == [];
  }
}
