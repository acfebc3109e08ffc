/**
 How fast the queue empties: claims never overlap, no row is ever scheduled more than the backoff cap
 ahead, and once that long passes without a failure a known number of rounds delivers everything.
 */
module Draining {
  import opened Wrappers
  import opened QueueTable
  import opened Delivery

  // ----- successive claims -----

  /** Claims made one after another, each with its own time and limit, with no release in between. */
  function ClaimMany(t: Table, reqs: seq<(nat, nat)>): seq<seq<Row>>
    decreases |reqs|
  {
    if reqs == [] then []
    else
      var (t', batch) := Claim(t, reqs[0].0, reqs[0].1);
      [batch] + ClaimMany(t', reqs[1..])
  }

  lemma {:induction false} ClaimManyIdle(t: Table, reqs: seq<(nat, nat)>, id: nat)
    requires Valid(t)
    requires exists r :: r in t.rows && r.id == id && r.status == Inflight
    ensures forall b | b in ClaimMany(t, reqs) :: id !in Ids(b)
    decreases |reqs|
  {
    if reqs != [] {
      var (t', batch) := Claim(t, reqs[0].0, reqs[0].1);
      SelectSpec(t.rows, reqs[0].0, reqs[0].1);
      ClaimView(t, reqs[0].0, reqs[0].1, Key(Raw, ""));
      var r :| r in t.rows && r.id == id && r.status == Inflight;
      if s :| s in batch && s.id == id { IdInjective(t, s, r); }
      var i :| 0 <= i < |t.rows| && t.rows[i] == r;
      assert t'.rows[i] == r;
      ClaimManyIdle(t', reqs[1..], id);
    }
  }

  lemma ClaimThenMany(t: Table, req: (nat, nat), reqs: seq<(nat, nat)>, id: nat)
    requires Valid(t) && id in Ids(Claim(t, req.0, req.1).1)
    ensures forall b | b in ClaimMany(Claim(t, req.0, req.1).0, reqs) :: id !in Ids(b)
  {
    var (t', batch) := Claim(t, req.0, req.1);
    SelectSpec(t.rows, req.0, req.1);
    ClaimView(t, req.0, req.1, Key(Raw, ""));
    var r :| r in batch && r.id == id;
    var i :| 0 <= i < |t.rows| && t.rows[i] == r;
    assert t'.rows[i] == r.(status := Inflight);
    ClaimManyIdle(t', reqs, id);
  }

  ghost predicate PairwiseDisjoint(bs: seq<seq<Row>>) {
    forall i, j :: 0 <= i < j < |bs| ==> Ids(bs[i]) !! Ids(bs[j])
  }

  /** Successive claims return pairwise disjoint rows. */
  lemma {:induction false} ClaimsDisjoint(t: Table, reqs: seq<(nat, nat)>)
    requires Valid(t)
    ensures PairwiseDisjoint(ClaimMany(t, reqs))
    decreases |reqs|
  {
    if reqs != [] {
      var (t', batch) := Claim(t, reqs[0].0, reqs[0].1);
      ClaimView(t, reqs[0].0, reqs[0].1, Key(Raw, ""));
      ClaimsDisjoint(t', reqs[1..]);
      forall id | id in Ids(batch) { ClaimThenMany(t, reqs[0], reqs[1..], id); }
    }
  }

  // ----- the backoff horizon -----

  ghost predicate Within(t: Table, horizon: nat) {
    forall r | r in t.rows :: r.nextAttemptAt <= horizon
  }

  predicate StepBy(step: Step, now: nat) {
    match step
    case Claiming(t, _) => t <= now
    case Settling(_, t) => t <= now
    case _ => true
  }

  lemma {:induction false} FailAllWithin(t: Table, batch: seq<Row>, at: nat, now: nat)
    requires Within(t, now + BACKOFF_CAP_MS) && at <= now
    ensures Within(FailAll(t, batch, at), now + BACKOFF_CAP_MS)
    decreases |batch|
  {
    if batch != [] {
      DelayGrows(batch[0].attempts, batch[0].attempts);
      FailAllWithin(MarkFailed(t, batch[0].id, batch[0].attempts, at), batch[1..], at, now);
    }
  }

  lemma StepWithin(sha: string -> string, s: Sys, step: Step, now: nat)
    requires Within(s.table, now + BACKOFF_CAP_MS) && StepBy(step, now)
    ensures Within(Next(sha, s, step).table, now + BACKOFF_CAP_MS)
  {
    if step.Settling? && s.out.Some? { FailAllWithin(s.table, s.out.value.batch, step.at, now); }
  }

  lemma {:induction false} RunWithin(sha: string -> string, s: Sys, steps: seq<Step>, now: nat)
    requires Within(s.table, now + BACKOFF_CAP_MS)
    requires forall i :: 0 <= i < |steps| ==> StepBy(steps[i], now)
    ensures Within(Run(sha, s, steps).table, now + BACKOFF_CAP_MS)
    decreases |steps|
  {
    if steps != [] {
      StepWithin(sha, s, steps[0], now);
      RunWithin(sha, Next(sha, s, steps[0]), steps[1..], now);
    }
  }

  /** With a clock that never passed `now`, no row is scheduled more than 30 s beyond `now`. */
  lemma NeverFarAhead(sha: string -> string, steps: seq<Step>, now: nat)
    requires forall i :: 0 <= i < |steps| ==> StepBy(steps[i], now)
    ensures forall r | r in Run(sha, Init, steps).table.rows :: r.nextAttemptAt <= now + 30_000
  {
    RunWithin(sha, Init, steps, now);
  }

  // ----- rounds -----

  /** One sync round against an archive that accepts: claim, land, settle. */
  function Round(now: nat, limit: nat): seq<Step> {
    [Claiming(now, limit), Land, Settling(Delivered, now)]
  }

  function Rounds(now: nat, limit: nat, k: nat): seq<Step> {
    if k == 0 then [] else Round(now, limit) + Rounds(now, limit, k - 1)
  }

  lemma {:induction false} RunAppend(sha: string -> string, s: Sys, a: seq<Step>, b: seq<Step>)
    ensures Run(sha, s, a + b) == Run(sha, Run(sha, s, a), b)
    decreases |a|
  {
    if a == [] {
      assert a + b == b;
    } else {
      assert (a + b)[0] == a[0] && (a + b)[1..] == a[1..] + b;
      RunAppend(sha, Next(sha, s, a[0]), a[1..], b);
    }
  }

  function Min(a: nat, b: nat): nat { if a < b then a else b }

  lemma {:induction false} SelectAllDue(rows: seq<Row>, now: nat, limit: nat)
    requires forall r | r in rows :: Due(r, now)
    ensures Select(rows, now, limit) == rows[..Min(limit, |rows|)]
    decreases |rows|
  {
    if rows != [] && limit != 0 {
      SelectAllDue(rows[1..], now, limit - 1);
      assert rows[..Min(limit, |rows|)] == [rows[0]] + rows[1..][..Min(limit - 1, |rows| - 1)];
    }
  }

  lemma {:induction false} DeleteNone(rows: seq<Row>, ids: set<nat>)
    requires forall r | r in rows :: r.id !in ids
    ensures Delete(rows, ids) == rows
  {
    if rows != [] { DeleteNone(rows[1..], ids); }
  }

  lemma {:induction false} DeletePrefix(rows: seq<Row>, n: nat, ids: set<nat>)
    requires n <= |rows|
    requires forall i :: 0 <= i < n ==> rows[i].id in ids
    requires forall i :: n <= i < |rows| ==> rows[i].id !in ids
    ensures Delete(rows, ids) == rows[n..]
  {
    if n == 0 {
      DeleteNone(rows, ids);
    } else {
      DeletePrefix(rows[1..], n - 1, ids);
      assert rows[1..][n - 1..] == rows[n..];
    }
  }

  /** Nothing outstanding, every row due: what a failure-free pause leaves behind. */
  ghost predicate Quiet(s: Sys, now: nat) {
    s.out.None? && !s.crashed && Valid(s.table) && forall r | r in s.table.rows :: Due(r, now)
  }

  lemma {:induction false} DeleteFlipped(rows: seq<Row>, ids: set<nat>)
    ensures Delete(Update(rows, SetInflight(ids)), ids) == Delete(rows, ids)
  {
    if rows != [] {
      assert Update(rows, SetInflight(ids))[1..] == Update(rows[1..], SetInflight(ids));
      DeleteFlipped(rows[1..], ids);
    }
  }

  lemma PrefixIds(rows: seq<Row>, m: nat)
    requires m <= |rows|
    requires forall i, j :: 0 <= i < j < |rows| ==> rows[i].id < rows[j].id
    ensures Delete(rows, Ids(rows[..m])) == rows[m..]
  {
    var sel := rows[..m];
    forall i | m <= i < |rows| ensures rows[i].id !in Ids(sel) {
      if rows[i].id in Ids(sel) { var r :| r in sel && r.id == rows[i].id; }
    }
    forall i | 0 <= i < m ensures rows[i].id in Ids(sel) { assert sel[i] == rows[i]; }
    DeletePrefix(rows, m, Ids(sel));
  }

  lemma TableRound(t: Table, now: nat, limit: nat)
    requires Valid(t) && forall r | r in t.rows :: Due(r, now)
    ensures var (t', sel) := Claim(t, now, limit);
      && sel == t.rows[..Min(limit, |t.rows|)]
      && t'.(rows := Delete(t'.rows, Ids(sel))) == t.(rows := t.rows[Min(limit, |t.rows|)..])
  {
    SelectAllDue(t.rows, now, limit);
    var sel := t.rows[..Min(limit, |t.rows|)];
    PrefixIds(t.rows, |sel|);
    DeleteFlipped(t.rows, Ids(sel));
  }

  lemma DropQuiet(s: Sys, now: nat, m: nat)
    requires Quiet(s, now) && m <= |s.table.rows|
    ensures Quiet(s.(table := s.table.(rows := s.table.rows[m..])), now)
  {}

  lemma OneRound(sha: string -> string, s: Sys, now: nat, limit: nat)
    requires Quiet(s, now) && limit >= 1
    ensures var s' := Run(sha, s, Round(now, limit));
      Quiet(s', now) && s'.table.rows == s.table.rows[Min(limit, |s.table.rows|)..] && s'.latest == s.latest
  {
    RoundSteps(sha, s, now, limit);
    TableRound(s.table, now, limit);
    var m := Min(limit, |s.table.rows|);
    DropQuiet(s, now, m);
    var (t', sel) := Claim(s.table, now, limit);
    var s1 := Next(sha, s, Claiming(now, limit));
    if sel == [] {
      assert s.table.rows[m..] == s.table.rows;
    } else {
      assert s1 == s.(table := t', out := Some(Outstanding(sel, false)));
      var s2 := Next(sha, s1, Land);
      assert s2.out == Some(Outstanding(sel, true)) && s2.table == t';
      var s3 := Next(sha, s2, Settling(Delivered, now));
      assert s3.table == s.table.(rows := s.table.rows[m..]) && s3.out.None? && !s3.crashed;
    }
  }

  lemma RoundSteps(sha: string -> string, s: Sys, now: nat, limit: nat)
    ensures Run(sha, s, Round(now, limit))
         == Next(sha, Next(sha, Next(sha, s, Claiming(now, limit)), Land), Settling(Delivered, now))
  {
    var s1 := Next(sha, s, Claiming(now, limit));
    RunCons(sha, s, Claiming(now, limit), [Land, Settling(Delivered, now)]);
    RunCons(sha, s1, Land, [Settling(Delivered, now)]);
    RunCons(sha, Next(sha, s1, Land), Settling(Delivered, now), []);
    assert [Claiming(now, limit)] + [Land, Settling(Delivered, now)] == Round(now, limit);
    assert [Land] + [Settling(Delivered, now)] == [Land, Settling(Delivered, now)];
    assert [Settling(Delivered, now)] + [] == [Settling(Delivered, now)];
  }

  /** `k` rounds later: the first `k * limit` rows are gone, and nothing else about the rows. */
  predicate Drained(s: Sys, s': Sys, limit: nat, k: nat) {
    s'.table.rows == s.table.rows[Min(k * limit, |s.table.rows|)..] && s'.latest == s.latest
  }

  lemma DrainedOn(s: Sys, m: Sys, s': Sys, limit: nat, k: nat)
    requires k > 0 && Drained(s, m, limit, 1) && Drained(m, s', limit, k - 1)
    ensures Drained(s, s', limit, k)
  {
    SliceTwice(s.table.rows, limit, k - 1);
    assert |m.table.rows| == |s.table.rows| - Min(limit, |s.table.rows|);
  }

  lemma SliceTwice(rows: seq<Row>, limit: nat, k: nat)
    ensures var n := |rows|;
      rows[Min(limit, n)..][Min(k * limit, n - Min(limit, n))..] == rows[Min((k + 1) * limit, n)..]
  {
    assert (k + 1) * limit == k * limit + limit;
  }

  lemma RoundsSplit(sha: string -> string, s: Sys, now: nat, limit: nat, k: nat)
    requires k > 0
    ensures Run(sha, s, Rounds(now, limit, k)) == Run(sha, Run(sha, s, Round(now, limit)), Rounds(now, limit, k - 1))
  {
    RunAppend(sha, s, Round(now, limit), Rounds(now, limit, k - 1));
  }

  lemma OneDrained(sha: string -> string, s: Sys, now: nat, limit: nat)
    requires Quiet(s, now) && limit >= 1
    ensures Quiet(Run(sha, s, Round(now, limit)), now) && Drained(s, Run(sha, s, Round(now, limit)), limit, 1)
  {
    OneRound(sha, s, now, limit);
  }

  lemma {:induction false} ManyRounds(sha: string -> string, s: Sys, now: nat, limit: nat, k: nat)
    requires Quiet(s, now) && limit >= 1
    ensures Quiet(Run(sha, s, Rounds(now, limit, k)), now)
    ensures Drained(s, Run(sha, s, Rounds(now, limit, k)), limit, k)
    decreases k
  {
    if k > 0 {
      var m := Run(sha, s, Round(now, limit));
      OneDrained(sha, s, now, limit);
      ManyRounds(sha, m, now, limit, k - 1);
      RoundsSplit(sha, s, now, limit, k);
      DrainedOn(s, m, Run(sha, m, Rounds(now, limit, k - 1)), limit, k);
    }
  }

  /**
   From any reachable state with nothing outstanding: once 30 s have passed since the last step, `k`
   rounds of limit `L` leave the queue empty exactly when `k * L` covers the rows, and then every
   key ever enqueued has been accepted.
   */
  lemma QueueEmpties(sha: string -> string, steps: seq<Step>, last: nat, now: nat, limit: nat, k: nat)
    requires forall i :: 0 <= i < |steps| ==> StepBy(steps[i], last)
    requires now >= last + 30_000 && limit >= 1
    requires Run(sha, Init, steps).out.None? && !Run(sha, Init, steps).crashed
    ensures var s := Run(sha, Init, steps);
      var s' := Run(sha, Init, steps + Rounds(now, limit, k));
      && (s'.table.rows == [] <==> k * limit >= |s.table.rows|)
      && s'.latest == s.latest
      && (k * limit >= |s.table.rows| ==> forall key | key in s.latest :: key in s'.accepted)
  {
    var s := Run(sha, Init, steps);
    NeverFarAhead(sha, steps, last);
    RunKeeps(sha, Init, steps);
    forall r | r in s.table.rows ensures Due(r, now) {
      RowOfMember(s.table.rows, r);
      assert NotStranded(s, r.key);
    }
    ManyRounds(sha, s, now, limit, k);
    RunAppend(sha, Init, steps, Rounds(now, limit, k));
    var s' := Run(sha, Init, steps + Rounds(now, limit, k));
    forall key | key in s'.latest ensures s'.table.rows == [] ==> key in s'.accepted {
      NothingLost(sha, steps + Rounds(now, limit, k), key);
    }
  }
}
