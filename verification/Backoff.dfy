/** A failed POST over whole runs: no claim returns its rows before their wait is over. */
module Backoff {
  import opened Wrappers
  import opened QueueTable
  import opened Delivery

  /** The key's row is `row`, waiting, and no POST is pending for it. */
  ghost predicate Resting(s: Sys, k: Key, row: Row) {
    && RowOf(s.table.rows, k) == Some(row) && row.status == Pending
    && (s.out.Some? ==> IdsGrow(s.out.value.batch) && forall r | r in s.out.value.batch :: r.id != row.id)
  }

  /** No claim at or after the row's time, and no new content for its key. */
  predicate Before(sha: string -> string, row: Row, step: Step) {
    match step
    case Capture(key, p) => key == row.key ==> sha(p) == row.hash
    case Claiming(now, _) => now < row.nextAttemptAt
    case _ => true
  }

  /** A claimed batch is in id order. */
  ghost predicate InOrder(s: Sys) { s.out.Some? ==> IdsGrow(s.out.value.batch) }

  lemma StepInOrder(sha: string -> string, s: Sys, step: Step)
    requires Valid(s.table) && InOrder(s)
    ensures InOrder(Next(sha, s, step))
  {
    if step.Claiming? { SelectSpec(s.table.rows, step.now, step.limit); }
  }

  lemma {:induction false} RunInOrder(sha: string -> string, s: Sys, steps: seq<Step>)
    requires Inv(s) && InOrder(s)
    ensures InOrder(Run(sha, s, steps))
    decreases |steps|
  {
    if steps != [] {
      StepKeeps(sha, s, steps[0]);
      StepInOrder(sha, s, steps[0]);
      RunInOrder(sha, Next(sha, s, steps[0]), steps[1..]);
    }
  }

  lemma ClaimPasses(s: Sys, k: Key, row: Row, now: nat, limit: nat)
    requires Valid(s.table) && RowOf(s.table.rows, k) == Some(row) && now < row.nextAttemptAt
    ensures forall r | r in Select(s.table.rows, now, limit) :: r.key != k && r.id != row.id
    ensures RowOf(Claim(s.table, now, limit).0.rows, k) == Some(row)
    ensures IdsGrow(Select(s.table.rows, now, limit))
  {
    SelectSpec(s.table.rows, now, limit);
    ClaimView(s.table, now, limit, k);
    forall r | r in Select(s.table.rows, now, limit) ensures r.key != k && r.id != row.id {
      if r.id == row.id { IdInjective(s.table, r, row); }
      RowOfMember(s.table.rows, r);
    }
  }

  lemma RestStep(sha: string -> string, s: Sys, k: Key, row: Row, step: Step)
    requires Inv(s) && Resting(s, k, row) && Before(sha, row, step)
    ensures Resting(Next(sha, s, step), k, row)
  {
    match step
    case Capture(key, p) => EnqueueView(s.table, sha, key, p, k);
    case Claiming(now, limit) => ClaimPasses(s, k, row, now, limit);
    case Settling(o, at) => if s.out.Some? { SettleExact(s.table, s.out.value.batch, o, at, k); }
    case Boot => RecoveredView(s.table, k);
    case _ =>
  }

  lemma {:induction false} RestRun(sha: string -> string, s: Sys, k: Key, row: Row, steps: seq<Step>)
    requires Inv(s) && Resting(s, k, row) && forall i :: 0 <= i < |steps| ==> Before(sha, row, steps[i])
    ensures Inv(Run(sha, s, steps)) && Resting(Run(sha, s, steps), k, row)
    decreases |steps|
  {
    if steps != [] {
      StepKeeps(sha, s, steps[0]);
      RestStep(sha, s, k, row, steps[0]);
      RestRun(sha, Next(sha, s, steps[0]), k, row, steps[1..]);
    }
  }

  /** The row `was` of a batch row `r` after a POST that failed at `at`. */
  function BackedOff(was: Row, r: Row, at: nat): Row {
    Row(was.id, was.key, was.hash, was.payload, Pending, was.attempts + 1, at + Wait(r.attempts))
  }

  /** Every batch row still has a row under its key and id. */
  lemma BatchRow(s: Sys, r: Row)
    requires BatchStored(s) && s.out.Some? && r in s.out.value.batch
    ensures RowOf(s.table.rows, r.key).Some? && RowOf(s.table.rows, r.key).value.id == r.id
  {}

  lemma FailedRow(was: Row, b: Option<Row>, batch: seq<Row>, o: PostOutcome, at: nat, r: Row)
    requires SettledRow(Some(was), b, batch, o, at) && (o.Refused? || o.Unreachable?)
    requires r in batch && r.id == was.id
    ensures b == Some(BackedOff(was, r, at))
  {}

  lemma FailedStep(sha: string -> string, s: Sys, o: PostOutcome, at: nat, r: Row, was: Row)
    requires Valid(s.table) && BatchStored(s) && InOrder(s) && !s.crashed && s.out.Some? && r in s.out.value.batch
    requires (o.Refused? || o.Unreachable?) && RowOf(s.table.rows, r.key) == Some(was)
    ensures Resting(Next(sha, s, Settling(o, at)), r.key, BackedOff(was, r, at))
  {
    var b := s.out.value.batch;
    BatchRow(s, r);
    SettleExact(s.table, b, o, at, r.key);
    FailedRow(was, RowOf(Settle(s.table, b, o, at).rows, r.key), b, o, at, r);
  }

  /** Until `due` no claim takes the row, from then on it is due; no pending POST holds it. */
  ghost predicate HeldUntil(s: Sys, row: Row, due: int) {
    && RowOf(s.table.rows, row.key) == Some(row)
    && (s.out.Some? ==> forall x | x in s.out.value.batch :: x.id != row.id)
    && (forall now: nat, limit: nat | now < due :: forall x | x in Select(s.table.rows, now, limit) :: x.key != row.key)
    && (forall now: nat :: Due(row, now) <==> now >= due)
  }

  lemma RestingHeld(s: Sys, row: Row)
    requires Valid(s.table) && Resting(s, row.key, row)
    ensures HeldUntil(s, row, row.nextAttemptAt)
  {
    forall now: nat, limit: nat | now < row.nextAttemptAt
      ensures forall x | x in Select(s.table.rows, now, limit) :: x.key != row.key
    {
      ClaimPasses(s, row.key, row, now, limit);
    }
  }

  /**
   In every run: once a POST has failed, each of its rows has one attempt more, and whatever happens
   next, with other POSTs, captures, crashes and boots, no claim takes it before the time of the failure
   plus the wait for its claimed attempts, unless its content changes; from that time on it is due.
   */
  lemma NoEarlyClaim(sha: string -> string, before: seq<Step>, o: PostOutcome, at: nat, after: seq<Step>, r: Row, was: Row)
    requires var s := Run(sha, Init, before);
      !s.crashed && s.out.Some? && r in s.out.value.batch && RowOf(s.table.rows, r.key) == Some(was)
    requires o.Refused? || o.Unreachable?
    requires forall i :: 0 <= i < |after| ==> Before(sha, BackedOff(was, r, at), after[i])
    ensures HeldUntil(Run(sha, Run(sha, Init, before), [Settling(o, at)] + after), BackedOff(was, r, at), at + Wait(r.attempts))
  {
    var s, row := Run(sha, Init, before), BackedOff(was, r, at);
    RunKeeps(sha, Init, before);
    RunInOrder(sha, Init, before);
    RunCons(sha, s, Settling(o, at), after);
    FailedStep(sha, s, o, at, r, was);
    StepKeeps(sha, s, Settling(o, at));
    assert row.key == r.key by { BatchRow(s, r); }
    RestRun(sha, Next(sha, s, Settling(o, at)), r.key, row, after);
    RestingHeld(Run(sha, Next(sha, s, Settling(o, at)), after), row);
  }

  /**
   In every run, a crash and a boot leave the queue ready: no POST is pending, the one that was may still
   land, and every key has the row it had, with its content, attempts and due time, and pending.
   */
  lemma RestartRecovers(sha: string -> string, steps: seq<Step>, k: Key)
    requires !Run(sha, Init, steps).crashed
    ensures var s := Run(sha, Init, steps);
      var s' := Run(sha, s, [Crash, Boot]);
      && !s'.crashed && s'.out.None? && s'.accepted == s.accepted && s'.latest == s.latest
      && Recovered(RowOf(s.table.rows, k), RowOf(s'.table.rows, k))
      && s'.limbo == s.limbo + if s.out.Some? && !s.out.value.landed then {s.out.value.batch} else {}
  {
    var s := Run(sha, Init, steps);
    RunCons(sha, s, Crash, [Boot]);
    RunCons(sha, Next(sha, s, Crash), Boot, []);
    assert [Crash] + [Boot] == [Crash, Boot] && [Boot] + [] == [Boot];
    RecoveredView(s.table, k);
  }

  /** Down, the process does nothing but boot: no claim, no capture, no settling. */
  lemma DownIsDown(sha: string -> string, s: Sys, step: Step)
    requires s.crashed && s.out.None?
    ensures var s' := Next(sha, s, step);
      !step.Boot? ==> s'.crashed && s'.table == s.table && s'.latest == s.latest && s'.out == s.out
  {}
}
