/** apps/collector/src/capture-engine.ts, `drainBeforeExit`: the last drains before the process ends. */
module Shutdown {
  datatype Outcome = Ok | Retry | Stop

  /** What the i-th sync call answers, what is then pending, and the clock reading taken after it. */
  datatype Reply = Reply(outcome: Outcome, pending: nat, clock: int)

  /** The reading the i-th call's budget is computed from. */
  function Reading(env: nat -> Reply, start: int, i: nat): int {
    if i == 0 then start else env(i - 1).clock
  }

  /** The loop goes round again after call i. */
  predicate GoesOn(env: nat -> Reply, start: int, deadlineMs: int, i: nat) {
    env(i).outcome.Ok? && env(i).pending > 0 && start + deadlineMs - env(i).clock > 0
  }

  /** Call i takes no longer than the time-out it was given. */
  predicate Obeys(env: nat -> Reply, start: int, budgets: seq<int>, i: nat)
    requires i < |budgets|
  {
    env(i).clock - Reading(env, start, i) <= budgets[i]
  }

  /** Call i moves the clock on by at least a millisecond. */
  predicate Advances(env: nat -> Reply, start: int, i: nat) { env(i).clock > Reading(env, start, i) }

  /**
   It ends at all exactly when some call does not pass the loop's test; `last` is such a call. Each call
   gets exactly the time left, which is positive for every call after the first, and the first outcome
   that is not ok stops it. If every call obeys its budget the whole drain is over by the deadline; if
   every call advances the clock there are at most `deadlineMs` calls after the first.
   */
  method DrainBeforeExit(env: nat -> Reply, start: int, deadlineMs: int, ghost last: nat)
    returns (outcome: Outcome, budgets: seq<int>)
    requires !GoesOn(env, start, deadlineMs, last)
    ensures 1 <= |budgets| <= last + 1
    ensures forall i :: 0 <= i < |budgets| ==> budgets[i] == start + deadlineMs - Reading(env, start, i)
    ensures forall i :: 1 <= i < |budgets| ==> budgets[i] > 0
    ensures forall i :: 0 <= i < |budgets| - 1 ==> GoesOn(env, start, deadlineMs, i)
    ensures !GoesOn(env, start, deadlineMs, |budgets| - 1)
    ensures outcome == env(|budgets| - 1).outcome
    ensures outcome != Ok || env(|budgets| - 1).pending == 0 || env(|budgets| - 1).clock >= start + deadlineMs
    ensures forall i :: 0 <= i < |budgets| - 1 ==>
      env(i).outcome == Ok && env(i).pending >= 1 && env(i).clock < start + deadlineMs
    ensures (forall i :: 0 <= i < |budgets| ==> Obeys(env, start, budgets, i)) ==>
              env(|budgets| - 1).clock <= start + deadlineMs
    ensures (forall i :: 0 <= i < |budgets| ==> Advances(env, start, i)) ==>
              |budgets| <= 1 + if deadlineMs > 0 then deadlineMs else 0
  {
    var deadline := start + deadlineMs;
    var remaining := deadlineMs;
    budgets := [remaining];
    var reply := env(0);
    outcome := reply.outcome;
    while outcome.Ok? && reply.pending > 0 && deadline - reply.clock > 0
      invariant 1 <= |budgets| <= last + 1
      invariant reply == env(|budgets| - 1) && outcome == reply.outcome
      invariant forall i :: 0 <= i < |budgets| ==> budgets[i] == deadline - Reading(env, start, i)
      invariant forall i :: 1 <= i < |budgets| ==> budgets[i] > 0
      invariant forall i :: 0 <= i < |budgets| - 1 ==> GoesOn(env, start, deadlineMs, i)
      decreases last + 1 - |budgets|
    {
      remaining := deadline - reply.clock;
      assert GoesOn(env, start, deadlineMs, |budgets| - 1);
      reply := env(|budgets|);
      budgets := budgets + [remaining];
      outcome := reply.outcome;
    }
    ghost var n := |budgets| - 1;
    forall i | 0 <= i < n ensures env(i).outcome == Ok && env(i).pending >= 1 && env(i).clock < start + deadlineMs {
      assert GoesOn(env, start, deadlineMs, i);
    }
    if forall i :: 0 <= i < |budgets| ==> Obeys(env, start, budgets, i) { assert Obeys(env, start, budgets, n); }
    if forall i :: 0 <= i < |budgets| ==> Advances(env, start, i) {
      if n > 0 {
        Ahead(env, start, n);
        assert GoesOn(env, start, deadlineMs, n - 1);
      }
    }
  }

  /** A clock that every call moves on is at least `n` ahead after `n` calls. */
  lemma {:induction false} Ahead(env: nat -> Reply, start: int, n: nat)
    requires forall i :: 0 <= i < n ==> Advances(env, start, i)
    ensures Reading(env, start, n) >= start + n
  {
    if n > 0 {
      Ahead(env, start, n - 1);
      assert Advances(env, start, n - 1);
    }
  }

  /** Such a clock ends the loop: some call within `deadlineMs` of the first does not pass its test. */
  lemma {:induction false} Ends(env: nat -> Reply, start: int, deadlineMs: nat, i: nat)
    returns (last: nat)
    requires forall k: nat :: Advances(env, start, k)
    requires Reading(env, start, i) >= start + i && i <= deadlineMs
    ensures i <= last <= deadlineMs && !GoesOn(env, start, deadlineMs, last)
    decreases deadlineMs - i
  {
    last := i;
    assert Advances(env, start, i);
    if GoesOn(env, start, deadlineMs, i) {
      last := Ends(env, start, deadlineMs, i + 1);
    }
  }
}
