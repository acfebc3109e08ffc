/** The evaluator tick of apps/ingest/src/alert-evaluator.ts. */
module Evaluator {
  import opened Wrappers
  import opened Alerts
  import opened Firings

  /** What one scope's pass meets: its alerts, whether its throttle is due, and where it throws. */
  datatype Pass = Pass(alerts: seq<Alert>, now: int, due: bool, fails: Failure)
  datatype Failure = NoFailure | RolledBack | AfterCommit

  /** An org: `members` is None when listing them throws; each member says whether it is an owner. */
  datatype OrgInput = OrgInput(id: string, members: Option<seq<(string, bool)>>, pass: Pass)

  datatype TickResult = TickResult(orgs: nat, skipped: nat, alerts: nat, deploymentAlerts: nat, failed: nat)

  /** `members.find(m => m.role === "owner") ?? members[0]`. */
  function ReconcileUser(members: seq<(string, bool)>): Option<string> {
    if members == [] then None
    else if FirstOwner(members).Some? then FirstOwner(members)
    else Some(members[0].0)
  }

  function FirstOwner(members: seq<(string, bool)>): Option<string> {
    if members == [] then None
    else if members[0].1 then Some(members[0].0)
    else FirstOwner(members[1..])
  }

  /** The first owner, or with no owner the first member. */
  ghost predicate Reconciles(members: seq<(string, bool)>, who: string) {
    if exists m :: m in members && m.1 then
      exists i :: 0 <= i < |members| && members[i] == (who, true) && forall j :: 0 <= j < i ==> !members[j].1
    else members != [] && who == members[0].0
  }

  lemma {:induction false} OwnerExactly(members: seq<(string, bool)>)
    ensures match FirstOwner(members)
            case None => forall m | m in members :: !m.1
            case Some(who) => exists i :: 0 <= i < |members| && members[i] == (who, true) && forall j :: 0 <= j < i ==> !members[j].1
  {
    if members != [] && !members[0].1 {
      OwnerExactly(members[1..]);
      if FirstOwner(members[1..]).Some? {
        var who := FirstOwner(members[1..]).value;
        var i :| 0 <= i < |members[1..]| && members[1..][i] == (who, true) && forall j :: 0 <= j < i ==> !members[1..][j].1;
        assert members[i + 1] == (who, true);
        assert forall j :: 1 <= j < i + 1 ==> members[j] == members[1..][j - 1];
      }
    }
  }

  lemma UserExactly(members: seq<(string, bool)>)
    ensures ReconcileUser(members).None? <==> members == []
    ensures ReconcileUser(members).Some? ==> Reconciles(members, ReconcileUser(members).value)
  {
    OwnerExactly(members);
  }

  function Evaluate(rows: seq<Firing>, scope: Scope, user: string, p: Pass): seq<Firing> {
    if p.fails.RolledBack? then rows else Tick(rows, scope, user, p.alerts, p.now, p.due)
  }

  predicate Evaluated(o: OrgInput) {
    o.members.Some? && o.members.value != [] && !o.pass.fails.RolledBack?
  }

  /** The live table, with its read for the throttle and its write for the reconcile. */
  class FiringStore {
    var rows: seq<Firing>

    method EvaluateScope(scope: Scope, user: string, p: Pass) returns (count: nat, threw: bool)
      requires OneOpen(rows)
      modifies this
      ensures rows == Evaluate(old(rows), scope, user, p) && OneOpen(rows)
      ensures threw <==> !p.fails.NoFailure?
      ensures count == |p.alerts|
    {
      TickExact(rows, scope, user, p.alerts, p.now, p.due);
      count := |p.alerts|;
      if p.fails.RolledBack? { return count, true; }
      var reconcile := p.due;
      if !p.due {
        var persisted := ScopeRows(rows, scope);
        ScopeRowsKeys(rows, scope);
        reconcile := OpenFiringsDiverge(p.alerts, persisted);
      }
      if reconcile { rows := Reconcile(rows, scope, user, p.alerts, p.now); }
      threw := p.fails.AfterCommit?;
    }

    /** One org in its own error boundary. */
    method OrgPass(o: OrgInput, r: TickResult) returns (r': TickResult)
      requires OneOpen(rows)
      modifies this
      ensures OneOpen(rows) && Outside(rows, Org(o.id)) == Outside(old(rows), Org(o.id))
      ensures OpenKeys(rows, Org(o.id))
           == if o.members.Some? && o.members.value != [] && o.pass.fails != RolledBack then Keys(o.pass.alerts)
              else OpenKeys(old(rows), Org(o.id))
      ensures r' == if o.members.None? then r.(failed := r.failed + 1)
                    else if o.members.value == [] then r.(skipped := r.skipped + 1)
                    else if o.pass.fails != NoFailure then r.(failed := r.failed + 1)
                    else r.(orgs := r.orgs + 1, alerts := r.alerts + |o.pass.alerts|)
      ensures Usable(o) ==> exists who :: Reconciles(o.members.value, who) && rows == Evaluate(old(rows), Org(o.id), who, o.pass)
    {
      if o.members.Some? { UserExactly(o.members.value); }
      if o.members.None? { return r.(failed := r.failed + 1); }
      var who := ReconcileUser(o.members.value);
      if who.None? { return r.(skipped := r.skipped + 1); }
      TickExact(rows, Org(o.id), who.value, o.pass.alerts, o.pass.now, o.pass.due);
      var count, threw := EvaluateScope(Org(o.id), who.value, o.pass);
      r' := if threw then r.(failed := r.failed + 1) else r.(alerts := r.alerts + count, orgs := r.orgs + 1);
    }

    /** The deployment pass: once per tick, when some org has a user to record. */
    method DeploymentPass(orgs: seq<OrgInput>, p: Pass) returns (r: TickResult)
      requires OneOpen(rows)
      modifies this
      ensures OneOpen(rows) && Outside(rows, Deployment) == Outside(old(rows), Deployment)
      ensures OpenKeys(rows, Deployment)
           == if AnyUsable(orgs) && !p.fails.RolledBack? then Keys(p.alerts) else OpenKeys(old(rows), Deployment)
      ensures r == if !AnyUsable(orgs) then TickResult(0, 0, 0, 0, 0)
                   else if p.fails != NoFailure then TickResult(0, 0, 0, 0, 1)
                   else TickResult(0, 0, |p.alerts|, |p.alerts|, 0)
    {
      r := TickResult(0, 0, 0, 0, 0);
      var user: Option<string> := None;
      for i := 0 to |orgs|
        invariant rows == old(rows)
        invariant user.Some? <==> AnyUsable(orgs[..i])
      {
        AnySnoc(orgs, i);
        if orgs[i].members.Some? { UserExactly(orgs[i].members.value); }
        if user.None? && orgs[i].members.Some? { user := ReconcileUser(orgs[i].members.value); }
      }
      assert orgs[..|orgs|] == orgs;
      if user.Some? {
        TickExact(rows, Deployment, user.value, p.alerts, p.now, p.due);
        var count, threw := EvaluateScope(Deployment, user.value, p);
        r := if threw then r.(failed := 1) else r.(deploymentAlerts := count, alerts := count);
      }
    }

    /** The deployment pass once, then every org in turn. */
    method RunTick(orgs: seq<OrgInput>, deployment: Pass) returns (r: TickResult)
      requires OneOpen(rows)
      requires forall i, j :: 0 <= i < j < |orgs| ==> orgs[i].id != orgs[j].id
      modifies this
      ensures OneOpen(rows)
      ensures forall i :: 0 <= i < |orgs| ==>
        OpenKeys(rows, Org(orgs[i].id))
        == if orgs[i].members.Some? && orgs[i].members.value != [] && orgs[i].pass.fails != RolledBack then Keys(orgs[i].pass.alerts)
           else OpenKeys(old(rows), Org(orgs[i].id))
      ensures OpenKeys(rows, Deployment)
           == if AnyUsable(orgs) && !deployment.fails.RolledBack? then Keys(deployment.alerts)
              else OpenKeys(old(rows), Deployment)
      ensures r.orgs == |Going(orgs)|
      ensures r.skipped == |Empty(orgs)|
      ensures r.failed == |Failed(orgs)| + if AnyUsable(orgs) && deployment.fails != NoFailure then 1 else 0
      ensures r.deploymentAlerts == if AnyUsable(orgs) && deployment.fails == NoFailure then |deployment.alerts| else 0
      ensures r.alerts == r.deploymentAlerts + AlertsOf(orgs)
    {
      r := DeploymentPass(orgs, deployment);
      OtherScopes(old(rows), rows, Deployment);
      r := OrgPasses(orgs, r);
    }

    /** Every org in turn. */
    method OrgPasses(orgs: seq<OrgInput>, start: TickResult) returns (r: TickResult)
      requires OneOpen(rows)
      requires forall i, j :: 0 <= i < j < |orgs| ==> orgs[i].id != orgs[j].id
      modifies this
      ensures OneOpen(rows) && r == CountsOver(start, orgs)
      ensures forall i :: 0 <= i < |orgs| ==> OpenKeys(rows, Org(orgs[i].id)) == Expected(old(rows), orgs[i])
      ensures OpenKeys(rows, Deployment) == OpenKeys(old(rows), Deployment)
    {
      r := start;
      for i := 0 to |orgs|
        invariant OneOpen(rows) && r == CountsOver(start, orgs[..i])
        invariant OpenKeys(rows, Deployment) == OpenKeys(old(rows), Deployment)
        invariant Progress(old(rows), rows, orgs, i)
      {
        ghost var before := rows;
        r := OrgPass(orgs[i], r);
        ProgressStep(old(rows), before, rows, orgs, i);
        OneMoreOrg(start, orgs, i);
      }
      assert orgs[..|orgs|] == orgs;
    }
  }

  /** The org's members cannot be listed, or its pass throws. */
  predicate Fails(o: OrgInput) { o.members.None? || (o.members.value != [] && o.pass.fails != NoFailure) }

  /** How many alerts the orgs that go through have. */
  function AlertsOf(orgs: seq<OrgInput>): nat {
    if orgs == [] then 0
    else
      var o := orgs[|orgs| - 1];
      AlertsOf(orgs[..|orgs| - 1]) + if Usable(o) && o.pass.fails == NoFailure then |o.pass.alerts| else 0
  }

  function Going(orgs: seq<OrgInput>): set<OrgInput> { set o | o in orgs && Usable(o) && o.pass.fails == NoFailure }
  function Empty(orgs: seq<OrgInput>): set<OrgInput> { set o | o in orgs && o.members == Some([]) }
  function Failed(orgs: seq<OrgInput>): set<OrgInput> { set o | o in orgs && Fails(o) }

  /** The counts after the orgs, from those of the deployment pass. */
  function CountsOver(start: TickResult, orgs: seq<OrgInput>): TickResult {
    TickResult(start.orgs + |Going(orgs)|, start.skipped + |Empty(orgs)|, start.alerts + AlertsOf(orgs),
               start.deploymentAlerts, start.failed + |Failed(orgs)|)
  }

  lemma OneMoreOrg(start: TickResult, orgs: seq<OrgInput>, i: nat)
    requires i < |orgs| && forall j, k :: 0 <= j < k < |orgs| ==> orgs[j].id != orgs[k].id
    ensures var (r, o) := (CountsOver(start, orgs[..i]), orgs[i]);
      CountsOver(start, orgs[..i + 1])
      == if o.members.None? then r.(failed := r.failed + 1)
         else if o.members.value == [] then r.(skipped := r.skipped + 1)
         else if o.pass.fails != NoFailure then r.(failed := r.failed + 1)
         else r.(orgs := r.orgs + 1, alerts := r.alerts + |o.pass.alerts|)
  {
    assert orgs[..i + 1][..i] == orgs[..i];
    NewOrg(orgs, i);
    MoreGoing(orgs, i);
    MoreEmpty(orgs, i);
    MoreFailed(orgs, i);
  }

  lemma NewOrg(orgs: seq<OrgInput>, i: nat)
    requires i < |orgs| && forall j, k :: 0 <= j < k < |orgs| ==> orgs[j].id != orgs[k].id
    ensures orgs[i] !in orgs[..i]
  {}

  lemma MoreGoing(orgs: seq<OrgInput>, i: nat)
    requires i < |orgs| && orgs[i] !in orgs[..i]
    ensures |Going(orgs[..i + 1])| == |Going(orgs[..i])| + if Usable(orgs[i]) && orgs[i].pass.fails == NoFailure then 1 else 0
  {
    var o := orgs[i];
    assert orgs[..i + 1] == orgs[..i] + [o];
    assert Going(orgs[..i + 1]) == Going(orgs[..i]) + if Usable(o) && o.pass.fails == NoFailure then {o} else {};
  }

  lemma MoreEmpty(orgs: seq<OrgInput>, i: nat)
    requires i < |orgs| && orgs[i] !in orgs[..i]
    ensures |Empty(orgs[..i + 1])| == |Empty(orgs[..i])| + if orgs[i].members == Some([]) then 1 else 0
  {
    var o := orgs[i];
    assert orgs[..i + 1] == orgs[..i] + [o];
    assert Empty(orgs[..i + 1]) == Empty(orgs[..i]) + if o.members == Some([]) then {o} else {};
  }

  lemma MoreFailed(orgs: seq<OrgInput>, i: nat)
    requires i < |orgs| && orgs[i] !in orgs[..i]
    ensures |Failed(orgs[..i + 1])| == |Failed(orgs[..i])| + if Fails(orgs[i]) then 1 else 0
  {
    var o := orgs[i];
    assert orgs[..i + 1] == orgs[..i] + [o];
    assert Failed(orgs[..i + 1]) == Failed(orgs[..i]) + if Fails(o) then {o} else {};
  }

  /** The open keys an org ends a tick with. */
  ghost function Expected(rows: seq<Firing>, o: OrgInput): set<string> {
    if Evaluated(o) then Keys(o.pass.alerts) else OpenKeys(rows, Org(o.id))
  }

  /** The first `i` orgs have been visited, the others are as they were. */
  ghost predicate Progress(was: seq<Firing>, rows: seq<Firing>, orgs: seq<OrgInput>, i: nat) {
    forall k :: 0 <= k < |orgs| ==>
      OpenKeys(rows, Org(orgs[k].id)) == if k < i then Expected(was, orgs[k]) else OpenKeys(was, Org(orgs[k].id))
  }

  lemma ProgressStep(was: seq<Firing>, a: seq<Firing>, b: seq<Firing>, orgs: seq<OrgInput>, i: nat)
    requires i < |orgs| && forall j, k :: 0 <= j < k < |orgs| ==> orgs[j].id != orgs[k].id
    requires Progress(was, a, orgs, i) && Outside(a, Org(orgs[i].id)) == Outside(b, Org(orgs[i].id))
    requires OpenKeys(b, Org(orgs[i].id)) == Expected(a, orgs[i])
    ensures Progress(was, b, orgs, i + 1) && OpenKeys(b, Deployment) == OpenKeys(a, Deployment)
  {
    OtherScopes(a, b, Org(orgs[i].id));
    forall k | 0 <= k < |orgs|
      ensures OpenKeys(b, Org(orgs[k].id)) == if k < i + 1 then Expected(was, orgs[k]) else OpenKeys(was, Org(orgs[k].id))
    {
      if k != i { assert Org(orgs[k].id) != Org(orgs[i].id); }
    }
  }

  ghost predicate AnyUsable(orgs: seq<OrgInput>) { exists o :: o in orgs && Usable(o) }

  lemma AnySnoc(orgs: seq<OrgInput>, i: nat)
    requires i < |orgs|
    ensures AnyUsable(orgs[..i + 1]) <==> AnyUsable(orgs[..i]) || Usable(orgs[i])
  {
    var xs := orgs[..i + 1];
    assert xs == orgs[..i] + [orgs[i]];
    assert forall o :: o in xs <==> o in orgs[..i] || o == orgs[i];
  }

  lemma OtherScopes(a: seq<Firing>, b: seq<Firing>, scope: Scope)
    requires Outside(a, scope) == Outside(b, scope)
    ensures forall other :: other != scope ==> OpenKeys(a, other) == OpenKeys(b, other)
  {
    forall other | other != scope ensures OpenKeys(a, other) == OpenKeys(b, other) {
      OutsideKeys(a, scope, other);
      OutsideKeys(b, scope, other);
    }
  }

  predicate Usable(o: OrgInput) { o.members.Some? && o.members.value != [] }

  function ScopeRows(rows: seq<Firing>, scope: Scope): seq<Firing> {
    if rows == [] then []
    else (if rows[0].scope == scope then [rows[0]] else []) + ScopeRows(rows[1..], scope)
  }

  lemma {:induction false} ScopeRowsKeys(rows: seq<Firing>, scope: Scope)
    ensures (set f | f in ScopeRows(rows, scope) && f.open :: f.key) == OpenKeys(rows, scope)
  {
    ScopeRowsMembers(rows, scope);
  }

  lemma {:induction false} ScopeRowsMembers(rows: seq<Firing>, scope: Scope)
    ensures forall f :: f in ScopeRows(rows, scope) <==> f in rows && f.scope == scope
  {
    if rows != [] {
      ScopeRowsMembers(rows[1..], scope);
      assert rows == [rows[0]] + rows[1..];
    }
  }

  // ----- any interleaving of ticks -----

  datatype ScopeTick = ScopeTick(scope: Scope, user: string, pass: Pass)

  function RunTicks(rows: seq<Firing>, ticks: seq<ScopeTick>): seq<Firing>
    decreases |ticks|
  {
    if ticks == [] then rows
    else RunTicks(Evaluate(rows, ticks[0].scope, ticks[0].user, ticks[0].pass), ticks[1..])
  }

  /** The derived keys of the scope's last committed tick, or what was open before. */
  function LastDerived(rows: seq<Firing>, ticks: seq<ScopeTick>, scope: Scope): set<string>
    decreases |ticks|
  {
    if ticks == [] then OpenKeys(rows, scope)
    else
      var t := ticks[|ticks| - 1];
      if t.scope == scope && !t.pass.fails.RolledBack? then Keys(t.pass.alerts)
      else LastDerived(rows, ticks[..|ticks| - 1], scope)
  }

  lemma {:induction false} RunTicksSnoc(rows: seq<Firing>, ticks: seq<ScopeTick>, t: ScopeTick)
    ensures RunTicks(rows, ticks + [t]) == Evaluate(RunTicks(rows, ticks), t.scope, t.user, t.pass)
    decreases |ticks|
  {
    if ticks == [] {
      assert ticks + [t] == [t] && [t][1..] == [];
    } else {
      assert (ticks + [t])[0] == ticks[0] && (ticks + [t])[1..] == ticks[1..] + [t];
      RunTicksSnoc(Evaluate(rows, ticks[0].scope, ticks[0].user, ticks[0].pass), ticks[1..], t);
    }
  }

  /**
   Over any interleaving of org and deployment ticks, throttled or not: each scope's open keys are
   those of its own last committed tick, whatever the other scopes derived in between.
   */
  lemma {:induction false} ScopesNeverFlap(rows: seq<Firing>, ticks: seq<ScopeTick>, scope: Scope)
    requires OneOpen(rows)
    ensures OneOpen(RunTicks(rows, ticks)) && Continues(rows, RunTicks(rows, ticks))
    ensures OpenKeys(RunTicks(rows, ticks), scope) == LastDerived(rows, ticks, scope)
    decreases |ticks|
  {
    if ticks != [] {
      var n := |ticks| - 1;
      var t := ticks[n];
      assert ticks == ticks[..n] + [t];
      ScopesNeverFlap(rows, ticks[..n], scope);
      RunTicksSnoc(rows, ticks[..n], t);
      var mid := RunTicks(rows, ticks[..n]);
      TickExact(mid, t.scope, t.user, t.pass.alerts, t.pass.now, t.pass.due);
      ContinuesTrans(rows, mid, RunTicks(rows, ticks));
    }
  }
}
