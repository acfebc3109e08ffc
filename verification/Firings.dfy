/**
 Alert firings: the reconcile of packages/db/src/repositories/alert-firings.ts and the divergence test
 of apps/ingest/src/alert-set.ts.
 */
module Firings {
  import opened Wrappers
  import opened Alerts

  /** `org_id = :orgId`, or `org_id IS NULL`. */
  datatype Scope = Org(id: string) | Deployment

  datatype Firing = Firing(scope: Scope, key: string, code: Code, severity: Severity, opener: string,
                           open: bool, firstFiredAt: int, lastSeenAt: int, resolvedAt: Option<int>)

  predicate OpenFor(f: Firing, scope: Scope, key: string) { f.scope == scope && f.open && f.key == key }

  function Keys(alerts: seq<Alert>): set<string> { set a | a in alerts :: AlertKey(a) }

  /** The open keys of one scope. */
  function OpenKeys(rows: seq<Firing>, scope: Scope): set<string> {
    set f | f in rows && f.scope == scope && f.open :: f.key
  }

  // ----- the divergence test -----

  /** `openFiringsDiverge` on a scope-filtered list. */
  method OpenFiringsDiverge(alerts: seq<Alert>, firings: seq<Firing>) returns (differ: bool)
    ensures differ <==> Keys(alerts) != (set f | f in firings && f.open :: f.key)
  {
    var open := set f | f in firings && f.open :: f.key;
    var derived := Keys(alerts);
    if |open| != |derived| { return true; }
    var todo := derived;
    while todo != {}
      invariant todo <= derived
      invariant derived - todo <= open
      decreases todo
    {
      var key :| key in todo;
      if key !in open { return true; }
      todo := todo - {key};
    }
    SubsetSameSize(derived, open);
    differ := false;
  }

  lemma SubsetSameSize(a: set<string>, b: set<string>)
    requires a <= b && |a| == |b|
    ensures a == b
  {
    assert |b - a| == |b| - |a|;
  }

  // ----- reconcile -----

  function Fresh(scope: Scope, user: string, a: Alert, now: int): Firing {
    Firing(scope, AlertKey(a), a.code, a.severity, user, true, now, now, None)
  }

  function Seen(scope: Scope, a: Alert, now: int, f: Firing): Firing {
    if OpenFor(f, scope, AlertKey(a)) then f.(lastSeenAt := now, severity := a.severity) else f
  }

  /** `INSERT ... ON CONFLICT DO UPDATE` on the scope's own partial index. */
  function Upsert(rows: seq<Firing>, scope: Scope, user: string, a: Alert, now: int): seq<Firing> {
    if exists f :: f in rows && OpenFor(f, scope, AlertKey(a)) then
      seq(|rows|, i requires 0 <= i < |rows| => Seen(scope, a, now, rows[i]))
    else rows + [Fresh(scope, user, a, now)]
  }

  function UpsertAll(rows: seq<Firing>, scope: Scope, user: string, alerts: seq<Alert>, now: int): seq<Firing>
    decreases |alerts|
  {
    if alerts == [] then rows
    else UpsertAll(Upsert(rows, scope, user, alerts[0], now), scope, user, alerts[1..], now)
  }

  function Resolved(scope: Scope, keys: set<string>, now: int, f: Firing): Firing {
    if f.scope == scope && f.open && f.key !in keys then f.(open := false, resolvedAt := Some(now)) else f
  }

  function ResolveMissing(rows: seq<Firing>, scope: Scope, keys: set<string>, now: int): seq<Firing> {
    seq(|rows|, i requires 0 <= i < |rows| => Resolved(scope, keys, now, rows[i]))
  }

  function Reconcile(rows: seq<Firing>, scope: Scope, user: string, alerts: seq<Alert>, now: int): seq<Firing> {
    ResolveMissing(UpsertAll(rows, scope, user, alerts, now), scope, Keys(alerts), now)
  }

  /** At most one open firing per scope and key: the two partial unique indexes. */
  ghost predicate OneOpen(rows: seq<Firing>) {
    forall i, j :: 0 <= i < j < |rows| && rows[i].open && rows[j].open && rows[i].scope == rows[j].scope ==>
      rows[i].key != rows[j].key
  }

  /** The rows of every other scope, in order. */
  function Outside(rows: seq<Firing>, scope: Scope): seq<Firing> {
    if rows == [] then []
    else (if rows[0].scope == scope then [] else [rows[0]]) + Outside(rows[1..], scope)
  }

  /** A history is only ever added to: a row keeps its identity and its first firing, a closed row everything. */
  ghost predicate Continues(rows: seq<Firing>, rows': seq<Firing>) {
    |rows| <= |rows'| && forall i :: 0 <= i < |rows| ==>
      && rows'[i].scope == rows[i].scope && rows'[i].key == rows[i].key && rows'[i].opener == rows[i].opener
      && rows'[i].firstFiredAt == rows[i].firstFiredAt && rows'[i].code == rows[i].code
      && (!rows[i].open ==> rows'[i] == rows[i])
  }

  lemma {:induction false} OutsideMapped(rows: seq<Firing>, rows': seq<Firing>, scope: Scope)
    requires |rows'| == |rows| && forall i :: 0 <= i < |rows| ==>
      rows'[i].scope == rows[i].scope && (rows[i].scope != scope ==> rows'[i] == rows[i])
    ensures Outside(rows', scope) == Outside(rows, scope)
  {
    if rows != [] { OutsideMapped(rows[1..], rows'[1..], scope); }
  }

  lemma {:induction false} OutsideAppend(rows: seq<Firing>, f: Firing, scope: Scope)
    requires f.scope == scope
    ensures Outside(rows + [f], scope) == Outside(rows, scope)
  {
    if rows == [] {
      assert rows + [f] == [f] && [f][1..] == [];
    } else {
      assert (rows + [f])[1..] == rows[1..] + [f];
      OutsideAppend(rows[1..], f, scope);
    }
  }

  /** One upsert opens its key in its scope and touches nothing else. */
  lemma UpsertEffect(rows: seq<Firing>, scope: Scope, user: string, a: Alert, now: int)
    requires OneOpen(rows)
    ensures var rows' := Upsert(rows, scope, user, a, now);
      && OneOpen(rows') && Continues(rows, rows')
      && Outside(rows', scope) == Outside(rows, scope)
      && OpenKeys(rows', scope) == OpenKeys(rows, scope) + {AlertKey(a)}
  {
    var rows' := Upsert(rows, scope, user, a, now);
    if f :| f in rows && OpenFor(f, scope, AlertKey(a)) {
      SeenEffect(rows, scope, a, now);
      assert AlertKey(a) in OpenKeys(rows, scope);
    } else {
      InsertEffect(rows, scope, user, a, now);
    }
  }

  lemma SeenEffect(rows: seq<Firing>, scope: Scope, a: Alert, now: int)
    requires OneOpen(rows)
    ensures var rows' := seq(|rows|, i requires 0 <= i < |rows| => Seen(scope, a, now, rows[i]));
      && OneOpen(rows') && Continues(rows, rows')
      && Outside(rows', scope) == Outside(rows, scope)
      && OpenKeys(rows', scope) == OpenKeys(rows, scope)
  {
    var rows' := seq(|rows|, i requires 0 <= i < |rows| => Seen(scope, a, now, rows[i]));
    OutsideMapped(rows, rows', scope);
    forall k ensures k in OpenKeys(rows', scope) <==> k in OpenKeys(rows, scope) {
      SameOpen(rows, rows', scope, k);
    }
  }

  lemma InsertEffect(rows: seq<Firing>, scope: Scope, user: string, a: Alert, now: int)
    requires OneOpen(rows) && forall f | f in rows :: !OpenFor(f, scope, AlertKey(a))
    ensures var rows' := rows + [Fresh(scope, user, a, now)];
      && OneOpen(rows') && Continues(rows, rows')
      && Outside(rows', scope) == Outside(rows, scope)
      && OpenKeys(rows', scope) == OpenKeys(rows, scope) + {AlertKey(a)}
  {
    OutsideAppend(rows, Fresh(scope, user, a, now), scope);
    forall i | 0 <= i < |rows| ensures !OpenFor(rows[i], scope, AlertKey(a)) { assert rows[i] in rows; }
  }

  lemma SameOpen(rows: seq<Firing>, rows': seq<Firing>, scope: Scope, k: string)
    requires |rows'| == |rows| && forall i :: 0 <= i < |rows| ==>
      rows'[i].scope == rows[i].scope && rows'[i].key == rows[i].key && rows'[i].open == rows[i].open
    ensures k in OpenKeys(rows', scope) <==> k in OpenKeys(rows, scope)
  {
    if k in OpenKeys(rows, scope) {
      var f :| f in rows && f.scope == scope && f.open && f.key == k;
      var i :| 0 <= i < |rows| && rows[i] == f;
      assert rows'[i] in rows';
    }
    if k in OpenKeys(rows', scope) {
      var f :| f in rows' && f.scope == scope && f.open && f.key == k;
      var i :| 0 <= i < |rows'| && rows'[i] == f;
      assert rows[i] in rows;
    }
  }

  lemma ContinuesTrans(a: seq<Firing>, b: seq<Firing>, c: seq<Firing>)
    requires Continues(a, b) && Continues(b, c)
    ensures Continues(a, c)
  {}

  lemma KeysCons(a: Alert, rest: seq<Alert>)
    ensures Keys([a] + rest) == {AlertKey(a)} + Keys(rest)
  {
    var all := [a] + rest;
    assert forall x :: x in all <==> x == a || x in rest;
  }

  lemma {:induction false} UpsertAllEffect(rows: seq<Firing>, scope: Scope, user: string, alerts: seq<Alert>, now: int)
    requires OneOpen(rows)
    ensures var rows' := UpsertAll(rows, scope, user, alerts, now);
      && OneOpen(rows') && Continues(rows, rows')
      && Outside(rows', scope) == Outside(rows, scope)
      && OpenKeys(rows', scope) == OpenKeys(rows, scope) + Keys(alerts)
    decreases |alerts|
  {
    if alerts != [] {
      var mid := Upsert(rows, scope, user, alerts[0], now);
      UpsertEffect(rows, scope, user, alerts[0], now);
      UpsertAllEffect(mid, scope, user, alerts[1..], now);
      ContinuesTrans(rows, mid, UpsertAll(mid, scope, user, alerts[1..], now));
      KeysCons(alerts[0], alerts[1..]);
      assert alerts == [alerts[0]] + alerts[1..];
    }
  }

  lemma ResolveEffect(rows: seq<Firing>, scope: Scope, keys: set<string>, now: int)
    requires OneOpen(rows)
    ensures var rows' := ResolveMissing(rows, scope, keys, now);
      && OneOpen(rows') && Continues(rows, rows')
      && Outside(rows', scope) == Outside(rows, scope)
      && OpenKeys(rows', scope) == OpenKeys(rows, scope) * keys
  {
    var rows' := ResolveMissing(rows, scope, keys, now);
    OutsideMapped(rows, rows', scope);
    ResolvedKeys(rows, scope, keys, now);
  }

  lemma ResolvedKeys(rows: seq<Firing>, scope: Scope, keys: set<string>, now: int)
    ensures OpenKeys(ResolveMissing(rows, scope, keys, now), scope) == OpenKeys(rows, scope) * keys
  {
    var rows' := ResolveMissing(rows, scope, keys, now);
    forall k ensures k in OpenKeys(rows', scope) <==> k in OpenKeys(rows, scope) && k in keys {
      if k in OpenKeys(rows', scope) {
        var f :| f in rows' && f.scope == scope && f.open && f.key == k;
        var i :| 0 <= i < |rows'| && rows'[i] == f;
        assert rows[i] in rows;
      }
      if k in OpenKeys(rows, scope) && k in keys {
        var f :| f in rows && f.scope == scope && f.open && f.key == k;
        var i :| 0 <= i < |rows| && rows[i] == f;
        assert rows'[i] in rows';
      }
    }
  }

  /**
   After a reconcile the open keys of the scope are exactly the derived keys, no key is open twice,
   the rows of every other scope are untouched, and the history is only added to.
   */
  lemma ReconcileExact(rows: seq<Firing>, scope: Scope, user: string, alerts: seq<Alert>, now: int)
    requires OneOpen(rows)
    ensures var rows' := Reconcile(rows, scope, user, alerts, now);
      && OneOpen(rows') && Continues(rows, rows')
      && Outside(rows', scope) == Outside(rows, scope)
      && OpenKeys(rows', scope) == Keys(alerts)
  {
    UpsertAllEffect(rows, scope, user, alerts, now);
    var mid := UpsertAll(rows, scope, user, alerts, now);
    ResolveEffect(mid, scope, Keys(alerts), now);
    ContinuesTrans(rows, mid, Reconcile(rows, scope, user, alerts, now));
  }

  // ----- a tick of one scope -----

  /** Throttled, unless the answer would differ. */
  function Tick(rows: seq<Firing>, scope: Scope, user: string, alerts: seq<Alert>, now: int, due: bool): seq<Firing> {
    if due || OpenKeys(rows, scope) != Keys(alerts) then Reconcile(rows, scope, user, alerts, now) else rows
  }

  /** Throttled or not, a tick leaves its scope's open keys as the derived keys, and other scopes alone. */
  lemma TickExact(rows: seq<Firing>, scope: Scope, user: string, alerts: seq<Alert>, now: int, due: bool)
    requires OneOpen(rows)
    ensures var rows' := Tick(rows, scope, user, alerts, now, due);
      && OneOpen(rows') && Continues(rows, rows')
      && OpenKeys(rows', scope) == Keys(alerts)
      && OpenKeys(rows', scope) == OpenKeys(Tick(rows, scope, user, alerts, now, true), scope)
      && Outside(rows', scope) == Outside(rows, scope)
      && forall other :: other != scope ==> OpenKeys(rows', other) == OpenKeys(rows, other)
  {
    ReconcileExact(rows, scope, user, alerts, now);
    var rows' := Tick(rows, scope, user, alerts, now, due);
    forall other | other != scope ensures OpenKeys(rows', other) == OpenKeys(rows, other) {
      OutsideKeys(rows, scope, other);
      OutsideKeys(rows', scope, other);
    }
  }

  lemma {:induction false} OutsideKeys(rows: seq<Firing>, scope: Scope, other: Scope)
    requires other != scope
    ensures OpenKeys(Outside(rows, scope), other) == OpenKeys(rows, other)
  {
    if rows != [] {
      OutsideKeys(rows[1..], scope, other);
      var f, rest := rows[0], Outside(rows[1..], scope);
      assert rows == [f] + rows[1..];
      assert OpenKeys(rows, other) == OpenKeys([f], other) + OpenKeys(rows[1..], other);
      assert OpenKeys([f] + rest, other) == OpenKeys([f], other) + OpenKeys(rest, other);
      if f.scope == scope { assert OpenKeys([f], other) == {}; }
    }
  }

  /** `listAlertFirings`: an org's rows together with the deployment's, every open one among them. */
  ghost predicate Lists(listed: seq<Firing>, rows: seq<Firing>, org: string) {
    forall f :: f in listed && f.open <==> f in rows && f.open && (f.scope == Org(org) || f.scope == Deployment)
  }

  /**
   What feeding that union to the divergence test does. While the deployment's open keys are derived
   ones, the test reports divergence for an org exactly when the org itself has diverged or anything
   at all is open for the deployment; so with both scopes settled the throttle is defeated exactly
   while some deployment alert is derived.
   */
  lemma UnionDivergesExactly(listed: seq<Firing>, rows: seq<Firing>, org: string,
                             machines: seq<Machine>, connectors: seq<Connector>, windowed: seq<Connector>,
                             pending: int, failures: int)
    requires Lists(listed, rows, org)
    requires OpenKeys(rows, Deployment) == Keys(DeriveDeploymentAlertSet(pending, failures))
    ensures var derived := Keys(DeriveAlertSet(machines, connectors, windowed));
      var diverges := derived != (set f | f in listed && f.open :: f.key);
      && (diverges <==> OpenKeys(rows, Org(org)) != derived || OpenKeys(rows, Deployment) != {})
      && (OpenKeys(rows, Org(org)) == derived ==> (diverges <==> DeriveDeploymentAlertSet(pending, failures) != []))
  {
    var alerts, global := DeriveAlertSet(machines, connectors, windowed), DeriveDeploymentAlertSet(pending, failures);
    forall a, b | a in alerts && b in global ensures AlertKey(a) != AlertKey(b) {
      ScopesDisjoint(machines, connectors, windowed, pending, failures, a, b);
    }
    assert Keys(alerts) !! Keys(global);
    UnionOpen(listed, rows, org);
    if global != [] { assert global[0] in global && AlertKey(global[0]) in Keys(global); }
  }

  lemma UnionOpen(listed: seq<Firing>, rows: seq<Firing>, org: string)
    requires Lists(listed, rows, org)
    ensures (set f | f in listed && f.open :: f.key) == OpenKeys(rows, Org(org)) + OpenKeys(rows, Deployment)
  {
    var union := OpenKeys(rows, Org(org)) + OpenKeys(rows, Deployment);
    forall k | k in union ensures k in set f | f in listed && f.open :: f.key {
      var f :| f in rows && f.open && f.key == k && (f.scope == Org(org) || f.scope == Deployment);
      assert f in listed;
    }
    forall f | f in listed && f.open ensures f.key in union { assert f in rows; }
  }
}
