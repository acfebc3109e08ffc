/** What one reconcile does to every row: seen again, resolved, opened, or left alone. */
module FiringFacts {
  import opened Wrappers
  import opened Alerts
  import opened Firings

  ghost predicate DistinctAlerts(alerts: seq<Alert>) {
    forall i, j :: 0 <= i < j < |alerts| ==> AlertKey(alerts[i]) != AlertKey(alerts[j])
  }

  predicate IsOpenIn(f: Firing, scope: Scope) { f.scope == scope && f.open }

  /** The row after the upserts: an open row of the scope whose alert is derived was last seen now, at the alert's severity. */
  ghost predicate SeenRow(f: Firing, g: Firing, scope: Scope, alerts: seq<Alert>, now: int) {
    && (forall a | a in alerts && IsOpenIn(f, scope) && AlertKey(a) == f.key ::
          g == Firing(f.scope, f.key, f.code, a.severity, f.opener, true, f.firstFiredAt, now, f.resolvedAt))
    && ((forall a | a in alerts :: !(IsOpenIn(f, scope) && AlertKey(a) == f.key)) ==> g == f)
  }

  /** A row opened now for one of the alerts, whose key no row of the scope had open. */
  ghost predicate OpenedRow(rows: seq<Firing>, g: Firing, scope: Scope, user: string, alerts: seq<Alert>, now: int) {
    exists a :: a in alerts && g == Firing(scope, AlertKey(a), a.code, a.severity, user, true, now, now, None)
                && forall f | f in rows && IsOpenIn(f, scope) :: f.key != AlertKey(a)
  }

  ghost predicate Upserted(rows: seq<Firing>, rows': seq<Firing>, scope: Scope, user: string, alerts: seq<Alert>, now: int) {
    && |rows| <= |rows'|
    && (forall i :: 0 <= i < |rows| ==> SeenRow(rows[i], rows'[i], scope, alerts, now))
    && (forall i :: |rows| <= i < |rows'| ==> OpenedRow(rows, rows'[i], scope, user, alerts, now))
  }

  lemma {:induction false} UpsertAllRows(rows: seq<Firing>, scope: Scope, user: string, alerts: seq<Alert>, now: int)
    requires DistinctAlerts(alerts)
    ensures Upserted(rows, UpsertAll(rows, scope, user, alerts, now), scope, user, alerts, now)
    decreases |alerts|
  {
    if alerts != [] {
      var mid := Upsert(rows, scope, user, alerts[0], now);
      forall i, j | 0 <= i < j < |alerts[1..]| ensures AlertKey(alerts[1..][i]) != AlertKey(alerts[1..][j]) {
        assert alerts[1..][i] == alerts[i + 1] && alerts[1..][j] == alerts[j + 1];
      }
      UpsertAllRows(mid, scope, user, alerts[1..], now);
      forall a | a in alerts[1..] ensures AlertKey(a) != AlertKey(alerts[0]) {
        var i :| 0 <= i < |alerts[1..]| && alerts[1..][i] == a;
        assert alerts[i + 1] == a;
      }
      UpsertThen(rows, mid, UpsertAll(mid, scope, user, alerts[1..], now), scope, user, alerts, now);
    }
  }

  /** One upsert, then those of the other alerts. */
  lemma UpsertThen(rows: seq<Firing>, mid: seq<Firing>, rows': seq<Firing>, scope: Scope, user: string, alerts: seq<Alert>, now: int)
    requires alerts != [] && mid == Upsert(rows, scope, user, alerts[0], now)
    requires forall a | a in alerts[1..] :: AlertKey(a) != AlertKey(alerts[0])
    requires Upserted(mid, rows', scope, user, alerts[1..], now)
    ensures Upserted(rows, rows', scope, user, alerts, now)
  {
    assert forall a :: a in alerts <==> a == alerts[0] || a in alerts[1..];
    forall i | 0 <= i < |rows| ensures SeenRow(rows[i], rows'[i], scope, alerts, now) {
      assert SeenRow(mid[i], rows'[i], scope, alerts[1..], now);
      OneSeen(rows, mid, scope, user, alerts[0], now, i);
      SeenTwice(rows[i], mid[i], rows'[i], scope, alerts, now);
    }
    forall i | |rows| <= i < |rows'| ensures OpenedRow(rows, rows'[i], scope, user, alerts, now) {
      if i < |mid| {
        assert SeenRow(mid[i], rows'[i], scope, alerts[1..], now);
        OneOpened(rows, mid, scope, user, alerts[0], now);
        assert OpenedRow(rows, mid[i], scope, user, alerts, now);
      } else {
        OpenedEarlier(rows, mid, rows'[i], scope, user, alerts, now);
      }
    }
  }

  lemma OneSeen(rows: seq<Firing>, mid: seq<Firing>, scope: Scope, user: string, a: Alert, now: int, i: nat)
    requires i < |rows| && mid == Upsert(rows, scope, user, a, now)
    ensures |mid| >= |rows|
    ensures mid[i] == if IsOpenIn(rows[i], scope) && rows[i].key == AlertKey(a) then rows[i].(lastSeenAt := now, severity := a.severity) else rows[i]
  {
    assert rows[i] in rows;
  }

  lemma SeenTwice(f: Firing, m: Firing, g: Firing, scope: Scope, alerts: seq<Alert>, now: int)
    requires alerts != [] && (forall a | a in alerts[1..] :: AlertKey(a) != AlertKey(alerts[0]))
    requires m == if IsOpenIn(f, scope) && f.key == AlertKey(alerts[0]) then f.(lastSeenAt := now, severity := alerts[0].severity) else f
    requires SeenRow(m, g, scope, alerts[1..], now)
    ensures SeenRow(f, g, scope, alerts, now)
  {
    assert forall a :: a in alerts <==> a == alerts[0] || a in alerts[1..];
  }

  lemma OneOpened(rows: seq<Firing>, mid: seq<Firing>, scope: Scope, user: string, a: Alert, now: int)
    requires mid == Upsert(rows, scope, user, a, now)
    ensures forall i :: |rows| <= i < |mid| ==>
      && mid[i] == Firing(scope, AlertKey(a), a.code, a.severity, user, true, now, now, None)
      && forall f | f in rows && IsOpenIn(f, scope) :: f.key != AlertKey(a)
  {
    assert (forall f | f in rows :: !OpenFor(f, scope, AlertKey(a))) ==>
      forall f | f in rows && IsOpenIn(f, scope) :: f.key != AlertKey(a);
  }

  lemma OpenedEarlier(rows: seq<Firing>, mid: seq<Firing>, g: Firing, scope: Scope, user: string, alerts: seq<Alert>, now: int)
    requires alerts != [] && mid == Upsert(rows, scope, user, alerts[0], now)
    requires OpenedRow(mid, g, scope, user, alerts[1..], now)
    ensures OpenedRow(rows, g, scope, user, alerts, now)
  {
    var a :| a in alerts[1..] && g == Firing(scope, AlertKey(a), a.code, a.severity, user, true, now, now, None)
             && forall f | f in mid && IsOpenIn(f, scope) :: f.key != AlertKey(a);
    forall f | f in rows && IsOpenIn(f, scope) ensures f.key != AlertKey(a) {
      var i :| 0 <= i < |rows| && rows[i] == f;
      OneSeen(rows, mid, scope, user, alerts[0], now, i);
      assert mid[i] in mid;
    }
  }

  /** An open row of the scope whose alert is not derived is resolved now and otherwise as it was. */
  ghost predicate LivedRow(f: Firing, g: Firing, scope: Scope, alerts: seq<Alert>, now: int) {
    if IsOpenIn(f, scope) && AlertMissing(f.key, alerts) then
      g == Firing(f.scope, f.key, f.code, f.severity, f.opener, false, f.firstFiredAt, f.lastSeenAt, Some(now))
    else SeenRow(f, g, scope, alerts, now)
  }

  ghost predicate AlertMissing(key: string, alerts: seq<Alert>) { forall a | a in alerts :: AlertKey(a) != key }

  /**
   A reconcile, row by row: of the scope's open rows, those whose alert is derived were last seen now, at
   its severity, and those whose alert is not are resolved now; rows that are closed or of another scope
   are as they were; and what is added are rows opened now by this user for alerts that had none open.
   */
  lemma ReconcileRows(rows: seq<Firing>, scope: Scope, user: string, alerts: seq<Alert>, now: int)
    requires DistinctAlerts(alerts)
    ensures var rows' := Reconcile(rows, scope, user, alerts, now);
      && |rows| <= |rows'|
      && (forall i :: 0 <= i < |rows| ==> LivedRow(rows[i], rows'[i], scope, alerts, now))
      && (forall i :: |rows| <= i < |rows'| ==> OpenedRow(rows, rows'[i], scope, user, alerts, now))
  {
    UpsertAllRows(rows, scope, user, alerts, now);
    var mid := UpsertAll(rows, scope, user, alerts, now);
    var rows' := Reconcile(rows, scope, user, alerts, now);
    forall i | 0 <= i < |rows| ensures LivedRow(rows[i], rows'[i], scope, alerts, now) {
      ResolvedRow(rows[i], mid[i], scope, alerts, now);
    }
    forall i | |rows| <= i < |rows'| ensures OpenedRow(rows, rows'[i], scope, user, alerts, now) {
      assert OpenedRow(rows, mid[i], scope, user, alerts, now);
      assert rows'[i] == mid[i];
    }
  }

  lemma ResolvedRow(f: Firing, m: Firing, scope: Scope, alerts: seq<Alert>, now: int)
    requires SeenRow(f, m, scope, alerts, now)
    ensures LivedRow(f, Resolved(scope, Keys(alerts), now, m), scope, alerts, now)
  {
    if IsOpenIn(f, scope) && !AlertMissing(f.key, alerts) {
      var a :| a in alerts && AlertKey(a) == f.key;
      assert m.key == f.key && m.key in Keys(alerts);
    }
  }

  /** A tick that is not due and finds the open keys as derived writes nothing; every other tick is such a reconcile. */
  lemma TickRows(rows: seq<Firing>, scope: Scope, user: string, alerts: seq<Alert>, now: int, due: bool)
    requires DistinctAlerts(alerts)
    ensures var rows' := Tick(rows, scope, user, alerts, now, due);
      if !due && (forall k :: (exists f :: f in rows && IsOpenIn(f, scope) && f.key == k) <==> !AlertMissing(k, alerts)) then rows' == rows
      else
        && |rows| <= |rows'|
        && (forall i :: 0 <= i < |rows| ==> LivedRow(rows[i], rows'[i], scope, alerts, now))
        && (forall i :: |rows| <= i < |rows'| ==> OpenedRow(rows, rows'[i], scope, user, alerts, now))
  {
    ReconcileRows(rows, scope, user, alerts, now);
    forall k ensures k in OpenKeys(rows, scope) <==> exists f :: f in rows && IsOpenIn(f, scope) && f.key == k {}
    forall k ensures k in Keys(alerts) <==> !AlertMissing(k, alerts) {}
    assert OpenKeys(rows, scope) == Keys(alerts)
      <==> forall k :: (exists f :: f in rows && IsOpenIn(f, scope) && f.key == k) <==> !AlertMissing(k, alerts) by
    {
      if OpenKeys(rows, scope) != Keys(alerts) {
        var k :| k in OpenKeys(rows, scope) <==> k !in Keys(alerts);
        assert !((exists f :: f in rows && IsOpenIn(f, scope) && f.key == k) <==> !AlertMissing(k, alerts));
      }
    }
  }

  lemma {:induction false} AtMostOnce(alerts: seq<Alert>)
    requires forall k :: Count(alerts, k) <= 1
    ensures DistinctAlerts(alerts)
  {
    if alerts != [] {
      forall k ensures Count(alerts[1..], k) <= 1 { assert Count(alerts, k) <= 1; }
      AtMostOnce(alerts[1..]);
      forall j | 1 <= j < |alerts| ensures AlertKey(alerts[0]) != AlertKey(alerts[j]) {
        CountMember(alerts[1..], AlertKey(alerts[j]));
        assert alerts[1..][j - 1] == alerts[j];
        assert Count(alerts, AlertKey(alerts[j])) <= 1;
      }
      forall i, j | 0 <= i < j < |alerts| ensures AlertKey(alerts[i]) != AlertKey(alerts[j]) {
        if i > 0 { assert alerts[1..][i - 1] == alerts[i] && alerts[1..][j - 1] == alerts[j]; }
      }
    }
  }

  /** An org's derived list meets that: no key is derived twice. */
  lemma OrgAlertsDistinct(machines: seq<Machine>, connectors: seq<Connector>, windowed: seq<Connector>)
    requires forall i, j :: 0 <= i < j < |machines| ==> machines[i].id != machines[j].id
    requires forall i, j :: 0 <= i < j < |connectors| ==> connectors[i].id != connectors[j].id
    requires forall i, j :: 0 <= i < j < |windowed| ==> windowed[i].id != windowed[j].id
    ensures DistinctAlerts(DeriveAlertSet(machines, connectors, windowed))
  {
    forall k ensures Count(DeriveAlertSet(machines, connectors, windowed), k) <= 1 {
      OrgKeysDistinct(machines, connectors, windowed, k);
    }
    AtMostOnce(DeriveAlertSet(machines, connectors, windowed));
  }
}
