/**
 Alert derivation (packages/shared/src/alerts.ts), alert identity
 (packages/shared/src/alert-firings.ts) and the two scopes' sets (apps/ingest/src/alert-set.ts).
 */
module Alerts {
  import opened Wrappers
  import opened Text

  datatype Code =
    | CollectorOffline | CollectorStale | ConnectorFailing | SyncBacklogHigh | SyncBacklogGrowing
    | CatalogUpdate | IngestAuthFailure | ArchiveUnreachable | ConnectorFailureRate

  function CodeName(c: Code): string {
    match c
    case CollectorOffline => "collector.offline"
    case CollectorStale => "collector.stale"
    case ConnectorFailing => "connector.failing"
    case SyncBacklogHigh => "sync.backlog_high"
    case SyncBacklogGrowing => "sync.backlog_growing"
    case CatalogUpdate => "catalog.update_requires_approval"
    case IngestAuthFailure => "ingest.auth_failure"
    case ArchiveUnreachable => "archive.unreachable"
    case ConnectorFailureRate => "connector.failure_rate"
  }

  datatype Severity = Critical | Warning | Informational

  datatype Alert = Alert(code: Code, severity: Severity, machineId: Option<string>, connector: Option<string>)

  /** `${code}:${machineId ?? connector ?? "*"}`. */
  function AlertKey(a: Alert): string {
    CodeName(a.code) + ":" + Target(a)
  }

  function Target(a: Alert): string {
    if a.machineId.Some? then a.machineId.value else if a.connector.Some? then a.connector.value else "*"
  }

  /** The code a name stands for, told by the name's length and one of its characters. */
  function CodeNamed(s: string): Option<Code> {
    match |s|
    case 15 => Some(CollectorStale)
    case 17 => Some(if s[0] == 's' then SyncBacklogHigh else if s[2] == 'l' then CollectorOffline else ConnectorFailing)
    case 19 => Some(if s[0] == 'i' then IngestAuthFailure else ArchiveUnreachable)
    case 20 => Some(SyncBacklogGrowing)
    case 22 => Some(ConnectorFailureRate)
    case 32 => Some(CatalogUpdate)
    case _ => None
  }

  lemma NameOfCode(a: Code)
    ensures CodeNamed(CodeName(a)) == Some(a)
  {
    match a
    case CollectorOffline =>
    case CollectorStale =>
    case ConnectorFailing =>
    case SyncBacklogHigh =>
    case SyncBacklogGrowing =>
    case CatalogUpdate =>
    case IngestAuthFailure =>
    case ArchiveUnreachable =>
    case ConnectorFailureRate =>
  }

  lemma MachineCodesPlain(a: Code)
    requires a.CollectorOffline? || a.CollectorStale? || a.SyncBacklogHigh? || a.SyncBacklogGrowing? || a.ArchiveUnreachable?
    ensures ':' !in CodeName(a)
  {
    match a
    case CollectorOffline =>
    case CollectorStale =>
    case SyncBacklogHigh =>
    case SyncBacklogGrowing =>
    case ArchiveUnreachable =>
  }

  lemma OtherCodesPlain(a: Code)
    requires a.ConnectorFailing? || a.ConnectorFailureRate? || a.CatalogUpdate? || a.IngestAuthFailure?
    ensures ':' !in CodeName(a)
  {
    match a
    case ConnectorFailing =>
    case ConnectorFailureRate =>
    case CatalogUpdate =>
    case IngestAuthFailure =>
  }

  /** No code holds a colon, and no two share a name. */
  lemma CodeNames(a: Code, b: Code)
    ensures ':' !in CodeName(a)
    ensures CodeName(a) == CodeName(b) ==> a == b
  {
    NameOfCode(a);
    NameOfCode(b);
    match a
    case ConnectorFailing => OtherCodesPlain(a);
    case ConnectorFailureRate => OtherCodesPlain(a);
    case CatalogUpdate => OtherCodesPlain(a);
    case IngestAuthFailure => OtherCodesPlain(a);
    case _ => MachineCodesPlain(a);
  }

  /** A key names its code and its target. */
  lemma KeyInjective(a: Alert, b: Alert)
    requires AlertKey(a) == AlertKey(b)
    ensures a.code == b.code && Target(a) == Target(b)
  {
    CodeNames(a.code, b.code);
    CodeNames(b.code, a.code);
    CutFirst(CodeName(a.code), Target(a), CodeName(b.code), Target(b), ':');
  }

  // ----- derivation -----

  datatype MachineStatus = Online | Stale | Offline

  /** `samples` are the windowed backlog readings, oldest first. */
  datatype Machine = Machine(id: string, status: MachineStatus, backlogHigh: bool, syncFailures: nat, samples: seq<int>)
  datatype Connector = Connector(id: string, toolCalls: nat, toolsFailed: nat)

  const MIN_CALLS: nat := 5
  const TREND_MIN_SAMPLES: nat := 3
  const TREND_MIN_GROWTH: int := 50
  const ARCHIVE_UNREACHABLE_MIN_FAILURES: nat := 3
  const AUTH_MIN_FAILURES: int := 3

  function OfMachine(code: Code, severity: Severity, m: Machine): Alert { Alert(code, severity, Some(m.id), None) }

  function LivenessAlerts(m: Machine): seq<Alert> {
    (match m.status
     case Offline => [OfMachine(CollectorOffline, Critical, m)]
     case Stale => [OfMachine(CollectorStale, Warning, m)]
     case Online => [])
    + if m.backlogHigh && !m.status.Offline? then [OfMachine(SyncBacklogHigh, Warning, m)] else []
  }

  /** At least five calls, half of them failed. */
  predicate HalfFailed(c: Connector) { c.toolCalls >= MIN_CALLS && 2 * c.toolsFailed >= c.toolCalls }

  function FailingAlerts(c: Connector): seq<Alert> {
    if HalfFailed(c) then [Alert(ConnectorFailing, Warning, None, Some(c.id))] else []
  }

  predicate BacklogTrend(samples: seq<int>) {
    |samples| >= TREND_MIN_SAMPLES && samples[|samples| - 1] - samples[0] >= TREND_MIN_GROWTH
  }

  function TrendAlerts(m: Machine): seq<Alert> {
    if m.status.Offline? || !BacklogTrend(m.samples) then [] else [OfMachine(SyncBacklogGrowing, Warning, m)]
  }

  function UnreachableAlerts(m: Machine): seq<Alert> {
    if m.status.Offline? || m.syncFailures < ARCHIVE_UNREACHABLE_MIN_FAILURES then []
    else [OfMachine(ArchiveUnreachable, Warning, m)]
  }

  function RateAlerts(c: Connector): seq<Alert> {
    if HalfFailed(c) then [Alert(ConnectorFailureRate, Warning, None, Some(c.id))] else []
  }

  function Each<A, B>(f: A -> seq<B>, xs: seq<A>): seq<B> {
    if xs == [] then [] else f(xs[0]) + Each(f, xs[1..])
  }

  lemma {:induction false} EachSnoc<A, B>(f: A -> seq<B>, xs: seq<A>, i: nat)
    requires i < |xs|
    ensures Each(f, xs[..i + 1]) == Each(f, xs[..i]) + f(xs[i])
    decreases i
  {
    if i == 0 {
      assert xs[..1][1..] == [];
    } else {
      assert xs[..i + 1][1..] == xs[1..][..i] && xs[..i][1..] == xs[1..][..i - 1];
      EachSnoc(f, xs[1..], i - 1);
    }
  }

  function Pick(s: Severity, xs: seq<Alert>): seq<Alert> {
    if xs == [] then []
    else if xs[0].severity == s then [xs[0]] + Pick(s, xs[1..])
    else Pick(s, xs[1..])
  }

  /** The stable sort by severity: critical, warning, info. */
  function SortAlerts(xs: seq<Alert>): seq<Alert> {
    Pick(Critical, xs) + Pick(Warning, xs) + Pick(Informational, xs)
  }

  function DeriveAlerts(machines: seq<Machine>, connectors: seq<Connector>): seq<Alert> {
    SortAlerts(Each(LivenessAlerts, machines) + Each(FailingAlerts, connectors))
  }

  /** The seven org-scoped codes. */
  function DeriveAlertSet(machines: seq<Machine>, connectors: seq<Connector>, windowed: seq<Connector>): seq<Alert> {
    SortAlerts(DeriveAlerts(machines, connectors) + Each(TrendAlerts, machines)
               + Each(UnreachableAlerts, machines) + Each(RateAlerts, windowed))
  }

  /** The two deployment-scoped codes. */
  function DeriveDeploymentAlertSet(pendingCatalogs: int, authFailures: int): seq<Alert> {
    SortAlerts((if pendingCatalogs <= 0 then [] else [Alert(CatalogUpdate, Warning, None, None)])
               + (if authFailures < AUTH_MIN_FAILURES then [] else [Alert(IngestAuthFailure, Warning, None, None)]))
  }

  // ----- derived keys are pairwise distinct -----

  function Count(xs: seq<Alert>, k: string): nat {
    if xs == [] then 0 else (if AlertKey(xs[0]) == k then 1 else 0) + Count(xs[1..], k)
  }

  lemma {:induction false} CountAppend(a: seq<Alert>, b: seq<Alert>, k: string)
    ensures Count(a + b, k) == Count(a, k) + Count(b, k)
  {
    if a == [] {
      assert a + b == b;
    } else {
      assert (a + b)[1..] == a[1..] + b;
      CountAppend(a[1..], b, k);
    }
  }

  /** Sorting moves alerts but neither drops nor doubles one. */
  lemma {:induction false} CountSorted(xs: seq<Alert>, k: string)
    ensures Count(SortAlerts(xs), k) == Count(xs, k)
  {
    CountAppend(Pick(Critical, xs) + Pick(Warning, xs), Pick(Informational, xs), k);
    CountAppend(Pick(Critical, xs), Pick(Warning, xs), k);
    CountPicks(xs, k);
  }

  lemma {:induction false} CountPicks(xs: seq<Alert>, k: string)
    ensures Count(Pick(Critical, xs), k) + Count(Pick(Warning, xs), k) + Count(Pick(Informational, xs), k) == Count(xs, k)
  {
    if xs != [] {
      CountPicks(xs[1..], k);
      var s := xs[0].severity;
      assert ([xs[0]] + Pick(s, xs[1..]))[1..] == Pick(s, xs[1..]);
    }
  }

  lemma {:induction false} CountMember(xs: seq<Alert>, k: string)
    ensures Count(xs, k) > 0 <==> exists a :: a in xs && AlertKey(a) == k
  {
    if xs != [] {
      CountMember(xs[1..], k);
      assert xs == [xs[0]] + xs[1..];
    }
  }

  /** The alerts `f` derives from a subject carry that subject's id and codes from `codes`, none twice. */
  ghost predicate DerivesFrom<A(!new)>(f: A -> seq<Alert>, id: A -> string, codes: set<Code>) {
    && (forall x, a :: a in f(x) ==> a.code in codes && Target(a) == id(x))
    && (forall x, k :: Count(f(x), k) <= 1)
  }

  ghost predicate DistinctIds<A>(id: A -> string, xs: seq<A>) {
    forall i, j :: 0 <= i < j < |xs| ==> id(xs[i]) != id(xs[j])
  }

  lemma {:induction false} EachFrom<A(!new)>(f: A -> seq<Alert>, id: A -> string, codes: set<Code>, xs: seq<A>)
    requires DerivesFrom(f, id, codes)
    ensures forall a | a in Each(f, xs) :: a.code in codes && exists i :: 0 <= i < |xs| && id(xs[i]) == Target(a)
  {
    if xs != [] {
      EachFrom(f, id, codes, xs[1..]);
      forall a | a in Each(f, xs[1..]) ensures exists i :: 0 <= i < |xs| && id(xs[i]) == Target(a) {
        var i :| 0 <= i < |xs[1..]| && id(xs[1..][i]) == Target(a);
        assert id(xs[i + 1]) == Target(a);
      }
      forall a | a in f(xs[0]) ensures a.code in codes && Target(a) == id(xs[0]) {}
    }
  }

  lemma {:induction false} EachDistinct<A(!new)>(f: A -> seq<Alert>, id: A -> string, codes: set<Code>, xs: seq<A>, k: string)
    requires DerivesFrom(f, id, codes) && DistinctIds(id, xs)
    ensures Count(Each(f, xs), k) <= 1
  {
    if xs != [] {
      EachDistinct(f, id, codes, xs[1..], k);
      EachFrom(f, id, codes, xs[1..]);
      CountAppend(f(xs[0]), Each(f, xs[1..]), k);
      CountMember(f(xs[0]), k);
      CountMember(Each(f, xs[1..]), k);
      forall i | 0 <= i < |xs[1..]| ensures id(xs[1..][i]) != id(xs[0]) { assert xs[1..][i] == xs[i + 1]; }
      if Count(f(xs[0]), k) > 0 && Count(Each(f, xs[1..]), k) > 0 {
        var a :| a in f(xs[0]) && AlertKey(a) == k;
        var b :| b in Each(f, xs[1..]) && AlertKey(b) == k;
        KeyInjective(a, b);
      }
    }
  }

  ghost predicate Coded(xs: seq<Alert>, codes: set<Code>) {
    forall a | a in xs :: a.code in codes
  }

  /** Lists over disjoint codes never share a key. */
  lemma CountApart(a: seq<Alert>, b: seq<Alert>, ca: set<Code>, cb: set<Code>, k: string)
    requires Count(a, k) <= 1 && Count(b, k) <= 1
    requires Coded(a, ca) && Coded(b, cb) && ca !! cb
    ensures Count(a + b, k) <= 1 && Coded(a + b, ca + cb)
  {
    CountAppend(a, b, k);
    CountMember(a, k);
    CountMember(b, k);
    if Count(a, k) > 0 && Count(b, k) > 0 {
      var x :| x in a && AlertKey(x) == k;
      var y :| y in b && AlertKey(y) == k;
      KeyInjective(x, y);
    }
  }

  lemma SortedApart(xs: seq<Alert>, codes: set<Code>, k: string)
    requires Count(xs, k) <= 1 && Coded(xs, codes)
    ensures Count(SortAlerts(xs), k) <= 1 && Coded(SortAlerts(xs), codes)
  {
    CountSorted(xs, k);
    SortedMembers(xs);
  }

  const LIVENESS: set<Code> := {CollectorOffline, CollectorStale, SyncBacklogHigh}

  lemma Derivations(mid: Machine -> string, cid: Connector -> string)
    requires (forall m :: mid(m) == m.id) && (forall c :: cid(c) == c.id)
    ensures DerivesFrom(LivenessAlerts, mid, LIVENESS)
    ensures DerivesFrom(FailingAlerts, cid, {ConnectorFailing})
    ensures DerivesFrom(TrendAlerts, mid, {SyncBacklogGrowing})
    ensures DerivesFrom(UnreachableAlerts, mid, {ArchiveUnreachable})
    ensures DerivesFrom(RateAlerts, cid, {ConnectorFailureRate})
  {
    forall m: Machine, k: string ensures Count(LivenessAlerts(m), k) <= 1 { LivenessDistinct(m, k); }
    forall x: Machine, k: string ensures Count(TrendAlerts(x), k) <= 1 && Count(UnreachableAlerts(x), k) <= 1 { }
    forall x: Connector, k: string ensures Count(FailingAlerts(x), k) <= 1 && Count(RateAlerts(x), k) <= 1 { }
  }

  lemma LivenessDistinct(m: Machine, k: string)
    ensures Count(LivenessAlerts(m), k) <= 1
  {
    var xs := LivenessAlerts(m);
    if |xs| == 2 {
      assert xs[1..] == [xs[1]] && xs[1..][1..] == [];
      assert Count(xs[1..], k) == (if AlertKey(xs[1]) == k then 1 else 0) + Count(xs[1..][1..], k);
      if AlertKey(xs[0]) == AlertKey(xs[1]) { KeyInjective(xs[0], xs[1]); }
    } else if |xs| == 1 {
      assert xs[1..] == [];
    }
  }

  lemma SortedMembers(xs: seq<Alert>)
    ensures forall a | a in SortAlerts(xs) :: a in xs
  {
    PickMembers(Critical, xs);
    PickMembers(Warning, xs);
    PickMembers(Informational, xs);
  }

  lemma {:induction false} PickMembers(s: Severity, xs: seq<Alert>)
    ensures forall a | a in Pick(s, xs) :: a in xs
  {
    if xs != [] { PickMembers(s, xs[1..]); }
  }

  lemma MachinePart(f: Machine -> seq<Alert>, codes: set<Code>, machines: seq<Machine>, k: string)
    requires DerivesFrom(f, (m: Machine) => m.id, codes)
    ensures Coded(Each(f, machines), codes)
    ensures (forall i, j :: 0 <= i < j < |machines| ==> machines[i].id != machines[j].id) ==> Count(Each(f, machines), k) <= 1
  {
    EachFrom(f, (m: Machine) => m.id, codes, machines);
    if forall i, j :: 0 <= i < j < |machines| ==> machines[i].id != machines[j].id {
      EachDistinct(f, (m: Machine) => m.id, codes, machines, k);
    }
  }

  lemma ConnectorPart(f: Connector -> seq<Alert>, codes: set<Code>, connectors: seq<Connector>, k: string)
    requires DerivesFrom(f, (c: Connector) => c.id, codes)
    ensures Coded(Each(f, connectors), codes)
    ensures (forall i, j :: 0 <= i < j < |connectors| ==> connectors[i].id != connectors[j].id) ==> Count(Each(f, connectors), k) <= 1
  {
    EachFrom(f, (c: Connector) => c.id, codes, connectors);
    if forall i, j :: 0 <= i < j < |connectors| ==> connectors[i].id != connectors[j].id {
      EachDistinct(f, (c: Connector) => c.id, codes, connectors, k);
    }
  }

  /** The org-scoped set never derives one key twice when machines and connectors are listed once. */
  lemma OrgKeysDistinct(machines: seq<Machine>, connectors: seq<Connector>, windowed: seq<Connector>, k: string)
    requires forall i, j :: 0 <= i < j < |machines| ==> machines[i].id != machines[j].id
    requires forall i, j :: 0 <= i < j < |connectors| ==> connectors[i].id != connectors[j].id
    requires forall i, j :: 0 <= i < j < |windowed| ==> windowed[i].id != windowed[j].id
    ensures Count(DeriveAlertSet(machines, connectors, windowed), k) <= 1
  {
    Derivations((m: Machine) => m.id, (c: Connector) => c.id);
    MachinePart(LivenessAlerts, LIVENESS, machines, k);
    ConnectorPart(FailingAlerts, {ConnectorFailing}, connectors, k);
    MachinePart(TrendAlerts, {SyncBacklogGrowing}, machines, k);
    MachinePart(UnreachableAlerts, {ArchiveUnreachable}, machines, k);
    ConnectorPart(RateAlerts, {ConnectorFailureRate}, windowed, k);
    Stack(Each(LivenessAlerts, machines), Each(FailingAlerts, connectors), Each(TrendAlerts, machines),
          Each(UnreachableAlerts, machines), Each(RateAlerts, windowed), k);
  }

  lemma Stack(a: seq<Alert>, b: seq<Alert>, c: seq<Alert>, d: seq<Alert>, e: seq<Alert>, k: string)
    requires Count(a, k) <= 1 && Count(b, k) <= 1 && Count(c, k) <= 1 && Count(d, k) <= 1 && Count(e, k) <= 1
    requires Coded(a, LIVENESS) && Coded(b, {ConnectorFailing}) && Coded(c, {SyncBacklogGrowing})
    requires Coded(d, {ArchiveUnreachable}) && Coded(e, {ConnectorFailureRate})
    ensures Count(SortAlerts(SortAlerts(a + b) + c + d + e), k) <= 1
  {
    var ab := LIVENESS + {ConnectorFailing};
    CountApart(a, b, LIVENESS, {ConnectorFailing}, k);
    SortedApart(a + b, ab, k);
    CountApart(SortAlerts(a + b), c, ab, {SyncBacklogGrowing}, k);
    CountApart(SortAlerts(a + b) + c, d, ab + {SyncBacklogGrowing}, {ArchiveUnreachable}, k);
    CountApart(SortAlerts(a + b) + c + d, e, ab + {SyncBacklogGrowing} + {ArchiveUnreachable}, {ConnectorFailureRate}, k);
    CountSorted(SortAlerts(a + b) + c + d + e, k);
  }

  const ORG_CODES: set<Code> := {CollectorOffline, CollectorStale, SyncBacklogHigh, ConnectorFailing,
                                 SyncBacklogGrowing, ArchiveUnreachable, ConnectorFailureRate}
  const DEPLOYMENT_CODES: set<Code> := {CatalogUpdate, IngestAuthFailure}

  lemma OrgCodes(machines: seq<Machine>, connectors: seq<Connector>, windowed: seq<Connector>)
    ensures Coded(DeriveAlertSet(machines, connectors, windowed), ORG_CODES)
  {
    Derivations((m: Machine) => m.id, (c: Connector) => c.id);
    MachinePart(LivenessAlerts, LIVENESS, machines, "");
    ConnectorPart(FailingAlerts, {ConnectorFailing}, connectors, "");
    MachinePart(TrendAlerts, {SyncBacklogGrowing}, machines, "");
    MachinePart(UnreachableAlerts, {ArchiveUnreachable}, machines, "");
    ConnectorPart(RateAlerts, {ConnectorFailureRate}, windowed, "");
    SortedMembers(Each(LivenessAlerts, machines) + Each(FailingAlerts, connectors));
    SortedMembers(DeriveAlerts(machines, connectors) + Each(TrendAlerts, machines)
                  + Each(UnreachableAlerts, machines) + Each(RateAlerts, windowed));
  }

  lemma DeploymentCodes(pending: int, failures: int)
    ensures Coded(DeriveDeploymentAlertSet(pending, failures), DEPLOYMENT_CODES)
  {
    SortedMembers((if pending <= 0 then [] else [Alert(CatalogUpdate, Warning, None, None)])
                  + (if failures < AUTH_MIN_FAILURES then [] else [Alert(IngestAuthFailure, Warning, None, None)]));
  }

  /** The two scopes derive disjoint codes, so never one key between them. */
  lemma ScopesDisjoint(machines: seq<Machine>, connectors: seq<Connector>, windowed: seq<Connector>,
                       pending: int, failures: int, a: Alert, b: Alert)
    requires a in DeriveAlertSet(machines, connectors, windowed) && b in DeriveDeploymentAlertSet(pending, failures)
    ensures AlertKey(a) != AlertKey(b)
  {
    OrgCodes(machines, connectors, windowed);
    DeploymentCodes(pending, failures);
    if AlertKey(a) == AlertKey(b) { KeyInjective(a, b); }
  }
}
