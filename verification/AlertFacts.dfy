/** Which alerts there are and in what order, told from the inputs code by code. */
module AlertFacts {
  import opened Wrappers
  import opened Alerts

  // ----- lists -----

  function Those<T>(p: T -> bool, xs: seq<T>): seq<T> {
    if xs == [] then [] else One(p, xs[0]) + Those(p, xs[1..])
  }

  function One<T>(p: T -> bool, x: T): seq<T> { if p(x) then [x] else [] }

  lemma Regroup<T>(a: seq<T>, b: seq<T>, c: seq<T>)
    ensures a + (b + c) == (a + b) + c
  {}

  function Mapped<A, B>(f: A -> B, xs: seq<A>): seq<B> {
    if xs == [] then [] else [f(xs[0])] + Mapped(f, xs[1..])
  }

  lemma {:induction false} ThoseAppend<T>(p: T -> bool, a: seq<T>, b: seq<T>)
    ensures Those(p, a + b) == Those(p, a) + Those(p, b)
  {
    if a == [] {
      assert a + b == b;
    } else {
      assert (a + b)[0] == a[0] && (a + b)[1..] == a[1..] + b;
      ThoseAppend(p, a[1..], b);
      Regroup(One(p, a[0]), Those(p, a[1..]), Those(p, b));
    }
  }

  lemma {:induction false} ThoseNone<T>(p: T -> bool, xs: seq<T>)
    requires forall x | x in xs :: !p(x)
    ensures Those(p, xs) == []
  {
    if xs != [] { ThoseNone(p, xs[1..]); }
  }

  lemma {:induction false} ThoseMember<T(!new)>(p: T -> bool, xs: seq<T>)
    ensures forall x :: x in Those(p, xs) <==> x in xs && p(x)
  {
    if xs != [] {
      ThoseMember(p, xs[1..]);
      assert xs == [xs[0]] + xs[1..];
    }
  }

  lemma {:induction false} MappedMember<A(!new), B(!new)>(f: A -> B, xs: seq<A>)
    ensures forall y :: y in Mapped(f, xs) <==> exists x :: x in xs && f(x) == y
  {
    if xs != [] {
      MappedMember(f, xs[1..]);
      assert xs == [xs[0]] + xs[1..];
    }
  }

  // ----- the order -----

  function HasCode(c: Code): Alert -> bool { (a: Alert) => a.code == c }

  function HasSeverity(s: Severity): Alert -> bool { (a: Alert) => a.severity == s }

  /** Critical before warning before informational. */
  predicate NotAfter(a: Severity, b: Severity) { a == Critical || (a == Warning && b != Critical) || b == Informational }

  lemma {:induction false} PickIs(s: Severity, xs: seq<Alert>)
    ensures Pick(s, xs) == Those(HasSeverity(s), xs)
  {
    if xs != [] { PickIs(s, xs[1..]); }
  }

  lemma PickSeverity(s: Severity, xs: seq<Alert>)
    ensures forall a | a in Pick(s, xs) :: a.severity == s
    ensures forall t :: Those(HasSeverity(t), Pick(s, xs)) == if s == t then Pick(s, xs) else []
  {
    PickIs(s, xs);
    ThoseMember(HasSeverity(s), xs);
    forall t ensures Those(HasSeverity(t), Pick(s, xs)) == if s == t then Pick(s, xs) else [] {
      if s == t { ThoseAll(HasSeverity(s), Pick(s, xs)); } else { ThoseNone(HasSeverity(t), Pick(s, xs)); }
    }
  }

  /** Sorted by severity, and alerts of one severity stay in their order: the stable sort. */
  lemma SortedStably(xs: seq<Alert>)
    ensures var out := SortAlerts(xs);
      && (forall i, j :: 0 <= i < j < |out| ==> NotAfter(out[i].severity, out[j].severity))
      && forall s :: Those(HasSeverity(s), out) == Those(HasSeverity(s), xs)
  {
    var a, b, c := Pick(Critical, xs), Pick(Warning, xs), Pick(Informational, xs);
    PickSeverity(Critical, xs);
    PickSeverity(Warning, xs);
    PickSeverity(Informational, xs);
    ThreeSorted(a, b, c);
    forall s ensures Those(HasSeverity(s), SortAlerts(xs)) == Those(HasSeverity(s), xs) {
      ThoseAppend(HasSeverity(s), a + b, c);
      ThoseAppend(HasSeverity(s), a, b);
      PickIs(s, xs);
    }
  }

  lemma ThreeSorted(a: seq<Alert>, b: seq<Alert>, c: seq<Alert>)
    requires (forall x | x in a :: x.severity == Critical) && (forall x | x in b :: x.severity == Warning)
    requires forall x | x in c :: x.severity == Informational
    ensures var out := a + b + c; forall i, j :: 0 <= i < j < |out| ==> NotAfter(out[i].severity, out[j].severity)
  {
    var out := a + b + c;
    forall i | 0 <= i < |out|
      ensures out[i].severity == if i < |a| then Critical else if i < |a| + |b| then Warning else Informational
    {
      assert out[i] == if i < |a| then a[i] else if i < |a| + |b| then b[i - |a|] else c[i - |a| - |b|];
    }
  }

  lemma {:induction false} ThoseAll<T>(p: T -> bool, xs: seq<T>)
    requires forall x | x in xs :: p(x)
    ensures Those(p, xs) == xs
  {
    if xs != [] { ThoseAll(p, xs[1..]); }
  }

  /** Sorting does not touch the list of one code's alerts when they have one severity. */
  lemma SortedCode(c: Code, s: Severity, xs: seq<Alert>)
    requires forall a | a in xs && a.code == c :: a.severity == s
    ensures Those(HasCode(c), SortAlerts(xs)) == Those(HasCode(c), xs)
  {
    ThoseAppend(HasCode(c), Pick(Critical, xs) + Pick(Warning, xs), Pick(Informational, xs));
    ThoseAppend(HasCode(c), Pick(Critical, xs), Pick(Warning, xs));
    PickedCode(c, s, Critical, xs);
    PickedCode(c, s, Warning, xs);
    PickedCode(c, s, Informational, xs);
  }

  lemma {:induction false} PickedCode(c: Code, s: Severity, t: Severity, xs: seq<Alert>)
    requires forall a | a in xs && a.code == c :: a.severity == s
    ensures Those(HasCode(c), Pick(t, xs)) == if t == s then Those(HasCode(c), xs) else []
  {
    if xs != [] {
      assert forall a | a in xs[1..] :: a in xs;
      PickedCode(c, s, t, xs[1..]);
      var rest := Pick(t, xs[1..]);
      if xs[0].severity == t { assert ([xs[0]] + rest)[1..] == rest; }
    }
  }

  // ----- the conditions -----

  /** The codes raised for a machine, and when. */
  function MachineCodes(): set<Code> { {CollectorOffline, CollectorStale, SyncBacklogHigh, SyncBacklogGrowing, ArchiveUnreachable} }

  function MachineCondition(c: Code): Machine -> bool
    requires c in MachineCodes()
  {
    match c
    case CollectorOffline => (m: Machine) => m.status == Offline
    case CollectorStale => (m: Machine) => m.status == Stale
    case SyncBacklogHigh => (m: Machine) => m.status != Offline && m.backlogHigh
    case SyncBacklogGrowing => (m: Machine) => m.status != Offline && |m.samples| >= 3 && m.samples[|m.samples| - 1] >= m.samples[0] + 50
    case ArchiveUnreachable => (m: Machine) => m.status != Offline && m.syncFailures >= 3
  }

  function MachineAlert(c: Code): Machine -> Alert {
    (m: Machine) => Alert(c, if c == CollectorOffline then Critical else Warning, Some(m.id), None)
  }

  /** At least five calls, and at least half of them failed. */
  function Failing(): Connector -> bool {
    (c: Connector) => c.toolCalls >= 5 && c.toolsFailed as real >= 0.5 * c.toolCalls as real
  }

  function ConnectorAlert(code: Code): Connector -> Alert { (c: Connector) => Alert(code, Warning, None, Some(c.id)) }

  lemma {:induction false} CodeOfEach<A(!new)>(f: A -> seq<Alert>, p: A -> bool, mk: A -> Alert, c: Code, xs: seq<A>)
    requires forall x :: Those(HasCode(c), f(x)) == if p(x) then [mk(x)] else []
    ensures Those(HasCode(c), Each(f, xs)) == Mapped(mk, Those(p, xs))
  {
    if xs != [] {
      CodeOfEach(f, p, mk, c, xs[1..]);
      ThoseAppend(HasCode(c), f(xs[0]), Each(f, xs[1..]));
      MappedOne(mk, p, xs[0], Those(p, xs[1..]));
    }
  }

  lemma MappedOne<A, B>(mk: A -> B, p: A -> bool, x: A, rest: seq<A>)
    ensures Mapped(mk, One(p, x) + rest) == (if p(x) then [mk(x)] else []) + Mapped(mk, rest)
  {
    if p(x) { assert ([x] + rest)[1..] == rest; } else { assert [] + rest == rest; }
  }

  lemma ThoseSmall(c: Code, a: Alert, b: Alert)
    ensures Those(HasCode(c), [a]) == if a.code == c then [a] else []
    ensures Those(HasCode(c), [a] + [b]) == (if a.code == c then [a] else []) + (if b.code == c then [b] else [])
  {
    assert [a][1..] == [] && [b][1..] == [];
    ThoseAppend(HasCode(c), [a], [b]);
  }

  lemma LivenessCode(c: Code, m: Machine)
    requires c in {CollectorOffline, CollectorStale, SyncBacklogHigh}
    ensures Those(HasCode(c), LivenessAlerts(m)) == if MachineCondition(c)(m) then [MachineAlert(c)(m)] else []
  {
    var high := OfMachine(SyncBacklogHigh, Warning, m);
    var offline, stale := OfMachine(CollectorOffline, Critical, m), OfMachine(CollectorStale, Warning, m);
    ThoseSmall(c, offline, high);
    ThoseSmall(c, stale, high);
    ThoseSmall(c, high, high);
    assert [] + [high] == [high] && [offline] + [] == [offline] && [stale] + [] == [stale];
  }

  lemma OtherMachineCode(m: Machine)
    ensures Those(HasCode(SyncBacklogGrowing), TrendAlerts(m))
         == if MachineCondition(SyncBacklogGrowing)(m) then [MachineAlert(SyncBacklogGrowing)(m)] else []
    ensures Those(HasCode(ArchiveUnreachable), UnreachableAlerts(m))
         == if MachineCondition(ArchiveUnreachable)(m) then [MachineAlert(ArchiveUnreachable)(m)] else []
  {
    ThoseSmall(SyncBacklogGrowing, OfMachine(SyncBacklogGrowing, Warning, m), OfMachine(SyncBacklogGrowing, Warning, m));
    ThoseSmall(ArchiveUnreachable, OfMachine(ArchiveUnreachable, Warning, m), OfMachine(ArchiveUnreachable, Warning, m));
  }

  lemma ConnectorCode(c: Connector)
    ensures Those(HasCode(ConnectorFailing), FailingAlerts(c)) == if Failing()(c) then [ConnectorAlert(ConnectorFailing)(c)] else []
    ensures Those(HasCode(ConnectorFailureRate), RateAlerts(c)) == if Failing()(c) then [ConnectorAlert(ConnectorFailureRate)(c)] else []
  {
    var a, b := Alert(ConnectorFailing, Warning, None, Some(c.id)), Alert(ConnectorFailureRate, Warning, None, Some(c.id));
    ThoseSmall(ConnectorFailing, a, a);
    ThoseSmall(ConnectorFailureRate, b, b);
  }

  /** An alert list in which each code has its one severity. */
  predicate Graded(xs: seq<Alert>) { forall a | a in xs :: a.severity == if a.code == CollectorOffline then Critical else Warning }

  lemma {:induction false} EachGraded<A(!new)>(f: A -> seq<Alert>, codes: set<Code>, xs: seq<A>)
    requires forall x, a :: a in f(x) ==> a.code in codes && a.severity == if a.code == CollectorOffline then Critical else Warning
    ensures Graded(Each(f, xs)) && forall a | a in Each(f, xs) :: a.code in codes
  {
    if xs != [] { EachGraded(f, codes, xs[1..]); }
  }

  /** The five parts of an org's list, before sorting. */
  function Parts(machines: seq<Machine>, connectors: seq<Connector>, windowed: seq<Connector>): seq<Alert> {
    (Each(LivenessAlerts, machines) + Each(FailingAlerts, connectors))
    + (Each(TrendAlerts, machines) + (Each(UnreachableAlerts, machines) + Each(RateAlerts, windowed)))
  }

  lemma PartsOfCode(machines: seq<Machine>, connectors: seq<Connector>, windowed: seq<Connector>, c: Code)
    ensures Those(HasCode(c), Parts(machines, connectors, windowed))
         == (Those(HasCode(c), Each(LivenessAlerts, machines)) + Those(HasCode(c), Each(FailingAlerts, connectors)))
            + (Those(HasCode(c), Each(TrendAlerts, machines))
               + (Those(HasCode(c), Each(UnreachableAlerts, machines)) + Those(HasCode(c), Each(RateAlerts, windowed))))
  {
    var a, b, t := Each(LivenessAlerts, machines), Each(FailingAlerts, connectors), Each(TrendAlerts, machines);
    var u, r := Each(UnreachableAlerts, machines), Each(RateAlerts, windowed);
    ThoseAppend(HasCode(c), a + b, t + (u + r));
    ThoseAppend(HasCode(c), a, b);
    ThoseAppend(HasCode(c), t, u + r);
    ThoseAppend(HasCode(c), u, r);
  }

  /** Sorting twice, first a part and then the whole, leaves the alerts of a code as the parts have them. */
  lemma SetOfCode(machines: seq<Machine>, connectors: seq<Connector>, windowed: seq<Connector>, c: Code)
    ensures Those(HasCode(c), DeriveAlertSet(machines, connectors, windowed))
         == Those(HasCode(c), Parts(machines, connectors, windowed))
  {
    AllGraded(machines, connectors, windowed);
    SortedTwice(c, Each(LivenessAlerts, machines) + Each(FailingAlerts, connectors), Each(TrendAlerts, machines),
                Each(UnreachableAlerts, machines), Each(RateAlerts, windowed));
  }

  lemma SortedTwice(c: Code, ab: seq<Alert>, t: seq<Alert>, u: seq<Alert>, r: seq<Alert>)
    requires Graded(ab) && Graded(t) && Graded(u) && Graded(r)
    ensures Those(HasCode(c), SortAlerts(SortAlerts(ab) + t + u + r)) == Those(HasCode(c), ab + (t + (u + r)))
  {
    var s := if c == CollectorOffline then Critical else Warning;
    SortedCode(c, s, ab);
    SortedMembers(ab);
    SortedCode(c, s, SortAlerts(ab) + t + u + r);
    Regroup(SortAlerts(ab) + t, u, r);
    Regroup(SortAlerts(ab), t, u + r);
    ThoseAppend(HasCode(c), SortAlerts(ab), t + (u + r));
    ThoseAppend(HasCode(c), ab, t + (u + r));
  }

  lemma AllGraded(machines: seq<Machine>, connectors: seq<Connector>, windowed: seq<Connector>)
    ensures Graded(Each(LivenessAlerts, machines)) && Graded(Each(FailingAlerts, connectors))
    ensures Graded(Each(TrendAlerts, machines)) && Graded(Each(UnreachableAlerts, machines)) && Graded(Each(RateAlerts, windowed))
    ensures forall a | a in Each(LivenessAlerts, machines) :: a.code in LIVENESS
    ensures forall a | a in Each(FailingAlerts, connectors) :: a.code == ConnectorFailing
    ensures forall a | a in Each(TrendAlerts, machines) :: a.code == SyncBacklogGrowing
    ensures forall a | a in Each(UnreachableAlerts, machines) :: a.code == ArchiveUnreachable
    ensures forall a | a in Each(RateAlerts, windowed) :: a.code == ConnectorFailureRate
  {
    EachGraded(LivenessAlerts, LIVENESS, machines);
    EachGraded(FailingAlerts, {ConnectorFailing}, connectors);
    EachGraded(TrendAlerts, {SyncBacklogGrowing}, machines);
    EachGraded(UnreachableAlerts, {ArchiveUnreachable}, machines);
    EachGraded(RateAlerts, {ConnectorFailureRate}, windowed);
  }

  /** What the parts that do not raise a code hold of it. */
  lemma OtherParts(machines: seq<Machine>, connectors: seq<Connector>, windowed: seq<Connector>, c: Code)
    ensures c !in LIVENESS ==> Those(HasCode(c), Each(LivenessAlerts, machines)) == []
    ensures c != ConnectorFailing ==> Those(HasCode(c), Each(FailingAlerts, connectors)) == []
    ensures c != SyncBacklogGrowing ==> Those(HasCode(c), Each(TrendAlerts, machines)) == []
    ensures c != ArchiveUnreachable ==> Those(HasCode(c), Each(UnreachableAlerts, machines)) == []
    ensures c != ConnectorFailureRate ==> Those(HasCode(c), Each(RateAlerts, windowed)) == []
  {
    AllGraded(machines, connectors, windowed);
    if c !in LIVENESS { ThoseNone(HasCode(c), Each(LivenessAlerts, machines)); }
    if c != ConnectorFailing { ThoseNone(HasCode(c), Each(FailingAlerts, connectors)); }
    if c != SyncBacklogGrowing { ThoseNone(HasCode(c), Each(TrendAlerts, machines)); }
    if c != ArchiveUnreachable { ThoseNone(HasCode(c), Each(UnreachableAlerts, machines)); }
    if c != ConnectorFailureRate { ThoseNone(HasCode(c), Each(RateAlerts, windowed)); }
  }

  // ----- the sets, code by code -----

  /**
   An org's alerts of a machine code are, in the order of the machines, one for each machine that meets
   the code's condition: critical for an offline collector, else a warning.
   */
  lemma MachineAlertsExact(machines: seq<Machine>, connectors: seq<Connector>, windowed: seq<Connector>, c: Code)
    requires c in MachineCodes()
    ensures Those(HasCode(c), DeriveAlertSet(machines, connectors, windowed))
         == Mapped(MachineAlert(c), Those(MachineCondition(c), machines))
  {
    WhatIsLeft(machines, connectors, windowed, c);
    if c in LIVENESS {
      EachLiveness(machines, c);
    } else if c == SyncBacklogGrowing {
      EachTrend(machines);
    } else {
      EachUnreachable(machines);
    }
  }

  lemma EachTrend(machines: seq<Machine>)
    ensures var c := SyncBacklogGrowing;
      Those(HasCode(c), Each(TrendAlerts, machines)) == Mapped(MachineAlert(c), Those(MachineCondition(c), machines))
  {
    var c := SyncBacklogGrowing;
    forall m ensures Those(HasCode(c), TrendAlerts(m)) == if MachineCondition(c)(m) then [MachineAlert(c)(m)] else [] {
      OtherMachineCode(m);
    }
    CodeOfEach(TrendAlerts, MachineCondition(c), MachineAlert(c), c, machines);
  }

  lemma EachUnreachable(machines: seq<Machine>)
    ensures var c := ArchiveUnreachable;
      Those(HasCode(c), Each(UnreachableAlerts, machines)) == Mapped(MachineAlert(c), Those(MachineCondition(c), machines))
  {
    var c := ArchiveUnreachable;
    forall m ensures Those(HasCode(c), UnreachableAlerts(m)) == if MachineCondition(c)(m) then [MachineAlert(c)(m)] else [] {
      OtherMachineCode(m);
    }
    CodeOfEach(UnreachableAlerts, MachineCondition(c), MachineAlert(c), c, machines);
  }

  /** Those of the two connector codes: one for each failing connector, lifetime or windowed; no other code occurs. */
  lemma ConnectorAlertsExact(machines: seq<Machine>, connectors: seq<Connector>, windowed: seq<Connector>)
    ensures var out := DeriveAlertSet(machines, connectors, windowed);
      && Those(HasCode(ConnectorFailing), out) == Mapped(ConnectorAlert(ConnectorFailing), Those(Failing(), connectors))
      && Those(HasCode(ConnectorFailureRate), out) == Mapped(ConnectorAlert(ConnectorFailureRate), Those(Failing(), windowed))
      && Those(HasCode(CatalogUpdate), out) == Those(HasCode(IngestAuthFailure), out) == []
  {
    EachFailing(connectors);
    EachRate(windowed);
    WhatIsLeft(machines, connectors, windowed, ConnectorFailing);
    WhatIsLeft(machines, connectors, windowed, ConnectorFailureRate);
    WhatIsLeft(machines, connectors, windowed, CatalogUpdate);
    WhatIsLeft(machines, connectors, windowed, IngestAuthFailure);
  }

  lemma EachFailing(connectors: seq<Connector>)
    ensures Those(HasCode(ConnectorFailing), Each(FailingAlerts, connectors))
         == Mapped(ConnectorAlert(ConnectorFailing), Those(Failing(), connectors))
  {
    forall c: Connector
      ensures Those(HasCode(ConnectorFailing), FailingAlerts(c)) == if Failing()(c) then [ConnectorAlert(ConnectorFailing)(c)] else []
    {
      ConnectorCode(c);
    }
    CodeOfEach(FailingAlerts, Failing(), ConnectorAlert(ConnectorFailing), ConnectorFailing, connectors);
  }

  lemma EachRate(windowed: seq<Connector>)
    ensures Those(HasCode(ConnectorFailureRate), Each(RateAlerts, windowed))
         == Mapped(ConnectorAlert(ConnectorFailureRate), Those(Failing(), windowed))
  {
    forall c: Connector
      ensures Those(HasCode(ConnectorFailureRate), RateAlerts(c)) == if Failing()(c) then [ConnectorAlert(ConnectorFailureRate)(c)] else []
    {
      ConnectorCode(c);
    }
    CodeOfEach(RateAlerts, Failing(), ConnectorAlert(ConnectorFailureRate), ConnectorFailureRate, windowed);
  }

  /** A code is found in one part only, if at all. */
  lemma WhatIsLeft(machines: seq<Machine>, connectors: seq<Connector>, windowed: seq<Connector>, c: Code)
    ensures Those(HasCode(c), DeriveAlertSet(machines, connectors, windowed))
         == match c
            case CollectorOffline => Those(HasCode(c), Each(LivenessAlerts, machines))
            case CollectorStale => Those(HasCode(c), Each(LivenessAlerts, machines))
            case SyncBacklogHigh => Those(HasCode(c), Each(LivenessAlerts, machines))
            case SyncBacklogGrowing => Those(HasCode(c), Each(TrendAlerts, machines))
            case ArchiveUnreachable => Those(HasCode(c), Each(UnreachableAlerts, machines))
            case ConnectorFailing => Those(HasCode(c), Each(FailingAlerts, connectors))
            case ConnectorFailureRate => Those(HasCode(c), Each(RateAlerts, windowed))
            case _ => []
  {
    SetOfCode(machines, connectors, windowed, c);
    PartsOfCode(machines, connectors, windowed, c);
    OtherParts(machines, connectors, windowed, c);
  }

  /** The condition on the inputs under which exactly this alert is in an org's set. */
  ghost predicate Raised(machines: seq<Machine>, connectors: seq<Connector>, windowed: seq<Connector>, a: Alert) {
    match a.code
    case ConnectorFailing => exists c :: c in connectors && Failing()(c) && a == Alert(ConnectorFailing, Warning, None, Some(c.id))
    case ConnectorFailureRate => exists c :: c in windowed && Failing()(c) && a == Alert(ConnectorFailureRate, Warning, None, Some(c.id))
    case CatalogUpdate => false
    case IngestAuthFailure => false
    case _ => exists m :: m in machines && MachineCondition(a.code)(m) && a == MachineAlert(a.code)(m)
  }

  /** An org's set holds exactly the alerts whose condition holds, sorted by severity. */
  lemma RaisedExactly(machines: seq<Machine>, connectors: seq<Connector>, windowed: seq<Connector>, a: Alert)
    ensures var out := DeriveAlertSet(machines, connectors, windowed);
      && (a in out <==> Raised(machines, connectors, windowed, a))
      && (forall i, j :: 0 <= i < j < |out| ==> NotAfter(out[i].severity, out[j].severity))
  {
    SortedStably(DeriveAlerts(machines, connectors) + Each(TrendAlerts, machines)
                 + Each(UnreachableAlerts, machines) + Each(RateAlerts, windowed));
    ThoseMember(HasCode(a.code), DeriveAlertSet(machines, connectors, windowed));
    if a.code in MachineCodes() {
      MachineRaised(machines, connectors, windowed, a);
    } else {
      ConnectorRaised(machines, connectors, windowed, a);
    }
  }

  lemma MachineRaised(machines: seq<Machine>, connectors: seq<Connector>, windowed: seq<Connector>, a: Alert)
    requires a.code in MachineCodes()
    ensures a in Those(HasCode(a.code), DeriveAlertSet(machines, connectors, windowed))
       <==> exists m :: m in machines && MachineCondition(a.code)(m) && a == MachineAlert(a.code)(m)
  {
    MachineAlertsExact(machines, connectors, windowed, a.code);
    MappedThose(MachineAlert(a.code), MachineCondition(a.code), machines, a);
  }

  lemma ConnectorRaised(machines: seq<Machine>, connectors: seq<Connector>, windowed: seq<Connector>, a: Alert)
    requires a.code !in MachineCodes()
    ensures a in Those(HasCode(a.code), DeriveAlertSet(machines, connectors, windowed)) <==> Raised(machines, connectors, windowed, a)
  {
    ConnectorAlertsExact(machines, connectors, windowed);
    MappedThose(ConnectorAlert(a.code), Failing(), connectors, a);
    MappedThose(ConnectorAlert(a.code), Failing(), windowed, a);
  }

  lemma MappedThose<A(!new), B(!new)>(f: A -> B, p: A -> bool, xs: seq<A>, y: B)
    ensures y in Mapped(f, Those(p, xs)) <==> exists x :: x in xs && p(x) && y == f(x)
  {
    ThoseMember(p, xs);
    MappedMember(f, Those(p, xs));
  }

  /** What the snapshot alone derives: the liveness codes and the lifetime failures. */
  ghost predicate Derived(machines: seq<Machine>, connectors: seq<Connector>, a: Alert) {
    a.code in {CollectorOffline, CollectorStale, SyncBacklogHigh, ConnectorFailing} && Raised(machines, connectors, [], a)
  }

  lemma DerivedExactly(machines: seq<Machine>, connectors: seq<Connector>)
    ensures var out := DeriveAlerts(machines, connectors);
      && (forall a :: a in out <==> Derived(machines, connectors, a))
      && (forall i, j :: 0 <= i < j < |out| ==> NotAfter(out[i].severity, out[j].severity))
  {
    var ab := Each(LivenessAlerts, machines) + Each(FailingAlerts, connectors);
    SortedStably(ab);
    AllGraded(machines, connectors, []);
    forall a ensures a in DeriveAlerts(machines, connectors) <==> Derived(machines, connectors, a) {
      SortedCode(a.code, if a.code == CollectorOffline then Critical else Warning, ab);
      ThoseMember(HasCode(a.code), SortAlerts(ab));
      ThoseMember(HasCode(a.code), ab);
      SnapshotRaised(machines, connectors, a);
    }
  }

  lemma SnapshotRaised(machines: seq<Machine>, connectors: seq<Connector>, a: Alert)
    ensures a in Each(LivenessAlerts, machines) + Each(FailingAlerts, connectors) <==> Derived(machines, connectors, a)
  {
    LivenessRaised(machines, connectors, a);
    FailingRaised(machines, connectors, a);
  }

  lemma LivenessRaised(machines: seq<Machine>, connectors: seq<Connector>, a: Alert)
    ensures a in Each(LivenessAlerts, machines) <==> a.code in LIVENESS && Raised(machines, connectors, [], a)
  {
    AllGraded(machines, connectors, []);
    if a.code in LIVENESS {
      ThoseMember(HasCode(a.code), Each(LivenessAlerts, machines));
      EachLiveness(machines, a.code);
      MappedThose(MachineAlert(a.code), MachineCondition(a.code), machines, a);
    }
  }

  lemma FailingRaised(machines: seq<Machine>, connectors: seq<Connector>, a: Alert)
    ensures a in Each(FailingAlerts, connectors) <==> a.code == ConnectorFailing && Raised(machines, connectors, [], a)
  {
    AllGraded(machines, connectors, []);
    if a.code == ConnectorFailing {
      ThoseMember(HasCode(a.code), Each(FailingAlerts, connectors));
      EachFailing(connectors);
      MappedThose(ConnectorAlert(a.code), Failing(), connectors, a);
    }
  }

  lemma EachLiveness(machines: seq<Machine>, c: Code)
    requires c in LIVENESS
    ensures Those(HasCode(c), Each(LivenessAlerts, machines)) == Mapped(MachineAlert(c), Those(MachineCondition(c), machines))
  {
    forall m ensures Those(HasCode(c), LivenessAlerts(m)) == if MachineCondition(c)(m) then [MachineAlert(c)(m)] else [] {
      LivenessCode(c, m);
    }
    CodeOfEach(LivenessAlerts, MachineCondition(c), MachineAlert(c), c, machines);
  }

  /** The loops of `deriveAlerts`. */
  method DeriveAlertsLoop(machines: seq<Machine>, connectors: seq<Connector>) returns (out: seq<Alert>)
    ensures out == DeriveAlerts(machines, connectors)
    ensures forall a :: a in out <==> Derived(machines, connectors, a)
    ensures forall i, j :: 0 <= i < j < |out| ==> NotAfter(out[i].severity, out[j].severity)
  {
    DerivedExactly(machines, connectors);
    var alerts: seq<Alert> := [];
    for i := 0 to |machines|
      invariant alerts == Each(LivenessAlerts, machines[..i])
    {
      var m := machines[i];
      EachSnoc(LivenessAlerts, machines, i);
      if m.status.Offline? {
        alerts := alerts + [OfMachine(CollectorOffline, Critical, m)];
      } else if m.status.Stale? {
        alerts := alerts + [OfMachine(CollectorStale, Warning, m)];
      }
      if m.backlogHigh && !m.status.Offline? {
        alerts := alerts + [OfMachine(SyncBacklogHigh, Warning, m)];
      }
    }
    assert machines[..|machines|] == machines;
    for i := 0 to |connectors|
      invariant alerts == Each(LivenessAlerts, machines) + Each(FailingAlerts, connectors[..i])
    {
      EachSnoc(FailingAlerts, connectors, i);
      if HalfFailed(connectors[i]) {
        alerts := alerts + [Alert(ConnectorFailing, Warning, None, Some(connectors[i].id))];
      }
    }
    assert connectors[..|connectors|] == connectors;
    out := SortAlerts(alerts);
  }

  /** Within a severity: the snapshot's alerts, then growing backlogs, unreachable archives and windowed failures. */
  lemma OrderExactly(machines: seq<Machine>, connectors: seq<Connector>, windowed: seq<Connector>, s: Severity)
    ensures Those(HasSeverity(s), DeriveAlertSet(machines, connectors, windowed))
         == Those(HasSeverity(s), Parts(machines, connectors, windowed))
  {
    var ab := Each(LivenessAlerts, machines) + Each(FailingAlerts, connectors);
    var t, u, r := Each(TrendAlerts, machines), Each(UnreachableAlerts, machines), Each(RateAlerts, windowed);
    SortedStably(ab);
    SortedStably(SortAlerts(ab) + t + u + r);
    Regroup(SortAlerts(ab) + t, u, r);
    Regroup(SortAlerts(ab), t, u + r);
    ThoseAppend(HasSeverity(s), SortAlerts(ab), t + (u + r));
    ThoseAppend(HasSeverity(s), ab, t + (u + r));
  }

  /** The deployment's set: a pending catalog, and three failed authentications, each at most once. */
  lemma DeploymentExactly(pending: int, failures: int, a: Alert)
    ensures var out := DeriveDeploymentAlertSet(pending, failures);
      && (a in out <==> ((a == Alert(CatalogUpdate, Warning, None, None) && pending >= 1)
                         || (a == Alert(IngestAuthFailure, Warning, None, None) && failures >= 3)))
      && |out| == (if pending >= 1 then 1 else 0) + (if failures >= 3 then 1 else 0)
  {
    var parts := (if pending <= 0 then [] else [Alert(CatalogUpdate, Warning, None, None)])
               + (if failures < AUTH_MIN_FAILURES then [] else [Alert(IngestAuthFailure, Warning, None, None)]);
    AllWarnings(parts);
  }

  lemma AllWarnings(xs: seq<Alert>)
    requires forall a | a in xs :: a.severity == Warning
    ensures SortAlerts(xs) == xs
  {
    PickIs(Critical, xs);
    PickIs(Warning, xs);
    PickIs(Informational, xs);
    ThoseNone(HasSeverity(Critical), xs);
    ThoseNone(HasSeverity(Informational), xs);
    ThoseAll(HasSeverity(Warning), xs);
  }
}
