/**
 Capture health (packages/shared/src/capture-health.ts). The loops are proved equal to a form that
 does not mention the order of their input.
 */
module CaptureHealth {
  import opened Wrappers
  import opened Text
  import opened Tallies

  datatype MonitorStatus = Online | Stale | Offline
  datatype Liveness = Streaming | NearRealTime | Batch | Snapshot
  datatype Approval = Approved | NeedsApproval

  /** A nullable ISO timestamp: null, a string no date can be read from, or an instant in ms. */
  datatype Stamp = Absent | Garbled | At(ms: int)

  datatype State = Healthy | Idle | Erroring | AwaitingApproval | Disabled | Silent | Unreported | Unknown
  datatype Verdict = Capturing | NotCapturing | Broken | VerdictUnknown

  const VERDICTS: seq<Verdict> := [Capturing, NotCapturing, Broken, VerdictUnknown]

  function VerdictOf(s: State): Verdict {
    match s
    case Healthy => Capturing
    case Idle => Capturing
    case Disabled => NotCapturing
    case Erroring => Broken
    case Silent => Broken
    case AwaitingApproval => Broken
    case Unreported => VerdictUnknown
    case Unknown => VerdictUnknown
  }

  datatype Machine = Machine(id: string, name: string, status: MonitorStatus)
  datatype Observed = Observed(machineId: string, connectorId: string, lastEventAt: Stamp)
  datatype Declared = Declared(machineId: string, connectorId: string, lastEventAt: Stamp,
                               enabled: bool, approval: Approval, liveness: Liveness, lastErrorAt: Stamp)
  datatype Inputs = Inputs(machines: seq<Machine>, declared: seq<Declared>, observed: seq<Observed>)
  datatype Row = Row(machineId: string, machineName: string, machineStatus: MonitorStatus,
                     connectorId: string, state: State, declared: bool, lastEventAt: Stamp)

  const FRESH_EVENT_MS: int := 24 * 60 * 60 * 1000

  function MsOf(s: Stamp): Option<int> { if s.At? then Some(s.ms) else None }

  predicate Fresh(s: Stamp, nowMs: int) { MsOf(s).Some? && nowMs - MsOf(s).value <= FRESH_EVENT_MS }

  predicate IsLiveCapture(l: Liveness) { l.Streaming? || l.NearRealTime? }

  function Key(machineId: string, connectorId: string): string { machineId + ['\0'] + connectorId }

  function ClassifyDeclared(d: Declared, status: MonitorStatus, nowMs: int, active: set<string>): State {
    if status.Offline? then Unknown
    else if !d.enabled then Disabled
    else if d.approval.NeedsApproval? then AwaitingApproval
    else
      var errorMs := MsOf(d.lastErrorAt);
      var eventMs := MsOf(d.lastEventAt);
      if errorMs.Some? && (eventMs.None? || errorMs.value >= eventMs.value) then Erroring
      else if Fresh(d.lastEventAt, nowMs) then Healthy
      else if IsLiveCapture(d.liveness) && (d.lastEventAt.Absent? || d.machineId in active) then Silent
      else Idle
  }

  /** Everything a row is computed from besides its own input: no order left in it. */
  datatype Context = Context(machines: map<string, Machine>, active: set<string>, declared: set<string>, nowMs: int)

  /** `new Map(machines.map((m) => [m.id, m]))`: the last entry of an id stays. */
  function ById(machines: seq<Machine>): map<string, Machine> {
    if machines == [] then map[]
    else ById(machines[..|machines| - 1])[machines[|machines| - 1].id := machines[|machines| - 1]]
  }

  function ActiveIn(inp: Inputs, nowMs: int): set<string> {
    (set d | d in inp.declared && Fresh(d.lastEventAt, nowMs) :: d.machineId) +
    (set o | o in inp.observed && Fresh(o.lastEventAt, nowMs) :: o.machineId)
  }

  function ContextOf(inp: Inputs, nowMs: int): Context {
    Context(ById(inp.machines), ActiveIn(inp, nowMs),
            set d | d in inp.declared :: Key(d.machineId, d.connectorId), nowMs)
  }

  function StatusIn(c: Context, id: string): MonitorStatus {
    if id in c.machines then c.machines[id].status else Offline
  }

  function NameIn(c: Context, id: string): string { if id in c.machines then c.machines[id].name else id }

  function DeclaredRow(c: Context): Declared -> Row {
    (d: Declared) =>
      Row(d.machineId, NameIn(c, d.machineId), StatusIn(c, d.machineId), d.connectorId,
          ClassifyDeclared(d, StatusIn(c, d.machineId), c.nowMs, c.active), true, d.lastEventAt)
  }

  function UnreportedRow(c: Context): Observed -> Row {
    (o: Observed) =>
      Row(o.machineId, NameIn(c, o.machineId), StatusIn(c, o.machineId), o.connectorId, Unreported, false, o.lastEventAt)
  }

  function Undeclared(c: Context): Observed -> bool {
    (o: Observed) => Key(o.machineId, o.connectorId) !in c.declared
  }

  function RowsOf(inp: Inputs, nowMs: int): seq<Row> {
    var c := ContextOf(inp, nowMs);
    Each(DeclaredRow(c), inp.declared) + Each(UnreportedRow(c), Kept(Undeclared(c), inp.observed))
  }

  /** The rows before they are sorted for display. */
  method DeriveCaptureHealth(inp: Inputs, nowMs: int) returns (rows: seq<Row>)
    ensures rows == RowsOf(inp, nowMs)
  {
    var machineById: map<string, Machine> := map[];
    for i := 0 to |inp.machines|
      invariant machineById == ById(inp.machines[..i])
    {
      assert inp.machines[..i + 1][..i] == inp.machines[..i];
      machineById := machineById[inp.machines[i].id := inp.machines[i]];
    }
    TallyAll(inp.machines);
    var active := ActiveMachines(inp, nowMs);
    var declaredKeys: set<string> := {};
    ghost var c := ContextOf(inp, nowMs);
    rows := [];
    for i := 0 to |inp.declared|
      invariant declaredKeys == set d | d in inp.declared[..i] :: Key(d.machineId, d.connectorId)
      invariant rows == Each(DeclaredRow(c), inp.declared[..i])
    {
      var d := inp.declared[i];
      assert inp.declared[..i + 1] == inp.declared[..i] + [d];
      EachAppend(DeclaredRow(c), inp.declared[..i], d);
      declaredKeys := declaredKeys + {Key(d.machineId, d.connectorId)};
      var known := d.machineId in machineById;
      var status := if known then machineById[d.machineId].status else Offline;
      rows := rows + [Row(d.machineId, if known then machineById[d.machineId].name else d.machineId, status,
                          d.connectorId, ClassifyDeclared(d, status, nowMs, active), true, d.lastEventAt)];
    }
    TallyAll(inp.declared);
    ghost var first := rows;
    EachAppend(UnreportedRow(c), [], Observed("", "", Absent));
    for i := 0 to |inp.observed|
      invariant rows == first + Each(UnreportedRow(c), Kept(Undeclared(c), inp.observed[..i]))
    {
      var o := inp.observed[i];
      assert inp.observed[..i + 1][..i] == inp.observed[..i];
      if Key(o.machineId, o.connectorId) !in declaredKeys {
        EachAppend(UnreportedRow(c), Kept(Undeclared(c), inp.observed[..i]), o);
        var known := o.machineId in machineById;
        rows := rows + [Row(o.machineId, if known then machineById[o.machineId].name else o.machineId,
                            if known then machineById[o.machineId].status else Offline,
                            o.connectorId, Unreported, false, o.lastEventAt)];
      }
    }
    TallyAll(inp.observed);
  }

  method ActiveMachines(inp: Inputs, nowMs: int) returns (active: set<string>)
    ensures active == ActiveIn(inp, nowMs)
  {
    active := {};
    for i := 0 to |inp.declared|
      invariant active == set d | d in inp.declared[..i] && Fresh(d.lastEventAt, nowMs) :: d.machineId
    {
      assert inp.declared[..i + 1] == inp.declared[..i] + [inp.declared[i]];
      if Fresh(inp.declared[i].lastEventAt, nowMs) { active := active + {inp.declared[i].machineId}; }
    }
    ghost var first := active;
    for i := 0 to |inp.observed|
      invariant active == first + set o | o in inp.observed[..i] && Fresh(o.lastEventAt, nowMs) :: o.machineId
    {
      assert inp.observed[..i + 1] == inp.observed[..i] + [inp.observed[i]];
      if Fresh(inp.observed[i].lastEventAt, nowMs) { active := active + {inp.observed[i].machineId}; }
    }
  }

  // ----- conservation -----

  type Pair = (string, string)

  function DeclaredPair(d: Declared): Pair { (d.machineId, d.connectorId) }
  function ObservedPair(o: Observed): Pair { (o.machineId, o.connectorId) }

  predicate DistinctPairs(inp: Inputs) {
    && (forall i, j :: 0 <= i < j < |inp.declared| ==> DeclaredPair(inp.declared[i]) != DeclaredPair(inp.declared[j]))
    && (forall i, j :: 0 <= i < j < |inp.observed| ==> ObservedPair(inp.observed[i]) != ObservedPair(inp.observed[j]))
  }

  /** Machine ids are database ids; none holds the separator of the key. */
  predicate CleanIds(inp: Inputs) {
    && (forall d :: d in inp.declared ==> '\0' !in d.machineId)
    && (forall o :: o in inp.observed ==> '\0' !in o.machineId)
  }

  function PairsOf(inp: Inputs): set<Pair> {
    (set d | d in inp.declared :: DeclaredPair(d)) + (set o | o in inp.observed :: ObservedPair(o))
  }

  lemma KeyNamesPair(d: Declared, o: Observed)
    requires '\0' !in d.machineId && '\0' !in o.machineId
    ensures Key(d.machineId, d.connectorId) == Key(o.machineId, o.connectorId) <==> DeclaredPair(d) == ObservedPair(o)
  {
    if Key(d.machineId, d.connectorId) == Key(o.machineId, o.connectorId) {
      CutFirst(d.machineId, d.connectorId, o.machineId, o.connectorId, '\0');
    }
  }

  lemma {:induction false} KeptDistinct(c: Context, os: seq<Observed>)
    requires forall i, j :: 0 <= i < j < |os| ==> ObservedPair(os[i]) != ObservedPair(os[j])
    ensures var k := Kept(Undeclared(c), os);
            && |k| == |set o | o in os && Undeclared(c)(o) :: ObservedPair(o)|
            && (forall o :: o in k ==> o in os)
  {
    if os != [] {
      var n := |os| - 1;
      KeptDistinct(c, os[..n]);
      assert os == os[..n] + [os[n]];
      OneMorePair(Undeclared(c), os[..n], os[n]);
    }
  }

  lemma OneMorePair(p: Observed -> bool, os: seq<Observed>, o: Observed)
    requires forall i :: 0 <= i < |os| ==> ObservedPair(os[i]) != ObservedPair(o)
    ensures |set x | x in os + [o] && p(x) :: ObservedPair(x)|
         == |set x | x in os && p(x) :: ObservedPair(x)| + if p(o) then 1 else 0
  {
    var before := set x | x in os && p(x) :: ObservedPair(x);
    var after := set x | x in os + [o] && p(x) :: ObservedPair(x);
    assert forall x :: x in os + [o] <==> x in os || x == o;
    if p(o) {
      assert ObservedPair(o) !in before;
      assert after == before + {ObservedPair(o)};
    } else {
      assert after == before;
    }
  }

  lemma UndeclaredPairs(inp: Inputs, c: Context)
    requires CleanIds(inp)
    requires c.declared == set d | d in inp.declared :: Key(d.machineId, d.connectorId)
    ensures (set o | o in inp.observed && Undeclared(c)(o) :: ObservedPair(o))
         == (set o | o in inp.observed :: ObservedPair(o)) - (set d | d in inp.declared :: DeclaredPair(d))
  {
    forall d, o | d in inp.declared && o in inp.observed
      ensures Key(d.machineId, d.connectorId) == Key(o.machineId, o.connectorId) <==> DeclaredPair(d) == ObservedPair(o)
    {
      KeyNamesPair(d, o);
    }
  }

  lemma DeclaredCount(ds: seq<Declared>)
    requires forall i, j :: 0 <= i < j < |ds| ==> DeclaredPair(ds[i]) != DeclaredPair(ds[j])
    ensures |set d | d in ds :: DeclaredPair(d)| == |ds|
  {
    var ps := Each(DeclaredPair, ds);
    NoRepeats(ps);
    var a := set d | d in ds :: DeclaredPair(d);
    forall p | p in a ensures p in ps {
      var d :| d in ds && DeclaredPair(d) == p;
      var i :| 0 <= i < |ds| && ds[i] == d;
      assert ps[i] == p;
    }
    assert (set p | p in ps) == a;
  }

  lemma UnionCount(a: set<Pair>, b: set<Pair>)
    ensures |a| + |b - a| == |a + b|
  {
    assert a + b == a + (b - a);
  }

  /** One row per distinct (machine, connector) pair of declared ∪ observed, whatever the clock. */
  lemma RowPerPair(inp: Inputs, nowMs: int)
    requires DistinctPairs(inp) && CleanIds(inp)
    ensures |RowsOf(inp, nowMs)| == |PairsOf(inp)|
  {
    var c := ContextOf(inp, nowMs);
    KeptDistinct(c, inp.observed);
    UndeclaredPairs(inp, c);
    DeclaredCount(inp.declared);
    UnionCount(set d | d in inp.declared :: DeclaredPair(d), set o | o in inp.observed :: ObservedPair(o));
  }

  function VerdictAt(): Row -> Verdict { (r: Row) => VerdictOf(r.state) }

  /** The four verdict counts together count every pair exactly once. */
  lemma VerdictsTotal(inp: Inputs, nowMs: int)
    requires DistinctPairs(inp) && CleanIds(inp)
    ensures var rows := RowsOf(inp, nowMs);
            Tally(VerdictAt(), rows, Capturing) + Tally(VerdictAt(), rows, NotCapturing)
            + Tally(VerdictAt(), rows, Broken) + Tally(VerdictAt(), rows, VerdictUnknown) == |PairsOf(inp)|
  {
    var rows := RowsOf(inp, nowMs);
    RowPerPair(inp, nowMs);
    FourWays(Each(VerdictAt(), rows));
  }

  lemma FourWays(vs: seq<Verdict>)
    ensures var m := multiset(vs);
            m[Capturing] + m[NotCapturing] + m[Broken] + m[VerdictUnknown] == |vs|
  {
    forall v: Verdict ensures v in VERDICTS {
      assert VERDICTS[0] == Capturing && VERDICTS[1] == NotCapturing && VERDICTS[2] == Broken;
      assert VERDICTS[3] == VerdictUnknown;
      match v case Capturing => case NotCapturing => case Broken => case VerdictUnknown =>
    }
    Total(vs, VERDICTS);
    var m := multiset(vs);
    assert VERDICTS[..3][..2][..1] == [Capturing] && VERDICTS[..3][..2] == [Capturing, NotCapturing];
    assert SumOver([Capturing], m) == SumOver([], m) + m[Capturing];
    assert SumOver(VERDICTS[..3], m) == SumOver(VERDICTS[..3][..2], m) + m[Broken];
  }

  // ----- order independence -----

  predicate UniqueMachines(ms: seq<Machine>) {
    forall i, j :: 0 <= i < j < |ms| ==> ms[i].id != ms[j].id
  }

  lemma {:induction false} ByIdExact(ms: seq<Machine>)
    requires UniqueMachines(ms)
    ensures forall m :: m in ms ==> m.id in ById(ms) && ById(ms)[m.id] == m
    ensures forall id :: id in ById(ms) ==> ById(ms)[id] in ms && ById(ms)[id].id == id
  {
    if ms != [] {
      var n := |ms| - 1;
      ByIdExact(ms[..n]);
      assert ms == ms[..n] + [ms[n]];
    }
  }

  predicate Reordered(a: Inputs, b: Inputs) {
    && multiset(a.machines) == multiset(b.machines)
    && multiset(a.declared) == multiset(b.declared)
    && multiset(a.observed) == multiset(b.observed)
  }

  lemma SameContext(a: Inputs, b: Inputs, nowMs: int)
    requires Reordered(a, b) && UniqueMachines(a.machines) && UniqueMachines(b.machines)
    ensures ContextOf(a, nowMs) == ContextOf(b, nowMs)
  {
    SameMembers(a.machines, b.machines);
    SameMembers(a.declared, b.declared);
    SameMembers(a.observed, b.observed);
    ByIdExact(a.machines);
    ByIdExact(b.machines);
    forall id ensures id in ById(a.machines) <==> id in ById(b.machines)
    {
      if id in ById(a.machines) { assert ById(a.machines)[id] in b.machines; }
      if id in ById(b.machines) { assert ById(b.machines)[id] in a.machines; }
    }
    assert ById(a.machines) == ById(b.machines);
    assert ActiveIn(a, nowMs) == ActiveIn(b, nowMs);
  }

  /** Shuffling machines, declarations and observations shuffles the rows and changes none. */
  lemma RowsOrderFree(a: Inputs, b: Inputs, nowMs: int)
    requires Reordered(a, b) && UniqueMachines(a.machines) && UniqueMachines(b.machines)
    ensures multiset(RowsOf(a, nowMs)) == multiset(RowsOf(b, nowMs))
    ensures forall v :: Tally(VerdictAt(), RowsOf(a, nowMs), v) == Tally(VerdictAt(), RowsOf(b, nowMs), v)
  {
    SameContext(a, b, nowMs);
    var c := ContextOf(a, nowMs);
    Shuffled(DeclaredRow(c), a.declared, b.declared);
    KeptShuffled(Undeclared(c), a.observed, b.observed);
    Shuffled(UnreportedRow(c), Kept(Undeclared(c), a.observed), Kept(Undeclared(c), b.observed));
    Shuffled(VerdictAt(), RowsOf(a, nowMs), RowsOf(b, nowMs));
  }

  // ----- what a verdict means over time -----

  function StateOf(inp: Inputs, d: Declared, nowMs: int): State {
    DeclaredRow(ContextOf(inp, nowMs))(d).state
  }

  predicate Judged(inp: Inputs, d: Declared) {
    && StatusIn(ContextOf(inp, 0), d.machineId) != Offline
    && d.enabled && d.approval.Approved?
  }

  /** No healthy-looking zero: on a machine that reports, an enabled and approved live connector that
      never produced anything is broken at every moment, whether or not a sibling speaks up. */
  lemma NeverProducedIsBroken(inp: Inputs, d: Declared, nowMs: int)
    requires d in inp.declared && Judged(inp, d) && IsLiveCapture(d.liveness) && d.lastEventAt.Absent?
    ensures VerdictOf(StateOf(inp, d, nowMs)) == Broken
  {
    assert ContextOf(inp, nowMs).machines == ContextOf(inp, 0).machines;
  }

  /** The connectors on machines that report which are switched on, approved, live, and never produced. */
  function NeverProduced(c: Context): Declared -> bool {
    (d: Declared) => StatusIn(c, d.machineId) != Offline && d.enabled && d.approval.Approved?
                     && IsLiveCapture(d.liveness) && d.lastEventAt.Absent?
  }

  /** On the whole panel: the broken count is at least the number of such connectors, at every moment. */
  lemma NeverProducedCounted(inp: Inputs, nowMs: int)
    ensures |Kept(NeverProduced(ContextOf(inp, nowMs)), inp.declared)| <= Tally(VerdictAt(), RowsOf(inp, nowMs), Broken)
  {
    var c := ContextOf(inp, nowMs);
    var rows := Each(DeclaredRow(c), inp.declared);
    var verdict := (d: Declared) => VerdictOf(DeclaredRow(c)(d).state);
    forall d | d in inp.declared && NeverProduced(c)(d) ensures verdict(d) == Broken {
      assert ContextOf(inp, nowMs).machines == ContextOf(inp, 0).machines;
      NeverProducedIsBroken(inp, d, nowMs);
    }
    KeptWithin(NeverProduced(c), verdict, inp.declared, Broken);
    assert Each(VerdictAt(), rows) == Each(verdict, inp.declared);
    var more := Each(UnreportedRow(c), Kept(Undeclared(c), inp.observed));
    assert Each(VerdictAt(), rows + more) == Each(VerdictAt(), rows) + Each(VerdictAt(), more);
  }

  /**
   With no news arriving, time alone heals a broken verdict in exactly one case: a connector that
   produced once, is suspect only because a sibling was active, and whose sibling has since gone
   quiet too. It then reads idle, hence "capturing".
   */
  lemma BrokenLastsExactly(inp: Inputs, d: Declared, now1: int, now2: int)
    requires d in inp.declared && now1 <= now2
    requires VerdictOf(StateOf(inp, d, now1)) == Broken
    ensures VerdictOf(StateOf(inp, d, now2)) != Broken
       <==> StateOf(inp, d, now1) == Silent && !d.lastEventAt.Absent? && d.machineId !in ActiveIn(inp, now2)
  {
    assert ContextOf(inp, now1).machines == ContextOf(inp, now2).machines;
    assert Fresh(d.lastEventAt, now2) ==> Fresh(d.lastEventAt, now1);
  }

  /** The converse drift: a connector judged capturing turns broken with no news exactly when it is
      live, has gone stale by then, and a sibling on its machine is still inside the window. */
  lemma CapturingLapsesExactly(inp: Inputs, d: Declared, now1: int, now2: int)
    requires d in inp.declared && now1 <= now2
    requires VerdictOf(StateOf(inp, d, now1)) == Capturing
    ensures VerdictOf(StateOf(inp, d, now2)) == Broken
       <==> IsLiveCapture(d.liveness) && !Fresh(d.lastEventAt, now2) && d.machineId in ActiveIn(inp, now2)
  {
    assert ContextOf(inp, now1).machines == ContextOf(inp, now2).machines;
    assert Fresh(d.lastEventAt, now2) ==> Fresh(d.lastEventAt, now1);
  }
}
