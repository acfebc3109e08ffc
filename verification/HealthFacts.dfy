/** When a row of the capture-health panel has which state and verdict, told from the panel's inputs alone. */
module HealthFacts {
  import opened Wrappers
  import opened Tallies
  import opened CaptureHealth

  /** No machine of that id reports. */
  predicate OffTheAir(inp: Inputs, id: string) { forall m :: m in inp.machines && m.id == id ==> m.status == Offline }

  predicate Recent(s: Stamp, nowMs: int) { s.At? && nowMs - s.ms <= 86_400_000 }

  /** Something on that machine has produced within a day. */
  predicate SiblingActive(inp: Inputs, id: string, nowMs: int) {
    || (exists d :: d in inp.declared && d.machineId == id && Recent(d.lastEventAt, nowMs))
    || (exists o :: o in inp.observed && o.machineId == id && Recent(o.lastEventAt, nowMs))
  }

  /** Its last error is not older than its last event. */
  predicate Failing(d: Declared) {
    d.lastErrorAt.At? && (d.lastEventAt.At? ==> d.lastErrorAt.ms >= d.lastEventAt.ms)
  }

  predicate Suspect(inp: Inputs, d: Declared, nowMs: int) {
    && (d.liveness == Streaming || d.liveness == NearRealTime)
    && (d.lastEventAt == Absent || SiblingActive(inp, d.machineId, nowMs))
  }

  lemma Contextual(inp: Inputs, id: string, nowMs: int)
    requires UniqueMachines(inp.machines)
    ensures StatusIn(ContextOf(inp, nowMs), id) == Offline <==> OffTheAir(inp, id)
    ensures id in ActiveIn(inp, nowMs) <==> SiblingActive(inp, id, nowMs)
  {
    ByIdExact(inp.machines);
    if id in ById(inp.machines) { assert ById(inp.machines)[id] in inp.machines; }
    if id in ActiveIn(inp, nowMs) {
      if d :| d in inp.declared && CaptureHealth.Fresh(d.lastEventAt, nowMs) && d.machineId == id {
        assert Recent(d.lastEventAt, nowMs);
      } else {
        var o :| o in inp.observed && CaptureHealth.Fresh(o.lastEventAt, nowMs) && o.machineId == id;
        assert Recent(o.lastEventAt, nowMs);
      }
    }
    if SiblingActive(inp, id, nowMs) {
      if d :| d in inp.declared && d.machineId == id && Recent(d.lastEventAt, nowMs) {
        assert CaptureHealth.Fresh(d.lastEventAt, nowMs);
      } else {
        var o :| o in inp.observed && o.machineId == id && Recent(o.lastEventAt, nowMs);
        assert CaptureHealth.Fresh(o.lastEventAt, nowMs);
      }
    }
  }

  /** The seven states of a declared connector, each with its condition. */
  lemma StateExactly(inp: Inputs, d: Declared, nowMs: int)
    requires UniqueMachines(inp.machines)
    ensures var off := OffTheAir(inp, d.machineId);
      var judged := !off && d.enabled && d.approval == Approved && !Failing(d);
      var quiet := judged && !Recent(d.lastEventAt, nowMs);
      match StateOf(inp, d, nowMs)
      case Unknown => off
      case Disabled => !off && !d.enabled
      case AwaitingApproval => !off && d.enabled && d.approval == NeedsApproval
      case Erroring => !off && d.enabled && d.approval == Approved && Failing(d)
      case Healthy => judged && Recent(d.lastEventAt, nowMs)
      case Silent => quiet && Suspect(inp, d, nowMs)
      case Idle => quiet && !Suspect(inp, d, nowMs)
      case Unreported => false
  {
    Contextual(inp, d.machineId, nowMs);
  }

  /** When the panel calls a declared connector broken, capturing, not capturing, or does not know. */
  lemma VerdictExactly(inp: Inputs, d: Declared, nowMs: int)
    requires UniqueMachines(inp.machines)
    ensures var off := OffTheAir(inp, d.machineId);
      var verdict := VerdictOf(StateOf(inp, d, nowMs));
      && (verdict == VerdictUnknown <==> off)
      && (verdict == NotCapturing <==> !off && !d.enabled)
      && (verdict == Broken
          <==> (!off && d.enabled
                && (d.approval == NeedsApproval || Failing(d) || (!Recent(d.lastEventAt, nowMs) && Suspect(inp, d, nowMs)))))
      && (verdict == Capturing
          <==> (!off && d.enabled && d.approval == Approved && !Failing(d)
                && (Recent(d.lastEventAt, nowMs) || !Suspect(inp, d, nowMs))))
  {
    StateExactly(inp, d, nowMs);
  }

  /** The rows: one for each declaration, in order, then one for each observation that no declaration names. */
  lemma RowsExactly(inp: Inputs, nowMs: int, i: nat)
    requires i < |RowsOf(inp, nowMs)|
    ensures var r := RowsOf(inp, nowMs)[i];
      var n := |inp.declared|;
      if i < n then
        var d := inp.declared[i];
        && r.machineId == d.machineId && r.connectorId == d.connectorId && r.declared && r.lastEventAt == d.lastEventAt
        && r.state == StateOf(inp, d, nowMs)
      else
        && r.state == Unreported && !r.declared && VerdictOf(r.state) == VerdictUnknown
        && exists o :: o in inp.observed && o.machineId == r.machineId && o.connectorId == r.connectorId && o.lastEventAt == r.lastEventAt
  {
    var c, n := ContextOf(inp, nowMs), |inp.declared|;
    if i >= n {
      var os := Kept(Undeclared(c), inp.observed);
      KeptMembers(Undeclared(c), inp.observed);
      assert RowsOf(inp, nowMs)[i] == UnreportedRow(c)(os[i - n]);
      assert os[i - n] in inp.observed;
    }
  }

  lemma {:induction false} KeptMembers<T(!new)>(p: T -> bool, xs: seq<T>)
    ensures forall x :: x in Kept(p, xs) <==> x in xs && p(x)
  {
    if xs != [] {
      var n := |xs| - 1;
      KeptMembers(p, xs[..n]);
      assert xs == xs[..n] + [xs[n]];
    }
  }

  /** An observation has a row of its own exactly when no declaration names its pair. */
  lemma ObservedExactly(inp: Inputs, nowMs: int, o: Observed)
    requires CleanIds(inp) && o in inp.observed
    ensures o in Kept(Undeclared(ContextOf(inp, nowMs)), inp.observed)
       <==> forall d :: d in inp.declared ==> d.machineId != o.machineId || d.connectorId != o.connectorId
  {
    var c := ContextOf(inp, nowMs);
    KeptMembers(Undeclared(c), inp.observed);
    forall d | d in inp.declared
      ensures Key(d.machineId, d.connectorId) == Key(o.machineId, o.connectorId) <==> DeclaredPair(d) == ObservedPair(o)
    {
      KeyNamesPair(d, o);
    }
    if d :| d in inp.declared && DeclaredPair(d) == ObservedPair(o) {
      assert Key(d.machineId, d.connectorId) in c.declared;
    }
  }

  /** Who a row is about: the machine's name and status where the machine is known, its id and offline where not. */
  lemma MachineShown(inp: Inputs, nowMs: int, i: nat)
    requires UniqueMachines(inp.machines) && i < |RowsOf(inp, nowMs)|
    ensures var r := RowsOf(inp, nowMs)[i];
      && (forall m | m in inp.machines && m.id == r.machineId :: r.machineName == m.name && r.machineStatus == m.status)
      && ((forall m | m in inp.machines :: m.id != r.machineId) ==> r.machineName == r.machineId && r.machineStatus == Offline)
  {
    var c, n := ContextOf(inp, nowMs), |inp.declared|;
    ByIdExact(inp.machines);
    var r := RowsOf(inp, nowMs)[i];
    assert r.machineName == NameIn(c, r.machineId) && r.machineStatus == StatusIn(c, r.machineId);
    if r.machineId in ById(inp.machines) { assert ById(inp.machines)[r.machineId] in inp.machines; }
  }
}
