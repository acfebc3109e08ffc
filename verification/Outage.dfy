/** apps/collector/src/capture-engine.ts and sync/sync-worker.ts: which failed drains stamp the record. */
module Outage {
  import opened Wrappers
  import opened FaultRecord

  const MIN_FAILURES: nat := 3
  const RESTAMP_EVERY: nat := 60

  datatype Decision = Decision(stamp: bool, crossing: bool, failuresSinceStamp: nat)

  function DegradedStampDecision(consecutive: nat, failuresSinceStamp: nat): Decision {
    if consecutive < MIN_FAILURES then Decision(false, false, failuresSinceStamp)
    else if consecutive == MIN_FAILURES then Decision(true, true, 0)
    else
      var next := failuresSinceStamp + 1;
      if next < RESTAMP_EVERY then Decision(false, false, next) else Decision(true, false, 0)
  }

  /** What one drain, or a restart of the process, can bring. */
  datatype Event =
    | Delivered                                  // 2xx for a non-empty batch
    | Idle                                       // nothing was due: "ok" without a request
    | Refused                                    // a clean 4xx other than 401
    | Failed(now: string, message: string)       // network error, time-out, 5xx
    | Unauthorized(now: string, message: string) // 401
    | Restart

  datatype Collector = Collector(streak: nat, failuresSinceStamp: nat, disk: Disk)

  function Next(url: string, c: Collector, e: Event): Collector {
    match e
    case Delivered => c.(streak := 0, disk := Clear(c.disk))
    case Idle => c
    case Refused => c.(streak := 0)
    case Unauthorized(now, message) => c.(disk := Save(c.disk, Fault(AuthRevoked, message, now, None, url)))
    case Restart => c.(streak := 0, failuresSinceStamp := 0)
    case Failed(now, message) =>
      var d := DegradedStampDecision(c.streak + 1, c.failuresSinceStamp);
      Collector(c.streak + 1, d.failuresSinceStamp,
                if d.stamp then Save(c.disk, Fault(ArchiveUnreachable, message, now, None, url)) else c.disk)
  }

  function Run(url: string, c: Collector, es: seq<Event>): Collector {
    if es == [] then c else Next(url, Run(url, c, es[..|es| - 1]), es[|es| - 1])
  }

  /** Failure number n of a streak is one the record is written for. */
  predicate StampedAt(n: nat) { n >= 3 && (n - 3) % 60 == 0 }

  /**
   The counter carries no history: inside a streak past the threshold it is the streak's own
   length, and below the threshold it is never read.
   */
  predicate InStep(c: Collector) { c.streak >= MIN_FAILURES ==> c.failuresSinceStamp == (c.streak - 3) % 60 }

  lemma DecisionExact(c: Collector)
    requires InStep(c)
    ensures var d := DegradedStampDecision(c.streak + 1, c.failuresSinceStamp);
            && d.stamp == StampedAt(c.streak + 1)
            && d.crossing == (c.streak + 1 == 3)
            && (c.streak + 1 >= 3 ==> d.failuresSinceStamp == (c.streak + 1 - 3) % 60)
  {
  }

  lemma {:induction false} RunInStep(url: string, c: Collector, es: seq<Event>)
    requires InStep(c)
    ensures InStep(Run(url, c, es))
  {
    if es != [] {
      RunInStep(url, c, es[..|es| - 1]);
      var b := Run(url, c, es[..|es| - 1]);
      DecisionExact(b);
    }
  }

  /** The times at which the events since the last reset of the streak failed, oldest first. */
  function StreakTimes(es: seq<Event>): seq<string> {
    if es == [] then []
    else
      var e := es[|es| - 1];
      var before := StreakTimes(es[..|es| - 1]);
      match e
      case Delivered => []
      case Refused => []
      case Restart => []
      case Idle => before
      case Unauthorized(_, _) => before
      case Failed(now, _) => before + [now]
  }

  /**
   From a fresh process with any counter: the streak is that list's length, so what failure k of
   it does to the file, and whether it is logged as the crossing, depends on k alone.
   */
  lemma {:induction false} StampsExactly(url: string, counter: nat, disk: Disk, es: seq<Event>, e: Event)
    requires e.Failed?
    ensures var before := Run(url, Collector(0, counter, disk), es);
            var after := Next(url, before, e);
            && before.streak == |StreakTimes(es)|
            && after.streak == |StreakTimes(es + [e])|
            && DegradedStampDecision(before.streak + 1, before.failuresSinceStamp).crossing == (after.streak == 3)
            && after.disk == if StampedAt(after.streak)
                             then Save(before.disk, Fault(ArchiveUnreachable, e.message, e.now, None, url))
                             else before.disk
  {
    StreakLength(url, Collector(0, counter, disk), es);
    RunInStep(url, Collector(0, counter, disk), es);
    DecisionExact(Run(url, Collector(0, counter, disk), es));
    assert (es + [e])[..|es|] == es;
  }

  /** What else can happen to the record: a delivery removes it, a 401 replaces it, and nothing else touches it. */
  lemma OthersExactly(url: string, c: Collector, e: Event)
    requires !e.Failed?
    ensures var after := Next(url, c, e);
      match e
      case Delivered => Load(after.disk).None? && after.streak == 0 && after.failuresSinceStamp == c.failuresSinceStamp
      case Unauthorized(now, message) =>
        var kept := Load(c.disk).Some? && Load(c.disk).value.code == AuthRevoked && Load(c.disk).value.url == url;
        && Load(after.disk) == Some(Fault(AuthRevoked, message, if kept then Load(c.disk).value.since else now, Some(now), url))
        && after.streak == c.streak && after.failuresSinceStamp == c.failuresSinceStamp
      case Restart => after == Collector(0, 0, c.disk)
      case Refused => after == Collector(0, c.failuresSinceStamp, c.disk)
      case Idle => after == c
  {
    if e.Unauthorized? {
      var prior := Load(c.disk);
      var since := if prior.Some? && prior.value.code == AuthRevoked && prior.value.url == url then prior.value.since else e.now;
      WrittenLoads(Fault(AuthRevoked, e.message, since, Some(e.now), url));
    }
  }

  lemma {:induction false} StreakLength(url: string, c: Collector, es: seq<Event>)
    requires c.streak == 0
    ensures Run(url, c, es).streak == |StreakTimes(es)|
  {
    if es != [] { StreakLength(url, c, es[..|es| - 1]); }
  }

  /**
   An outage keeps its clock: while nothing is delivered and no 401 is seen, no mixture of
   failures, idle drains, refusals and restarts changes `since` or loses the record.
   */
  lemma {:induction false} SinceKept(url: string, c: Collector, es: seq<Event>)
    requires Load(c.disk).Some?
    requires Load(c.disk).value.code == ArchiveUnreachable && Load(c.disk).value.url == url
    requires forall k :: 0 <= k < |es| ==> !es[k].Delivered? && !es[k].Unauthorized?
    ensures var r := Load(Run(url, c, es).disk);
            r.Some? && r.value.code == ArchiveUnreachable && r.value.url == url
            && r.value.since == Load(c.disk).value.since
  {
    if es != [] {
      var n := |es| - 1;
      SinceKept(url, c, es[..n]);
      var b := Run(url, c, es[..n]);
      if es[n].Failed? {
        WrittenLoads(Fault(ArchiveUnreachable, es[n].message, Load(b.disk).value.since, Some(es[n].now), url));
      }
    }
  }

  /** The last failure up to number n that is written for. */
  function LastStamp(n: nat): nat requires n >= 3 { 3 + (n - 3) / 60 * 60 }

  lemma LastStampNear(n: nat)
    requires n >= 3
    ensures n - 60 < LastStamp(n) <= n && StampedAt(LastStamp(n))
  {
  }

  /** What the record says `n` failures into an outage, `t` being their times. */
  ghost predicate Reports(url: string, d: Disk, t: seq<string>) {
    var r := Load(d);
    if |t| < 3 then r.None?
    else && r.Some? && r.value.code == ArchiveUnreachable && r.value.url == url
         && r.value.since == t[2] && r.value.lastObservedAt == Some(t[LastStamp(|t|) - 1])
  }

  /**
   An outage from a clean start, with idle drains anywhere in it: no record before the third
   failure; from then on `since` is the third failure's time and `lastObservedAt` that of the
   last stamped one, so it trails by at most 59 failures.
   */
  lemma {:induction false} OutageTimeline(url: string, c: Collector, es: seq<Event>)
    requires c.streak == 0 && Load(c.disk).None?
    requires forall k :: 0 <= k < |es| ==> es[k].Failed? || es[k].Idle?
    ensures Reports(url, Run(url, c, es).disk, StreakTimes(es))
  {
    if es != [] {
      var n := |es| - 1;
      OutageTimeline(url, c, es[..n]);
      if es[n].Failed? {
        RunInStep(url, c, es[..n]);
        StreakLength(url, c, es[..n]);
        OutageStep(url, Run(url, c, es[..n]), StreakTimes(es[..n]), es[n]);
      }
    }
  }

  /** A delivery ends every outage: whatever came before it, the next one is dated afresh. */
  lemma OutageAfterDelivery(url: string, c: Collector, before: seq<Event>, es: seq<Event>)
    requires forall k :: 0 <= k < |es| ==> es[k].Failed? || es[k].Idle?
    ensures Reports(url, Run(url, c, before + [Delivered] + es).disk, StreakTimes(es))
  {
    RunAppend(url, c, before + [Delivered], es);
    assert (before + [Delivered])[..|before|] == before;
    OutageTimeline(url, Run(url, c, before + [Delivered]), es);
  }

  lemma {:induction false} RunAppend(url: string, c: Collector, a: seq<Event>, b: seq<Event>)
    ensures Run(url, c, a + b) == Run(url, Run(url, c, a), b)
    decreases |b|
  {
    if b == [] {
      assert a + b == a;
    } else {
      var n := |b| - 1;
      RunAppend(url, c, a, b[..n]);
      assert (a + b)[..|a + b| - 1] == a + b[..n];
    }
  }

  lemma OutageStep(url: string, b: Collector, t: seq<string>, e: Event)
    requires e.Failed? && InStep(b) && b.streak == |t| && Reports(url, b.disk, t)
    ensures Reports(url, Next(url, b, e).disk, t + [e.now])
  {
    DecisionExact(b);
    var n := |t| + 1;
    if n >= 3 { LastStampNear(n); }
    if StampedAt(n) {
      var since := if n == 3 then e.now else t[2];
      WrittenLoads(Fault(ArchiveUnreachable, e.message, since, Some(e.now), url));
    } else if n > 3 {
      StampSteps(n - 3);
      LastStampNear(n - 1);
      assert LastStamp(n) == LastStamp(n - 1);
    }
  }

  lemma StampSteps(m: int)
    requires m > 0 && m % 60 != 0
    ensures m / 60 == (m - 1) / 60
  {
  }
}
