/**
 Poll capture: the commit order of apps/collector/src/connectors/cursor.ts and the poll loop of
 apps/collector/src/capture-engine.ts, over `poll_state` and the durable queue.
 */
module Polling {
  import opened Wrappers
  import opened Fingerprint
  import opened CursorParser
  import opened QueueTable
  import opened QueueStores
  import opened Delivery
  import opened Capturing

  /** A unit of a polled store is named by connector id and key. */
  type Unit = (string, string)

  /** `json` parses the blobs; `record` and `event` render to the wire what comes of one composer. */
  datatype Source = Source(json: Json, record: (Work, Record) -> string, event: (Work, EventId) -> string)

  /** One composer as a pass meets it: its key and value, its bubbles, and when it is parsed. */
  datatype Work = Work(key: string, content: string, bubbles: seq<BubbleRow>, at: nat)

  /** What `enqueue` hands to the queue for one parse: every record, then every event. */
  function ItemsOf(sha: string -> string, src: Source, w: Work): seq<Item> {
    var p := ParseComposer(src.json, w.content, w.bubbles);
    seq(|p.records|, i requires 0 <= i < |p.records| =>
      (Key(Raw, CURSOR + ":" + p.records[i].id), src.record(w, p.records[i])))
    + seq(|p.events|, i requires 0 <= i < |p.events| =>
      (Key(Event, sha(PreimageOf(CURSOR, p.events[i]))), src.event(w, p.events[i])))
  }

  /** Every record and event key of the parse of `w` is one `ok` holds of. */
  ghost predicate AllKeys(sha: string -> string, src: Source, w: Work, ok: Key -> bool) {
    var p := ParseComposer(src.json, w.content, w.bubbles);
    && (forall i :: 0 <= i < |p.records| ==> ok(Key(Raw, CURSOR + ":" + p.records[i].id)))
    && (forall i :: 0 <= i < |p.events| ==> ok(Key(Event, sha(PreimageOf(CURSOR, p.events[i])))))
  }

  lemma ItemKeys(sha: string -> string, src: Source, w: Work, ok: Key -> bool)
    requires forall i :: 0 <= i < |ItemsOf(sha, src, w)| ==> ok(ItemsOf(sha, src, w)[i].0)
    ensures AllKeys(sha, src, w, ok)
  {
    var p, items := ParseComposer(src.json, w.content, w.bubbles), ItemsOf(sha, src, w);
    forall i | 0 <= i < |p.records| ensures ok(Key(Raw, CURSOR + ":" + p.records[i].id)) {
      assert items[i].0 == Key(Raw, CURSOR + ":" + p.records[i].id);
    }
    forall i | 0 <= i < |p.events| ensures ok(Key(Event, sha(PreimageOf(CURSOR, p.events[i])))) {
      assert items[|p.records| + i].0 == Key(Event, sha(PreimageOf(CURSOR, p.events[i])));
    }
  }

  /** The queue system with `poll_state`. */
  datatype Poll = Poll(sys: Sys, state: map<Unit, string>)

  /**
   One unit of a pass: change gate, then enqueue, then commit. A throw at any point ends the pass:
   `upTo` is how many items were enqueued before it, and the commit is then not reached.
   */
  datatype PollStep =
    | Sweep(w: Work, upTo: Option<nat>)
    | Queue(step: Step)

  /** The items enqueued before the throw, or all of them. */
  function Reached(items: seq<Item>, upTo: Option<nat>): seq<Item> {
    match upTo
    case None => items
    case Some(n) => items[..if n < |items| then n else |items|]
  }

  predicate Gate(poll: map<Unit, string>, sha: string -> string, w: Work) {
    PollChanged(poll, sha, CURSOR, w.key, w.content)
  }

  function NextPoll(sha: string -> string, src: Source, p: Poll, step: PollStep): Poll {
    match step
    case Queue(st) => p.(sys := Next(sha, p.sys, st))
    case Sweep(w, upTo) =>
      if p.sys.crashed || !Gate(p.state, sha, w) then p
      else
        var sys := Enqueued(sha, p.sys, Reached(ItemsOf(sha, src, w), upTo));
        Poll(sys, if upTo.Some? then p.state else PollCommit(p.state, sha, CURSOR, w.key, w.content))
  }

  const Start := Poll(Init, map[])

  function RunPoll(sha: string -> string, src: Source, steps: seq<PollStep>): Poll {
    if steps == [] then Start
    else NextPoll(sha, src, RunPoll(sha, src, steps[..|steps| - 1]), steps[|steps| - 1])
  }

  /** A sweep that is made, passes the gate and does not throw. */
  predicate Commits(sha: string -> string, p: Poll, step: PollStep) {
    step.Sweep? && !p.sys.crashed && Gate(p.state, sha, step.w) && step.upTo.None?
  }

  /** The last sweep of a key, in the run, that ran to its commit. */
  function LastCommitted(sha: string -> string, src: Source, steps: seq<PollStep>, key: string): Option<Work> {
    if steps == [] then None
    else
      var before, last := steps[..|steps| - 1], steps[|steps| - 1];
      if Commits(sha, RunPoll(sha, src, before), last) && last.w.key == key then Some(last.w)
      else LastCommitted(sha, src, before, key)
  }

  /** `poll_state` remembers a key exactly when it was committed: the content's hash, its items all known. */
  ghost predicate Remembered(sha: string -> string, src: Source, p: Poll, key: string, last: Option<Work>) {
    && ((CURSOR, key) in p.state <==> last.Some?)
    && (last.Some? ==>
          && last.value.key == key && p.state[(CURSOR, key)] == sha(last.value.content)
          && AllKeys(sha, src, last.value, k => k in p.sys.latest))
  }

  lemma AllKeysGrow(sha: string -> string, src: Source, w: Work, a: Sys, b: Sys)
    requires AllKeys(sha, src, w, k => k in a.latest) && a.latest.Keys <= b.latest.Keys
    ensures AllKeys(sha, src, w, k => k in b.latest)
  {}

  lemma SweepKeeps(sha: string -> string, src: Source, p: Poll, w: Work, upTo: Option<nat>)
    requires Inv(p.sys) && !p.sys.crashed
    ensures var s := Enqueued(sha, p.sys, Reached(ItemsOf(sha, src, w), upTo));
      && Inv(s) && p.sys.latest.Keys <= s.latest.Keys
      && (upTo.None? ==> AllKeys(sha, src, w, k => k in s.latest))
  {
    var items := Reached(ItemsOf(sha, src, w), upTo);
    EnqueuedKnown(sha, p.sys, items);
    var s := Enqueued(sha, p.sys, items);
    if upTo.None? {
      assert forall i :: 0 <= i < |items| ==> Known(s, items[i].0);
      ItemKeys(sha, src, w, k => k in s.latest);
    }
  }

  lemma NextKeeps(sha: string -> string, src: Source, p: Poll, step: PollStep, key: string, last: Option<Work>)
    requires Inv(p.sys) && Remembered(sha, src, p, key, last)
    ensures var q := NextPoll(sha, src, p, step);
      && Inv(q.sys)
      && Remembered(sha, src, q, key, if Commits(sha, p, step) && step.w.key == key then Some(step.w) else last)
  {
    var q := NextPoll(sha, src, p, step);
    match step
    case Queue(st) =>
      StepKeeps(sha, p.sys, st);
      LatestGrows(sha, p.sys, st);
      if last.Some? { AllKeysGrow(sha, src, last.value, p.sys, q.sys); }
    case Sweep(w, upTo) =>
      if !p.sys.crashed {
        SweepKeeps(sha, src, p, w, upTo);
        if last.Some? && Gate(p.state, sha, w) { AllKeysGrow(sha, src, last.value, p.sys, q.sys); }
      }
  }

  lemma {:induction false} RunKeeps(sha: string -> string, src: Source, steps: seq<PollStep>, key: string)
    ensures var p := RunPoll(sha, src, steps);
      Inv(p.sys) && Remembered(sha, src, p, key, LastCommitted(sha, src, steps, key))
  {
    if steps != [] {
      var before := steps[..|steps| - 1];
      RunKeeps(sha, src, before, key);
      NextKeeps(sha, src, RunPoll(sha, src, before), steps[|steps| - 1], key, LastCommitted(sha, src, before, key));
    }
  }

  /** A row in the queue, or a payload the archive accepted. */
  ghost function Safe(s: Sys): Key -> bool { k => RowOf(s.table.rows, k).Some? || k in s.accepted }

  /**
   The commit point. In every run of sweeps that may throw anywhere and of queue steps: `poll_state`
   holds a hash for a key exactly when a sweep of it ran to its commit, the hash is that of the last
   such sweep's content, and every record and event key of that content's parse has a row in the queue
   or a payload the archive accepted.
   */
  lemma {:induction false} CommitPoint(sha: string -> string, src: Source, steps: seq<PollStep>, key: string)
    ensures var p := RunPoll(sha, src, steps);
      var last := LastCommitted(sha, src, steps, key);
      && ((CURSOR, key) in p.state <==> last.Some?)
      && (last.Some? ==> p.state[(CURSOR, key)] == sha(last.value.content) && AllKeys(sha, src, last.value, Safe(p.sys)))
  {
    RunKeeps(sha, src, steps, key);
    var p := RunPoll(sha, src, steps);
    forall k | k in p.sys.latest ensures Safe(p.sys)(k) { KnownIsSafe(p.sys, k); }
  }

  /** In every run, a unit is skipped exactly when its content is that of its last sweep that committed. */
  lemma {:induction false} SkippedExactly(sha: string -> string, src: Source, steps: seq<PollStep>, w: Work)
    requires Injective(sha)
    ensures var last := LastCommitted(sha, src, steps, w.key);
      !Gate(RunPoll(sha, src, steps).state, sha, w) <==> last.Some? && last.value.content == w.content
  {
    RunKeeps(sha, src, steps, w.key);
  }

  /** The same unit on the live queue: what `runCursorPoll` does for one composer. */
  method SweepUnit(q: QueueStore, src: Source, w: Work, upTo: Option<nat>) returns (differs: bool, committed: bool)
    requires Valid(q.T())
    modifies q
    ensures Valid(q.T())
    ensures differs == Gate(old(q.poll), q.sha, w)
    ensures committed == (Gate(old(q.poll), q.sha, w) && upTo.None?)
    ensures q.poll == if committed then PollCommit(old(q.poll), q.sha, CURSOR, w.key, w.content) else old(q.poll)
    ensures q.T()
         == if !Gate(old(q.poll), q.sha, w) then old(q.T())
            else EnqueueAll(old(q.T()), q.sha, Reached(ItemsOf(q.sha, src, w), upTo))
  {
    differs := q.PollHasChanged(CURSOR, w.key, w.content);
    committed := false;
    if !differs { return; }
    EnqueueItems(q, Reached(ItemsOf(q.sha, src, w), upTo));
    if upTo.Some? { return; }
    q.CommitPoll(CURSOR, w.key, w.content);
    committed := true;
  }

  /** The live queue and the transition system take the same step. */
  lemma SweepAgrees(sha: string -> string, src: Source, p: Poll, w: Work, upTo: Option<nat>)
    requires !p.sys.crashed
    ensures var q := NextPoll(sha, src, p, Sweep(w, upTo));
      if !Gate(p.state, sha, w) then q == p
      else
        && q.sys.table == EnqueueAll(p.sys.table, sha, Reached(ItemsOf(sha, src, w), upTo))
        && q.state == if upTo.None? then PollCommit(p.state, sha, CURSOR, w.key, w.content) else p.state
  {
    EnqueuedTable(sha, p.sys, Reached(ItemsOf(sha, src, w), upTo));
  }

  // ----- a whole pass -----

  /** A pass so far; `threw` once a throw has ended it. */
  datatype Pass = Pass(table: Table, poll: map<Unit, string>, swept: nat, changed: nat, threw: bool)

  function OneUnit(p: Pass, sha: string -> string, src: Source, w: Work, upTo: Option<nat>): Pass {
    if !Gate(p.poll, sha, w) then p.(swept := p.swept + 1)
    else
      var t := EnqueueAll(p.table, sha, Reached(ItemsOf(sha, src, w), upTo));
      if upTo.Some? then p.(table := t, swept := p.swept + 1, threw := true)
      else Pass(t, PollCommit(p.poll, sha, CURSOR, w.key, w.content), p.swept + 1, p.changed + 1, false)
  }

  /** Where the pass throws, if the unit there is swept at all: unit index and items enqueued before. */
  type Fault = Option<(nat, nat)>

  function UpTo(fault: Fault, i: nat): Option<nat> {
    if fault.Some? && fault.value.0 == i then Some(fault.value.1) else None
  }

  function PassOver(p: Pass, sha: string -> string, src: Source, works: seq<Work>, fault: Fault): Pass
    decreases |works|
  {
    if works == [] then p
    else
      var n := |works| - 1;
      var q := PassOver(p, sha, src, works[..n], fault);
      if q.threw then q else OneUnit(q, sha, src, works[n], UpTo(fault, n))
  }

  method RunPass(q: QueueStore, src: Source, works: seq<Work>, fault: Fault)
    returns (swept: nat, changed: nat, threw: bool)
    requires Valid(q.T())
    modifies q
    ensures Valid(q.T())
    ensures Pass(q.T(), q.poll, swept, changed, threw)
         == PassOver(Pass(old(q.T()), old(q.poll), 0, 0, false), q.sha, src, works, fault)
  {
    ghost var p := Pass(q.T(), q.poll, 0, 0, false);
    swept, changed, threw := 0, 0, false;
    for i := 0 to |works|
      invariant Valid(q.T()) && !threw
      invariant Pass(q.T(), q.poll, swept, changed, threw) == PassOver(p, q.sha, src, works[..i], fault)
    {
      ghost var before := Pass(q.T(), q.poll, swept, changed, false);
      swept := swept + 1;
      var differs, committed := SweepUnit(q, src, works[i], UpTo(fault, i));
      PassUnit(p, before, q.sha, src, works, fault, i, q.T(), q.poll, committed);
      if differs && !committed {
        threw := true;
        PassStops(p, q.sha, src, works, fault, i + 1);
        return;
      }
      if committed { changed := changed + 1; }
    }
    assert works[..|works|] == works;
  }

  /** The pass after one more unit, from what that unit did. */
  lemma PassUnit(p: Pass, before: Pass, sha: string -> string, src: Source, works: seq<Work>, fault: Fault, i: nat,
                 t: Table, poll: map<Unit, string>, committed: bool)
    requires i < |works| && before == PassOver(p, sha, src, works[..i], fault) && !before.threw
    requires committed == (Gate(before.poll, sha, works[i]) && UpTo(fault, i).None?)
    requires poll == if committed then PollCommit(before.poll, sha, CURSOR, works[i].key, works[i].content) else before.poll
    requires t == if !Gate(before.poll, sha, works[i]) then before.table
                  else EnqueueAll(before.table, sha, Reached(ItemsOf(sha, src, works[i]), UpTo(fault, i)))
    ensures PassOver(p, sha, src, works[..i + 1], fault)
         == Pass(t, poll, before.swept + 1, before.changed + (if committed then 1 else 0), Gate(before.poll, sha, works[i]) && !committed)
  {
    PassNext(p, sha, src, works, fault, i);
    UnitDone(before, sha, src, works[i], UpTo(fault, i), t, poll, committed);
  }

  lemma PassNext(p: Pass, sha: string -> string, src: Source, works: seq<Work>, fault: Fault, i: nat)
    requires i < |works| && !PassOver(p, sha, src, works[..i], fault).threw
    ensures PassOver(p, sha, src, works[..i + 1], fault)
         == OneUnit(PassOver(p, sha, src, works[..i], fault), sha, src, works[i], UpTo(fault, i))
  {
    assert works[..i + 1][..i] == works[..i];
  }

  lemma UnitDone(p: Pass, sha: string -> string, src: Source, w: Work, upTo: Option<nat>,
                 t: Table, poll: map<Unit, string>, committed: bool)
    requires !p.threw && committed == (Gate(p.poll, sha, w) && upTo.None?)
    requires poll == if committed then PollCommit(p.poll, sha, CURSOR, w.key, w.content) else p.poll
    requires t == if !Gate(p.poll, sha, w) then p.table else EnqueueAll(p.table, sha, Reached(ItemsOf(sha, src, w), upTo))
    ensures OneUnit(p, sha, src, w, upTo)
         == Pass(t, poll, p.swept + 1, p.changed + (if committed then 1 else 0), Gate(p.poll, sha, w) && !committed)
  {}

  lemma {:induction false} PassStops(p: Pass, sha: string -> string, src: Source, works: seq<Work>, fault: Fault, n: nat)
    requires n <= |works| && PassOver(p, sha, src, works[..n], fault).threw
    ensures PassOver(p, sha, src, works, fault) == PassOver(p, sha, src, works[..n], fault)
    decreases |works|
  {
    if n < |works| {
      assert works[..|works| - 1][..n] == works[..n];
      PassStops(p, sha, src, works[..|works| - 1], fault, n);
    } else {
      assert works[..n] == works;
    }
  }

  function ChangedCount(poll: map<Unit, string>, sha: string -> string, works: seq<Work>): nat {
    if works == [] then 0
    else ChangedCount(poll, sha, works[..|works| - 1]) + if Gate(poll, sha, works[|works| - 1]) then 1 else 0
  }

  /** How many units the pass gets through before a throw, or all of them. */
  function Through(p: Pass, sha: string -> string, works: seq<Work>, fault: Fault): nat {
    if fault.Some? && fault.value.0 < |works| && Gate(p.poll, sha, works[fault.value.0]) then fault.value.0 else |works|
  }

  /** What a pass that gets through `n` units leaves in `poll_state`. */
  ghost predicate Marked(before: map<Unit, string>, after: map<Unit, string>, sha: string -> string,
                         works: seq<Work>, n: nat)
    requires n <= |works|
  {
    && (forall j :: 0 <= j < n ==> !Gate(after, sha, works[j]))
    && (forall u: Unit :: (forall j :: 0 <= j < n ==> u != (CURSOR, works[j].key)) ==>
          (u in after <==> u in before) && (u in before ==> after[u] == before[u]))
  }

  /** `q` is what a pass from `p` leaves when it gets through `n` of the units. */
  ghost predicate Outcome(p: Pass, q: Pass, sha: string -> string, works: seq<Work>, n: nat) {
    && n <= |works| && (q.threw <==> n < |works|)
    && Marked(p.poll, q.poll, sha, works, n)
    && q.swept == p.swept + (if n < |works| then n + 1 else n)
    && q.changed == p.changed + ChangedCount(p.poll, sha, works[..n])
  }

  /**
   A pass over composers with distinct keys throws exactly when its faulty unit is due, marks exactly
   the units before that one as seen, and leaves every other unit's memory as it was: the unit that
   threw, and every unit after it, reads on the next pass as it did on this one.
   */
  lemma {:induction false} PassExact(p: Pass, sha: string -> string, src: Source, works: seq<Work>, fault: Fault)
    requires !p.threw
    requires forall i, j :: 0 <= i < j < |works| ==> works[i].key != works[j].key
    ensures Outcome(p, PassOver(p, sha, src, works, fault), sha, works, Through(p, sha, works, fault))
    decreases |works|
  {
    if works != [] {
      var n := |works| - 1;
      PassExact(p, sha, src, works[..n], fault);
      var q := PassOver(p, sha, src, works[..n], fault);
      var m := Through(p, sha, works[..n], fault);
      assert works[..n][..m] == works[..m];
      if q.threw {
        MarkedSame(p.poll, q.poll, sha, works, m);
      } else {
        assert works[..n] == works[..m];
        LastUnit(p, q, sha, src, works, fault);
      }
    }
  }

  lemma MarkedSame(before: map<Unit, string>, after: map<Unit, string>, sha: string -> string,
                   works: seq<Work>, m: nat)
    requires m < |works| && Marked(before, after, sha, works[..|works| - 1], m)
    ensures Marked(before, after, sha, works, m)
  {
    assert forall j :: 0 <= j < m ==> works[..|works| - 1][j] == works[j];
  }

  lemma SameGate(before: map<Unit, string>, after: map<Unit, string>, sha: string -> string, works: seq<Work>)
    requires works != [] && Marked(before, after, sha, works, |works| - 1)
    requires forall i, j :: 0 <= i < j < |works| ==> works[i].key != works[j].key
    ensures Gate(after, sha, works[|works| - 1]) == Gate(before, sha, works[|works| - 1])
  {
    var u: Unit := (CURSOR, works[|works| - 1].key);
    assert u in after <==> u in before;
  }

  /** One more unit after `n` that were got through: skipped, thrown at, or committed. */
  lemma LastUnit(p: Pass, q: Pass, sha: string -> string, src: Source, works: seq<Work>, fault: Fault)
    requires works != [] && !q.threw
    requires forall i, j :: 0 <= i < j < |works| ==> works[i].key != works[j].key
    requires Through(p, sha, works[..|works| - 1], fault) == |works| - 1
    requires Outcome(p, q, sha, works[..|works| - 1], |works| - 1)
    ensures Outcome(p, OneUnit(q, sha, src, works[|works| - 1], UpTo(fault, |works| - 1)), sha, works,
                    Through(p, sha, works, fault))
  {
    var n := |works| - 1;
    MarkedSame(p.poll, q.poll, sha, works, n);
    SameGate(p.poll, q.poll, sha, works);
    assert fault.Some? && fault.value.0 < n ==> works[..n][fault.value.0] == works[fault.value.0];
    assert works[..n][..n] == works[..n];
    var due := Gate(p.poll, sha, works[n]);
    if due && UpTo(fault, n).None? {
      MarkedNext(p.poll, q.poll, sha, works);
    } else if !due {
      MarkedSkip(p.poll, q.poll, sha, works);
    }
    if !(due && UpTo(fault, n).Some?) {
      assert works[..n + 1] == works;
      assert ChangedCount(p.poll, sha, works) == ChangedCount(p.poll, sha, works[..n]) + if due then 1 else 0;
    }
  }

  lemma MarkedSkip(before: map<Unit, string>, after: map<Unit, string>, sha: string -> string, works: seq<Work>)
    requires works != [] && Marked(before, after, sha, works, |works| - 1)
    requires !Gate(after, sha, works[|works| - 1])
    ensures Marked(before, after, sha, works, |works|)
  {}

  lemma MarkedNext(before: map<Unit, string>, after: map<Unit, string>, sha: string -> string, works: seq<Work>)
    requires works != [] && Marked(before, after, sha, works, |works| - 1)
    requires forall i, j :: 0 <= i < j < |works| ==> works[i].key != works[j].key
    ensures var w := works[|works| - 1]; Marked(before, PollCommit(after, sha, CURSOR, w.key, w.content), sha, works, |works|)
  {
    var w := works[|works| - 1];
    var next := PollCommit(after, sha, CURSOR, w.key, w.content);
    forall j | 0 <= j < |works| ensures !Gate(next, sha, works[j]) {
      if j < |works| - 1 { assert !Gate(after, sha, works[j]); }
    }
  }
}
