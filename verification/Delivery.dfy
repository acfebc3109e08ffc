/**
 Capture-to-archive delivery: the sync worker (apps/collector/src/sync/sync-worker.ts) over the
 durable queue, as a transition system. Between a claim and the settling of its POST any capture may
 enqueue, and the process may die at any step; the archive may also commit a POST the collector has
 given up on.
 */
module Delivery {
  import opened Wrappers
  import opened QueueTable
  import opened QueueStores

  datatype PostOutcome = Delivered | Unauthorized | Cancelled | Refused(status: nat) | Unreachable
  datatype SyncOutcome = SyncOk | SyncRetry | SyncStop

  function OutcomeOf(o: PostOutcome): SyncOutcome {
    match o
    case Delivered => SyncOk
    case Unauthorized => SyncStop
    case _ => SyncRetry
  }

  /** `for (const item of items) markFailed(item.id, item.attempts)`. */
  function FailAll(t: Table, batch: seq<Row>, now: nat): Table
    decreases |batch|
  {
    if batch == [] then t
    else FailAll(MarkFailed(t, batch[0].id, batch[0].attempts, now), batch[1..], now)
  }

  /** What `syncOnce` does to the queue once its POST has settled. */
  function Settle(t: Table, batch: seq<Row>, o: PostOutcome, now: nat): Table {
    match o
    case Delivered => t.(rows := Delete(t.rows, Ids(batch)))
    case Unauthorized => Release(t, Ids(batch))
    case Cancelled => Release(t, Ids(batch))
    case _ => FailAll(t, batch, now)
  }

  lemma {:induction false} FailAllValid(t: Table, batch: seq<Row>, now: nat)
    requires Valid(t)
    ensures Valid(FailAll(t, batch, now)) && |FailAll(t, batch, now).rows| == |t.rows|
    decreases |batch|
  {
    if batch != [] {
      UpdateValid(t, SetFailed(batch[0].id, now + Delay(batch[0].attempts)));
      FailAllValid(MarkFailed(t, batch[0].id, batch[0].attempts, now), batch[1..], now);
    }
  }

  lemma {:induction false} FailAllSnoc(t: Table, batch: seq<Row>, i: nat, now: nat)
    requires i < |batch|
    ensures FailAll(t, batch[..i + 1], now) == MarkFailed(FailAll(t, batch[..i], now), batch[i].id, batch[i].attempts, now)
    decreases i
  {
    if i > 0 {
      assert batch[..i + 1][1..] == batch[1..][..i] && batch[..i][1..] == batch[1..][..i - 1];
      FailAllSnoc(MarkFailed(t, batch[0].id, batch[0].attempts, now), batch[1..], i - 1, now);
    } else {
      assert batch[..1][1..] == [];
    }
  }

  /**
   What a settled POST does to the row `a` of a key, written out: a delivered row is gone; after a 401 or
   a cancelled request it is pending, nothing else changed; after a refusal or a failed request it is
   pending with one attempt more, and due once the wait for the attempts it was claimed with is over.
   A row that is not in the batch is left alone.
   */
  ghost predicate SettledRow(a: Option<Row>, b: Option<Row>, batch: seq<Row>, o: PostOutcome, now: nat) {
    match a
    case None => b == None
    case Some(x) =>
      if forall r | r in batch :: r.id != x.id then b == a
      else if o.Delivered? then b == None
      else
        && b.Some? && b.value.status == Pending
        && b.value.id == x.id && b.value.key == x.key && b.value.hash == x.hash && b.value.payload == x.payload
        && if o.Unauthorized? || o.Cancelled? then b.value.attempts == x.attempts && b.value.nextAttemptAt == x.nextAttemptAt
           else
             && b.value.attempts == x.attempts + 1
             && forall r | r in batch && r.id == x.id :: b.value.nextAttemptAt == now + Wait(r.attempts)
  }

  /** Failing a batch of distinct rows, seen through any key. */
  lemma {:induction false} FailAllExact(t: Table, batch: seq<Row>, now: nat, k: Key)
    requires IdsGrow(batch)
    ensures SettledRow(RowOf(t.rows, k), RowOf(FailAll(t, batch, now).rows, k), batch, Unreachable, now)
    decreases |batch|
  {
    if batch != [] {
      var r := batch[0];
      var t1 := MarkFailed(t, r.id, r.attempts, now);
      FailedView(t, r.id, r.attempts, now, k);
      TailOrder(batch);
      FailAllExact(t1, batch[1..], now, k);
      FailOneMore(RowOf(t.rows, k), RowOf(t1.rows, k), RowOf(FailAll(t, batch, now).rows, k), batch, now);
    }
  }

  lemma FailOneMore(a: Option<Row>, m: Option<Row>, b: Option<Row>, batch: seq<Row>, now: nat)
    requires batch != [] && forall r | r in batch[1..] :: batch[0].id < r.id
    requires Failed(a, m, batch[0].id, now + Wait(batch[0].attempts)) && SettledRow(m, b, batch[1..], Unreachable, now)
    ensures SettledRow(a, b, batch, Unreachable, now)
  {
    assert batch[0] in batch && forall r :: r in batch <==> r == batch[0] || r in batch[1..];
  }

  lemma SettleExact(t: Table, batch: seq<Row>, o: PostOutcome, now: nat, k: Key)
    requires Valid(t) && IdsGrow(batch)
    ensures SettledRow(RowOf(t.rows, k), RowOf(Settle(t, batch, o, now).rows, k), batch, o, now)
  {
    match o
    case Delivered => DeleteView(t, Ids(batch), k);
    case Unauthorized => ReleasedView(t, Ids(batch), k);
    case Cancelled => ReleasedView(t, Ids(batch), k);
    case _ => FailAllExact(t, batch, now, k);
  }

  /** The tail of `syncOnce`, after its `await`. */
  method FinishSync(q: QueueStore, batch: seq<Row>, o: PostOutcome, now: nat) returns (out: SyncOutcome)
    requires Valid(q.T())
    modifies q
    ensures q.T() == Settle(old(q.T()), batch, o, now) && Valid(q.T())
    ensures q.poll == old(q.poll)
    ensures IdsGrow(batch) ==> forall k :: SettledRow(RowOf(old(q.rows), k), RowOf(q.rows, k), batch, o, now)
    ensures out == if o.Delivered? then SyncOk else if o.Unauthorized? then SyncStop else SyncRetry
  {
    ghost var was := q.T();
    if IdsGrow(batch) {
      forall k { SettleExact(was, batch, o, now, k); }
    }
    var ids := seq(|batch|, i requires 0 <= i < |batch| => batch[i].id);
    assert SetOf(ids) == Ids(batch) by {
      forall r | r in batch ensures r.id in ids {
        var i :| 0 <= i < |batch| && batch[i] == r;
        assert ids[i] == r.id;
      }
    }
    match o {
      case Delivered =>
        q.AckItems(ids);
      case Unauthorized =>
        q.ReleaseInflight(ids);
      case Cancelled =>
        q.ReleaseInflight(ids);
      case _ =>
        for i := 0 to |batch|
          invariant q.T() == FailAll(was, batch[..i], now) && Valid(q.T()) && q.poll == old(q.poll)
        {
          q.MarkItemFailed(batch[i].id, batch[i].attempts, now);
          FailAllSnoc(was, batch, i, now);
        }
        assert batch[..|batch|] == batch;
    }
    out := OutcomeOf(o);
  }

  // ----- the transition system -----

  /** A claimed batch whose POST is pending; `landed` once the archive has accepted it. */
  datatype Outstanding = Outstanding(batch: seq<Row>, landed: bool)

  /**
   `accepted` is the archive's last accepted payload for each key. `latest` is the newest content
   enqueued for each key. `limbo` holds batches the collector gave up on that may still land.
   `late` holds what a batch the collector had given up on brought for a key, until a pending POST
   lands for it. `overtaken` collects the keys whose newest content a step let go: an ack of a row with
   other content than the archive last heard, or a late landing of old content over no row.
   */
  datatype Sys = Sys(table: Table, out: Option<Outstanding>, crashed: bool,
                     accepted: map<Key, string>, latest: map<Key, string>,
                     limbo: set<seq<Row>>, overtaken: set<Key>, late: map<Key, string>)

  datatype Step =
    | Capture(key: Key, payload: string)
    | Claiming(now: nat, limit: nat)
    | Land
    | Settling(outcome: PostOutcome, at: nat)
    | Crash
    | Boot
    | LateLand(batch: seq<Row>)

  const Init := Sys(Table([], 1), None, false, map[], map[], {}, {}, map[])

  function Accept(accepted: map<Key, string>, batch: seq<Row>): map<Key, string>
    decreases |batch|
  {
    if batch == [] then accepted
    else Accept(accepted[batch[0].key := batch[0].payload], batch[1..])
  }

  function KeysOf(batch: seq<Row>): set<Key> { set r | r in batch :: r.key }

  /** What the archive last heard for a claimed and landed row: its content, unless a late landing came after. */
  function Heard(late: map<Key, string>, r: Row): string {
    if r.key in late then late[r.key] else r.payload
  }

  /** The claimed keys whose row now holds other content than the archive last heard. */
  function Dropped(t: Table, late: map<Key, string>, batch: seq<Row>): set<Key> {
    set r | r in batch && RowOf(t.rows, r.key).Some? && RowOf(t.rows, r.key).value.payload != Heard(late, r) :: r.key
  }

  /** The keys without a row for which `batch` brings other content than the newest. */
  function Reverted(t: Table, latest: map<Key, string>, batch: seq<Row>): set<Key> {
    set r | r in batch && RowOf(t.rows, r.key).None? && !(r.key in latest && latest[r.key] == r.payload) :: r.key
  }

  /** One step; a step that is not enabled changes nothing. */
  function Next(sha: string -> string, s: Sys, step: Step): Sys {
    match step
    case Capture(k, p) =>
      if s.crashed then s
      else s.(table := Enqueue(s.table, sha, k, p).0, latest := s.latest[k := p], overtaken := s.overtaken - {k})
    case Claiming(now, limit) =>
      if s.crashed || s.out.Some? then s
      else
        var (t, batch) := Claim(s.table, now, limit);
        if batch == [] then s else s.(table := t, out := Some(Outstanding(batch, false)))
    case Land =>
      if s.out.None? || s.out.value.landed then s
      else s.(accepted := Accept(s.accepted, s.out.value.batch), out := Some(s.out.value.(landed := true)),
              late := s.late - KeysOf(s.out.value.batch))
    case Settling(o, at) =>
      if s.crashed || s.out.None? || (o.Delivered? && !s.out.value.landed) then s
      else
        var b := s.out.value.batch;
        s.(table := Settle(s.table, b, o, at), out := None,
           limbo := if s.out.value.landed then s.limbo else s.limbo + {b},
           overtaken := if o.Delivered? then s.overtaken + Dropped(s.table, s.late, b) else s.overtaken)
    case Crash =>
      if s.crashed then s
      else s.(out := None, crashed := true,
              limbo := if s.out.Some? && !s.out.value.landed then s.limbo + {s.out.value.batch} else s.limbo)
    case Boot =>
      if !s.crashed then s else s.(table := Recover(s.table), crashed := false)
    case LateLand(b) =>
      if b !in s.limbo then s
      else s.(accepted := Accept(s.accepted, b), limbo := s.limbo - {b}, late := Accept(s.late, b),
              overtaken := s.overtaken - KeysOf(b) + Reverted(s.table, s.latest, b))
  }

  function Run(sha: string -> string, s: Sys, steps: seq<Step>): Sys
    decreases |steps|
  {
    if steps == [] then s else Run(sha, Next(sha, s, steps[0]), steps[1..])
  }

  lemma {:induction false} AcceptView(accepted: map<Key, string>, batch: seq<Row>, k: Key)
    ensures k in accepted ==> k in Accept(accepted, batch)
    ensures (forall r | r in batch :: r.key != k) ==>
              (k in Accept(accepted, batch) <==> k in accepted) && (k in accepted ==> Accept(accepted, batch)[k] == accepted[k])
    ensures UniqueKeys(batch) ==> forall r | r in batch && r.key == k :: k in Accept(accepted, batch) && Accept(accepted, batch)[k] == r.payload
    decreases |batch|
  {
    if batch != [] {
      AcceptView(accepted[batch[0].key := batch[0].payload], batch[1..], k);
      assert UniqueKeys(batch) && batch[0].key == k ==> forall r | r in batch[1..] :: r.key != k;
    }
  }

  /** `b` is the row `a` with its identity and content kept, pending again if its id is in `ids`. */
  ghost predicate Rearmed(a: Option<Row>, b: Option<Row>, ids: set<nat>) {
    match a
    case None => b == None
    case Some(x) =>
      && b.Some?
      && b.value.id == x.id && b.value.key == x.key && b.value.hash == x.hash && b.value.payload == x.payload
      && b.value.status == if x.id in ids then Pending else x.status
  }

  lemma {:induction false} FailAllView(t: Table, batch: seq<Row>, now: nat, k: Key)
    ensures Rearmed(RowOf(t.rows, k), RowOf(FailAll(t, batch, now).rows, k), Ids(batch))
    decreases |batch|
  {
    if batch != [] {
      var t1 := MarkFailed(t, batch[0].id, batch[0].attempts, now);
      UpdateView(t.rows, SetFailed(batch[0].id, now + Delay(batch[0].attempts)), k);
      assert Rearmed(RowOf(t.rows, k), RowOf(t1.rows, k), {batch[0].id});
      FailAllView(t1, batch[1..], now, k);
      assert Ids(batch) == {batch[0].id} + Ids(batch[1..]) by { assert batch == [batch[0]] + batch[1..]; }
    }
  }

  /** Settling, key by key: a delivered claim deletes its rows; any other outcome re-arms them. */
  lemma SettleView(t: Table, batch: seq<Row>, o: PostOutcome, now: nat, k: Key)
    requires Valid(t)
    ensures var (a, b) := (RowOf(t.rows, k), RowOf(Settle(t, batch, o, now).rows, k));
      if o.Delivered? then b == (if a.Some? && a.value.id in Ids(batch) then None else a)
      else Rearmed(a, b, Ids(batch))
  {
    match o
    case Delivered => DeleteView(t, Ids(batch), k);
    case Unauthorized => UpdateView(t.rows, SetReleased(Ids(batch)), k);
    case Cancelled => UpdateView(t.rows, SetReleased(Ids(batch)), k);
    case _ => FailAllView(t, batch, now, k);
  }

  lemma SettleValid(t: Table, batch: seq<Row>, o: PostOutcome, now: nat)
    requires Valid(t)
    ensures Valid(Settle(t, batch, o, now))
  {
    match o
    case Delivered => DeleteView(t, Ids(batch), Key(Raw, ""));
    case Unauthorized => UpdateValid(t, SetReleased(Ids(batch)));
    case Cancelled => UpdateValid(t, SetReleased(Ids(batch)));
    case _ => FailAllValid(t, batch, now);
  }

  // ----- what every step keeps -----

  /** The outstanding batch still names stored rows: same id under the same key. */
  ghost predicate BatchStored(s: Sys) {
    s.out.Some? ==>
      && UniqueKeys(s.out.value.batch)
      && forall r | r in s.out.value.batch ::
           RowOf(s.table.rows, r.key).Some? && RowOf(s.table.rows, r.key).value.id == r.id
  }

  /** A landed batch has been accepted, key by key. */
  ghost predicate LandedAccepted(s: Sys) {
    s.out.Some? && s.out.value.landed ==> forall r | r in s.out.value.batch :: r.key in s.accepted
  }

  /** A key ever enqueued still has a row, or the archive accepted a payload for it. */
  ghost predicate NotLost(s: Sys, k: Key) {
    k in s.latest ==> RowOf(s.table.rows, k).Some? || k in s.accepted
  }

  /** Outside a crash, an inflight row belongs to the outstanding batch. */
  ghost predicate NotStranded(s: Sys, k: Key) {
    var row := RowOf(s.table.rows, k);
    (!s.crashed && row.Some? && row.value.status == Inflight) ==>
      s.out.Some? && row.value.id in Ids(s.out.value.batch)
  }

  ghost predicate Inv(s: Sys) {
    && Valid(s.table) && BatchStored(s) && LandedAccepted(s)
    && (s.crashed ==> s.out.None?)
    && (forall k :: NotLost(s, k))
    && (forall k :: NotStranded(s, k))
  }

  /** An acknowledged id belongs to the claimed key's row and to no other. */
  lemma BatchIds(s: Sys, k: Key)
    requires Valid(s.table) && BatchStored(s) && s.out.Some?
    requires RowOf(s.table.rows, k).Some? && RowOf(s.table.rows, k).value.id in Ids(s.out.value.batch)
    ensures exists r :: r in s.out.value.batch && r.key == k
  {
    var row := RowOf(s.table.rows, k).value;
    var r :| r in s.out.value.batch && r.id == row.id;
    IdInjective(s.table, row, RowOf(s.table.rows, r.key).value);
  }

  lemma CaptureKeeps(sha: string -> string, s: Sys, key: Key, payload: string)
    requires Inv(s)
    ensures Inv(Next(sha, s, Capture(key, payload)))
  {
    var s' := Next(sha, s, Capture(key, payload));
    if !s.crashed {
      forall k ensures NotLost(s', k) && NotStranded(s', k) {
        EnqueueView(s.table, sha, key, payload, k);
        assert NotLost(s, k) && NotStranded(s, k);
      }
      EnqueueView(s.table, sha, key, payload, key);
      if s.out.Some? {
        forall r | r in s.out.value.batch
          ensures RowOf(s'.table.rows, r.key).Some? && RowOf(s'.table.rows, r.key).value.id == r.id
        {
          EnqueueView(s.table, sha, key, payload, r.key);
        }
      }
    }
  }

  lemma ClaimedKeys(t: Table, now: nat, limit: nat)
    requires Valid(t)
    ensures var sel := Select(t.rows, now, limit);
      && UniqueKeys(sel)
      && forall r | r in sel :: RowOf(t.rows, r.key) == Some(r)
  {
    SelectSpec(t.rows, now, limit);
    var sel := Select(t.rows, now, limit);
    forall r | r in sel ensures RowOf(t.rows, r.key) == Some(r) { RowOfMember(t.rows, r); }
    forall i, j | 0 <= i < j < |sel| ensures sel[i].key != sel[j].key {
      assert sel[i] in sel && sel[j] in sel && sel[i].id < sel[j].id;
    }
  }

  lemma ClaimKeeps(sha: string -> string, s: Sys, now: nat, limit: nat)
    requires Inv(s)
    ensures Inv(Next(sha, s, Claiming(now, limit)))
  {
    var s' := Next(sha, s, Claiming(now, limit));
    if s' != s {
      ClaimedKeys(s.table, now, limit);
      forall k ensures NotLost(s', k) && NotStranded(s', k) {
        ClaimView(s.table, now, limit, k);
        assert NotLost(s, k) && NotStranded(s, k);
      }
      ClaimView(s.table, now, limit, Key(Raw, ""));
      forall r | r in s'.out.value.batch
        ensures RowOf(s'.table.rows, r.key).Some? && RowOf(s'.table.rows, r.key).value.id == r.id
      {
        ClaimView(s.table, now, limit, r.key);
      }
    }
  }

  lemma SettleKeeps(sha: string -> string, s: Sys, o: PostOutcome, at: nat)
    requires Inv(s)
    ensures Inv(Next(sha, s, Settling(o, at)))
  {
    var s' := Next(sha, s, Settling(o, at));
    if s' != s {
      var b := s.out.value.batch;
      SettleValid(s.table, b, o, at);
      forall k ensures NotLost(s', k) && NotStranded(s', k) {
        SettleView(s.table, b, o, at, k);
        assert NotLost(s, k) && NotStranded(s, k);
        var a := RowOf(s.table.rows, k);
        if o.Delivered? && a.Some? && a.value.id in Ids(b) { BatchIds(s, k); }
      }
    }
  }

  lemma LandKeeps(sha: string -> string, s: Sys, step: Step)
    requires Inv(s) && (step.Land? || step.LateLand?)
    ensures Inv(Next(sha, s, step))
  {
    var s' := Next(sha, s, step);
    if s' != s {
      var b := if step.Land? then s.out.value.batch else step.batch;
      forall k ensures (k in s.accepted ==> k in s'.accepted) && NotLost(s', k) && NotStranded(s', k) {
        AcceptView(s.accepted, b, k);
        assert NotLost(s, k) && NotStranded(s, k);
      }
      forall r | r in b ensures UniqueKeys(b) ==> r.key in s'.accepted { AcceptView(s.accepted, b, r.key); }
    }
  }

  lemma RestartKeeps(sha: string -> string, s: Sys, step: Step)
    requires Inv(s) && (step.Crash? || step.Boot?)
    ensures Inv(Next(sha, s, step))
  {
    var s' := Next(sha, s, step);
    if s' != s {
      UpdateValid(s.table, SetRecovered());
      forall k ensures NotLost(s', k) && NotStranded(s', k) {
        UpdateView(s.table.rows, SetRecovered(), k);
        assert NotLost(s, k) && NotStranded(s, k);
      }
    }
  }

  lemma StepKeeps(sha: string -> string, s: Sys, step: Step)
    requires Inv(s)
    ensures Inv(Next(sha, s, step))
  {
    match step
    case Capture(k, p) => CaptureKeeps(sha, s, k, p);
    case Claiming(now, limit) => ClaimKeeps(sha, s, now, limit);
    case Settling(o, at) => SettleKeeps(sha, s, o, at);
    case Land => LandKeeps(sha, s, step);
    case LateLand(b) => LandKeeps(sha, s, step);
    case _ => RestartKeeps(sha, s, step);
  }

  lemma {:induction false} RunKeeps(sha: string -> string, s: Sys, steps: seq<Step>)
    requires Inv(s)
    ensures Inv(Run(sha, s, steps))
    decreases |steps|
  {
    if steps != [] {
      StepKeeps(sha, s, steps[0]);
      RunKeeps(sha, Next(sha, s, steps[0]), steps[1..]);
    }
  }

  /**
   In every run, with crashes, late landings and any interleaving: a key ever enqueued has a row or
   an accepted payload, ids and keys stay unique, and after a boot no row is left inflight outside
   the outstanding batch.
   */
  lemma NothingLost(sha: string -> string, steps: seq<Step>, k: Key)
    ensures var s := Run(sha, Init, steps);
      && Valid(s.table)
      && (k in s.latest ==> RowOf(s.table.rows, k).Some? || k in s.accepted)
      && NotStranded(s, k)
  {
    RunKeeps(sha, Init, steps);
    var s := Run(sha, Init, steps);
    assert NotLost(s, k) && NotStranded(s, k);
  }

  lemma RunCons(sha: string -> string, s: Sys, step: Step, rest: seq<Step>)
    ensures Run(sha, s, [step] + rest) == Run(sha, Next(sha, s, step), rest)
  {
    assert ([step] + rest)[1..] == rest;
  }
}
