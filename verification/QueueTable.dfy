/**
 The durable outbound queue of apps/collector/src/queue/queue-store.ts: each SQL statement's meaning
 on the table as a value. Rows are kept in `id` order, which is the order SQLite assigns with
 AUTOINCREMENT. SHA-256 is the parameter `sha`.
 */
module QueueTable {
  import opened Wrappers

  const EPOCH: nat := 0
  const BACKOFF_CAP_MS: nat := 30_000
  const BACKOFF_BASE_MS: nat := 1000

  datatype Kind = Raw | Event
  datatype Key = Key(kind: Kind, dedupKey: string)
  datatype Status = Pending | Inflight
  datatype Row = Row(id: nat, key: Key, hash: string, payload: string,
                     status: Status, attempts: nat, nextAttemptAt: nat)
  datatype EnqueueResult = Inserted | Updated | Noop

  /** `queue_items`; `nextId` is the AUTOINCREMENT counter, so an id is never used twice. */
  datatype Table = Table(rows: seq<Row>, nextId: nat)

  /** Ids grow along the table and stay below the counter; `UNIQUE(kind, dedup_key)` holds. */
  ghost predicate Valid(t: Table) {
    && IdsGrow(t.rows)
    && (forall r | r in t.rows :: r.id < t.nextId)
    && UniqueKeys(t.rows)
  }

  ghost predicate IdsGrow(rows: seq<Row>) {
    forall i, j :: 0 <= i < j < |rows| ==> rows[i].id < rows[j].id
  }

  ghost predicate UniqueKeys(rows: seq<Row>) {
    forall i, j :: 0 <= i < j < |rows| ==> rows[i].key != rows[j].key
  }

  /** The row stored under a key: the table read as a map. */
  function RowOf(rows: seq<Row>, k: Key): (r: Option<Row>)
    ensures r.Some? ==> r.value in rows && r.value.key == k
    ensures r.None? ==> forall x | x in rows :: x.key != k
  {
    if rows == [] then None
    else if rows[0].key == k then Some(rows[0])
    else RowOf(rows[1..], k)
  }

  lemma {:induction false} RowOfMember(rows: seq<Row>, r: Row)
    requires UniqueKeys(rows) && r in rows
    ensures RowOf(rows, r.key) == Some(r)
  {
    if rows[0] != r {
      assert r in rows[1..];
      RowOfMember(rows[1..], r);
    }
  }

  // ----- UPDATE ... WHERE -----

  /** One UPDATE statement: `f` is the new row for every old one. */
  function Update(rows: seq<Row>, f: Row -> Row): (out: seq<Row>)
    ensures |out| == |rows| && forall i :: 0 <= i < |rows| ==> out[i] == f(rows[i])
  {
    seq(|rows|, i requires 0 <= i < |rows| => f(rows[i]))
  }

  /** An UPDATE that touches neither the id nor the key. */
  ghost predicate Keeps(f: Row -> Row) {
    forall r :: f(r).id == r.id && f(r).key == r.key
  }

  lemma {:induction false} UpdateView(rows: seq<Row>, f: Row -> Row, k: Key)
    requires Keeps(f)
    ensures RowOf(Update(rows, f), k)
         == match RowOf(rows, k) { case None => None case Some(r) => Some(f(r)) }
  {
    if rows != [] {
      assert Update(rows, f)[1..] == Update(rows[1..], f);
      UpdateView(rows[1..], f, k);
    }
  }

  lemma UpdateValid(t: Table, f: Row -> Row)
    requires Keeps(f) && Valid(t)
    ensures Valid(t.(rows := Update(t.rows, f)))
  {}

  function SetInflight(ids: set<nat>): Row -> Row {
    (r: Row) => if r.id in ids then r.(status := Inflight) else r
  }

  function SetReleased(ids: set<nat>): Row -> Row {
    (r: Row) => if r.id in ids && r.status == Inflight then r.(status := Pending) else r
  }

  function SetRecovered(): Row -> Row {
    (r: Row) => if r.status == Inflight then r.(status := Pending) else r
  }

  function SetFailed(id: nat, next: nat): Row -> Row {
    (r: Row) => if r.id == id then r.(status := Pending, attempts := r.attempts + 1, nextAttemptAt := next) else r
  }

  // ----- enqueue -----

  function Fresh(id: nat, sha: string -> string, key: Key, payload: string): Row {
    Row(id, key, sha(payload), payload, Pending, 0, EPOCH)
  }

  function Rewrite(hash: string, key: Key, payload: string): Row -> Row {
    (r: Row) => if r.key == key && r.hash != hash then Row(r.id, key, hash, payload, Pending, 0, EPOCH) else r
  }

  /** Insert once; rewrite and re-arm only when the content hash changed. */
  function Enqueue(t: Table, sha: string -> string, key: Key, payload: string): (Table, EnqueueResult) {
    match RowOf(t.rows, key)
    case None => (Table(t.rows + [Fresh(t.nextId, sha, key, payload)], t.nextId + 1), Inserted)
    case Some(prev) =>
      (t.(rows := Update(t.rows, Rewrite(sha(payload), key, payload))),
       if prev.hash == sha(payload) then Noop else Updated)
  }

  lemma {:induction false} RowOfAppend(rows: seq<Row>, r: Row, k: Key)
    ensures RowOf(rows + [r], k)
         == match RowOf(rows, k) { case Some(x) => Some(x) case None => if r.key == k then Some(r) else None }
  {
    if rows == [] {
      assert rows + [r] == [r];
    } else {
      assert (rows + [r])[1..] == rows[1..] + [r];
      RowOfAppend(rows[1..], r, k);
    }
  }

  /** What one enqueue does, key by key: only `key` moves, and a moved key is pending, new and due. */
  lemma EnqueueView(t: Table, sha: string -> string, key: Key, payload: string, k: Key)
    requires Valid(t)
    ensures var (t', res) := Enqueue(t, sha, key, payload);
      && Valid(t')
      && (k != key ==> RowOf(t'.rows, k) == RowOf(t.rows, k))
      && (res == Noop <==> RowOf(t.rows, key).Some? && RowOf(t.rows, key).value.hash == sha(payload))
      && (res == Inserted <==> RowOf(t.rows, key).None?)
      && RowOf(t'.rows, key)
         == (match res
             case Noop => RowOf(t.rows, key)
             case Inserted => Some(Row(t.nextId, key, sha(payload), payload, Pending, 0, 0))
             case Updated => Some(Row(RowOf(t.rows, key).value.id, key, sha(payload), payload, Pending, 0, 0)))
      && |t'.rows| == |t.rows| + (if res == Inserted then 1 else 0)
      && t'.nextId == t.nextId + (if res == Inserted then 1 else 0)
  {
    if RowOf(t.rows, key).None? {
      var r := Fresh(t.nextId, sha, key, payload);
      InsertValid(t, r);
      RowOfAppend(t.rows, r, k);
      RowOfAppend(t.rows, r, key);
    } else {
      var f := Rewrite(sha(payload), key, payload);
      UpdateValid(t, f);
      UpdateView(t.rows, f, k);
      UpdateView(t.rows, f, key);
    }
  }

  lemma InsertValid(t: Table, r: Row)
    requires Valid(t) && RowOf(t.rows, r.key).None? && r.id == t.nextId
    ensures Valid(Table(t.rows + [r], t.nextId + 1))
  {
    assert forall x | x in t.rows :: x.key != r.key;
    var rows := t.rows + [r];
    forall i, j | 0 <= i < j < |rows| ensures rows[i].id < rows[j].id && rows[i].key != rows[j].key {
      assert rows[i] in t.rows;
    }
  }

  // ----- claim -----

  predicate Due(r: Row, now: nat) { r.status == Pending && r.nextAttemptAt <= now }

  /** `SELECT ... WHERE status = 'pending' AND next_attempt_at <= now ORDER BY id LIMIT limit`. */
  function Select(rows: seq<Row>, now: nat, limit: nat): seq<Row> {
    if rows == [] || limit == 0 then []
    else if Due(rows[0], now) then [rows[0]] + Select(rows[1..], now, limit - 1)
    else Select(rows[1..], now, limit)
  }

  function Ids(rows: seq<Row>): set<nat> { set r | r in rows :: r.id }

  function SetOf(ids: seq<nat>): set<nat> { set i | i in ids }

  lemma SetOfSnoc(ids: seq<nat>, i: nat)
    requires i < |ids|
    ensures SetOf(ids[..i + 1]) == SetOf(ids[..i]) + {ids[i]}
  {
    assert ids[..i + 1] == ids[..i] + [ids[i]];
  }

  function Claim(t: Table, now: nat, limit: nat): (Table, seq<Row>) {
    var sel := Select(t.rows, now, limit);
    (t.(rows := Update(t.rows, SetInflight(Ids(sel)))), sel)
  }

  /** A claim takes due rows only, in id order, within the limit, and skips one only for lower ids. */
  lemma {:induction false} SelectSpec(rows: seq<Row>, now: nat, limit: nat)
    requires IdsGrow(rows)
    ensures var sel := Select(rows, now, limit);
      && |sel| <= limit && |sel| <= |rows|
      && (forall r | r in sel :: r in rows && Due(r, now))
      && IdsGrow(sel)
      && (forall r | r in rows && Due(r, now) && r !in sel :: |sel| == limit && forall s | s in sel :: s.id < r.id)
  {
    SelectMembers(rows, now, limit);
    SelectOrder(rows, now, limit);
    SelectFirst(rows, now, limit);
  }

  lemma {:induction false} SelectMembers(rows: seq<Row>, now: nat, limit: nat)
    ensures var sel := Select(rows, now, limit);
      && |sel| <= limit && |sel| <= |rows|
      && forall r | r in sel :: r in rows && Due(r, now)
  {
    if rows != [] && limit != 0 {
      if Due(rows[0], now) { SelectMembers(rows[1..], now, limit - 1); } else { SelectMembers(rows[1..], now, limit); }
    }
  }

  lemma {:induction false} SelectOrder(rows: seq<Row>, now: nat, limit: nat)
    requires IdsGrow(rows)
    ensures IdsGrow(Select(rows, now, limit))
  {
    if rows != [] && limit != 0 {
      TailOrder(rows);
      if Due(rows[0], now) {
        SelectOrder(rows[1..], now, limit - 1);
        SelectMembers(rows[1..], now, limit - 1);
        ConsOrder(rows[0], Select(rows[1..], now, limit - 1));
      } else {
        SelectOrder(rows[1..], now, limit);
      }
    }
  }

  lemma {:induction false} SelectFirst(rows: seq<Row>, now: nat, limit: nat)
    requires IdsGrow(rows)
    ensures var sel := Select(rows, now, limit);
      forall r | r in rows && Due(r, now) && r !in sel :: |sel| == limit && forall s | s in sel :: s.id < r.id
  {
    if rows != [] && limit != 0 {
      TailOrder(rows);
      if Due(rows[0], now) {
        SelectFirst(rows[1..], now, limit - 1);
      } else {
        SelectFirst(rows[1..], now, limit);
      }
    }
  }

  /** In a valid table, the id of a member singles it out. */
  lemma IdInjective(t: Table, a: Row, b: Row)
    requires Valid(t) && a in t.rows && b in t.rows && a.id == b.id
    ensures a == b
  {}

  /** What a claim does, key by key: the claimed rows turn inflight, every other row is untouched. */
  lemma ClaimView(t: Table, now: nat, limit: nat, k: Key)
    requires Valid(t)
    ensures var (t', sel) := Claim(t, now, limit);
      && Valid(t') && |t'.rows| == |t.rows|
      && RowOf(t'.rows, k)
         == (match RowOf(t.rows, k)
             case None => None
             case Some(r) => Some(if r in sel then r.(status := Inflight) else r))
  {
    SelectSpec(t.rows, now, limit);
    var sel := Select(t.rows, now, limit);
    var f := SetInflight(Ids(sel));
    UpdateValid(t, f);
    UpdateView(t.rows, f, k);
    var r := RowOf(t.rows, k);
    if r.Some? && r.value.id in Ids(sel) {
      var s :| s in sel && s.id == r.value.id;
      IdInjective(t, s, r.value);
    }
  }

  // ----- ack -----

  /** `DELETE FROM queue_items WHERE id IN ids`, whatever the status of the rows. */
  function Delete(rows: seq<Row>, ids: set<nat>): (out: seq<Row>)
    ensures |out| <= |rows|
    ensures forall r :: r in out <==> r in rows && r.id !in ids
  {
    if rows == [] then []
    else if rows[0].id in ids then Delete(rows[1..], ids)
    else [rows[0]] + Delete(rows[1..], ids)
  }

  lemma {:induction false} DeleteOrder(rows: seq<Row>, ids: set<nat>)
    requires IdsGrow(rows) && UniqueKeys(rows)
    ensures IdsGrow(Delete(rows, ids)) && UniqueKeys(Delete(rows, ids))
  {
    if rows != [] {
      TailOrder(rows);
      DeleteOrder(rows[1..], ids);
      if rows[0].id !in ids { ConsOrder(rows[0], Delete(rows[1..], ids)); }
    }
  }

  lemma TailOrder(rows: seq<Row>)
    requires rows != []
    ensures IdsGrow(rows) ==> IdsGrow(rows[1..]) && forall r | r in rows[1..] :: rows[0].id < r.id
    ensures UniqueKeys(rows) ==> UniqueKeys(rows[1..]) && forall r | r in rows[1..] :: rows[0].key != r.key
  {
    forall r | r in rows[1..]
      ensures IdsGrow(rows) ==> rows[0].id < r.id
      ensures UniqueKeys(rows) ==> rows[0].key != r.key
    {
      var i :| 0 <= i < |rows[1..]| && rows[1..][i] == r;
      assert rows[i + 1] == r;
    }
  }

  lemma ConsOrder(r: Row, rest: seq<Row>)
    ensures IdsGrow(rest) && (forall x | x in rest :: r.id < x.id) ==> IdsGrow([r] + rest)
    ensures UniqueKeys(rest) && (forall x | x in rest :: r.key != x.key) ==> UniqueKeys([r] + rest)
  {
    var out := [r] + rest;
    assert forall i :: 1 <= i < |out| ==> out[i] == rest[i - 1] && out[i] in rest;
  }

  lemma {:induction false} DeleteView(t: Table, ids: set<nat>, k: Key)
    requires Valid(t)
    ensures Valid(t.(rows := Delete(t.rows, ids)))
    ensures RowOf(Delete(t.rows, ids), k)
         == match RowOf(t.rows, k) { case None => None case Some(r) => if r.id in ids then None else Some(r) }
  {
    DeleteOrder(t.rows, ids);
    var out := Delete(t.rows, ids);
    match RowOf(t.rows, k)
    case None =>
    case Some(r) =>
      if r.id in ids {
        if x :| x in out && x.key == k { RowOfMember(t.rows, x); }
      } else {
        RowOfMember(out, r);
      }
  }

  lemma {:induction false} DeleteTwice(rows: seq<Row>, a: set<nat>, b: set<nat>)
    ensures Delete(Delete(rows, a), b) == Delete(rows, a + b)
  {
    if rows != [] {
      DeleteTwice(rows[1..], a, b);
      if rows[0].id !in a {
        assert ([rows[0]] + Delete(rows[1..], a))[1..] == Delete(rows[1..], a);
      }
    }
  }

  // ----- failure and backoff -----

  function Pow2(n: nat): nat { if n == 0 then 1 else 2 * Pow2(n - 1) }

  /** `Math.min(BACKOFF_CAP_MS, BACKOFF_BASE_MS * 2 ** attempts)`. */
  function Delay(attempts: nat): nat {
    var d := BACKOFF_BASE_MS * Pow2(attempts);
    if d < BACKOFF_CAP_MS then d else BACKOFF_CAP_MS
  }

  /** The waits before the second, third, fourth, fifth and sixth try, and the one before every later try. */
  const WAITS: seq<nat> := [1_000, 2_000, 4_000, 8_000, 16_000]
  const LONGEST_WAIT: nat := 30_000

  function Wait(attempts: nat): nat { if attempts < |WAITS| then WAITS[attempts] else LONGEST_WAIT }

  lemma DelayExact(attempts: nat)
    ensures Delay(attempts) == Wait(attempts)
  {
    assert Pow2(1) == 2 && Pow2(2) == 4 && Pow2(3) == 8 && Pow2(4) == 16;
    DelayGrows(attempts, attempts);
    DelayGrows(0, attempts);
  }

  /** The delay doubles from one second and is cut off at thirty from the fifth attempt on. */
  lemma {:induction false} DelayGrows(a: nat, b: nat)
    requires a <= b
    ensures BACKOFF_BASE_MS <= Delay(a) <= Delay(b) <= BACKOFF_CAP_MS
    ensures Delay(a) == BACKOFF_CAP_MS <==> a >= 5
    decreases b
  {
    Pow2AtLeast(a);
    Pow2AtLeast(b);
    if a < b { Pow2Grows(a, b); }
    assert Pow2(4) == 16 && Pow2(5) == 32 by { assert Pow2(2) == 4 && Pow2(3) == 8; }
    if a >= 5 { Pow2Grows(5, a); } else { Pow2Grows(a, 4); }
  }

  lemma {:induction false} Pow2AtLeast(a: nat)
    ensures Pow2(a) >= 1
  {
    if a > 0 { Pow2AtLeast(a - 1); }
  }

  lemma {:induction false} Pow2Grows(a: nat, b: nat)
    requires a <= b
    ensures Pow2(a) <= Pow2(b)
    decreases b - a
  {
    if a < b { Pow2AtLeast(a); Pow2Grows(a + 1, b); }
  }

  function MarkFailed(t: Table, id: nat, attempts: nat, now: nat): Table {
    t.(rows := Update(t.rows, SetFailed(id, now + Delay(attempts))))
  }

  function Release(t: Table, ids: set<nat>): Table {
    t.(rows := Update(t.rows, SetReleased(ids)))
  }

  function Recover(t: Table): Table {
    t.(rows := Update(t.rows, SetRecovered()))
  }

  /** `b` is the row `a` after a failure of row `id`: re-armed for `next` with one attempt more if it is that row. */
  ghost predicate Failed(a: Option<Row>, b: Option<Row>, id: nat, next: nat) {
    match a
    case None => b == None
    case Some(r) => b == Some(if r.id == id then r.(status := Pending, attempts := r.attempts + 1, nextAttemptAt := next) else r)
  }

  /** `b` is the row `a`, pending if its id is among `ids`, and otherwise unchanged. */
  ghost predicate Released(a: Option<Row>, b: Option<Row>, ids: set<nat>) {
    match a
    case None => b == None
    case Some(r) => b == Some(if r.id in ids then r.(status := Pending) else r)
  }

  /** `b` is the row `a`, pending and otherwise unchanged. */
  ghost predicate Recovered(a: Option<Row>, b: Option<Row>) {
    match a
    case None => b == None
    case Some(r) => b == Some(r.(status := Pending))
  }

  /** Seen through any key, a failure re-arms the row with that id, its content kept, after the wait. */
  lemma FailedView(t: Table, id: nat, attempts: nat, now: nat, k: Key)
    ensures Failed(RowOf(t.rows, k), RowOf(MarkFailed(t, id, attempts, now).rows, k), id, now + Wait(attempts))
  {
    UpdateView(t.rows, SetFailed(id, now + Delay(attempts)), k);
    DelayExact(attempts);
  }

  /** Seen through any key, a release makes an inflight row among `ids` pending and changes nothing else. */
  lemma ReleasedView(t: Table, ids: set<nat>, k: Key)
    ensures Released(RowOf(t.rows, k), RowOf(Release(t, ids).rows, k), ids)
  {
    UpdateView(t.rows, SetReleased(ids), k);
  }

  /** Seen through any key, recovery leaves a row pending and otherwise as it was; nothing stays inflight. */
  lemma RecoveredView(t: Table, k: Key)
    ensures Recovered(RowOf(t.rows, k), RowOf(Recover(t).rows, k))
    ensures forall r | r in Recover(t).rows :: r.status == Pending
  {
    UpdateView(t.rows, SetRecovered(), k);
  }

  // ----- poll state -----

  function PollChanged(poll: map<(string, string), string>, sha: string -> string,
                       connectorId: string, key: string, content: string): bool {
    (connectorId, key) !in poll || poll[(connectorId, key)] != sha(content)
  }

  function PollCommit(poll: map<(string, string), string>, sha: string -> string,
                      connectorId: string, key: string, content: string): map<(string, string), string> {
    poll[(connectorId, key) := sha(content)]
  }

  ghost predicate Injective(sha: string -> string) {
    forall a, b :: sha(a) == sha(b) ==> a == b
  }

  /** Asking after a commit: the unit has changed exactly when it is asked about other content, no other unit's answer moves. */
  lemma CommitThenAsk(poll: map<(string, string), string>, sha: string -> string, u: (string, string), content: string,
                      v: (string, string), asked: string)
    requires Injective(sha)
    ensures PollChanged(PollCommit(poll, sha, u.0, u.1, content), sha, v.0, v.1, asked)
         == if v == u then asked != content else PollChanged(poll, sha, v.0, v.1, asked)
  {
    assert (u.0, u.1) == u && (v.0, v.1) == v;
  }

  /** The ids of the rows with a status, each row once. */
  lemma {:induction false} CountOfIds(rows: seq<Row>, s: Status)
    requires IdsGrow(rows)
    ensures CountOf(rows, s) == |IdsWith(rows, s)|
  {
    if rows != [] {
      TailOrder(rows);
      CountOfIds(rows[1..], s);
      IdsWithCons(rows, s);
      assert rows[0].id !in IdsWith(rows[1..], s);
    }
  }

  function IdsWith(rows: seq<Row>, s: Status): set<nat> { set r | r in rows && r.status == s :: r.id }

  lemma IdsWithCons(rows: seq<Row>, s: Status)
    requires rows != []
    ensures IdsWith(rows, s) == (if rows[0].status == s then {rows[0].id} else {}) + IdsWith(rows[1..], s)
  {
    assert forall r :: r in rows <==> r == rows[0] || r in rows[1..];
  }

  /** `SUM(status = s)`. */
  function CountOf(rows: seq<Row>, s: Status): nat {
    if rows == [] then 0 else (if rows[0].status == s then 1 else 0) + CountOf(rows[1..], s)
  }
}
