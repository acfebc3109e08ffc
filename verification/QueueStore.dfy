/** The class that changes the queue table in place, proved equal to the meaning in `QueueTable`. */
module QueueStores {
  import opened Wrappers
  import opened QueueTable

  class QueueStore {
    var rows: seq<Row>
    var nextId: nat
    var poll: map<(string, string), string>
    const sha: string -> string

    ghost function T(): Table
      reads this
    {
      Table(rows, nextId)
    }

    constructor (sha: string -> string)
      ensures this.sha == sha && T() == Table([], 1) && poll == map[] && Valid(T())
    {
      this.sha := sha;
      rows, nextId, poll := [], 1, map[];
    }

    method EnqueueItem(key: Key, payload: string) returns (res: EnqueueResult)
      requires Valid(T())
      modifies this
      ensures (T(), res) == Enqueue(old(T()), sha, key, payload)
      ensures Valid(T()) && poll == old(poll)
    {
      EnqueueView(T(), sha, key, payload, key);
      var hash := sha(payload);
      var prev := RowOf(rows, key);
      if prev.None? {
        rows := rows + [Row(nextId, key, hash, payload, Pending, 0, EPOCH)];
        nextId := nextId + 1;
        return Inserted;
      }
      rows := Update(rows, Rewrite(hash, key, payload));
      return if prev.value.hash == hash then Noop else Updated;
    }

    method ClaimBatch(now: nat, limit: nat) returns (batch: seq<Row>)
      requires Valid(T())
      modifies this
      ensures (T(), batch) == Claim(old(T()), now, limit)
      ensures Valid(T()) && poll == old(poll)
    {
      ghost var was := T();
      batch := Select(rows, now, limit);
      if |batch| == 0 {
        assert Update(rows, SetInflight(Ids(batch))) == rows;
        return;
      }
      assert rows == Update(was.rows, SetInflight(Ids(batch[..0])));
      for i := 0 to |batch|
        invariant rows == Update(was.rows, SetInflight(Ids(batch[..i])))
        invariant nextId == was.nextId && poll == old(poll)
      {
        rows := Update(rows, SetInflight({batch[i].id}));
        assert Ids(batch[..i + 1]) == Ids(batch[..i]) + {batch[i].id} by {
          assert batch[..i + 1] == batch[..i] + [batch[i]];
        }
      }
      assert batch[..|batch|] == batch;
      UpdateValid(was, SetInflight(Ids(batch)));
    }

    method AckItems(ids: seq<nat>)
      requires Valid(T())
      modifies this
      ensures T() == old(T()).(rows := Delete(old(rows), SetOf(ids)))
      ensures Valid(T()) && poll == old(poll)
    {
      ghost var was := T();
      DeleteNothing(rows);
      assert SetOf(ids[..0]) == {};
      for i := 0 to |ids|
        invariant rows == Delete(was.rows, SetOf(ids[..i]))
        invariant nextId == was.nextId && poll == old(poll)
      {
        rows := Delete(rows, {ids[i]});
        DeleteTwice(was.rows, SetOf(ids[..i]), {ids[i]});
        SetOfSnoc(ids, i);
      }
      assert ids[..|ids|] == ids;
      DeleteView(was, SetOf(ids), Key(Raw, ""));
    }

    method MarkItemFailed(id: nat, attempts: nat, now: nat)
      requires Valid(T())
      modifies this
      ensures T() == MarkFailed(old(T()), id, attempts, now)
      ensures Valid(T()) && poll == old(poll)
      ensures forall k :: Failed(RowOf(old(rows), k), RowOf(rows, k), id, now + Wait(attempts))
    {
      forall k { FailedView(T(), id, attempts, now, k); }
      UpdateValid(T(), SetFailed(id, now + Delay(attempts)));
      rows := Update(rows, SetFailed(id, now + Delay(attempts)));
    }

    method ReleaseInflight(ids: seq<nat>)
      requires Valid(T())
      modifies this
      ensures T() == Release(old(T()), SetOf(ids))
      ensures Valid(T()) && poll == old(poll)
      ensures forall k :: Released(RowOf(old(rows), k), RowOf(rows, k), SetOf(ids))
    {
      ghost var was := T();
      for i := 0 to |ids|
        invariant rows == Update(was.rows, SetReleased(SetOf(ids[..i])))
        invariant nextId == was.nextId && poll == old(poll)
      {
        rows := Update(rows, SetReleased({ids[i]}));
        SetOfSnoc(ids, i);
      }
      assert ids[..|ids|] == ids;
      UpdateValid(was, SetReleased(SetOf(ids)));
      forall k { ReleasedView(was, SetOf(ids), k); }
    }

    method RecoverInflight()
      requires Valid(T())
      modifies this
      ensures T() == Recover(old(T()))
      ensures Valid(T()) && poll == old(poll)
      ensures forall k :: Recovered(RowOf(old(rows), k), RowOf(rows, k))
      ensures forall r | r in rows :: r.status == Pending
    {
      forall k { RecoveredView(T(), k); }
      UpdateValid(T(), SetRecovered());
      rows := Update(rows, SetRecovered());
    }

    method PollHasChanged(connectorId: string, key: string, content: string) returns (changed: bool)
      ensures changed == PollChanged(poll, sha, connectorId, key, content)
    {
      changed := (connectorId, key) !in poll || poll[(connectorId, key)] != sha(content);
    }

    method CommitPoll(connectorId: string, key: string, content: string)
      modifies this
      ensures poll == PollCommit(old(poll), sha, connectorId, key, content)
      ensures T() == old(T())
      ensures Injective(sha) ==> forall v: (string, string), asked: string ::
        PollChanged(poll, sha, v.0, v.1, asked)
        == if v == (connectorId, key) then asked != content else PollChanged(old(poll), sha, v.0, v.1, asked)
    {
      if Injective(sha) {
        forall v: (string, string), asked: string
          ensures PollChanged(PollCommit(poll, sha, connectorId, key, content), sha, v.0, v.1, asked)
               == if v == (connectorId, key) then asked != content else PollChanged(poll, sha, v.0, v.1, asked)
        {
          CommitThenAsk(poll, sha, (connectorId, key), content, v, asked);
        }
      }
      poll := poll[(connectorId, key) := sha(content)];
    }

    method Stats() returns (pending: nat, inflight: nat)
      ensures pending == CountOf(rows, Pending) && inflight == CountOf(rows, Inflight)
      ensures pending + inflight == |rows|
      ensures Valid(T()) ==> pending == |IdsWith(rows, Pending)|
      ensures Valid(T()) ==> inflight == |IdsWith(rows, Inflight)|
    {
      CountsSum(rows);
      if Valid(T()) {
        CountOfIds(rows, Pending);
        CountOfIds(rows, Inflight);
      }
      pending, inflight := CountOf(rows, Pending), CountOf(rows, Inflight);
    }
  }

  lemma {:induction false} DeleteNothing(rows: seq<Row>)
    ensures Delete(rows, {}) == rows
  {
    if rows != [] { DeleteNothing(rows[1..]); }
  }

  lemma {:induction false} CountsSum(rows: seq<Row>)
    ensures CountOf(rows, Pending) + CountOf(rows, Inflight) == |rows|
  {
    if rows != [] { CountsSum(rows[1..]); }
  }
}
