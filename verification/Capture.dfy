/**
 Handing parsed items to the queue: the enqueue loops of `onChange` and `pollLoop`
 (apps/collector/src/capture-engine.ts), any item of which may throw.
 */
module Capturing {
  import opened Wrappers
  import opened QueueTable
  import opened QueueStores
  import opened Delivery

  type Item = (Key, string)

  function Captures(items: seq<Item>): seq<Step> {
    seq(|items|, i requires 0 <= i < |items| => Capture(items[i].0, items[i].1))
  }

  /** The queue after the items were enqueued in order. */
  function Enqueued(sha: string -> string, s: Sys, items: seq<Item>): Sys {
    Run(sha, s, Captures(items))
  }

  ghost predicate Known(s: Sys, k: Key) { k in s.latest }

  /** A known key is safe: it has a row or the archive accepted a payload for it. */
  lemma KnownIsSafe(s: Sys, k: Key)
    requires Inv(s) && Known(s, k)
    ensures RowOf(s.table.rows, k).Some? || k in s.accepted
  {
    assert NotLost(s, k);
  }

  lemma LatestGrows(sha: string -> string, s: Sys, step: Step)
    ensures s.latest.Keys <= Next(sha, s, step).latest.Keys
  {}

  lemma {:induction false} EnqueuedKnown(sha: string -> string, s: Sys, items: seq<Item>)
    requires Inv(s) && !s.crashed
    ensures var s' := Enqueued(sha, s, items);
      && Inv(s') && !s'.crashed && s.latest.Keys <= s'.latest.Keys
      && forall i :: 0 <= i < |items| ==> Known(s', items[i].0)
    decreases |items|
  {
    if items != [] {
      var step := Capture(items[0].0, items[0].1);
      StepKeeps(sha, s, step);
      EnqueuedKnown(sha, Next(sha, s, step), items[1..]);
      assert Captures(items)[1..] == Captures(items[1..]);
    }
  }

  ghost predicate DistinctKeys(items: seq<Item>) {
    forall i, j :: 0 <= i < j < |items| ==> items[i].0 != items[j].0
  }

  /** After enqueuing items with distinct keys, the newest content of each key is that item's. */
  lemma {:induction false} EnqueuedLatest(sha: string -> string, s: Sys, items: seq<Item>, k: Key)
    requires !s.crashed && DistinctKeys(items)
    ensures var s' := Enqueued(sha, s, items);
      && (forall i :: 0 <= i < |items| && items[i].0 == k ==> k in s'.latest && s'.latest[k] == items[i].1)
      && ((forall i :: 0 <= i < |items| ==> items[i].0 != k) ==>
            (k in s'.latest <==> k in s.latest) && (k in s.latest ==> s'.latest[k] == s.latest[k]))
    decreases |items|
  {
    if items != [] {
      var mid := Next(sha, s, Capture(items[0].0, items[0].1));
      assert Captures(items)[1..] == Captures(items[1..]);
      assert forall i :: 0 <= i < |items| - 1 ==> items[1..][i] == items[i + 1];
      EnqueuedLatest(sha, mid, items[1..], k);
    }
  }

  /** The enqueue loop as a function of the table. */
  function EnqueueAll(t: Table, sha: string -> string, items: seq<Item>): Table
    decreases |items|
  {
    if items == [] then t
    else EnqueueAll(Enqueue(t, sha, items[0].0, items[0].1).0, sha, items[1..])
  }

  lemma {:induction false} EnqueueAllSnoc(t: Table, sha: string -> string, items: seq<Item>, i: nat)
    requires i < |items|
    ensures EnqueueAll(t, sha, items[..i + 1])
         == Enqueue(EnqueueAll(t, sha, items[..i]), sha, items[i].0, items[i].1).0
    decreases i
  {
    if i > 0 {
      assert items[..i + 1][1..] == items[1..][..i] && items[..i][1..] == items[1..][..i - 1];
      EnqueueAllSnoc(Enqueue(t, sha, items[0].0, items[0].1).0, sha, items[1..], i - 1);
    } else {
      assert items[..1][1..] == [];
    }
  }

  method EnqueueItems(q: QueueStore, items: seq<Item>)
    requires Valid(q.T())
    modifies q
    ensures q.T() == EnqueueAll(old(q.T()), q.sha, items) && Valid(q.T()) && q.poll == old(q.poll)
  {
    ghost var was := q.T();
    for i := 0 to |items|
      invariant q.T() == EnqueueAll(was, q.sha, items[..i]) && Valid(q.T()) && q.poll == old(q.poll)
    {
      EnqueueAllSnoc(was, q.sha, items, i);
      var _ := q.EnqueueItem(items[i].0, items[i].1);
    }
    assert items[..|items|] == items;
  }

  lemma {:induction false} EnqueuedTable(sha: string -> string, s: Sys, items: seq<Item>)
    requires !s.crashed
    ensures Enqueued(sha, s, items).table == EnqueueAll(s.table, sha, items)
    decreases |items|
  {
    if items != [] {
      assert Captures(items)[1..] == Captures(items[1..]);
      EnqueuedTable(sha, Next(sha, s, Capture(items[0].0, items[0].1)), items[1..]);
    }
  }
}
