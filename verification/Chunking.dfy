/** Splitting commits into POST bodies by size (apps/collector/src/discovery/git-capture.ts). */
module Chunking {
  import Text

  /** `bytes(c)` is the byte length of the commit's JSON; one more for the joining comma, two for "[]". */
  function Sum<T>(bytes: T -> nat, batch: seq<T>): nat {
    if batch == [] then 0 else bytes(batch[0]) + 1 + Sum(bytes, batch[1..])
  }

  function Bytes<T>(bytes: T -> nat, batch: seq<T>): nat { 2 + Sum(bytes, batch) }

  function Flat<T>(batches: seq<seq<T>>): seq<T> {
    if batches == [] then [] else batches[0] + Flat(batches[1..])
  }

  /** A batch the server accepts: not empty, and within the limit unless it is a single commit. */
  ghost predicate Fits<T>(bytes: T -> nat, maxBytes: nat, batch: seq<T>) {
    batch != [] && (|batch| >= 2 ==> Bytes(bytes, batch) <= maxBytes)
  }

  /** An order-preserving partition of `commits` into batches that fit. */
  ghost predicate Partition<T>(bytes: T -> nat, maxBytes: nat, commits: seq<T>, batches: seq<seq<T>>) {
    Flat(batches) == commits && forall i :: 0 <= i < |batches| ==> Fits(bytes, maxBytes, batches[i])
  }

  /** The next commit did not fit into any batch but the last. */
  ghost predicate Full<T>(bytes: T -> nat, maxBytes: nat, batches: seq<seq<T>>) {
    forall i, j :: 0 <= i && j == i + 1 < |batches| ==> Overflows(bytes, maxBytes, batches[i], batches[j])
  }

  ghost predicate Overflows<T>(bytes: T -> nat, maxBytes: nat, batch: seq<T>, next: seq<T>) {
    next != [] && Bytes(bytes, batch + [next[0]]) > maxBytes
  }

  lemma {:induction false} SumAppend<T>(bytes: T -> nat, a: seq<T>, b: seq<T>)
    ensures Sum(bytes, a + b) == Sum(bytes, a) + Sum(bytes, b)
  {
    if a == [] {
      assert a + b == b;
    } else {
      assert (a + b)[1..] == a[1..] + b;
      SumAppend(bytes, a[1..], b);
    }
  }

  lemma {:induction false} FlatAppend<T>(a: seq<seq<T>>, b: seq<seq<T>>)
    ensures Flat(a + b) == Flat(a) + Flat(b)
  {
    if a == [] {
      assert a + b == b;
    } else {
      assert (a + b)[1..] == a[1..] + b;
      FlatAppend(a[1..], b);
    }
  }

  lemma FlatOne<T>(b: seq<T>)
    ensures Flat([b]) == b
  {
    assert [b][1..] == [];
  }

  lemma FullExtend<T>(bytes: T -> nat, maxBytes: nat, batches: seq<seq<T>>, current: seq<T>, commit: T)
    requires current != [] && Full(bytes, maxBytes, batches + [current])
    ensures Full(bytes, maxBytes, batches + [current + [commit]])
  {
    var was, now := batches + [current], batches + [current + [commit]];
    forall i, j | 0 <= i && j == i + 1 < |now| ensures Overflows(bytes, maxBytes, now[i], now[j]) {
      assert Overflows(bytes, maxBytes, was[i], was[j]);
    }
  }

  lemma FullPush<T>(bytes: T -> nat, maxBytes: nat, batches: seq<seq<T>>, current: seq<T>, commit: T)
    requires current != [] && Full(bytes, maxBytes, batches + [current])
    requires Bytes(bytes, current) + bytes(commit) + 1 > maxBytes
    ensures Full(bytes, maxBytes, (batches + [current]) + [[commit]])
  {
    SumSnoc(bytes, current, commit);
    var was, now := batches + [current], (batches + [current]) + [[commit]];
    forall i, j | 0 <= i && j == i + 1 < |now| ensures Overflows(bytes, maxBytes, now[i], now[j]) {
      if j < |was| { assert Overflows(bytes, maxBytes, was[i], was[j]); }
    }
  }

  lemma SumSnoc<T>(bytes: T -> nat, batch: seq<T>, commit: T)
    ensures Sum(bytes, batch + [commit]) == Sum(bytes, batch) + bytes(commit) + 1
  {
    SumAppend(bytes, batch, [commit]);
    assert [commit][1..] == [];
  }

  /** What the loop keeps after `done` commits: the closed batches and the open one. */
  ghost predicate Greedy<T>(bytes: T -> nat, maxBytes: nat, done: seq<T>, batches: seq<seq<T>>, current: seq<T>) {
    if current == [] then batches == [] && done == []
    else Partition(bytes, maxBytes, done, batches + [current]) && Full(bytes, maxBytes, batches + [current])
  }

  lemma GreedyStep<T>(bytes: T -> nat, maxBytes: nat, done: seq<T>, batches: seq<seq<T>>, current: seq<T>, commit: T)
    requires Greedy(bytes, maxBytes, done, batches, current)
    ensures if current != [] && Bytes(bytes, current) + bytes(commit) + 1 > maxBytes
            then Greedy(bytes, maxBytes, done + [commit], batches + [current], [commit])
            else Greedy(bytes, maxBytes, done + [commit], batches, current + [commit])
  {
    SumSnoc(bytes, current, commit);
    FlatOne([commit]);
    if current == [] {
      assert [] + [commit] == [commit] && batches + [[commit]] == [[commit]];
    } else if Bytes(bytes, current) + bytes(commit) + 1 > maxBytes {
      FullPush(bytes, maxBytes, batches, current, commit);
      FlatAppend(batches + [current], [[commit]]);
    } else {
      FullExtend(bytes, maxBytes, batches, current, commit);
      FlatAppend(batches, [current]);
      FlatAppend(batches, [current + [commit]]);
      FlatOne(current);
      FlatOne(current + [commit]);
      assert forall i :: 0 <= i < |batches| ==> batches[i] == (batches + [current])[i];
    }
  }

  method ChunkCommitsBySize<T>(bytes: T -> nat, commits: seq<T>, maxBytes: nat) returns (batches: seq<seq<T>>)
    ensures Partition(bytes, maxBytes, commits, batches)
    ensures Full(bytes, maxBytes, batches)
  {
    batches := [];
    var current: seq<T> := [];
    var currentBytes := 2;
    for i := 0 to |commits|
      invariant Greedy(bytes, maxBytes, commits[..i], batches, current)
      invariant currentBytes == Bytes(bytes, current)
    {
      var commit := commits[i];
      var commitBytes := bytes(commit) + 1;
      GreedyStep(bytes, maxBytes, commits[..i], batches, current, commit);
      SumSnoc(bytes, current, commit);
      SumSnoc(bytes, [], commit);
      assert commits[..i + 1] == commits[..i] + [commit];
      assert [] + [commit] == [commit];
      if |current| > 0 && currentBytes + commitBytes > maxBytes {
        batches := batches + [current];
        current := [];
        currentBytes := 2;
      }
      current := current + [commit];
      currentBytes := currentBytes + commitBytes;
    }
    assert commits[..|commits|] == commits;
    if |current| > 0 {
      batches := batches + [current];
    }
  }

  // ----- what is sent -----

  function Texts<T>(json: T -> string, batch: seq<T>): seq<string> {
    if batch == [] then [] else [json(batch[0])] + Texts(json, batch[1..])
  }

  /** The body of a POST, byte by byte: the commits' JSON between brackets, joined by commas. */
  function Body<T>(json: T -> string, batch: seq<T>): string { "[" + Text.Join(Texts(json, batch), ",") + "]" }

  lemma {:induction false} JoinLength<T>(json: T -> string, bytes: T -> nat, batch: seq<T>)
    requires batch != [] && forall c :: bytes(c) == |json(c)|
    ensures |Text.Join(Texts(json, batch), ",")| + 1 == Sum(bytes, batch)
  {
    if |batch| > 1 {
      JoinLength(json, bytes, batch[1..]);
      var rest := Texts(json, batch[1..]);
      assert ([json(batch[0])] + rest)[1..] == rest && |rest| >= 1;
    } else {
      assert batch[1..] == [];
    }
  }

  /** What is counted for a batch is one byte more than its body, so no body of two or more commits reaches the limit. */
  lemma BodyWithin<T>(json: T -> string, bytes: T -> nat, maxBytes: nat, batch: seq<T>)
    requires forall c :: bytes(c) == |json(c)|
    requires Fits(bytes, maxBytes, batch)
    ensures |Body(json, batch)| + 1 == Bytes(bytes, batch)
    ensures |batch| >= 2 ==> |Body(json, batch)| < maxBytes
  {
    JoinLength(json, bytes, batch);
  }

  // ----- optimality -----

  lemma SumWithin<T>(bytes: T -> nat, t: seq<T>, from: nat, upto: nat, a: nat)
    requires from <= upto <= a <= |t|
    ensures Sum(bytes, t[from..upto]) <= Sum(bytes, t[..a])
  {
    assert t[..a] == t[..from] + t[from..upto] + t[upto..a];
    SumAppend(bytes, t[..from] + t[from..upto], t[upto..a]);
    SumAppend(bytes, t[..from], t[from..upto]);
  }

  /** The first batch of the greedy split ends no earlier than the first batch of any other. */
  lemma FirstReaches<T>(bytes: T -> nat, maxBytes: nat, t: seq<T>, off: nat, p: seq<seq<T>>, q: seq<seq<T>>)
    requires off <= |t| && p != [] && q != []
    requires Partition(bytes, maxBytes, t, p) && Partition(bytes, maxBytes, t[off..], q) && Full(bytes, maxBytes, q)
    ensures |p[0]| <= off + |q[0]|
  {
    var a, b := |p[0]|, |q[0]|;
    assert p[0] == t[..a];
    if a > off + b {
      assert Fits(bytes, maxBytes, p[0]) && Fits(bytes, maxBytes, q[0]);
      assert t[off..] == q[0] + Flat(q[1..]);
      assert |Flat(q[1..])| > 0;
      assert q[1] != [] && Flat(q[1..])[0] == q[1][0];
      assert q[0] + [q[1][0]] == t[off..off + b + 1];
      SumWithin(bytes, t, off, off + b + 1, a);
    }
  }

  lemma {:induction false} GreedyAhead<T>(bytes: T -> nat, maxBytes: nat, t: seq<T>, off: nat, p: seq<seq<T>>, q: seq<seq<T>>)
    requires off <= |t|
    requires Partition(bytes, maxBytes, t, p) && Partition(bytes, maxBytes, t[off..], q) && Full(bytes, maxBytes, q)
    ensures |q| <= |p|
    decreases |p|
  {
    if q != [] {
      assert Fits(bytes, maxBytes, q[0]);
      if p != [] {
        FirstReaches(bytes, maxBytes, t, off, p, q);
        var a, b := |p[0]|, |q[0]|;
        assert t == p[0] + Flat(p[1..]) && t[off..] == q[0] + Flat(q[1..]);
        assert t[a..] == Flat(p[1..]);
        assert t[a..][off + b - a..] == t[off + b..] == t[off..][b..] == Flat(q[1..]);
        GreedyAhead(bytes, maxBytes, t[a..], off + b - a, p[1..], q[1..]);
      }
    }
  }

  /** No order-preserving partition into batches that fit uses fewer batches. */
  lemma Optimal<T>(bytes: T -> nat, maxBytes: nat, commits: seq<T>, batches: seq<seq<T>>, other: seq<seq<T>>)
    requires Partition(bytes, maxBytes, commits, batches) && Full(bytes, maxBytes, batches)
    requires Partition(bytes, maxBytes, commits, other)
    ensures |batches| <= |other|
  {
    assert commits[0..] == commits;
    GreedyAhead(bytes, maxBytes, commits, 0, other, batches);
  }
}
