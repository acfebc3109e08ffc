/** Parsing undoes the pinned `git log` format, record by record. */
module GitRecords {
  import opened Wrappers
  import opened Text
  import opened GitLog
  import opened GitFormat
  import opened GitRows

  lemma SepShape()
    ensures |RECORD_SEP| == 8 && RECORD_SEP[0] == US && RECORD_SEP[7] == US
    ensures RECORD_SEP[1..7] == COMMIT && forall i :: 0 <= i < 8 ==> RECORD_SEP[i] != RS
    ensures forall i :: 1 <= i < 7 ==> RECORD_SEP[i] != US
  {
    assert |COMMIT| == 6;
    assert RECORD_SEP == [US, 'C', 'O', 'M', 'M', 'I', 'T', US];
  }

  lemma AtChar(s: string, i: int, sub: string, k: nat)
    requires At(s, i, sub) && k < |sub|
    ensures s[i + k] == sub[k]
  {
    assert s[i..i + |sub|][k] == s[i + k];
  }

  /** Empty, or ending in a stretch that holds an RS and no further US: no separator can run past it. */
  ghost predicate Sealed(b: string) {
    b == "" || exists r :: 0 <= r < |b| && b[r] == RS && forall j :: r < j < |b| ==> b[j] != US
  }

  /** A separator never straddles the end of a sealed text. */
  lemma NoStraddle(b: string, rest: string, i: int)
    requires Sealed(b) && At(b + RECORD_SEP + rest, i, RECORD_SEP) && i < |b|
    ensures i + 8 <= |b|
  {
    SepShape();
    var s := b + RECORD_SEP + rest;
    var r :| 0 <= r < |b| && b[r] == RS && forall j :: r < j < |b| ==> b[j] != US;
    AtChar(s, i, RECORD_SEP, 0);
    assert s[i] == b[i] == US;
    assert i < r && s[r] == RS;
    if r < i + 8 { AtChar(s, i, RECORD_SEP, r - i); }
  }

  lemma SealedTail(b: string, i: nat)
    requires Sealed(b) && At(b, i, RECORD_SEP)
    ensures Sealed(b[i + 8..])
  {
    SepShape();
    var r :| 0 <= r < |b| && b[r] == RS && forall j :: r < j < |b| ==> b[j] != US;
    AtChar(b, i, RECORD_SEP, 7);
    assert r >= i + 8 by {
      assert b[i + 7] == US;
    }
    assert b[i + 8..][r - i - 8] == RS;
  }

  /** In a sealed text and what follows, the first separator is the text's own first, or the next one. */
  lemma FirstSealed(b: string, rest: string)
    requires Sealed(b)
    ensures IndexOf(b + RECORD_SEP + rest, RECORD_SEP)
         == if Includes(b, RECORD_SEP) then IndexOf(b, RECORD_SEP) else |b|
  {
    SepShape();
    var s := b + RECORD_SEP + rest;
    assert s == b + (RECORD_SEP + rest);
    var i := IndexOf(s, RECORD_SEP);
    assert At(s, |b|, RECORD_SEP);
    if i < |b| {
      NoStraddle(b, rest, i);
      assert b[i..i + 8] == s[i..i + 8];
      assert At(b, i, RECORD_SEP);
    }
    if Includes(b, RECORD_SEP) { AtLonger(b, IndexOf(b, RECORD_SEP), RECORD_SEP + rest); }
  }

  /** Splitting a sealed text and what follows the next separator is splitting each on its own. */
  lemma {:induction false} SplitSealed(b: string, rest: string)
    requires Sealed(b)
    ensures Split(b + RECORD_SEP + rest, RECORD_SEP) == Split(b, RECORD_SEP) + Split(rest, RECORD_SEP)
    decreases |b|
  {
    SepShape();
    FirstSealed(b, rest);
    var i := IndexOf(b, RECORD_SEP);
    if i >= 0 {
      SealedTail(b, i);
      SplitSealed(b[i + 8..], rest);
      GlueAfter(b, RECORD_SEP, rest);
    } else {
      GlueNone(b, RECORD_SEP, rest);
    }
  }

  lemma GlueAfter(b: string, sep: string, rest: string)
    requires sep != "" && IndexOf(b, sep) >= 0 && IndexOf(b + sep + rest, sep) == IndexOf(b, sep)
    requires var n := IndexOf(b, sep) + |sep|;
      Split(b[n..] + sep + rest, sep) == Split(b[n..], sep) + Split(rest, sep)
    ensures Split(b + sep + rest, sep) == Split(b, sep) + Split(rest, sep)
  {
    TakeDrop(b, sep, rest, IndexOf(b, sep), IndexOf(b, sep) + |sep|);
    GlueSome(b, b + sep + rest, sep, rest);
  }

  lemma GlueSome(b: string, s: string, sep: string, rest: string)
    requires sep != "" && IndexOf(b, sep) >= 0 && IndexOf(s, sep) == IndexOf(b, sep)
    requires s[..IndexOf(s, sep)] == b[..IndexOf(b, sep)]
    requires Split(s[IndexOf(s, sep) + |sep|..], sep) == Split(b[IndexOf(b, sep) + |sep|..], sep) + Split(rest, sep)
    ensures Split(s, sep) == Split(b, sep) + Split(rest, sep)
  {
    SplitCut(b, sep);
    SplitCut(s, sep);
    GlueParts(Split(s, sep), b[..IndexOf(b, sep)], Split(s[IndexOf(s, sep) + |sep|..], sep), Split(b, sep),
              Split(b[IndexOf(b, sep) + |sep|..], sep), Split(rest, sep));
  }

  lemma GlueParts(ps: seq<string>, h: string, tail: seq<string>, pb: seq<string>, tb: seq<string>, tr: seq<string>)
    requires ps == [h] + tail && tail == tb + tr && pb == [h] + tb
    ensures ps == pb + tr
  {}

  lemma SplitCut(s: string, sep: string)
    requires sep != "" && IndexOf(s, sep) >= 0
    ensures var i := IndexOf(s, sep); Split(s, sep) == [s[..i]] + Split(s[i + |sep|..], sep)
  {}

  lemma TakeDrop(b: string, sep: string, rest: string, i: nat, n: nat)
    requires i <= n <= |b|
    ensures (b + sep + rest)[..i] == b[..i] && (b + sep + rest)[n..] == b[n..] + sep + rest
  {}

  lemma GlueNone(b: string, sep: string, rest: string)
    requires sep != "" && IndexOf(b, sep) == -1 && IndexOf(b + sep + rest, sep) == |b|
    ensures Split(b + sep + rest, sep) == Split(b, sep) + Split(rest, sep)
  {
    var s := b + sep + rest;
    assert s[..|b|] == b && s[|b| + |sep|..] == rest;
  }

  lemma GlueNext(b: string, sep: string, block: string, more: string, parts: seq<string>)
    requires sep != ""
    requires Split(b + sep + (block + more), sep) == Split(b, sep) + Split(block + more, sep)
    requires Split(block + more, sep) == Split(block, sep) + parts
    ensures Split(b + (sep + block + more), sep) == Split(b, sep) + (Split(block, sep) + parts)
  {
    assert b + (sep + block + more) == b + sep + (block + more);
  }

  lemma AtLonger(b: string, i: int, more: string)
    requires At(b, i, RECORD_SEP)
    ensures At(b + more, i, RECORD_SEP)
  {
    assert (b + more)[i..i + |RECORD_SEP|] == b[i..i + |RECORD_SEP|];
  }

  lemma BlockSealed(c: GitCommit)
    requires Good(c)
    ensures Sealed(Block(c))
  {
    LastReads(c);
    var head := HeadOf(c);
    var last := LastField(c);
    var r := |head| + |BodyText(c.body)|;
    assert Block(c) == head + last;
    assert Block(c)[r] == RS;
    forall j | r < j < |Block(c)| ensures Block(c)[j] != US {
      assert Block(c)[j] == last[j - |head|];
    }
  }

  /** Everything in a block before its last field. */
  lemma HeadOf(c: GitCommit) returns (head: string)
    ensures Block(c) == head + LastField(c)
  {
    head := JoinLast(Fields(c), FIELD_SEP);
  }

  lemma {:induction false} JoinLast(parts: seq<string>, sep: string) returns (head: string)
    requires parts != []
    ensures Join(parts, sep) == head + parts[|parts| - 1]
  {
    if |parts| == 1 {
      head := "";
    } else {
      var h := JoinLast(parts[1..], sep);
      head := parts[0] + sep + h;
    }
  }

  function BlockParts(cs: seq<GitCommit>): seq<string> {
    if cs == [] then [] else Split(Block(cs[0]), RECORD_SEP) + BlockParts(cs[1..])
  }

  lemma {:induction false} SplitOutput(b: string, cs: seq<GitCommit>)
    requires Sealed(b) && forall c | c in cs :: Good(c)
    ensures Split(b + Output(cs), RECORD_SEP) == Split(b, RECORD_SEP) + BlockParts(cs)
    decreases |cs|
  {
    if cs == [] {
      assert b + "" == b;
    } else {
      BlockSealed(cs[0]);
      SplitSealed(b, Block(cs[0]) + Output(cs[1..]));
      SplitOutput(Block(cs[0]), cs[1..]);
      GlueNext(b, RECORD_SEP, Block(cs[0]), Output(cs[1..]), BlockParts(cs[1..]));
    }
  }

  // ----- a block no field masks stays whole -----

  /** No separator starts before part `n` when none of the parts between reads `COMMIT`. */
  lemma {:induction false} NoEarly(parts: seq<string>, n: nat, i: int)
    requires 1 <= n <= |parts| && forall p | p in parts :: US !in p
    requires forall k :: 0 < k < n ==> parts[k] != COMMIT
    requires At(Join(parts, FIELD_SEP), i, RECORD_SEP)
    ensures i >= |Join(parts[..n], FIELD_SEP)|
    decreases n
  {
    PastFirst(parts, i);
    if n == 1 {
      assert parts[..1] == [parts[0]];
    } else {
      if i == |parts[0]| { SecondIsCommit(parts, i); }
      TailAt(parts, i);
      NoEarly(parts[1..], n - 1, i - |parts[0]| - 1);
      assert parts[..n][1..] == parts[1..][..n - 1];
      JoinHead(parts[..n], FIELD_SEP);
    }
  }

  /** No part lets a separator start inside it. */
  lemma PastFirst(parts: seq<string>, i: int)
    requires parts != [] && US !in parts[0]
    requires At(Join(parts, FIELD_SEP), i, RECORD_SEP)
    ensures i >= |parts[0]|
  {
    SepShape();
    AtChar(Join(parts, FIELD_SEP), i, RECORD_SEP, 0);
    if |parts| > 1 { JoinHead(parts, FIELD_SEP); }
    assert forall k :: 0 <= k < |parts[0]| ==> Join(parts, FIELD_SEP)[k] == parts[0][k];
  }

  lemma TailAt(parts: seq<string>, i: int)
    requires |parts| > 1 && i > |parts[0]| && At(Join(parts, FIELD_SEP), i, RECORD_SEP)
    ensures At(Join(parts[1..], FIELD_SEP), i - |parts[0]| - 1, RECORD_SEP)
  {
    SepShape();
    JoinHead(parts, FIELD_SEP);
    ShiftAt(parts[0] + FIELD_SEP, Join(parts[1..], FIELD_SEP), i, RECORD_SEP);
  }

  lemma ShiftAt(a: string, b: string, i: int, sub: string)
    requires i >= |a| && At(a + b, i, sub)
    ensures At(b, i - |a|, sub)
  {
    assert (a + b)[i..i + |sub|] == b[i - |a|..i - |a| + |sub|];
  }

  lemma SecondIsCommit(parts: seq<string>, i: int)
    requires |parts| > 1 && forall p | p in parts :: US !in p
    requires At(Join(parts, FIELD_SEP), i, RECORD_SEP) && i == |parts[0]|
    ensures parts[1] == COMMIT
  {
    SepShape();
    var s := Join(parts, FIELD_SEP);
    var rest := Join(parts[1..], FIELD_SEP);
    assert s == parts[0] + FIELD_SEP + rest;
    var p1 := parts[1];
    assert s[i..i + 8] == RECORD_SEP;
    assert s[i..i + 8][1..] == s[i + 1..i + 8];
    assert s[i + 1..] == rest;
    assert s[i + 1..i + 8] == rest[..7];
    assert rest[..7] == RECORD_SEP[1..];
    assert RECORD_SEP[1..] == COMMIT + [US];
    assert p1 in parts && forall k :: 0 <= k < |p1| ==> p1[k] != US;
    assert rest[6] == rest[..7][6] == US;
    if |parts| > 2 {
      JoinHead(parts[1..], FIELD_SEP);
      var tail := Join(parts[1..][1..], FIELD_SEP);
      assert rest == p1 + FIELD_SEP + tail;
      FirstUS(p1, COMMIT, tail, rest);
    }
  }

  lemma FirstUS(p: string, q: string, tail: string, z: string)
    requires US !in p && US !in q && z == p + [US] + tail && |z| > |q| && z[..|q| + 1] == q + [US]
    ensures p == q
  {
    assert z == q + [US] + z[|q| + 1..];
    CutFirst(p, tail, q, z[|q| + 1..], US);
  }

  lemma WholeBlock(c: GitCommit)
    requires Good(c) && !Masked(c)
    ensures Split(Block(c), RECORD_SEP) == [Block(c)]
  {
    FieldsSplit(c);
    SepShape();
    var parts := Fields(c) + [COMMIT, ""];
    JoinPair(Fields(c));
    LastIsNotCommit(c);
    assert parts[..8] == Fields(c);
    forall k | 0 < k < 8 ensures parts[k] != COMMIT { assert parts[k] == Fields(c)[k]; }
    forall i | At(Block(c) + RECORD_SEP, i, RECORD_SEP) ensures i >= |Block(c)| {
      NoEarly(parts, 8, i);
    }
    IndexOfInClear(Block(c), RECORD_SEP);
  }

  lemma LastIsNotCommit(c: GitCommit)
    ensures LastField(c) != COMMIT
  {
    SepShape();
    assert LastField(c)[|BodyText(c.body)|] == RS;
    assert forall k :: 0 <= k < 6 ==> COMMIT[k] == RECORD_SEP[k + 1];
  }

  lemma {:induction false} JoinPair(fields: seq<string>)
    requires fields != []
    ensures Join(fields + [COMMIT, ""], FIELD_SEP) == Join(fields, FIELD_SEP) + RECORD_SEP
  {
    var parts := fields + [COMMIT, ""];
    if |fields| == 1 {
      assert parts[1..] == [COMMIT, ""] && parts[1..][1..] == [""];
      calc {
        Join(parts, FIELD_SEP);
        parts[0] + FIELD_SEP + Join(parts[1..], FIELD_SEP);
        parts[0] + FIELD_SEP + (COMMIT + FIELD_SEP + Join(parts[1..][1..], FIELD_SEP));
        parts[0] + FIELD_SEP + (COMMIT + FIELD_SEP + "");
        fields[0] + RECORD_SEP;
      }
    } else {
      assert parts[1..] == fields[1..] + [COMMIT, ""];
      JoinPair(fields[1..]);
    }
  }

  // ----- a masked block loses its commit -----

  function CountUS(s: string): nat {
    if s == "" then 0 else (if s[0] == US then 1 else 0) + CountUS(s[1..])
  }

  lemma {:induction false} CountAppend(a: string, b: string)
    ensures CountUS(a + b) == CountUS(a) + CountUS(b)
  {
    if a == "" {
      assert a + b == b;
    } else {
      assert (a + b)[1..] == a[1..] + b;
      CountAppend(a[1..], b);
    }
  }

  lemma {:induction false} CountNone(s: string)
    requires US !in s
    ensures CountUS(s) == 0
  {
    if s != "" { assert s[0] in s; CountNone(s[1..]); }
  }

  lemma {:induction false} FieldCount(s: string)
    ensures |Split(s, FIELD_SEP)| == CountUS(s) + 1
    decreases |s|
  {
    var i := IndexOf(s, FIELD_SEP);
    if i < 0 {
      forall k | 0 <= k < |s| ensures s[k] != US {
        assert s[k..k + 1] == [s[k]];
        assert !At(s, k, FIELD_SEP);
      }
      CountNone(s);
    } else {
      forall k | 0 <= k < i ensures s[..i][k] != US {
        assert s[k..k + 1] == [s[k]];
        assert !At(s, k, FIELD_SEP);
      }
      CountNone(s[..i]);
      assert s == s[..i] + (FIELD_SEP + s[i + 1..]);
      CountAppend(s[..i], FIELD_SEP + s[i + 1..]);
      FieldCount(s[i + 1..]);
    }
  }

  lemma SepCount()
    ensures CountUS(RECORD_SEP) == 2
  {
    SepShape();
    CountAppend([US] + COMMIT, [US]);
    CountAppend([US], COMMIT);
    CountNone(COMMIT);
    assert [US][1..] == "";
  }

  /** Each record separator found inside a text takes two field separators with it. */
  lemma {:induction false} PartsCount(s: string)
    ensures var parts := Split(s, RECORD_SEP);
      forall p | p in parts :: CountUS(p) + 2 * (|parts| - 1) <= CountUS(s)
    decreases |s|
  {
    SepShape();
    var i := IndexOf(s, RECORD_SEP);
    if i >= 0 {
      var rest := s[i + 8..];
      assert s == s[..i] + (RECORD_SEP + rest);
      SepCount();
      CountAppend(s[..i], RECORD_SEP + rest);
      CountAppend(RECORD_SEP, rest);
      PartsCount(rest);
      var more := Split(rest, RECORD_SEP);
      assert more[0] in more;
      forall p | p in Split(s, RECORD_SEP) ensures CountUS(p) + 2 * |more| <= CountUS(s) {
        if p != s[..i] { assert p in more; } else { SplitLight(rest); }
      }
    }
  }

  lemma {:induction false} SplitLight(s: string)
    ensures 2 * (|Split(s, RECORD_SEP)| - 1) <= CountUS(s)
    decreases |s|
  {
    SepShape();
    var i := IndexOf(s, RECORD_SEP);
    if i >= 0 {
      var rest := s[i + 8..];
      assert s == s[..i] + (RECORD_SEP + rest);
      SepCount();
      CountAppend(s[..i], RECORD_SEP + rest);
      CountAppend(RECORD_SEP, rest);
      SplitLight(rest);
    }
  }

  lemma {:induction false} MaskedOccurs(parts: seq<string>, k: nat)
    requires 0 < k < |parts| - 1 && parts[k] == COMMIT
    ensures Includes(Join(parts, FIELD_SEP), RECORD_SEP)
    decreases k
  {
    SepShape();
    var s := Join(parts, FIELD_SEP);
    var rest := Join(parts[1..], FIELD_SEP);
    assert s == parts[0] + FIELD_SEP + rest;
    if k == 1 {
      JoinHead(parts[1..], FIELD_SEP);
      var tail := Join(parts[1..][1..], FIELD_SEP);
      assert s == parts[0] + (RECORD_SEP + tail);
      assert At(s, |parts[0]|, RECORD_SEP);
    } else {
      MaskedOccurs(parts[1..], k - 1);
      var i := IndexOf(rest, RECORD_SEP);
      assert s[|parts[0]| + 1 + i..|parts[0]| + 1 + i + 8] == rest[i..i + 8];
      assert At(s, |parts[0]| + 1 + i, RECORD_SEP);
    }
  }

  lemma {:induction false} AllShort(blocks: seq<string>)
    requires forall b | b in blocks :: |Split(b, FIELD_SEP)| < 8
    ensures ParseBlocks(blocks) == []
  {
    if blocks != [] {
      assert blocks[0] in blocks;
      AllShort(blocks[1..]);
    }
  }

  lemma MaskedBlock(c: GitCommit)
    requires Good(c) && Masked(c)
    ensures ParseBlocks(Split(Block(c), RECORD_SEP)) == []
  {
    var k :| 1 <= k < 7 && Fields(c)[k] == COMMIT;
    MaskedOccurs(Fields(c), k);
    var parts := Split(Block(c), RECORD_SEP);
    assert |parts| >= 2;
    FieldsSplit(c);
    FieldCount(Block(c));
    PartsCount(Block(c));
    forall p | p in parts ensures |Split(p, FIELD_SEP)| < 8 { FieldCount(p); }
    AllShort(parts);
  }

  lemma BlockRecovered(c: GitCommit)
    requires Good(c)
    ensures ParseBlocks(Split(Block(c), RECORD_SEP)) == if Masked(c) then [] else [Expected(c)]
  {
    if Masked(c) {
      MaskedBlock(c);
    } else {
      WholeBlock(c);
      BlockReads(c);
      BlocksOne(Block(c));
    }
  }

  lemma {:induction false} PartsRecovered(cs: seq<GitCommit>)
    requires forall c | c in cs :: Good(c)
    ensures ParseBlocks(BlockParts(cs)) == Recovered(cs)
  {
    if cs != [] {
      BlockRecovered(cs[0]);
      PartsRecovered(cs[1..]);
      BlocksAppend(Split(Block(cs[0]), RECORD_SEP), BlockParts(cs[1..]));
    }
  }

  /** Reading what git prints gives, in order, exactly the commits no header field masks. */
  lemma LogRecovered(cs: seq<GitCommit>)
    requires forall c | c in cs :: Good(c)
    ensures Parsed(Output(cs)) == Recovered(cs)
  {
    SplitOutput("", cs);
    assert "" + Output(cs) == Output(cs);
    EmptySplit(RECORD_SEP);
    PartsRecovered(cs);
    TrimTight("");
    BlocksOne("");
    BlocksAppend([""], BlockParts(cs));
  }

  function AllExpected(cs: seq<GitCommit>): seq<Commit> {
    if cs == [] then [] else [Expected(cs[0])] + AllExpected(cs[1..])
  }

  lemma {:induction false} RecoveredCount(cs: seq<GitCommit>)
    ensures |Recovered(cs)| <= |cs| && |AllExpected(cs)| == |cs|
    ensures |Recovered(cs)| == |cs| <==> forall c | c in cs :: !Masked(c)
    ensures (forall c | c in cs :: !Masked(c)) ==> Recovered(cs) == AllExpected(cs)
  {
    if cs != [] {
      RecoveredCount(cs[1..]);
      assert cs == [cs[0]] + cs[1..];
    }
  }

  /** The round trip holds exactly when no header field of any commit reads `COMMIT`. */
  lemma LogRoundTrip(cs: seq<GitCommit>)
    requires forall c | c in cs :: Good(c)
    ensures Parsed(Output(cs)) == AllExpected(cs) <==> forall c | c in cs :: !Masked(c)
  {
    LogRecovered(cs);
    RecoveredCount(cs);
  }
}
