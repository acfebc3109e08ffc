/** packages/shared/src/data-quality.ts */
module DataQuality {
  import opened Wrappers
  import opened Tallies
  import CH = CaptureHealth

  datatype Tokens = Exact | Estimated | NoTokens
  datatype Declaration = Declaration(connectorId: string, tokens: Tokens, liveness: CH.Liveness)
  datatype Session = Session(sessionId: string, sourceConnector: string, eventCount: nat, withTokens: nat, attributed: bool)
  datatype Lag = Lag(sourceConnector: string, lagMs: Option<int>)
  datatype Skip = Gemini | UnsupportedConnector | NoRawRecords | DecryptError
  datatype Recovery = Recovery(ok: bool, skipped: Option<Skip>)
  datatype LinkStatus = Confirmed | Suggested | Rejected
  datatype Link = Link(sessionId: string, status: LinkStatus)

  const SYNC_FRESHNESS_MS: int := 60 * 60 * 1000

  /** A metric is never a bare number. */
  datatype Metric =
    | Measured(numerator: int, denominator: int, ratio: real)
    | Sampled(numerator: int, denominator: int, ratio: real, sampleSize: int)
    | Unknown

  function RatioMetric(numerator: int, denominator: int, sampleSize: Option<int>): Metric {
    if denominator <= 0 then Unknown
    else
      var ratio := numerator as real / denominator as real;
      if sampleSize.None? then Measured(numerator, denominator, ratio)
      else Sampled(numerator, denominator, ratio, sampleSize.value)
  }

  // ----- declarations -----

  datatype Summary = Summary(tokenEligible: bool, liveCapture: bool)

  /** A connector counts as eligible, or as live, when any machine says so. */
  function Summarized(rows: seq<Declaration>): map<string, Summary> {
    var ids := set r | r in rows :: r.connectorId;
    map c | c in ids :: Summary(SomeEligible(rows, c), SomeLive(rows, c))
  }

  predicate SomeEligible(rows: seq<Declaration>, c: string) {
    exists r :: r in rows && r.connectorId == c && r.tokens != NoTokens
  }

  predicate SomeLive(rows: seq<Declaration>, c: string) {
    exists r :: r in rows && r.connectorId == c && CH.IsLiveCapture(r.liveness)
  }

  method SummarizeDeclarations(rows: seq<Declaration>) returns (decl: map<string, Summary>)
    ensures decl == Summarized(rows)
  {
    decl := map[];
    for i := 0 to |rows|
      invariant decl == Summarized(rows[..i])
    {
      var r := rows[i];
      assert rows[..i + 1] == rows[..i] + [r];
      var prev := if r.connectorId in decl then decl[r.connectorId] else Summary(false, false);
      ghost var before := decl;
      decl := decl[r.connectorId := Summary(prev.tokenEligible || r.tokens != NoTokens,
                                        prev.liveCapture || CH.IsLiveCapture(r.liveness))];
      SummaryNext(rows[..i], r);
    }
    TallyAll(rows);
  }

  lemma SummaryNext(rows: seq<Declaration>, r: Declaration)
    ensures var m := Summarized(rows);
            var prev := if r.connectorId in m then m[r.connectorId] else Summary(false, false);
            Summarized(rows + [r]) == m[r.connectorId :=
              Summary(prev.tokenEligible || r.tokens != NoTokens, prev.liveCapture || CH.IsLiveCapture(r.liveness))]
  {
    var m := Summarized(rows);
    var n := Summarized(rows + [r]);
    SomeNext(rows, r);
    assert n.Keys == m.Keys + {r.connectorId};
  }

  lemma SomeNext(rows: seq<Declaration>, r: Declaration)
    ensures forall c :: SomeEligible(rows + [r], c) == (SomeEligible(rows, c) || (c == r.connectorId && r.tokens != NoTokens))
    ensures forall c :: SomeLive(rows + [r], c) == (SomeLive(rows, c) || (c == r.connectorId && CH.IsLiveCapture(r.liveness)))
  {
    assert forall q :: q in rows + [r] <==> q in rows || q == r;
  }

  // ----- token completeness -----

  datatype TokenBucket = Usable | Incomplete | Ineligible | Undeclared

  function TokenBucketOf(decl: map<string, Summary>): Session -> TokenBucket {
    (s: Session) =>
      if s.sourceConnector !in decl then Undeclared
      else if !decl[s.sourceConnector].tokenEligible then Ineligible
      else if s.withTokens > 0 then Usable
      else Incomplete
  }

  datatype TokenCounts = TokenCounts(usable: nat, eligible: nat, ineligible: nat, undeclared: nat)

  function TokensOf(decl: map<string, Summary>, sessions: seq<Session>): TokenCounts {
    var f := TokenBucketOf(decl);
    TokenCounts(Tally(f, sessions, Usable), Tally(f, sessions, Usable) + Tally(f, sessions, Incomplete),
                Tally(f, sessions, Ineligible), Tally(f, sessions, Undeclared))
  }

  lemma TokensNext(decl: map<string, Summary>, sessions: seq<Session>, n: nat)
    requires n < |sessions|
    ensures var c := TokensOf(decl, sessions[..n]);
            TokensOf(decl, sessions[..n + 1]) == match TokenBucketOf(decl)(sessions[n])
                                                 case Usable => c.(usable := c.usable + 1, eligible := c.eligible + 1)
                                                 case Incomplete => c.(eligible := c.eligible + 1)
                                                 case Ineligible => c.(ineligible := c.ineligible + 1)
                                                 case Undeclared => c.(undeclared := c.undeclared + 1)
  {
    TallyNext(TokenBucketOf(decl), sessions, n);
  }

  method CountTokens(decl: map<string, Summary>, sessions: seq<Session>) returns (counts: TokenCounts)
    ensures counts == TokensOf(decl, sessions)
  {
    counts := TokenCounts(0, 0, 0, 0);
    for i := 0 to |sessions|
      invariant counts == TokensOf(decl, sessions[..i])
    {
      TokensNext(decl, sessions, i);
      var s := sessions[i];
      if s.sourceConnector !in decl {
        counts := counts.(undeclared := counts.undeclared + 1);
      } else if !decl[s.sourceConnector].tokenEligible {
        counts := counts.(ineligible := counts.ineligible + 1);
      } else {
        counts := counts.(eligible := counts.eligible + 1);
        if s.withTokens > 0 { counts := counts.(usable := counts.usable + 1); }
      }
    }
    TallyAll(sessions);
  }

  /** Every session is in exactly one of the three counts. */
  lemma TokensConserved(decl: map<string, Summary>, sessions: seq<Session>)
    ensures var c := TokensOf(decl, sessions);
            c.eligible + c.ineligible + c.undeclared == |sessions| && c.usable <= c.eligible
  {
    var kinds := [Usable, Incomplete, Ineligible, Undeclared];
    var bs := Each(TokenBucketOf(decl), sessions);
    forall b: TokenBucket ensures b in kinds {
      assert kinds[0] == Usable && kinds[1] == Incomplete && kinds[2] == Ineligible && kinds[3] == Undeclared;
      match b case Usable => case Incomplete => case Ineligible => case Undeclared =>
    }
    Total(bs, kinds);
    assert kinds[..3][..2][..1] == [Usable] && kinds[..3][..2] == [Usable, Incomplete];
    assert SumOver([Usable], multiset(bs)) == multiset(bs)[Usable];
    assert SumOver(kinds[..3], multiset(bs)) == SumOver(kinds[..3][..2], multiset(bs)) + multiset(bs)[Ineligible];
  }

  /** 100 % is reported exactly when some session could report tokens and every such session did. */
  lemma PerfectTokensExactly(decl: map<string, Summary>, sessions: seq<Session>)
    ensures var f := TokenBucketOf(decl);
            var c := TokensOf(decl, sessions);
            var m := RatioMetric(c.usable, c.eligible, None);
            (m.Measured? && m.ratio == 1.0) <==>
              && (exists s :: s in sessions && f(s) == Usable)
              && (forall s :: s in sessions ==> f(s) != Incomplete)
  {
    var f := TokenBucketOf(decl);
    InBucket(f, sessions, Usable);
    InBucket(f, sessions, Incomplete);
    var usable, missing := Tally(f, sessions, Usable), Tally(f, sessions, Incomplete);
    if usable + missing > 0 { OneExactly(usable, usable + missing); }
  }

  lemma InBucket<T, B(!new)>(f: T -> B, xs: seq<T>, b: B)
    ensures Tally(f, xs, b) > 0 <==> exists x :: x in xs && f(x) == b
  {
    if Tally(f, xs, b) > 0 {
      assert b in Each(f, xs);
      var i :| 0 <= i < |xs| && Each(f, xs)[i] == b;
      assert xs[i] in xs && f(xs[i]) == b;
    }
    if x :| x in xs && f(x) == b {
      var i :| 0 <= i < |xs| && xs[i] == x;
      assert Each(f, xs)[i] == b;
    }
  }

  lemma OneExactly(n: nat, d: nat)
    requires d > 0
    ensures n as real / d as real == 1.0 <==> n == d
  {
    var q := n as real / d as real;
    assert q * d as real == n as real;
  }

  /** A ratio lies in [0, 1] whenever its numerator is part of its denominator. */
  lemma RatioRange(part: nat, rest: nat, sample: Option<int>)
    ensures var m := RatioMetric(part, part + rest, sample);
            if part + rest == 0 then m == Unknown else 0.0 <= m.ratio <= 1.0
  {
    if part + rest > 0 {
      var q := part as real / (part + rest) as real;
      assert q * (part + rest) as real == part as real;
      if q > 1.0 { assert q * (part + rest) as real > (part + rest) as real; }
    }
  }

  // ----- sync freshness -----

  datatype LagBucket = Fresh | Late | Unmeasured

  function LagBucketOf(decl: map<string, Summary>): Lag -> LagBucket {
    (r: Lag) =>
      if r.lagMs.None? || r.sourceConnector !in decl || !decl[r.sourceConnector].liveCapture then Unmeasured
      else if r.lagMs.value <= SYNC_FRESHNESS_MS then Fresh
      else Late
  }

  datatype LagCounts = LagCounts(timely: nat, stale: nat, unknown: nat)

  function LagsOf(decl: map<string, Summary>, lag: seq<Lag>): LagCounts {
    var f := LagBucketOf(decl);
    LagCounts(Tally(f, lag, Fresh), Tally(f, lag, Late), Tally(f, lag, Unmeasured))
  }

  lemma LagsNext(decl: map<string, Summary>, lag: seq<Lag>, n: nat)
    requires n < |lag|
    ensures var c := LagsOf(decl, lag[..n]);
            LagsOf(decl, lag[..n + 1]) == match LagBucketOf(decl)(lag[n])
                                          case Fresh => c.(timely := c.timely + 1)
                                          case Late => c.(stale := c.stale + 1)
                                          case Unmeasured => c.(unknown := c.unknown + 1)
  {
    TallyNext(LagBucketOf(decl), lag, n);
  }

  method CountFreshness(decl: map<string, Summary>, lag: seq<Lag>) returns (counts: LagCounts)
    ensures counts == LagsOf(decl, lag)
  {
    var timely, stale, unknown := 0, 0, 0;
    for i := 0 to |lag|
      invariant LagCounts(timely, stale, unknown) == LagsOf(decl, lag[..i])
    {
      LagsNext(decl, lag, i);
      var r := lag[i];
      if r.lagMs.None? || r.sourceConnector !in decl || !decl[r.sourceConnector].liveCapture {
        unknown := unknown + 1;
      } else if r.lagMs.value <= SYNC_FRESHNESS_MS {
        timely := timely + 1;
      } else {
        stale := stale + 1;
      }
    }
    TallyAll(lag);
    counts := LagCounts(timely, stale, unknown);
  }

  lemma FreshnessConserved(decl: map<string, Summary>, lag: seq<Lag>)
    ensures var c := LagsOf(decl, lag);
            c.timely + c.stale + c.unknown == |lag|
  {
    var kinds := [Fresh, Late, Unmeasured];
    var bs := Each(LagBucketOf(decl), lag);
    forall b: LagBucket ensures b in kinds {
      assert kinds[0] == Fresh && kinds[1] == Late && kinds[2] == Unmeasured;
      match b case Fresh => case Late => case Unmeasured =>
    }
    Total(bs, kinds);
    assert kinds[..2][..1] == [Fresh] && kinds[..2] == [Fresh, Late];
    assert SumOver([Fresh], multiset(bs)) == multiset(bs)[Fresh];
  }

  // ----- recoverability -----

  datatype RecoveryBucket = Recovered | NotRecovered | Skipped(reason: Skip)

  const RECOVERY_BUCKETS: seq<RecoveryBucket> :=
    [Recovered, NotRecovered, Skipped(Gemini), Skipped(UnsupportedConnector), Skipped(NoRawRecords), Skipped(DecryptError)]

  function RecoveryBucketOf(): Recovery -> RecoveryBucket {
    (r: Recovery) => if r.skipped.Some? then Skipped(r.skipped.value) else if r.ok then Recovered else NotRecovered
  }

  datatype Rollup = Rollup(attempted: nat, ok: nat, gemini: nat, unsupportedConnector: nat,
                           noRawRecords: nat, decryptError: nat)

  function RollupOf(rows: seq<Recovery>): Rollup {
    var f := RecoveryBucketOf();
    Rollup(Tally(f, rows, Recovered) + Tally(f, rows, NotRecovered), Tally(f, rows, Recovered),
           Tally(f, rows, Skipped(Gemini)), Tally(f, rows, Skipped(UnsupportedConnector)),
           Tally(f, rows, Skipped(NoRawRecords)), Tally(f, rows, Skipped(DecryptError)))
  }

  function Bump(r: Rollup, b: RecoveryBucket): Rollup {
    match b
    case Recovered => r.(attempted := r.attempted + 1, ok := r.ok + 1)
    case NotRecovered => r.(attempted := r.attempted + 1)
    case Skipped(Gemini) => r.(gemini := r.gemini + 1)
    case Skipped(UnsupportedConnector) => r.(unsupportedConnector := r.unsupportedConnector + 1)
    case Skipped(NoRawRecords) => r.(noRawRecords := r.noRawRecords + 1)
    case Skipped(DecryptError) => r.(decryptError := r.decryptError + 1)
  }

  lemma RollupNext(rows: seq<Recovery>, n: nat)
    requires n < |rows|
    ensures RollupOf(rows[..n + 1]) == Bump(RollupOf(rows[..n]), RecoveryBucketOf()(rows[n]))
  {
    var f := RecoveryBucketOf();
    TallyNext(f, rows, n);
    assert forall b :: b != f(rows[n]) ==> Tally(f, rows[..n + 1], b) == Tally(f, rows[..n], b);
    assert Tally(f, rows[..n + 1], f(rows[n])) == Tally(f, rows[..n], f(rows[n])) + 1;
    BumpExact(rows[..n], rows[..n + 1], f(rows[n]));
  }

  lemma BumpExact(before: seq<Recovery>, after: seq<Recovery>, b: RecoveryBucket)
    requires var f := RecoveryBucketOf(); forall k :: k != b ==> Tally(f, after, k) == Tally(f, before, k)
    requires var f := RecoveryBucketOf(); Tally(f, after, b) == Tally(f, before, b) + 1
    ensures RollupOf(after) == Bump(RollupOf(before), b)
  {
    match b
    case Recovered =>
    case NotRecovered =>
    case Skipped(Gemini) =>
    case Skipped(UnsupportedConnector) =>
    case Skipped(NoRawRecords) =>
    case Skipped(DecryptError) =>
  }

  /** The `switch` on a row's skip reason. */
  method CountRow(r: Rollup, row: Recovery) returns (r': Rollup)
    ensures r' == Bump(r, RecoveryBucketOf()(row))
  {
    match row.skipped {
      case Some(Gemini) => r' := r.(gemini := r.gemini + 1);
      case Some(UnsupportedConnector) => r' := r.(unsupportedConnector := r.unsupportedConnector + 1);
      case Some(NoRawRecords) => r' := r.(noRawRecords := r.noRawRecords + 1);
      case Some(DecryptError) => r' := r.(decryptError := r.decryptError + 1);
      case None =>
        r' := r.(attempted := r.attempted + 1);
        if row.ok { r' := r'.(ok := r'.ok + 1); }
    }
  }

  method RollUp(rows: seq<Recovery>) returns (r: Rollup)
    ensures r == RollupOf(rows)
  {
    r := Rollup(0, 0, 0, 0, 0, 0);
    for i := 0 to |rows|
      invariant r == RollupOf(rows[..i])
    {
      RollupNext(rows, i);
      r := CountRow(r, rows[i]);
    }
    TallyAll(rows);
  }

  lemma RecoveryConserved(rows: seq<Recovery>)
    ensures var r := RollupOf(rows);
            && r.attempted + r.gemini + r.unsupportedConnector + r.noRawRecords + r.decryptError == |rows|
            && r.ok <= r.attempted
  {
    var kinds := RECOVERY_BUCKETS;
    var bs := Each(RecoveryBucketOf(), rows);
    forall i | 0 <= i < |bs| ensures bs[i] in kinds { BucketListed(bs[i]); }
    Total(bs, kinds);
    SixTerms(multiset(bs));
  }

  lemma BucketListed(b: RecoveryBucket)
    ensures b in RECOVERY_BUCKETS
  {
    var k := RECOVERY_BUCKETS;
    assert k[0] == Recovered && k[1] == NotRecovered && k[2] == Skipped(Gemini);
    assert k[3] == Skipped(UnsupportedConnector) && k[4] == Skipped(NoRawRecords) && k[5] == Skipped(DecryptError);
    match b
    case Recovered =>
    case NotRecovered =>
    case Skipped(Gemini) =>
    case Skipped(UnsupportedConnector) =>
    case Skipped(NoRawRecords) =>
    case Skipped(DecryptError) =>
  }

  lemma SixTerms(m: multiset<RecoveryBucket>)
    ensures SumOver(RECOVERY_BUCKETS, m)
         == m[Recovered] + m[NotRecovered] + m[Skipped(Gemini)] + m[Skipped(UnsupportedConnector)]
          + m[Skipped(NoRawRecords)] + m[Skipped(DecryptError)]
  {
    var k := RECOVERY_BUCKETS;
    assert k[..5][..4] == k[..4] && k[..4][..3] == k[..3] && k[..3][..2] == k[..2] && k[..2][..1] == k[..1] && k[..1][..0] == [];
    assert SumOver(k[..1], m) == m[Recovered];
    assert SumOver(k[..2], m) == SumOver(k[..1], m) + m[NotRecovered];
    assert SumOver(k[..3], m) == SumOver(k[..2], m) + m[Skipped(Gemini)];
    assert SumOver(k[..4], m) == SumOver(k[..3], m) + m[Skipped(UnsupportedConnector)];
    assert SumOver(k[..5], m) == SumOver(k[..4], m) + m[Skipped(NoRawRecords)];
  }

  // ----- git outcome confidence -----

  datatype GitBucket = GitConfirmed | GitHeuristic | GitNone

  function GitBucketOf(links: seq<Link>, id: string): GitBucket {
    if Link(id, Confirmed) in links then GitConfirmed
    else if Link(id, Suggested) in links then GitHeuristic
    else GitNone
  }

  function SessionIds(sessions: seq<Session>): set<string> { set s | s in sessions :: s.sessionId }

  datatype GitCounts = GitCounts(confirmed: nat, heuristic: nat, none: nat, sessions: nat)

  function GitOf(sessions: seq<Session>, links: seq<Link>): GitCounts {
    var ids := SessionIds(sessions);
    GitCounts(|OfBucket(ids, links, GitConfirmed)|, |OfBucket(ids, links, GitHeuristic)|,
              |OfBucket(ids, links, GitNone)|, |ids|)
  }

  method BucketSessions(sessions: seq<Session>) returns (ids: set<string>, bucket: map<string, GitBucket>)
    ensures ids == SessionIds(sessions)
    ensures bucket == map id | id in ids :: GitNone
  {
    ids := {};
    bucket := map[];
    for i := 0 to |sessions|
      invariant ids == SessionIds(sessions[..i])
      invariant bucket == map id | id in ids :: GitNone
    {
      assert sessions[..i + 1] == sessions[..i] + [sessions[i]];
      ids := ids + {sessions[i].sessionId};
      bucket := bucket[sessions[i].sessionId := GitNone];
    }
    TallyAll(sessions);
  }

  method ApplyLinks(ids: set<string>, start: map<string, GitBucket>, links: seq<Link>)
    returns (bucket: map<string, GitBucket>)
    requires start == map id | id in ids :: GitNone
    ensures bucket == map id | id in ids :: GitBucketOf(links, id)
  {
    bucket := start;
    for i := 0 to |links|
      invariant bucket.Keys == ids
      invariant forall id :: id in ids ==> bucket[id] == GitBucketOf(links[..i], id)
    {
      var link := links[i];
      assert links[..i + 1] == links[..i] + [link];
      if link.sessionId in bucket && bucket[link.sessionId] != GitConfirmed {
        if link.status == Confirmed {
          bucket := bucket[link.sessionId := GitConfirmed];
        } else if link.status == Suggested {
          bucket := bucket[link.sessionId := GitHeuristic];
        }
      }
    }
    TallyAll(links);
  }

  method CountBuckets(bucket: map<string, GitBucket>, ghost links: seq<Link>)
    returns (confirmed: nat, heuristic: nat, none: nat)
    requires forall id :: id in bucket ==> bucket[id] == GitBucketOf(links, id)
    ensures confirmed == |OfBucket(bucket.Keys, links, GitConfirmed)|
    ensures heuristic == |OfBucket(bucket.Keys, links, GitHeuristic)|
    ensures none == |OfBucket(bucket.Keys, links, GitNone)|
  {
    confirmed, heuristic, none := 0, 0, 0;
    var left := bucket.Keys;
    ghost var done: set<string> := {};
    while left != {}
      invariant done + left == bucket.Keys && done !! left
      invariant confirmed == |OfBucket(done, links, GitConfirmed)|
      invariant heuristic == |OfBucket(done, links, GitHeuristic)|
      invariant none == |OfBucket(done, links, GitNone)|
    {
      var id :| id in left;
      OfBucketNext(done, links, id);
      match bucket[id] {
        case GitConfirmed => confirmed := confirmed + 1;
        case GitHeuristic => heuristic := heuristic + 1;
        case GitNone => none := none + 1;
      }
      left := left - {id};
      done := done + {id};
    }
    assert done == bucket.Keys;
  }

  method CountGit(sessions: seq<Session>, links: seq<Link>) returns (counts: GitCounts)
    ensures counts == GitOf(sessions, links)
  {
    var ids, start := BucketSessions(sessions);
    var bucket := ApplyLinks(ids, start, links);
    assert bucket.Keys == ids;
    var confirmed, heuristic, none := CountBuckets(bucket, links);
    counts := GitCounts(confirmed, heuristic, none, |ids|);
  }

  /** The ids that fall in one bucket. */
  function OfBucket(ids: set<string>, links: seq<Link>, b: GitBucket): set<string> {
    set id | id in ids && GitBucketOf(links, id) == b
  }

  lemma OfBucketNext(ids: set<string>, links: seq<Link>, id: string)
    requires id !in ids
    ensures forall b :: |OfBucket(ids + {id}, links, b)|
                     == |OfBucket(ids, links, b)| + if GitBucketOf(links, id) == b then 1 else 0
  {
    forall b ensures |OfBucket(ids + {id}, links, b)|
                  == |OfBucket(ids, links, b)| + if GitBucketOf(links, id) == b then 1 else 0
    {
      if GitBucketOf(links, id) == b {
        assert OfBucket(ids + {id}, links, b) == OfBucket(ids, links, b) + {id};
      } else {
        assert OfBucket(ids + {id}, links, b) == OfBucket(ids, links, b);
      }
    }
  }

  /** Each distinct session of the window is counted once, and links outside the window nowhere. */
  lemma GitConserved(sessions: seq<Session>, links: seq<Link>)
    ensures var c := GitOf(sessions, links);
            c.confirmed + c.heuristic + c.none == c.sessions == |SessionIds(sessions)|
  {
    var ids := SessionIds(sessions);
    var a := OfBucket(ids, links, GitConfirmed);
    var b := OfBucket(ids, links, GitHeuristic);
    var c := OfBucket(ids, links, GitNone);
    assert ids == a + b + c;
    assert |a + b| == |a| + |b| && |a + b + c| == |a + b| + |c|;
  }

  // ----- the whole derivation -----

  datatype Inputs = Inputs(sessions: seq<Session>, declarations: seq<Declaration>, lag: seq<Lag>,
                           recoverability: seq<Recovery>, gitLinks: seq<Link>,
                           rawRows: nat, yieldedEvents: nat, duplicateEvents: nat, distinctEvents: nat,
                           health: CH.Inputs)

  datatype Counts = Counts(sessions: nat, events: nat, attributed: nat, tokens: TokenCounts, lags: LagCounts,
                           rollup: Rollup, git: GitCounts, verdicts: map<CH.Verdict, nat>)

  datatype Report = Report(counts: Counts,
    attributionCoverage: Metric, tokenCompleteness: Metric, parseSuccess: Metric, duplicateRate: Metric,
    syncFreshness: Metric, recoverability: Metric)

  function AttributedOf(): Session -> bool { (s: Session) => s.attributed }

  function EventsIn(sessions: seq<Session>): nat {
    if sessions == [] then 0 else EventsIn(sessions[..|sessions| - 1]) + sessions[|sessions| - 1].eventCount
  }

  function VerdictsOf(rows: seq<CH.Row>): map<CH.Verdict, nat> {
    map v: CH.Verdict | v in {CH.Capturing, CH.NotCapturing, CH.Broken, CH.VerdictUnknown} :: Tally(CH.VerdictAt(), rows, v)
  }

  function CountsOf(inp: Inputs, nowMs: int): Counts {
    var decl := Summarized(inp.declarations);
    Counts(|inp.sessions|, EventsIn(inp.sessions), Tally(AttributedOf(), inp.sessions, true),
           TokensOf(decl, inp.sessions), LagsOf(decl, inp.lag), RollupOf(inp.recoverability),
           GitOf(inp.sessions, inp.gitLinks), VerdictsOf(CH.RowsOf(inp.health, nowMs)))
  }

  function ReportFrom(inp: Inputs, c: Counts): Report {
    Report(c,
           RatioMetric(c.attributed, c.sessions, None),
           RatioMetric(c.tokens.usable, c.tokens.eligible, None),
           RatioMetric(inp.yieldedEvents, inp.rawRows, None),
           RatioMetric(inp.duplicateEvents, inp.distinctEvents + inp.duplicateEvents, None),
           RatioMetric(c.lags.timely, c.lags.timely + c.lags.stale, None),
           RatioMetric(c.rollup.ok, c.rollup.attempted, Some(c.rollup.attempted)))
  }

  lemma VerdictsNext(rows: seq<CH.Row>, n: nat)
    requires n < |rows|
    ensures var m := VerdictsOf(rows[..n]);
            var v := CH.VerdictOf(rows[n].state);
            v in m && VerdictsOf(rows[..n + 1]) == m[v := m[v] + 1]
  {
    TallyNext(CH.VerdictAt(), rows, n);
    var v := CH.VerdictOf(rows[n].state);
    match v case Capturing => case NotCapturing => case Broken => case VerdictUnknown =>
  }

  method CountVerdicts(rows: seq<CH.Row>) returns (verdicts: map<CH.Verdict, nat>)
    ensures verdicts == VerdictsOf(rows)
  {
    verdicts := map[CH.Capturing := 0, CH.NotCapturing := 0, CH.Broken := 0, CH.VerdictUnknown := 0];
    for i := 0 to |rows|
      invariant verdicts == VerdictsOf(rows[..i])
    {
      VerdictsNext(rows, i);
      var v := CH.VerdictOf(rows[i].state);
      verdicts := verdicts[v := verdicts[v] + 1];
    }
    TallyAll(rows);
  }

  method CountSessions(sessions: seq<Session>) returns (attributed: nat, events: nat)
    ensures attributed == Tally(AttributedOf(), sessions, true) && events == EventsIn(sessions)
  {
    attributed, events := 0, 0;
    for i := 0 to |sessions|
      invariant attributed == Tally(AttributedOf(), sessions[..i], true) && events == EventsIn(sessions[..i])
    {
      TallyNext(AttributedOf(), sessions, i);
      assert sessions[..i + 1][..i] == sessions[..i];
      if sessions[i].attributed { attributed := attributed + 1; }
      events := events + sessions[i].eventCount;
    }
    TallyAll(sessions);
  }

  method DeriveDataQualityMetrics(inp: Inputs, nowMs: int) returns (report: Report)
    ensures report == ReportFrom(inp, CountsOf(inp, nowMs))
  {
    var decl := SummarizeDeclarations(inp.declarations);
    var attributed, events := CountSessions(inp.sessions);
    var tokens := CountTokens(decl, inp.sessions);
    var lags := CountFreshness(decl, inp.lag);
    var rollup := RollUp(inp.recoverability);
    var git := CountGit(inp.sessions, inp.gitLinks);
    var rows := CH.DeriveCaptureHealth(inp.health, nowMs);
    var verdicts := CountVerdicts(rows);
    report := ReportFrom(inp, Counts(|inp.sessions|, events, attributed, tokens, lags, rollup, git, verdicts));
  }

  // ----- order independence -----

  predicate Reordered(a: Inputs, b: Inputs) {
    && multiset(a.sessions) == multiset(b.sessions)
    && multiset(a.declarations) == multiset(b.declarations)
    && multiset(a.lag) == multiset(b.lag)
    && multiset(a.recoverability) == multiset(b.recoverability)
    && multiset(a.gitLinks) == multiset(b.gitLinks)
    && a.rawRows == b.rawRows && a.yieldedEvents == b.yieldedEvents
    && a.duplicateEvents == b.duplicateEvents && a.distinctEvents == b.distinctEvents
    && CH.Reordered(a.health, b.health)
  }

  lemma SummaryOrderFree(a: seq<Declaration>, b: seq<Declaration>)
    requires multiset(a) == multiset(b)
    ensures Summarized(a) == Summarized(b)
  {
    SameMembers(a, b);
  }

  lemma {:induction false} EventsOrderFree(a: seq<Session>, b: seq<Session>)
    requires multiset(a) == multiset(b)
    ensures EventsIn(a) == EventsIn(b)
    decreases |a|
  {
    if a == [] {
      assert |multiset(a)| == 0 && |multiset(b)| == |b|;
    } else {
      assert a[0] in multiset(b);
      var i :| 0 <= i < |b| && b[i] == a[0];
      WithoutCount(a, 0);
      WithoutCount(b, i);
      EventsOrderFree(Without(a, 0), Without(b, i));
      EventsWithout(a, 0);
      EventsWithout(b, i);
    }
  }

  lemma {:induction false} EventsWithout(s: seq<Session>, i: nat)
    requires i < |s|
    ensures EventsIn(s) == EventsIn(Without(s, i)) + s[i].eventCount
  {
    var n := |s| - 1;
    if i == n {
      assert Without(s, i) == s[..n];
    } else {
      EventsWithout(s[..n], i);
      assert Without(s, i)[..n - 1] == Without(s[..n], i);
    }
  }

  /** The whole report is a function of the inputs as multisets. */
  lemma ReportOrderFree(a: Inputs, b: Inputs, nowMs: int)
    requires Reordered(a, b)
    requires CH.UniqueMachines(a.health.machines) && CH.UniqueMachines(b.health.machines)
    ensures ReportFrom(a, CountsOf(a, nowMs)) == ReportFrom(b, CountsOf(b, nowMs))
  {
    CountsOrderFree(a, b, nowMs);
    SameReport(a, b, CountsOf(a, nowMs));
  }

  lemma SameReport(a: Inputs, b: Inputs, c: Counts)
    requires Reordered(a, b)
    ensures ReportFrom(a, c) == ReportFrom(b, c)
  {
  }

  lemma CountsOrderFree(a: Inputs, b: Inputs, nowMs: int)
    requires Reordered(a, b)
    requires CH.UniqueMachines(a.health.machines) && CH.UniqueMachines(b.health.machines)
    ensures CountsOf(a, nowMs) == CountsOf(b, nowMs)
  {
    SummaryOrderFree(a.declarations, b.declarations);
    SessionsOrderFree(a.sessions, b.sessions);
    TalliesOrderFree(Summarized(a.declarations), a, b);
    GitOrderFree(a, b);
    VerdictsOrderFree(a.health, b.health, nowMs);
  }

  lemma SessionsOrderFree(a: seq<Session>, b: seq<Session>)
    requires multiset(a) == multiset(b)
    ensures |a| == |b| && EventsIn(a) == EventsIn(b)
    ensures Tally(AttributedOf(), a, true) == Tally(AttributedOf(), b, true)
  {
    assert |a| == |multiset(a)| == |b|;
    EventsOrderFree(a, b);
    Shuffled(AttributedOf(), a, b);
  }

  lemma VerdictsOrderFree(a: CH.Inputs, b: CH.Inputs, nowMs: int)
    requires CH.Reordered(a, b) && CH.UniqueMachines(a.machines) && CH.UniqueMachines(b.machines)
    ensures VerdictsOf(CH.RowsOf(a, nowMs)) == VerdictsOf(CH.RowsOf(b, nowMs))
  {
    CH.RowsOrderFree(a, b, nowMs);
  }

  lemma TalliesOrderFree(decl: map<string, Summary>, a: Inputs, b: Inputs)
    requires Reordered(a, b)
    ensures TokensOf(decl, a.sessions) == TokensOf(decl, b.sessions)
    ensures LagsOf(decl, a.lag) == LagsOf(decl, b.lag)
    ensures RollupOf(a.recoverability) == RollupOf(b.recoverability)
  {
    Shuffled(TokenBucketOf(decl), a.sessions, b.sessions);
    Shuffled(LagBucketOf(decl), a.lag, b.lag);
    Shuffled(RecoveryBucketOf(), a.recoverability, b.recoverability);
  }

  lemma GitOrderFree(a: Inputs, b: Inputs)
    requires Reordered(a, b)
    ensures GitOf(a.sessions, a.gitLinks) == GitOf(b.sessions, b.gitLinks)
  {
    SameMembers(a.sessions, b.sessions);
    SameMembers(a.gitLinks, b.gitLinks);
    assert SessionIds(a.sessions) == SessionIds(b.sessions);
    var ids := SessionIds(a.sessions);
    forall k: GitBucket ensures OfBucket(ids, a.gitLinks, k) == OfBucket(ids, b.gitLinks, k) {
      assert forall id :: GitBucketOf(a.gitLinks, id) == GitBucketOf(b.gitLinks, id);
    }
  }

  // ----- the direction that cannot flatter -----

  /** No declaration a machine adds ever takes a session out of a denominator. */
  lemma DeclaringNeverFlatters(rows: seq<Declaration>, r: Declaration, sessions: seq<Session>, lag: seq<Lag>)
    ensures var t := TokenBucketOf(Summarized(rows));
            var t' := TokenBucketOf(Summarized(rows + [r]));
            Tally(t, sessions, Incomplete) <= Tally(t', sessions, Incomplete)
            && Tally(t, sessions, Usable) <= Tally(t', sessions, Usable)
    ensures var l := LagBucketOf(Summarized(rows));
            var l' := LagBucketOf(Summarized(rows + [r]));
            Tally(l, lag, Late) <= Tally(l', lag, Late) && Tally(l, lag, Fresh) <= Tally(l', lag, Fresh)
  {
    SummaryNext(rows, r);
    var decl, decl' := Summarized(rows), Summarized(rows + [r]);
    TallyGrows(TokenBucketOf(decl), TokenBucketOf(decl'), sessions, Incomplete);
    TallyGrows(TokenBucketOf(decl), TokenBucketOf(decl'), sessions, Usable);
    TallyGrows(LagBucketOf(decl), LagBucketOf(decl'), lag, Late);
    TallyGrows(LagBucketOf(decl), LagBucketOf(decl'), lag, Fresh);
  }

  lemma {:induction false} TallyGrows<T, B(!new)>(f: T -> B, g: T -> B, xs: seq<T>, b: B)
    requires forall x :: x in xs && f(x) == b ==> g(x) == b
    ensures Tally(f, xs, b) <= Tally(g, xs, b)
  {
    if xs != [] {
      var n := |xs| - 1;
      TallyAll(xs);
      TallyGrows(f, g, xs[..n], b);
      TallyNext(f, xs, n);
      TallyNext(g, xs, n);
    }
  }
}
