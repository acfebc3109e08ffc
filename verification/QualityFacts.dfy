/** What the numbers of the data-quality report count, told from the report's inputs alone. */
module QualityFacts {
  import opened Wrappers
  import opened Tallies
  import opened DataQuality
  import CH = CaptureHealth

  function Counting<T>(p: T -> bool, xs: seq<T>): nat { |Kept(p, xs)| }

  lemma {:induction false} TallyCounts<T(!new), B(!new)>(f: T -> B, p: T -> bool, xs: seq<T>, b: B)
    requires forall x :: p(x) <==> f(x) == b
    ensures Tally(f, xs, b) == Counting(p, xs)
  {
    if xs != [] {
      var n := |xs| - 1;
      TallyCounts(f, p, xs[..n], b);
      TallyNext(f, xs, n);
      TallyAll(xs);
    }
  }

  lemma {:induction false} EitherCounts<T(!new)>(p: T -> bool, q: T -> bool, r: T -> bool, xs: seq<T>)
    requires forall x :: (r(x) <==> p(x) || q(x)) && !(p(x) && q(x))
    ensures Counting(r, xs) == Counting(p, xs) + Counting(q, xs)
  {
    if xs != [] { EitherCounts(p, q, r, xs[..|xs| - 1]); }
  }

  lemma {:induction false} CountsNone<T(!new)>(p: T -> bool, xs: seq<T>)
    ensures Counting(p, xs) == 0 <==> forall x | x in xs :: !p(x)
  {
    if xs != [] {
      var n := |xs| - 1;
      CountsNone(p, xs[..n]);
      assert xs == xs[..n] + [xs[n]];
    }
  }

  // ----- tokens -----

  predicate Declares(rows: seq<Declaration>, c: string) { exists d :: d in rows && d.connectorId == c }

  /** Some machine declares that the connector reports tokens, exactly or estimated. */
  predicate ReportsTokens(rows: seq<Declaration>, c: string) {
    exists d :: d in rows && d.connectorId == c && (d.tokens == Exact || d.tokens == Estimated)
  }

  function CanReport(rows: seq<Declaration>): Session -> bool { (s: Session) => ReportsTokens(rows, s.sourceConnector) }

  function DoesReport(rows: seq<Declaration>): Session -> bool {
    (s: Session) => ReportsTokens(rows, s.sourceConnector) && s.withTokens > 0
  }

  function FailsToReport(rows: seq<Declaration>): Session -> bool {
    (s: Session) => ReportsTokens(rows, s.sourceConnector) && s.withTokens == 0
  }

  function CannotReport(rows: seq<Declaration>): Session -> bool {
    (s: Session) => Declares(rows, s.sourceConnector) && !ReportsTokens(rows, s.sourceConnector)
  }

  function NotDeclared(rows: seq<Declaration>): Session -> bool { (s: Session) => !Declares(rows, s.sourceConnector) }

  /** Usable sessions are those of a token-reporting connector that do have tokens, and so on. */
  lemma TokensExact(rows: seq<Declaration>, sessions: seq<Session>)
    ensures TokensOf(Summarized(rows), sessions)
         == TokenCounts(Counting(DoesReport(rows), sessions), Counting(CanReport(rows), sessions),
                        Counting(CannotReport(rows), sessions), Counting(NotDeclared(rows), sessions))
  {
    var f := TokenBucketOf(Summarized(rows));
    forall s: Session
      ensures DoesReport(rows)(s) <==> f(s) == Usable
      ensures FailsToReport(rows)(s) <==> f(s) == Incomplete
      ensures CannotReport(rows)(s) <==> f(s) == Ineligible
      ensures NotDeclared(rows)(s) <==> f(s) == TokenBucket.Undeclared
    {
      SummaryReads(rows, s.sourceConnector);
    }
    TallyCounts(f, DoesReport(rows), sessions, Usable);
    TallyCounts(f, FailsToReport(rows), sessions, Incomplete);
    TallyCounts(f, CannotReport(rows), sessions, Ineligible);
    TallyCounts(f, NotDeclared(rows), sessions, TokenBucket.Undeclared);
    EitherCounts(DoesReport(rows), FailsToReport(rows), CanReport(rows), sessions);
  }

  lemma SummaryReads(rows: seq<Declaration>, c: string)
    ensures c in Summarized(rows) <==> Declares(rows, c)
    ensures c in Summarized(rows) ==> (Summarized(rows)[c].tokenEligible <==> ReportsTokens(rows, c))
    ensures c in Summarized(rows) ==> (Summarized(rows)[c].liveCapture <==> Live(rows, c))
    ensures ReportsTokens(rows, c) ==> Declares(rows, c)
  {
    if c in Summarized(rows) {
      if ReportsTokens(rows, c) {
        var d :| d in rows && d.connectorId == c && (d.tokens == Exact || d.tokens == Estimated);
        assert SomeEligible(rows, c);
      }
      if SomeEligible(rows, c) {
        var d :| d in rows && d.connectorId == c && d.tokens != NoTokens;
        assert d.tokens == Exact || d.tokens == Estimated;
      }
      if Live(rows, c) {
        var d :| d in rows && d.connectorId == c && (d.liveness == CH.Streaming || d.liveness == CH.NearRealTime);
        assert SomeLive(rows, c);
      }
      if SomeLive(rows, c) {
        var d :| d in rows && d.connectorId == c && CH.IsLiveCapture(d.liveness);
        assert d.liveness == CH.Streaming || d.liveness == CH.NearRealTime;
      }
    }
  }

  /** 100 % exactly when some session could report tokens and every one that could did. */
  lemma CompleteExactly(rows: seq<Declaration>, sessions: seq<Session>)
    ensures var c := TokensOf(Summarized(rows), sessions);
      var m := RatioMetric(c.usable, c.eligible, None);
      (m.Measured? && m.ratio == 1.0) <==>
        && (exists s :: s in sessions && ReportsTokens(rows, s.sourceConnector))
        && (forall s | s in sessions && ReportsTokens(rows, s.sourceConnector) :: s.withTokens > 0)
  {
    TokensExact(rows, sessions);
    var usable, eligible := Counting(DoesReport(rows), sessions), Counting(CanReport(rows), sessions);
    EitherCounts(DoesReport(rows), FailsToReport(rows), CanReport(rows), sessions);
    CountsNone(FailsToReport(rows), sessions);
    CountsNone(CanReport(rows), sessions);
    if eligible > 0 { OneExactly(usable, eligible); }
  }

  // ----- lag -----

  predicate Live(rows: seq<Declaration>, c: string) {
    exists d :: d in rows && d.connectorId == c && (d.liveness == CH.Streaming || d.liveness == CH.NearRealTime)
  }

  /** A measured lag of a live connector, up to an hour, or longer. */
  function WithinHour(rows: seq<Declaration>): Lag -> bool {
    (r: Lag) => Live(rows, r.sourceConnector) && r.lagMs.Some? && r.lagMs.value <= 3_600_000
  }

  function OverHour(rows: seq<Declaration>): Lag -> bool {
    (r: Lag) => Live(rows, r.sourceConnector) && r.lagMs.Some? && r.lagMs.value > 3_600_000
  }

  function NoLag(rows: seq<Declaration>): Lag -> bool { (r: Lag) => !Live(rows, r.sourceConnector) || r.lagMs.None? }

  lemma LagsExact(rows: seq<Declaration>, lag: seq<Lag>)
    ensures LagsOf(Summarized(rows), lag)
         == LagCounts(Counting(WithinHour(rows), lag), Counting(OverHour(rows), lag), Counting(NoLag(rows), lag))
  {
    var f := LagBucketOf(Summarized(rows));
    forall r: Lag
      ensures WithinHour(rows)(r) <==> f(r) == DataQuality.Fresh
      ensures OverHour(rows)(r) <==> f(r) == Late
      ensures NoLag(rows)(r) <==> f(r) == Unmeasured
    {
      SummaryReads(rows, r.sourceConnector);
      if Live(rows, r.sourceConnector) { LiveDeclared(rows, r.sourceConnector); }
    }
    TallyCounts(f, WithinHour(rows), lag, DataQuality.Fresh);
    TallyCounts(f, OverHour(rows), lag, Late);
    TallyCounts(f, NoLag(rows), lag, Unmeasured);
  }

  lemma LiveDeclared(rows: seq<Declaration>, c: string)
    requires Live(rows, c)
    ensures Declares(rows, c)
  {}

  // ----- recovery -----

  function WasSkipped(why: Skip): Recovery -> bool { (r: Recovery) => r.skipped == Some(why) }

  function WasTried(): Recovery -> bool { (r: Recovery) => r.skipped.None? }

  function TriedWith(ok: bool): Recovery -> bool { (r: Recovery) => r.skipped.None? && r.ok == ok }

  lemma RollupExact(rows: seq<Recovery>)
    ensures RollupOf(rows)
         == Rollup(Counting(WasTried(), rows), Counting(TriedWith(true), rows), Counting(WasSkipped(Gemini), rows),
                   Counting(WasSkipped(UnsupportedConnector), rows), Counting(WasSkipped(NoRawRecords), rows),
                   Counting(WasSkipped(DecryptError), rows))
  {
    var f := RecoveryBucketOf();
    TallyCounts(f, TriedWith(true), rows, Recovered);
    TallyCounts(f, TriedWith(false), rows, NotRecovered);
    TallyCounts(f, WasSkipped(Gemini), rows, Skipped(Gemini));
    TallyCounts(f, WasSkipped(UnsupportedConnector), rows, Skipped(UnsupportedConnector));
    TallyCounts(f, WasSkipped(NoRawRecords), rows, Skipped(NoRawRecords));
    TallyCounts(f, WasSkipped(DecryptError), rows, Skipped(DecryptError));
    EitherCounts(TriedWith(true), TriedWith(false), WasTried(), rows);
  }

  // ----- git -----

  predicate Linked(links: seq<Link>, id: string, status: LinkStatus) { exists l :: l in links && l.sessionId == id && l.status == status }

  /** Sessions with a confirmed link; with a suggested one only; with neither. */
  lemma GitExact(sessions: seq<Session>, links: seq<Link>)
    ensures var ids := set s | s in sessions :: s.sessionId;
      GitOf(sessions, links)
      == GitCounts(|set id | id in ids && Linked(links, id, Confirmed)|,
                   |set id | id in ids && !Linked(links, id, Confirmed) && Linked(links, id, Suggested)|,
                   |set id | id in ids && !Linked(links, id, Confirmed) && !Linked(links, id, Suggested)|,
                   |ids|)
  {
    var ids := SessionIds(sessions);
    forall id, st: LinkStatus ensures Linked(links, id, st) <==> Link(id, st) in links {
      if Linked(links, id, st) {
        var l :| l in links && l.sessionId == id && l.status == st;
        assert l == Link(id, st);
      }
    }
    assert OfBucket(ids, links, GitConfirmed) == set id | id in ids && Linked(links, id, Confirmed);
    assert OfBucket(ids, links, GitHeuristic)
        == set id | id in ids && !Linked(links, id, Confirmed) && Linked(links, id, Suggested);
    assert OfBucket(ids, links, GitNone)
        == set id | id in ids && !Linked(links, id, Confirmed) && !Linked(links, id, Suggested);
  }

  // ----- the report -----

  /** `n` of `d`; unknown when there is nothing to take a part of. */
  ghost predicate Fraction(m: Metric, n: int, d: nat) {
    if d == 0 then m == Unknown
    else m.Measured? && m.numerator == n && m.denominator == d && m.ratio * d as real == n as real
  }

  /** The same, and the sample is the whole. */
  ghost predicate SampledFraction(m: Metric, n: int, d: nat) {
    if d == 0 then m == Unknown
    else m.Sampled? && m.numerator == n && m.denominator == d && m.ratio * d as real == n as real && m.sampleSize == d
  }

  lemma FractionOf(n: int, d: nat)
    ensures Fraction(RatioMetric(n, d, None), n, d)
    ensures SampledFraction(RatioMetric(n, d, Some(d)), n, d)
  {}

  function IsAttributed(): Session -> bool { (s: Session) => s.attributed }

  /** The events of a list are those of its parts, a session's being its own count. */
  lemma {:induction false} EventsExact(a: seq<Session>, b: seq<Session>, s: Session)
    ensures EventsIn(a + b) == EventsIn(a) + EventsIn(b)
    ensures EventsIn([s]) == s.eventCount && EventsIn([]) == 0
    decreases |b|
  {
    if b == [] {
      assert a + b == a;
    } else {
      var n := |b| - 1;
      EventsExact(a, b[..n], s);
      assert (a + b)[..|a| + n] == a + b[..n];
    }
    assert [s][..0] == [];
  }

  /** What the counts of a report are, over the inputs. */
  lemma CountsExact(inp: Inputs, nowMs: int)
    ensures var c := CountsOf(inp, nowMs);
      var d := inp.declarations;
      && c.sessions == |inp.sessions| && c.attributed == Counting(IsAttributed(), inp.sessions)
      && c.tokens.usable == Counting(DoesReport(d), inp.sessions) && c.tokens.eligible == Counting(CanReport(d), inp.sessions)
      && c.lags.timely == Counting(WithinHour(d), inp.lag) && c.lags.stale == Counting(OverHour(d), inp.lag)
      && c.rollup.ok == Counting(TriedWith(true), inp.recoverability)
      && c.rollup.attempted == Counting(WasTried(), inp.recoverability)
  {
    TokensExact(inp.declarations, inp.sessions);
    LagsExact(inp.declarations, inp.lag);
    RollupExact(inp.recoverability);
    TallyCounts(AttributedOf(), IsAttributed(), inp.sessions, true);
  }

  /** Each metric as a part of a whole. */
  ghost predicate Fractions(r: Report, inp: Inputs, attributed: nat, sessions: nat, usable: nat, eligible: nat,
                            timely: nat, stale: nat, ok: nat, tried: nat)
  {
    && Fraction(r.attributionCoverage, attributed, sessions)
    && Fraction(r.tokenCompleteness, usable, eligible)
    && Fraction(r.parseSuccess, inp.yieldedEvents, inp.rawRows)
    && Fraction(r.duplicateRate, inp.duplicateEvents, inp.distinctEvents + inp.duplicateEvents)
    && Fraction(r.syncFreshness, timely, timely + stale)
    && SampledFraction(r.recoverability, ok, tried)
  }

  lemma ReportFractions(inp: Inputs, c: Counts)
    ensures Fractions(ReportFrom(inp, c), inp, c.attributed, c.sessions, c.tokens.usable, c.tokens.eligible,
                      c.lags.timely, c.lags.stale, c.rollup.ok, c.rollup.attempted)
  {
    FractionOf(c.attributed, c.sessions);
    FractionOf(c.tokens.usable, c.tokens.eligible);
    FractionOf(inp.yieldedEvents, inp.rawRows);
    FractionOf(inp.duplicateEvents, inp.distinctEvents + inp.duplicateEvents);
    FractionOf(c.lags.timely, c.lags.timely + c.lags.stale);
    FractionOf(c.rollup.ok, c.rollup.attempted);
  }

  /** Each metric of the report as a part of a whole, both counted over the inputs. */
  lemma ReportExact(inp: Inputs, nowMs: int)
    ensures var d := inp.declarations;
      Fractions(ReportFrom(inp, CountsOf(inp, nowMs)), inp,
                Counting(IsAttributed(), inp.sessions), |inp.sessions|,
                Counting(DoesReport(d), inp.sessions), Counting(CanReport(d), inp.sessions),
                Counting(WithinHour(d), inp.lag), Counting(OverHour(d), inp.lag),
                Counting(TriedWith(true), inp.recoverability), Counting(WasTried(), inp.recoverability))
  {
    CountsExact(inp, nowMs);
    ReportFractions(inp, CountsOf(inp, nowMs));
  }

  function HasVerdict(v: CH.Verdict): CH.Row -> bool { (r: CH.Row) => CH.VerdictOf(r.state) == v }

  /** The verdict counts are those of the panel's rows, for all four verdicts. */
  lemma VerdictsExact(inp: Inputs, nowMs: int, v: CH.Verdict)
    ensures v in CountsOf(inp, nowMs).verdicts
    ensures CountsOf(inp, nowMs).verdicts[v] == Counting(HasVerdict(v), CH.RowsOf(inp.health, nowMs))
  {
    TallyCounts(CH.VerdictAt(), HasVerdict(v), CH.RowsOf(inp.health, nowMs), v);
    match v case Capturing => case NotCapturing => case Broken => case VerdictUnknown =>
  }
}
