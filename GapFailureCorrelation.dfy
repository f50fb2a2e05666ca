/** The failure-type versus gap correlation of test-6: every anchor's gap g = p_{i+1} - p_i is
    added to an overall total, and each composite failure adds one occurrence and its gap to
    the statistics of its distance k. The report ranks distances by occurrences. */
module GapFailureCorrelation {
  import opened Tally
  import opened Search
  import opened Events
  import opened Ranking
  import opened Gaps

  /** Rows shown in the report. */
  const TOP_ROWS: nat := 20

  /** Every event's anchor has both of its primes in the list. */
  ghost predicate IndexedWithin(primes: seq<int>, es: seq<FailureEvent>)
  {
    forall e :: e in es ==> e.index + 1 < |primes|
  }

  /** The composite failures of anchors `start .. hi - 1`, each with its gap in the list. */
  function GapFailures(primes: seq<int>, oracle: set<int>, start: nat, hi: nat): (es: seq<FailureEvent>)
    requires start <= hi < |primes|
    ensures IndexedWithin(primes, es)
  {
    FailuresMembers(primes, oracle, start, hi, Cap(DEFAULT_CAP), Unguarded);
    Failures(primes, oracle, start, hi, Cap(DEFAULT_CAP), Unguarded)
  }

  /** The entry a `defaultdict` creates on first access. */
  function StatOf(stats: map<int, GapStat>, k: int): GapStat
  {
    if k in stats then stats[k] else GapStat(0, 0)
  }

  /** `stats[k]['count'] += 1; stats[k]['gap_sum'] += g`. */
  function AddGap(stats: map<int, GapStat>, k: int, g: int): map<int, GapStat>
  {
    var prev := StatOf(stats, k);
    stats[k := GapStat(prev.count + 1, prev.gapSum + g)]
  }

  /** The statistics built from a sequence of failures, in order. */
  function KGapStats(primes: seq<int>, es: seq<FailureEvent>): map<int, GapStat>
    requires IndexedWithin(primes, es)
  {
    if es == [] then map[]
    else
      var e := es[|es| - 1];
      assert e in es;
      AddGap(KGapStats(primes, es[..|es| - 1]), e.k, Gap(primes, e.index))
  }

  /** Anchor `i` adds its failure, if the search ends at a composite distance. */
  lemma GapStep(primes: seq<int>, oracle: set<int>, start: nat, i: nat, o: SearchOutcome)
    requires start <= i && i + 1 < |primes|
    requires o == Nearest(Anchor(primes, i), DEFAULT_CAP, oracle, Unguarded)
    ensures var es := GapFailures(primes, oracle, start, i);
      var next := GapFailures(primes, oracle, start, i + 1);
      if o.Found? && CompositeFailure(o.k, oracle)
      then |next| == |es| + 1 && KGapStats(primes, next) == AddGap(KGapStats(primes, es), o.k, Gap(primes, i))
      else next == es
  {
    var es := GapFailures(primes, oracle, start, i);
    var f := FailureAt(primes, oracle, i, Cap(DEFAULT_CAP), Unguarded);
    FailureAtMatchesSearch(primes, oracle, i, Cap(DEFAULT_CAP), Unguarded);
    var next := GapFailures(primes, oracle, start, i + 1);
    assert next == es + Emit(f);
    if f.Some? {
      assert next[..|next| - 1] == es;
    } else {
      assert es + Emit(f) == es;
    }
  }

  /** The main loop of test-6. The prime file holds at least `pairs + start + 10` primes. */
  method RunGapFailureCorrelation(primes: seq<int>, oracle: set<int>, start: nat, pairs: nat)
    returns (totalFailures: nat, gapStatsByK: map<int, GapStat>, totalGapSumOverall: int, totalAnchorsAnalyzed: nat)
    requires |primes| >= pairs + start + 10
    ensures totalFailures == |GapFailures(primes, oracle, start, start + pairs)|
    ensures gapStatsByK == KGapStats(primes, GapFailures(primes, oracle, start, start + pairs))
    ensures totalGapSumOverall == TotalGap(primes, start, start + pairs)
    ensures totalAnchorsAnalyzed == pairs
  {
    totalFailures, gapStatsByK, totalGapSumOverall, totalAnchorsAnalyzed := 0, map[], 0, 0;
    for i := start to start + pairs
      invariant totalFailures == |GapFailures(primes, oracle, start, i)|
      invariant gapStatsByK == KGapStats(primes, GapFailures(primes, oracle, start, i))
      invariant totalGapSumOverall == TotalGap(primes, start, i)
      invariant totalAnchorsAnalyzed == i - start
    {
      var gap := primes[i + 1] - primes[i];
      totalAnchorsAnalyzed := totalAnchorsAnalyzed + 1;
      totalGapSumOverall := totalGapSumOverall + gap;
      totalFailures, gapStatsByK := RecordAnchor(primes, oracle, start, i, totalFailures, gapStatsByK);
    }
  }

  /** One anchor of the loop: a composite failure adds one to the total and its gap to the
      statistics of its distance; a capped search or a success changes nothing. */
  method RecordAnchor(primes: seq<int>, oracle: set<int>, start: nat, i: nat, total: nat, stats: map<int, GapStat>)
    returns (total': nat, stats': map<int, GapStat>)
    requires start <= i && i + 1 < |primes|
    requires total == |GapFailures(primes, oracle, start, i)|
    requires stats == KGapStats(primes, GapFailures(primes, oracle, start, i))
    ensures total' == |GapFailures(primes, oracle, start, i + 1)|
    ensures stats' == KGapStats(primes, GapFailures(primes, oracle, start, i + 1))
  {
    total', stats' := total, stats;
    var pN, pNPlus1 := primes[i], primes[i + 1];
    var anchor := pN + pNPlus1;
    var gap := pNPlus1 - pN;
    var o := FindNearest(anchor, DEFAULT_CAP, oracle, Unguarded);
    GapStep(primes, oracle, start, i, o);
    if o.Capped? {
      return;
    }
    if o.k > 1 && o.k !in oracle {
      total' := total + 1;
      stats' := AddGap(stats, o.k, gap);
    }
  }

  /** The occurrence column of the statistics. */
  function Counts(stats: map<int, GapStat>): map<int, nat>
  {
    map k | k in stats :: stats[k].count
  }

  /** The gap sum column of the statistics. */
  function GapSums(stats: map<int, GapStat>): map<int, int>
  {
    map k | k in stats :: stats[k].gapSum
  }

  lemma CountsAddGap(stats: map<int, GapStat>, k: int, g: int)
    ensures Counts(AddGap(stats, k, g)) == Inc(Counts(stats), k)
    ensures GapSums(AddGap(stats, k, g)) == GapSums(stats)[k := Get(GapSums(stats), k) + g]
  {
    assert Counts(AddGap(stats, k, g)).Keys == Inc(Counts(stats), k).Keys;
    assert GapSums(AddGap(stats, k, g)).Keys == GapSums(stats)[k := Get(GapSums(stats), k) + g].Keys;
  }

  /** The occurrence column is the tally of the failures' distances. */
  lemma {:induction false} CountsAreTally(primes: seq<int>, es: seq<FailureEvent>)
    requires IndexedWithin(primes, es)
    ensures Counts(KGapStats(primes, es)) == TallyK(es)
    decreases |es|
  {
    if es != [] {
      var e := es[|es| - 1];
      assert e in es;
      CountsAreTally(primes, es[..|es| - 1]);
      CountsAddGap(KGapStats(primes, es[..|es| - 1]), e.k, Gap(primes, e.index));
    }
  }

  /** The sum of the gaps of the failures with distance `k`. */
  function GapSumK(primes: seq<int>, es: seq<FailureEvent>, k: int): int
    requires IndexedWithin(primes, es)
  {
    if es == [] then 0
    else
      var e := es[|es| - 1];
      assert e in es;
      GapSumK(primes, es[..|es| - 1], k) + (if e.k == k then Gap(primes, e.index) else 0)
  }

  /** The sum of the gaps of all the failures. */
  function FailureGapTotal(primes: seq<int>, es: seq<FailureEvent>): int
    requires IndexedWithin(primes, es)
  {
    if es == [] then 0
    else
      var e := es[|es| - 1];
      assert e in es;
      FailureGapTotal(primes, es[..|es| - 1]) + Gap(primes, e.index)
  }

  /** Each distance's gap sum is the sum of the gaps of the failures with that distance, and a
      distance has an entry iff some failure has it. */
  lemma {:induction false} GapSumsPerK(primes: seq<int>, es: seq<FailureEvent>, k: int)
    requires IndexedWithin(primes, es)
    ensures Get(GapSums(KGapStats(primes, es)), k) == GapSumK(primes, es, k)
    ensures k in KGapStats(primes, es) <==> CountK(es, k) > 0
    decreases |es|
  {
    if es != [] {
      var e := es[|es| - 1];
      assert e in es;
      GapSumsPerK(primes, es[..|es| - 1], k);
      CountsAddGap(KGapStats(primes, es[..|es| - 1]), e.k, Gap(primes, e.index));
    }
  }

  /** The gap sums add up to the total gap of the failing anchors. */
  lemma {:induction false} GapSumsTotal(primes: seq<int>, es: seq<FailureEvent>)
    requires IndexedWithin(primes, es)
    ensures MapSum(GapSums(KGapStats(primes, es))) == FailureGapTotal(primes, es)
    decreases |es|
  {
    if es == [] {
      assert GapSums(map[]) == map[];
    } else {
      var e := es[|es| - 1];
      assert e in es;
      var st := KGapStats(primes, es[..|es| - 1]);
      GapSumsTotal(primes, es[..|es| - 1]);
      CountsAddGap(st, e.k, Gap(primes, e.index));
      MapSumUpdate(GapSums(st), e.k, Get(GapSums(st), e.k) + Gap(primes, e.index));
    }
  }

  /** Every entry has at least one occurrence, so the report's `count == 0` guard never skips. */
  lemma {:induction false} CountsPositive(primes: seq<int>, es: seq<FailureEvent>, k: int)
    requires IndexedWithin(primes, es)
    requires k in KGapStats(primes, es)
    ensures KGapStats(primes, es)[k].count >= 1
    decreases |es|
  {
    var e := es[|es| - 1];
    assert e in es;
    if e.k != k {
      CountsPositive(primes, es[..|es| - 1], k);
    }
  }

  /** With ascending primes the failing anchors' gaps never exceed the overall gap total. */
  lemma {:induction false} FailureGapsWithinTotal(primes: seq<int>, oracle: set<int>, start: nat, hi: nat)
    requires start <= hi < |primes|
    requires forall j :: start <= j < hi ==> primes[j] <= primes[j + 1]
    ensures 0 <= FailureGapTotal(primes, GapFailures(primes, oracle, start, hi)) <= TotalGap(primes, start, hi)
    decreases hi - start
  {
    if hi > start {
      FailureGapsWithinTotal(primes, oracle, start, hi - 1);
      var es := GapFailures(primes, oracle, start, hi - 1);
      var f := FailureAt(primes, oracle, hi - 1, Cap(DEFAULT_CAP), Unguarded);
      var next := GapFailures(primes, oracle, start, hi);
      assert next == es + Emit(f);
      if f.Some? {
        assert next[..|next| - 1] == es;
      } else {
        assert es + Emit(f) == es;
      }
    }
  }

  /** The distances that pass the report's `count == 0` guard, in ranking order. */
  function Occurring(ranking: seq<int>, stats: map<int, GapStat>): seq<int>
  {
    if ranking == [] then []
    else
      var k := ranking[|ranking| - 1];
      Occurring(ranking[..|ranking| - 1], stats) + (if StatOf(stats, k).count == 0 then [] else [k])
  }

  lemma OccurringSnoc(ranking: seq<int>, k: int, stats: map<int, GapStat>)
    ensures Occurring(ranking + [k], stats) == Occurring(ranking, stats) + (if StatOf(stats, k).count == 0 then [] else [k])
  {
    assert (ranking + [k])[..|ranking|] == ranking;
  }

  /** Filtering a longer ranking extends the filtered shorter one. */
  lemma {:induction false} OccurringPrefix(ranking: seq<int>, n: nat, stats: map<int, GapStat>)
    requires n <= |ranking|
    ensures var a := Occurring(ranking[..n], stats);
      |a| <= |Occurring(ranking, stats)| && a == Occurring(ranking, stats)[..|a|]
    decreases |ranking|
  {
    if n < |ranking| {
      var init := ranking[..|ranking| - 1];
      assert ranking[..n] == init[..n];
      OccurringPrefix(init, n, stats);
    } else {
      assert ranking[..n] == ranking;
    }
  }

  /** With no entry of zero occurrences, nothing is filtered out. */
  lemma {:induction false} OccurringAll(ranking: seq<int>, stats: map<int, GapStat>)
    requires forall i :: 0 <= i < |ranking| ==> StatOf(stats, ranking[i]).count >= 1
    ensures Occurring(ranking, stats) == ranking
    decreases |ranking|
  {
    if ranking != [] {
      var init := ranking[..|ranking| - 1];
      var k := ranking[|ranking| - 1];
      forall i | 0 <= i < |init|
        ensures StatOf(stats, init[i]).count >= 1
      {
        assert init[i] == ranking[i];
      }
      OccurringAll(init, stats);
      assert ranking == init + [k];
      OccurringSnoc(init, k, stats);
    }
  }

  /** The rows loop: stop once twenty rows are printed, and skip an entry without occurrences. */
  method TopOccurring(ranking: seq<int>, stats: map<int, GapStat>) returns (rows: seq<int>)
    ensures |rows| == Min(TOP_ROWS, |Occurring(ranking, stats)|)
    ensures rows == Occurring(ranking, stats)[..|rows|]
  {
    rows := [];
    var printedCount := 0;
    ghost var seen := 0;
    for idx := 0 to |ranking|
      invariant printedCount == |rows| <= TOP_ROWS
      invariant seen <= idx
      invariant printedCount < TOP_ROWS ==> seen == idx
      invariant rows == Occurring(ranking[..seen], stats)
    {
      if printedCount >= TOP_ROWS {
        break;
      }
      var k := ranking[idx];
      assert ranking[..idx + 1] == ranking[..idx] + [k];
      OccurringSnoc(ranking[..idx], k, stats);
      seen := idx + 1;
      var count := StatOf(stats, k).count;
      if count == 0 {
        continue;
      }
      rows := rows + [k];
      printedCount := printedCount + 1;
    }
    OccurringPrefix(ranking, seen, stats);
    if printedCount < TOP_ROWS {
      assert ranking[..seen] == ranking;
    }
  }

  /** The report: the ranking by occurrences, the rows printed, and the occurrences and gap sum
      of the entries after the first twenty when they have any occurrence. */
  datatype GapReport = GapReport(ranking: seq<int>, rows: seq<int>, other: Option<GapStat>)

  /** The report's promises about a set of statistics. */
  ghost predicate Reports(report: GapReport, stats: map<int, GapStat>)
  {
    && IsRanking(report.ranking, Counts(stats))
    && |report.ranking| == |stats|
    && |report.rows| == Min(TOP_ROWS, |Occurring(report.ranking, stats)|)
    && report.rows == Occurring(report.ranking, stats)[..|report.rows|]
    && (report.other.Some? <==>
          |report.ranking| > TOP_ROWS && SumOver(report.ranking[TOP_ROWS..], Counts(stats)) > 0)
    && (report.other.Some? ==>
          && report.other.value.count == SumOver(report.ranking[TOP_ROWS..], Counts(stats))
          && report.other.value.gapSum == SumOver(report.ranking[TOP_ROWS..], GapSums(stats)))
  }

  method ReportByOccurrence(stats: map<int, GapStat>) returns (report: GapReport)
    ensures Reports(report, stats)
  {
    var sortedKStats := RankByCount(Counts(stats));
    assert Counts(stats).Keys == stats.Keys;
    EnumerationCardinality(sortedKStats, Counts(stats));
    var rows := TopOccurring(sortedKStats, stats);
    var other: Option<GapStat> := None;
    if |sortedKStats| > TOP_ROWS {
      var remainingCount := SumOver(sortedKStats[TOP_ROWS..], Counts(stats));
      var remainingGapSum := SumOver(sortedKStats[TOP_ROWS..], GapSums(stats));
      if remainingCount > 0 {
        other := Some(GapStat(remainingCount, remainingGapSum));
      }
    }
    report := GapReport(sortedKStats, rows, other);
  }

  /** Entries with at least one occurrence each contribute at least one to the sum. */
  lemma {:induction false} CountsOverPositive(keys: seq<int>, stats: map<int, GapStat>)
    requires forall i :: 0 <= i < |keys| ==> keys[i] in stats && stats[keys[i]].count >= 1
    ensures SumOver(keys, Counts(stats)) >= |keys|
    decreases |keys|
  {
    if keys != [] {
      CountsOverPositive(keys[..|keys| - 1], stats);
    }
  }

  /** Every ranked entry of a run's statistics has an occurrence. */
  lemma RankedOccur(primes: seq<int>, es: seq<FailureEvent>, ranking: seq<int>)
    requires IndexedWithin(primes, es)
    requires IsRanking(ranking, Counts(KGapStats(primes, es)))
    ensures forall i :: 0 <= i < |ranking| ==>
      ranking[i] in KGapStats(primes, es) && KGapStats(primes, es)[ranking[i]].count >= 1
  {
    var stats := KGapStats(primes, es);
    forall i | 0 <= i < |ranking|
      ensures ranking[i] in stats && stats[ranking[i]].count >= 1
    {
      assert ranking[i] in ranking;
      CountsPositive(primes, es, ranking[i]);
    }
  }

  /** For the statistics of a run, the printed rows are the first twenty of the ranking, and
      rows plus the "Other" line account for every failure and every failing anchor's gap. */
  lemma ReportAccountsForFailures(primes: seq<int>, es: seq<FailureEvent>, report: GapReport)
    requires IndexedWithin(primes, es)
    requires Reports(report, KGapStats(primes, es))
    ensures report.rows == report.ranking[..Min(TOP_ROWS, |report.ranking|)]
    ensures report.other.Some? <==> |report.ranking| > TOP_ROWS
    ensures var stats := KGapStats(primes, es);
      SumOver(report.rows, Counts(stats)) + (if report.other.Some? then report.other.value.count else 0) == |es|
    ensures var stats := KGapStats(primes, es);
      SumOver(report.rows, GapSums(stats)) + (if report.other.Some? then report.other.value.gapSum else 0)
      == FailureGapTotal(primes, es)
  {
    var stats := KGapStats(primes, es);
    ReportShowsLeaders(primes, es, report);
    var n := Min(TOP_ROWS, |report.ranking|);
    CountsAreTally(primes, es);
    TallyTotal(es);
    ShownPlusRemainder(report.ranking, Counts(stats), n);
    GapSumsTotal(primes, es);
    assert GapSums(stats).Keys == stats.Keys;
    assert Enumerates(report.ranking, GapSums(stats));
    ShownPlusRemainder(report.ranking, GapSums(stats), n);
    if |report.ranking| <= TOP_ROWS {
      assert report.ranking[n..] == [];
    }
  }

  /** Every ranked distance of a run has an occurrence, so no row is skipped and the "Other"
      line appears exactly when there are more than twenty distances. */
  lemma ReportShowsLeaders(primes: seq<int>, es: seq<FailureEvent>, report: GapReport)
    requires IndexedWithin(primes, es)
    requires Reports(report, KGapStats(primes, es))
    ensures report.rows == report.ranking[..Min(TOP_ROWS, |report.ranking|)]
    ensures report.other.Some? <==> |report.ranking| > TOP_ROWS
  {
    var stats := KGapStats(primes, es);
    var ranking := report.ranking;
    RankedOccur(primes, es, ranking);
    OccurringAll(ranking, stats);
    if |ranking| > TOP_ROWS {
      CountsOverPositive(ranking[TOP_ROWS..], stats);
    }
  }
}
