/** analyze_composite_k_distribution: for anchors 1..pairs, the capped search (cap tested
    first, both candidates through `is_prime`) finds k_min; every k_min that is neither 1 nor
    in the prime set is a composite failure, tallied by k. The report ranks the tally and
    shows the twenty most frequent distances and the remainder. */
module CompositeKDistribution {
  import opened Tally
  import opened Search
  import opened Events
  import opened Ranking

  /** The search buffer checked against the largest loaded prime. */
  const LOOKUP_REACH: nat := 2000

  /** Rows shown in the frequency table. */
  const TOP_ROWS: nat := 20

  datatype Distribution =
    | TooFewPrimes
    | LookupOutOfRange(index: nat)
    | Completed(total: nat, counts: map<int, nat>)

  /** `set(prime_list)`. */
  function PrimeSet(primes: seq<int>): set<int>
  {
    set x | x in primes
  }

  /** `max(prime_list)`. */
  function SeqMax(xs: seq<int>): (r: int)
    requires xs != []
    ensures r in xs
    ensures forall j :: 0 <= j < |xs| ==> xs[j] <= r
  {
    if |xs| == 1 then xs[0]
    else
      var init := xs[..|xs| - 1];
      var rest := SeqMax(init);
      assert forall j :: 0 <= j < |init| ==> xs[j] == init[j];
      if xs[|xs| - 1] > rest then xs[|xs| - 1] else rest
  }

  /** Whether anchor `i` reaches past the largest prime once the search buffer is added. */
  predicate OutOfReach(primes: seq<int>, i: nat, maxPrime: int)
    requires i + 1 < |primes|
  {
    Anchor(primes, i) + LOOKUP_REACH > maxPrime
  }

  /** Every anchor of `lo..hi-1` stays within the largest prime. */
  predicate AllInReach(primes: seq<int>, lo: nat, hi: nat, maxPrime: int)
    requires hi < |primes|
  {
    forall i :: lo <= i < hi ==> !OutOfReach(primes, i, maxPrime)
  }

  /** The first anchor of `lo..hi-1` that reaches past the largest prime. */
  function FirstOutOfReach(primes: seq<int>, lo: nat, hi: nat, maxPrime: int): Option<nat>
    requires lo <= hi < |primes|
    decreases hi - lo
  {
    if lo == hi then None
    else if OutOfReach(primes, lo, maxPrime) then Some(lo)
    else FirstOutOfReach(primes, lo + 1, hi, maxPrime)
  }

  /** The fatal check stops at the least offending index; no offending index means None. */
  lemma {:induction false} FirstOutOfReachIsFirst(primes: seq<int>, lo: nat, hi: nat, maxPrime: int)
    requires lo <= hi < |primes|
    ensures FirstOutOfReach(primes, lo, hi, maxPrime).None? <==> AllInReach(primes, lo, hi, maxPrime)
    ensures var r := FirstOutOfReach(primes, lo, hi, maxPrime);
      r.Some? ==>
        && lo <= r.value < hi && OutOfReach(primes, r.value, maxPrime)
        && AllInReach(primes, lo, r.value, maxPrime)
    decreases hi - lo
  {
    if lo < hi && !OutOfReach(primes, lo, maxPrime) {
      FirstOutOfReachIsFirst(primes, lo + 1, hi, maxPrime);
    }
  }

  /** The composite failures of anchors 1..pairs as this script searches them. */
  function DistributionFailures(primes: seq<int>, hi: nat): seq<FailureEvent>
    requires 1 <= hi < |primes|
  {
    Failures(primes, PrimeSet(primes), 1, hi, Cap(DEFAULT_CAP), PrimeChecked)
  }

  /** What the script ends with for a prime file and a number of pairs. */
  function DistributionSpec(primes: seq<int>, pairs: nat): Distribution
  {
    if |primes| < pairs + 2 then TooFewPrimes
    else
      var stop := FirstOutOfReach(primes, 1, pairs + 1, SeqMax(primes));
      if stop.Some? then LookupOutOfRange(stop.value)
      else
        var es := DistributionFailures(primes, pairs + 1);
        Completed(|es|, TallyK(es))
  }

  /** Anchor `i` adds its failure, if the search ends at a composite distance, and nothing
      otherwise. */
  lemma DistributionStep(primes: seq<int>, i: nat, o: SearchOutcome)
    requires 1 <= i && i + 1 < |primes|
    requires o == Nearest(Anchor(primes, i), DEFAULT_CAP, PrimeSet(primes), PrimeChecked)
    ensures var es := DistributionFailures(primes, i);
      var next := DistributionFailures(primes, i + 1);
      if o.Found? && CompositeFailure(o.k, PrimeSet(primes))
      then |next| == |es| + 1 && TallyK(next) == Inc(TallyK(es), o.k)
      else next == es
  {
    var oracle := PrimeSet(primes);
    var es := DistributionFailures(primes, i);
    var f := FailureAt(primes, oracle, i, Cap(DEFAULT_CAP), PrimeChecked);
    FailureAtMatchesSearch(primes, oracle, i, Cap(DEFAULT_CAP), PrimeChecked);
    assert DistributionFailures(primes, i + 1) == es + Emit(f);
    if f.Some? {
      TallySnoc(es, f.value);
    } else {
      assert es + Emit(f) == es;
    }
  }

  /** The analysis loop. */
  method AnalyzeKDistribution(primes: seq<int>, pairs: nat) returns (result: Distribution)
    ensures result == DistributionSpec(primes, pairs)
  {
    if |primes| < pairs + 2 {
      return TooFewPrimes;
    }
    var primeSet := set x | x in primes;
    var maxPrime := SeqMax(primes);
    var total := 0;
    var counts: map<int, nat> := map[];
    for i := 1 to pairs + 1
      invariant FirstOutOfReach(primes, i, pairs + 1, maxPrime) == FirstOutOfReach(primes, 1, pairs + 1, maxPrime)
      invariant total == |DistributionFailures(primes, i)|
      invariant counts == TallyK(DistributionFailures(primes, i))
    {
      var anchorSum := primes[i] + primes[i + 1];
      if anchorSum + LOOKUP_REACH > maxPrime {
        return LookupOutOfRange(i);
      }
      var o := FindNearestCapFirst(anchorSum, DEFAULT_CAP, primeSet);
      DistributionStep(primes, i, o);
      var minDistanceK := o.KMin();
      if minDistanceK == 0 {
        continue;
      }
      LawITestsAgree(minDistanceK, primeSet);
      var isLawISuccess := minDistanceK == 1 || IsPrime(minDistanceK, primeSet);
      if !isLawISuccess {
        total := total + 1;
        counts := Inc(counts, minDistanceK);
      }
    }
    return Completed(total, counts);
  }

  /** A completed run reports the number of failures as the sum of its tally, and every key
      is a composite distance within the cap, counted once per anchor that failed with it. */
  lemma CompletedTallyExact(primes: seq<int>, pairs: nat, k: int)
    requires DistributionSpec(primes, pairs).Completed?
    ensures var r := DistributionSpec(primes, pairs);
      var es := DistributionFailures(primes, pairs + 1);
      && MapSum(r.counts) == r.total
      && Count(r.counts, k) == CountK(es, k)
      && (k in r.counts ==> CompositeFailure(k, PrimeSet(primes)) && k <= DEFAULT_CAP)
  {
    var es := DistributionFailures(primes, pairs + 1);
    CompletedIsTally(primes, pairs);
    TallyKeysComposite(primes, pairs + 1, k);
    TallyTotal(es);
    TallyCounts(es);
  }

  /** A completed run holds the number of failures of anchors 1..pairs and their tally by k. */
  lemma CompletedIsTally(primes: seq<int>, pairs: nat)
    requires DistributionSpec(primes, pairs).Completed?
    ensures |primes| >= pairs + 2
    ensures var es := DistributionFailures(primes, pairs + 1);
      DistributionSpec(primes, pairs) == Completed(|es|, TallyK(es))
  {
  }

  /** Every key of the tally of the failures of anchors 1..hi-1 is a composite distance within
      the cap. */
  lemma TallyKeysComposite(primes: seq<int>, hi: nat, k: int)
    requires 1 <= hi < |primes|
    ensures k in TallyK(DistributionFailures(primes, hi)) ==> CompositeFailure(k, PrimeSet(primes)) && k <= DEFAULT_CAP
  {
    var es := DistributionFailures(primes, hi);
    if k in TallyK(es) {
      TallyCounts(es);
      CountKPositive(es, k);
      var e :| e in es && e.k == k;
      FailuresMembers(primes, PrimeSet(primes), 1, hi, Cap(DEFAULT_CAP), PrimeChecked);
      assert FailureAt(primes, PrimeSet(primes), e.index, Cap(DEFAULT_CAP), PrimeChecked) == Some(e);
    }
  }

  /** The fatal lookup check names the first anchor among 1..pairs whose search would reach past
      the largest prime, and a completed run had none. */
  lemma StopsAtFirstOutOfReach(primes: seq<int>, pairs: nat)
    requires |primes| >= pairs + 2
    ensures DistributionSpec(primes, pairs).Completed? <==> AllInReach(primes, 1, pairs + 1, SeqMax(primes))
    ensures var r := DistributionSpec(primes, pairs);
      r.LookupOutOfRange? ==>
        && 1 <= r.index <= pairs && OutOfReach(primes, r.index, SeqMax(primes))
        && AllInReach(primes, 1, r.index, SeqMax(primes))
  {
    var stop := FirstOutOfReach(primes, 1, pairs + 1, SeqMax(primes));
    FirstOutOfReachIsFirst(primes, 1, pairs + 1, SeqMax(primes));
    assert DistributionSpec(primes, pairs).Completed? <==> stop.None?;
  }

  /** The frequency table: nothing when there were no failures, otherwise the ranking, its first
      twenty rows and, when there are more distinct distances, the sum of the rest. */
  datatype FrequencyTable =
    | NoFailures
    | Rows(ranking: seq<int>, shown: seq<int>, other: Option<int>, total: nat)

  method FrequencyReport(total: nat, counts: map<int, nat>) returns (table: FrequencyTable)
    ensures total == 0 <==> table.NoFailures?
    ensures table.Rows? ==>
      && table.total == total
      && IsRanking(table.ranking, counts)
      && |table.ranking| == |counts|
      && table.shown == table.ranking[..Min(TOP_ROWS, |counts|)]
      && (table.other.Some? <==> |counts| > TOP_ROWS)
      && (table.other.Some? ==> table.other.value == SumOver(table.ranking[TOP_ROWS..], counts))
  {
    if total == 0 {
      return NoFailures;
    }
    var sortedK, shown := Leaders(counts, TOP_ROWS);
    var other: Option<int> := None;
    if |sortedK| > TOP_ROWS {
      other := Some(SumOver(sortedK[TOP_ROWS..], counts));
    }
    table := Rows(sortedK, shown, other, total);
  }

  /** The table accounts for every failure: the shown counts plus the "other" line add up to
      the TOTAL line. */
  lemma TableAddsUp(primes: seq<int>, pairs: nat, table: FrequencyTable)
    requires DistributionSpec(primes, pairs).Completed?
    requires var r := DistributionSpec(primes, pairs);
      && table.Rows? && table.total == r.total && IsRanking(table.ranking, r.counts)
      && |table.ranking| == |r.counts|
      && table.shown == table.ranking[..Min(TOP_ROWS, |r.counts|)]
      && (table.other.Some? <==> |r.counts| > TOP_ROWS)
      && (table.other.Some? ==> table.other.value == SumOver(table.ranking[TOP_ROWS..], r.counts))
    ensures var r := DistributionSpec(primes, pairs);
      SumOver(table.shown, r.counts) + (if table.other.Some? then table.other.value else 0) == table.total
  {
    var r := DistributionSpec(primes, pairs);
    CompletedTallyExact(primes, pairs, 0);
    EnumerationCardinality(table.ranking, r.counts);
    var n := Min(TOP_ROWS, |r.counts|);
    ShownPlusRemainder(table.ranking, r.counts, n);
    if !table.other.Some? {
      assert table.ranking[n..] == [];
    }
  }
}
