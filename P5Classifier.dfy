/** The mod 2310 verification of test-4: anchors divisible by 2310 are counted and searched
    with cap 3000; their composite failures are tallied by k and listed as violations when k is
    divisible by 3, 5, 7 or 11. Other anchors are searched with cap 2000 by a one-test loop
    and only add to the overall failure count. */
module P5Classifier {
  import opened Tally
  import opened Search
  import opened Events
  import opened Ranking

  /** The primorial P5 = 2 * 3 * 5 * 7 * 11. */
  const P5: nat := 2310

  /** The caps of the two branches. */
  const P5_RULE: CapRule := WiderWhenPerfect(P5, WIDE_CAP, DEFAULT_CAP)

  datatype P5Report = P5Report(
    totalFailures: nat,
    perfectAnchors: nat,
    failuresFromPerfect: map<int, nat>,
    violations: seq<FailureEvent>)

  function P5Failures(primes: seq<int>, oracle: set<int>, start: nat, hi: nat): seq<FailureEvent>
    requires start <= hi < |primes|
  {
    Failures(primes, oracle, start, hi, P5_RULE, Unguarded)
  }

  /** What the counters hold once anchors `start .. hi - 1` are processed. */
  function P5State(primes: seq<int>, oracle: set<int>, start: nat, hi: nat): P5Report
    requires start <= hi < |primes|
  {
    var es := P5Failures(primes, oracle, start, hi);
    P5Report(|es|, PerfectAnchors(primes, start, hi, P5), TallyK(WithResidue(es, P5, 0)), Violations(es, P5))
  }

  /** What the counters hold after the loop over `pairs` anchors from `start`. */
  function P5Spec(primes: seq<int>, oracle: set<int>, start: nat, pairs: nat): P5Report
    requires start + pairs < |primes|
  {
    P5State(primes, oracle, start, start + pairs)
  }

  /** One anchor's effect: a perfect anchor is counted; a failure is counted overall, and
      from a perfect anchor it is tallied by k and listed when k is a forbidden distance. */
  function P5Record(r: P5Report, s: int, f: Option<FailureEvent>): P5Report
  {
    var perfect := Residue(s, P5) == 0;
    P5Report(
      r.totalFailures + (if f.Some? then 1 else 0),
      r.perfectAnchors + (if perfect then 1 else 0),
      if perfect && f.Some? then Inc(r.failuresFromPerfect, f.value.k) else r.failuresFromPerfect,
      if perfect && f.Some? && Forbidden(f.value.k, P5) then r.violations + [f.value] else r.violations)
  }

  /** The failure a search outcome yields at anchor `i`. */
  function Outcome(i: nat, s: int, o: SearchOutcome, oracle: set<int>): Option<FailureEvent>
  {
    if o.Found? && CompositeFailure(o.k, oracle) then Some(FailureEvent(i, s, o.q, o.k)) else None
  }

  /** The counters after anchor `i` are the counters before it with the anchor's search
      outcome recorded. */
  lemma P5Step(primes: seq<int>, oracle: set<int>, start: nat, i: nat, o: SearchOutcome)
    requires start <= i && i + 1 < |primes|
    requires o == Nearest(Anchor(primes, i), P5_RULE.For(Anchor(primes, i)), oracle, Unguarded)
    ensures P5State(primes, oracle, start, i + 1)
      == P5Record(P5State(primes, oracle, start, i), Anchor(primes, i), Outcome(i, Anchor(primes, i), o, oracle))
  {
    var es := P5Failures(primes, oracle, start, i);
    var f := FailureAt(primes, oracle, i, P5_RULE, Unguarded);
    FailureAtMatchesSearch(primes, oracle, i, P5_RULE, Unguarded);
    assert f == Outcome(i, Anchor(primes, i), o, oracle);
    var before := P5State(primes, oracle, start, i);
    var after := P5State(primes, oracle, start, i + 1);
    var r := P5Record(before, Anchor(primes, i), f);
    assert P5Failures(primes, oracle, start, i + 1) == es + Emit(f);
    if f.Some? {
      var e := f.value;
      assert e.s == Anchor(primes, i);
      assert after.failuresFromPerfect == r.failuresFromPerfect by { TallyWithResidueSnoc(es, e, P5, 0); }
      assert after.violations == r.violations by { ViolationsSnoc(es, e, P5); }
    } else {
      assert es + Emit(f) == es;
    }
  }

  /** The branch for an anchor divisible by 2310: count it, search with the wide cap, skip it
      when the search is capped, and classify a composite distance. */
  method ProcessPerfect(report: P5Report, i: nat, s: int, oracle: set<int>) returns (next: P5Report, ghost o: SearchOutcome)
    requires s % 2310 == 0
    ensures o == Nearest(s, P5_RULE.For(s), oracle, Unguarded)
    ensures next == P5Record(report, s, Outcome(i, s, o, oracle))
  {
    var totalFailures := report.totalFailures;
    var perfectAnchors := report.perfectAnchors + 1;
    var failuresFromPerfect := report.failuresFromPerfect;
    var violations := report.violations;
    var found := FindNearest(s, WIDE_CAP, oracle, Unguarded);
    o := found;
    if found.Capped? {
      next := P5Report(totalFailures, perfectAnchors, failuresFromPerfect, violations);
      return;
    }
    if found.k > 1 && found.k !in oracle {
      totalFailures := totalFailures + 1;
      failuresFromPerfect := Inc(failuresFromPerfect, found.k);
      var failureEvent := FailureEvent(i, s, found.q, found.k);
      ForbiddenByModulus(found.k);
      if found.k % 3 == 0 || found.k % 5 == 0 || found.k % 7 == 0 || found.k % 11 == 0 {
        violations := violations + [failureEvent];
      }
    }
    next := P5Report(totalFailures, perfectAnchors, failuresFromPerfect, violations);
  }

  /** The branch for any other anchor: the one-test search with the default cap, and only the
      overall failure count. */
  method ProcessOther(report: P5Report, i: nat, s: int, oracle: set<int>) returns (next: P5Report, ghost o: SearchOutcome)
    requires s % 2310 != 0
    ensures o == Nearest(s, P5_RULE.For(s), oracle, Unguarded)
    ensures next == P5Record(report, s, Outcome(i, s, o, oracle))
  {
    o := Nearest(s, DEFAULT_CAP, oracle, Unguarded);
    var totalFailures := report.totalFailures;
    var k := FindDistance(s, DEFAULT_CAP, oracle);
    if k > 0 {
      if k > 1 && k !in oracle {
        totalFailures := totalFailures + 1;
      }
    }
    next := report.(totalFailures := totalFailures);
  }

  /** The main loop of test-4. The prime file holds at least `pairs + start + 10` primes. */
  method RunP5Verification(primes: seq<int>, oracle: set<int>, start: nat, pairs: nat) returns (report: P5Report)
    requires |primes| >= pairs + start + 10
    ensures report == P5Spec(primes, oracle, start, pairs)
  {
    report := P5Report(0, 0, map[], []);
    for i := start to start + pairs
      invariant report == P5State(primes, oracle, start, i)
    {
      var s := primes[i] + primes[i + 1];
      assert s == Anchor(primes, i);
      ghost var o;
      if s % 2310 == 0 {
        report, o := ProcessPerfect(report, i, s, oracle);
      } else {
        report, o := ProcessOther(report, i, s, oracle);
      }
      P5Step(primes, oracle, start, i, o);
    }
  }

  /** An entry is a violation iff it is a failure of the range from an anchor divisible by 2310
      whose distance is divisible by 3, 5, 7 or 11. */
  lemma P5ViolationsExact(primes: seq<int>, oracle: set<int>, start: nat, pairs: nat)
    requires start + pairs < |primes|
    ensures var es := P5Failures(primes, oracle, start, start + pairs);
      forall e :: e in P5Spec(primes, oracle, start, pairs).violations <==>
        e in es && e.s % 2310 == 0 && (e.k % 3 == 0 || e.k % 5 == 0 || e.k % 7 == 0 || e.k % 11 == 0)
  {
    var es := P5Failures(primes, oracle, start, start + pairs);
    ViolationsMembers(es, P5);
    forall k: int {
      ForbiddenByModulus(k);
    }
  }

  /** Perfect-anchor failures are the tallied ones: a key is a distance seen at a perfect anchor
      that failed, with the number of such anchors as its count. */
  lemma P5TallyExact(primes: seq<int>, oracle: set<int>, start: nat, pairs: nat, k: int)
    requires start + pairs < |primes|
    ensures var es := WithResidue(P5Failures(primes, oracle, start, start + pairs), P5, 0);
      var t := P5Spec(primes, oracle, start, pairs).failuresFromPerfect;
      && Count(t, k) == CountK(es, k)
      && (k in t <==> exists e :: e in es && e.k == k)
  {
    var es := WithResidue(P5Failures(primes, oracle, start, start + pairs), P5, 0);
    TallyCounts(es);
    CountKPositive(es, k);
  }

  /** The report's totals are ordered: violations, then failures from perfect anchors (the sum
      of the tally), which neither exceeds the perfect anchors nor the overall failures. */
  lemma P5TotalsBounded(primes: seq<int>, oracle: set<int>, start: nat, pairs: nat)
    requires start + pairs < |primes|
    ensures var r := P5Spec(primes, oracle, start, pairs);
      && |r.violations| <= MapSum(r.failuresFromPerfect)
      && MapSum(r.failuresFromPerfect) <= r.perfectAnchors
      && MapSum(r.failuresFromPerfect) <= r.totalFailures
      && r.totalFailures <= pairs
  {
    var es := P5Failures(primes, oracle, start, start + pairs);
    var r := P5Spec(primes, oracle, start, pairs);
    var perfect := WithResidue(es, P5, 0);
    assert r.failuresFromPerfect == TallyK(perfect);
    TallyTotal(perfect);
    assert MapSum(r.failuresFromPerfect) == |perfect|;
    ViolationsWithinPerfect(es, P5);
    PerfectFailuresWithinAnchors(primes, oracle, start, start + pairs, P5_RULE, Unguarded, P5);
    FailuresAtMostAnchors(primes, oracle, start, start + pairs, P5_RULE, Unguarded);
  }

  /** The header's hypothesis: with an oracle of genuine primes and every neighbour above 11,
      there are no violations, so the verdict is "verified". */
  lemma P5HypothesisHolds(primes: seq<int>, oracle: set<int>, start: nat, pairs: nat)
    requires start + pairs < |primes|
    requires OnlyPrimes(oracle)
    requires forall e :: e in P5Failures(primes, oracle, start, start + pairs) ==> e.q > 11
    ensures P5Spec(primes, oracle, start, pairs).violations == []
  {
    assert LargestFilterPrime(P5) == 11;
    NoViolations(primes, oracle, start, start + pairs, P5_RULE, Unguarded, P5);
  }

  /** The report lists the observed distances in increasing order with their counts. */
  method ObservedDistances(report: P5Report) returns (ks: seq<int>)
    ensures StrictlyIncreasing(ks)
    ensures forall k :: k in ks <==> k in report.failuresFromPerfect
  {
    ks := Ascending(report.failuresFromPerfect.Keys);
  }
}
