/** The classifier suite of test-2: every anchor of the test range is searched with cap 2000,
    composite failures are counted, tallied by k for anchors perfect modulo 6, 30 and 210, and
    listed as violations when k shares a filter prime with the modulus. */
module PacClassifier {
  import opened Tally
  import opened Search
  import opened Events
  import opened Ranking

  datatype SuiteReport = SuiteReport(
    totalFailures: nat,
    violationsP2: seq<FailureEvent>,
    violationsP3: seq<FailureEvent>,
    violationsP4: seq<FailureEvent>,
    p2ByK: map<int, nat>,
    p3ByK: map<int, nat>,
    p4ByK: map<int, nat>)

  /** The composite failures of anchors `start .. start + pairs - 1`. */
  function SuiteFailures(primes: seq<int>, oracle: set<int>, start: nat, pairs: nat): seq<FailureEvent>
    requires start + pairs < |primes|
  {
    Failures(primes, oracle, start, start + pairs, Cap(DEFAULT_CAP), Unguarded)
  }

  /** The counters and lists built from a sequence of failures. */
  function Summarize(es: seq<FailureEvent>): SuiteReport
  {
    SuiteReport(
      |es|,
      Violations(es, 6), Violations(es, 30), Violations(es, 210),
      TallyK(WithResidue(es, 6, 0)), TallyK(WithResidue(es, 30, 0)), TallyK(WithResidue(es, 210, 0)))
  }

  /** What the suite's counters and lists hold after the loop. */
  function SuiteSpec(primes: seq<int>, oracle: set<int>, start: nat, pairs: nat): SuiteReport
    requires start + pairs < |primes|
  {
    Summarize(SuiteFailures(primes, oracle, start, pairs))
  }

  /** One failure event's effect on the counters, in the order the loop body applies it. */
  function Record(r: SuiteReport, e: FailureEvent): SuiteReport
  {
    SuiteReport(
      r.totalFailures + 1,
      if Residue(e.s, 6) == 0 && Forbidden(e.k, 6) then r.violationsP2 + [e] else r.violationsP2,
      if Residue(e.s, 30) == 0 && Forbidden(e.k, 30) then r.violationsP3 + [e] else r.violationsP3,
      if Residue(e.s, 210) == 0 && Forbidden(e.k, 210) then r.violationsP4 + [e] else r.violationsP4,
      if Residue(e.s, 6) == 0 then Inc(r.p2ByK, e.k) else r.p2ByK,
      if Residue(e.s, 30) == 0 then Inc(r.p3ByK, e.k) else r.p3ByK,
      if Residue(e.s, 210) == 0 then Inc(r.p4ByK, e.k) else r.p4ByK)
  }

  /** Summarizing one more failure is recording it. */
  lemma SummarizeSnoc(es: seq<FailureEvent>, e: FailureEvent)
    ensures Summarize(es + [e]) == Record(Summarize(es), e)
  {
    var before := Summarize(es);
    var after := Summarize(es + [e]);
    var r := Record(before, e);
    assert after.violationsP2 == r.violationsP2 by { ViolationsSnoc(es, e, 6); }
    assert after.violationsP3 == r.violationsP3 by { ViolationsSnoc(es, e, 30); }
    assert after.violationsP4 == r.violationsP4 by { ViolationsSnoc(es, e, 210); }
    assert after.p2ByK == r.p2ByK by { TallyWithResidueSnoc(es, e, 6, 0); }
    assert after.p3ByK == r.p3ByK by { TallyWithResidueSnoc(es, e, 30, 0); }
    assert after.p4ByK == r.p4ByK by { TallyWithResidueSnoc(es, e, 210, 0); }
  }

  /** The body of the loop for one composite failure: count it, then run the three
      primorial tests on its anchor and distance. */
  method ClassifyFailure(report: SuiteReport, ev: FailureEvent) returns (next: SuiteReport)
    ensures next == Record(report, ev)
  {
    var totalFailures := report.totalFailures + 1;
    var violationsP2 := report.violationsP2;
    var violationsP3 := report.violationsP3;
    var violationsP4 := report.violationsP4;
    var p2ByK := report.p2ByK;
    var p3ByK := report.p3ByK;
    var p4ByK := report.p4ByK;
    var s, k := ev.s, ev.k;
    ForbiddenByModulus(k);
    if s % 6 == 0 {
      p2ByK := Inc(p2ByK, k);
      if k % 3 == 0 {
        violationsP2 := violationsP2 + [ev];
      }
    }
    if s % 30 == 0 {
      p3ByK := Inc(p3ByK, k);
      if k % 3 == 0 || k % 5 == 0 {
        violationsP3 := violationsP3 + [ev];
      }
    }
    if s % 210 == 0 {
      p4ByK := Inc(p4ByK, k);
      if k % 3 == 0 || k % 5 == 0 || k % 7 == 0 {
        violationsP4 := violationsP4 + [ev];
      }
    }
    next := SuiteReport(totalFailures, violationsP2, violationsP3, violationsP4, p2ByK, p3ByK, p4ByK);
  }

  /** One step of the loop: anchor `i` adds a failure to the summary iff its search ends at a
      composite distance, and nothing otherwise. */
  lemma SuiteStep(primes: seq<int>, oracle: set<int>, start: nat, i: nat, o: SearchOutcome)
    requires start <= i && i + 1 < |primes|
    requires o == Nearest(Anchor(primes, i), DEFAULT_CAP, oracle, Unguarded)
    ensures var before := Summarize(Failures(primes, oracle, start, i, Cap(DEFAULT_CAP), Unguarded));
      var after := Summarize(Failures(primes, oracle, start, i + 1, Cap(DEFAULT_CAP), Unguarded));
      if o.Found? && CompositeFailure(o.k, oracle)
      then after == Record(before, FailureEvent(i, Anchor(primes, i), o.q, o.k))
      else after == before
  {
    var es := Failures(primes, oracle, start, i, Cap(DEFAULT_CAP), Unguarded);
    var f := FailureAt(primes, oracle, i, Cap(DEFAULT_CAP), Unguarded);
    assert Failures(primes, oracle, start, i + 1, Cap(DEFAULT_CAP), Unguarded) == es + Emit(f);
    FailureAtMatchesSearch(primes, oracle, i, Cap(DEFAULT_CAP), Unguarded);
    if o.Found? && CompositeFailure(o.k, oracle) {
      SummarizeSnoc(es, f.value);
    } else {
      assert es + Emit(f) == es;
    }
  }

  /** The main loop of the suite. The prime file holds at least `pairs + start + 10` primes. */
  method RunClassifierSuite(primes: seq<int>, oracle: set<int>, start: nat, pairs: nat) returns (report: SuiteReport)
    requires |primes| >= pairs + start + 10
    ensures report == SuiteSpec(primes, oracle, start, pairs)
  {
    report := SuiteReport(0, [], [], [], map[], map[], map[]);
    for i := start to start + pairs
      invariant report == Summarize(Failures(primes, oracle, start, i, Cap(DEFAULT_CAP), Unguarded))
    {
      var s := primes[i] + primes[i + 1];
      var o := FindNearest(s, DEFAULT_CAP, oracle, Unguarded);
      SuiteStep(primes, oracle, start, i, o);
      if o.Found? && o.k > 1 && o.k !in oracle {
        report := ClassifyFailure(report, FailureEvent(i, s, o.q, o.k));
      }
    }
  }

  /** The verdict: falsified iff some violation list is non-empty. */
  predicate Falsified(report: SuiteReport)
  {
    report.violationsP2 != [] || report.violationsP3 != [] || report.violationsP4 != []
  }

  /** Every list entry is a failure of the range that passes its own filter, and every such
      failure is listed; filters for 6, 30 and 210 test 3; 3, 5; and 3, 5, 7. */
  lemma ViolationListsExact(primes: seq<int>, oracle: set<int>, start: nat, pairs: nat)
    requires start + pairs < |primes|
    ensures var es := SuiteFailures(primes, oracle, start, pairs);
      var r := SuiteSpec(primes, oracle, start, pairs);
      && (forall e :: e in r.violationsP2 <==> e in es && e.s % 6 == 0 && e.k % 3 == 0)
      && (forall e :: e in r.violationsP3 <==> e in es && e.s % 30 == 0 && (e.k % 3 == 0 || e.k % 5 == 0))
      && (forall e :: e in r.violationsP4 <==> e in es && e.s % 210 == 0 && (e.k % 3 == 0 || e.k % 5 == 0 || e.k % 7 == 0))
  {
    var es := SuiteFailures(primes, oracle, start, pairs);
    ViolationsMembers(es, 6);
    ViolationsMembers(es, 30);
    ViolationsMembers(es, 210);
    forall k: int {
      ForbiddenByModulus(k);
    }
  }

  /** The violation lists are in increasing index order. */
  lemma ViolationListsOrdered(primes: seq<int>, oracle: set<int>, start: nat, pairs: nat)
    requires start + pairs < |primes|
    ensures var r := SuiteSpec(primes, oracle, start, pairs);
      Ordered(r.violationsP2) && Ordered(r.violationsP3) && Ordered(r.violationsP4)
  {
    var es := SuiteFailures(primes, oracle, start, pairs);
    var r := SuiteSpec(primes, oracle, start, pairs);
    FailuresIncreasing(primes, oracle, start, start + pairs, Cap(DEFAULT_CAP), Unguarded);
    ViolationsOrdered(es, 6);
    ViolationsOrdered(es, 30);
    ViolationsOrdered(es, 210);
  }

  /** The recursive filter keeps the relative order of the events it keeps. */
  lemma {:induction false} ViolationsOrdered(es: seq<FailureEvent>, m: nat)
    requires m > 0
    requires Ordered(es)
    ensures Ordered(Violations(es, m))
    decreases |es|
  {
    if es != [] {
      var init := es[..|es| - 1];
      var e := es[|es| - 1];
      assert es == init + [e];
      ViolationsOrdered(init, m);
      ViolationsSnoc(init, e, m);
      var v := Violations(init, m);
      if Residue(e.s, m) == 0 && Forbidden(e.k, m) {
        ViolationsMembers(init, m);
        forall a | 0 <= a < |v|
          ensures v[a].index < e.index
        {
          assert v[a] in v;
          var j :| 0 <= j < |init| && init[j] == v[a];
          assert es[j] == init[j];
        }
        OrderedSnoc(v, e);
      }
    }
  }

  /** Appending an event with a larger index than every listed one keeps the order. */
  lemma OrderedSnoc(v: seq<FailureEvent>, e: FailureEvent)
    requires Ordered(v)
    requires forall a :: 0 <= a < |v| ==> v[a].index < e.index
    ensures Ordered(v + [e])
  {
    var out := v + [e];
    forall a, b | 0 <= a < b < |out|
      ensures out[a].index < out[b].index
    {
      assert out[a] == v[a];
      if b < |v| {
        assert out[b] == v[b];
      }
    }
  }

  /** The per-k counts of the three filters are nested: 210 | S implies 30 | S implies 6 | S. */
  lemma CountsNested(primes: seq<int>, oracle: set<int>, start: nat, pairs: nat, k: int)
    requires start + pairs < |primes|
    ensures var r := SuiteSpec(primes, oracle, start, pairs);
      Count(r.p4ByK, k) <= Count(r.p3ByK, k) <= Count(r.p2ByK, k)
  {
    var es := SuiteFailures(primes, oracle, start, pairs);
    NestedPerfectCounts(es, 30, 210, k);
    NestedPerfectCounts(es, 6, 30, k);
  }

  /** Each violation list is no longer than the total of its tally, and each tally's total
      is at most the number of failures. */
  lemma TotalsBounded(primes: seq<int>, oracle: set<int>, start: nat, pairs: nat)
    requires start + pairs < |primes|
    ensures var r := SuiteSpec(primes, oracle, start, pairs);
      && |r.violationsP2| <= MapSum(r.p2ByK) <= r.totalFailures
      && |r.violationsP3| <= MapSum(r.p3ByK) <= r.totalFailures
      && |r.violationsP4| <= MapSum(r.p4ByK) <= r.totalFailures
  {
    var es := SuiteFailures(primes, oracle, start, pairs);
    TallyTotal(WithResidue(es, 6, 0));
    TallyTotal(WithResidue(es, 30, 0));
    TallyTotal(WithResidue(es, 210, 0));
    ViolationsWithinPerfect(es, 6);
    ViolationsWithinPerfect(es, 30);
    ViolationsWithinPerfect(es, 210);
  }

  /** The header's hypothesis: with an oracle of genuine primes and every neighbour above 7,
      no list receives an entry and the verdict is not "falsified". */
  lemma HypothesisHolds(primes: seq<int>, oracle: set<int>, start: nat, pairs: nat)
    requires start + pairs < |primes|
    requires OnlyPrimes(oracle)
    requires forall e :: e in SuiteFailures(primes, oracle, start, pairs) ==> e.q > 7
    ensures !Falsified(SuiteSpec(primes, oracle, start, pairs))
  {
    var rule := Cap(DEFAULT_CAP);
    var es := Failures(primes, oracle, start, start + pairs, rule, Unguarded);
    assert es == SuiteFailures(primes, oracle, start, pairs);
    assert LargestFilterPrime(6) == 3 && LargestFilterPrime(30) == 5 && LargestFilterPrime(210) == 7;
    NoViolations(primes, oracle, start, start + pairs, rule, Unguarded, 6);
    NoViolations(primes, oracle, start, start + pairs, rule, Unguarded, 30);
    NoViolations(primes, oracle, start, start + pairs, rule, Unguarded, 210);
    assert SuiteSpec(primes, oracle, start, pairs) == Summarize(es);
  }

  /** A failure that one of the three filters lists. */
  predicate ViolatesSuite(e: FailureEvent)
  {
    || (e.s % 6 == 0 && e.k % 3 == 0)
    || (e.s % 30 == 0 && (e.k % 3 == 0 || e.k % 5 == 0))
    || (e.s % 210 == 0 && (e.k % 3 == 0 || e.k % 5 == 0 || e.k % 7 == 0))
  }

  /** The verdict is "falsified" iff some failure of the range has a perfect anchor and a
      distance sharing one of the modulus's odd primes. */
  lemma FalsifiedIffViolation(primes: seq<int>, oracle: set<int>, start: nat, pairs: nat)
    requires start + pairs < |primes|
    ensures Falsified(SuiteSpec(primes, oracle, start, pairs))
      <==> exists e :: e in SuiteFailures(primes, oracle, start, pairs) && ViolatesSuite(e)
  {
    var r := SuiteSpec(primes, oracle, start, pairs);
    ViolationListsExact(primes, oracle, start, pairs);
    if r.violationsP2 != [] {
      assert r.violationsP2[0] in r.violationsP2;
    } else if r.violationsP3 != [] {
      assert r.violationsP3[0] in r.violationsP3;
    } else if r.violationsP4 != [] {
      assert r.violationsP4[0] in r.violationsP4;
    }
  }

  /** `sorted(pX_failures_by_k.keys())[:10]`: the ten smallest distances of a tally, in
      increasing order; every distance left out is larger than every one shown. */
  method SmallestDistances(tally: map<int, nat>) returns (ks: seq<int>)
    ensures StrictlyIncreasing(ks)
    ensures |ks| == Min(10, |tally|)
    ensures forall j :: 0 <= j < |ks| ==> ks[j] in tally
    ensures forall k, j :: k in tally && k !in ks && 0 <= j < |ks| ==> ks[j] < k
  {
    var sortedKeys := Ascending(tally.Keys);
    assert |tally.Keys| == |tally|;
    ks := sortedKeys[..Min(10, |sortedKeys|)];
    forall k, j | k in tally && k !in ks && 0 <= j < |ks|
      ensures ks[j] < k
    {
      var t :| 0 <= t < |sortedKeys| && sortedKeys[t] == k;
    }
  }
}
