/** The composite failure rate test of test-1: every loaded prime q above 7 is measured against
    the nearest multiple of 6, 30 and 210, and the distance k = |A - q| is a failure when it is
    neither 1 nor in the prime set. The verdict asks whether the failure rate falls as the
    primorial grows. */
module PacCfr {
  import opened Search
  import opened Divisibility
  import opened Ranking
  import opened Events

  /** `get_closest_anchor(q, m)`: the multiple of `m` below or at `q` when it is strictly closer,
      otherwise the next one up. */
  function ClosestAnchor(q: int, m: nat): int
    requires m > 0
  {
    var below := (q / m) * m;
    var above := below + m;
    if q - below < above - q then below else above
  }

  /** A multiple of `m` lies at or below the multiple under `q`, or at or above the one over it. */
  lemma MultipleOutside(q: int, m: nat, c: int)
    requires m > 0 && c % m == 0
    ensures c <= (q / m) * m || c >= (q / m) * m + m
  {
    MultipleOfModZero(m, c);
    var t := c / m;
    var u := q / m;
    if t < u {
      MulSign(m, u - t);
      assert m * u - m * t == m * (u - t);
    } else if t > u {
      MulSign(m, t - u);
      assert m * t - m * u == m * (t - u);
    }
  }

  /** The anchor is a multiple of `m`; the two candidates bracket `q`; the lower one is taken
      exactly when it is strictly closer, so a tie goes up; the distance is at most m/2; and no
      multiple of `m` is closer to `q`. */
  lemma ClosestAnchorIsClosest(q: int, m: nat)
    requires m > 0
    ensures var below := (q / m) * m;
      var a := ClosestAnchor(q, m);
      && a % m == 0
      && below <= q < below + m
      && (a == below <==> q - below < below + m - q)
      && 2 * Abs(a - q) <= m
      && forall c :: c % m == 0 ==> Abs(a - q) <= Abs(c - q)
  {
    var below := (q / m) * m;
    assert below == m * (q / m);
    ModZeroOfMultiple(m, q / m);
    ModZeroOfMultiple(m, q / m + 1);
    assert below + m == m * (q / m + 1);
    forall c | c % m == 0
      ensures Abs(ClosestAnchor(q, m) - q) <= Abs(c - q)
    {
      MultipleOutside(q, m, c);
    }
  }

  /** `[p for p in prime_list if p > 7]`. */
  function PrimesToTest(primes: seq<int>): seq<int>
  {
    if primes == [] then []
    else
      var p := primes[|primes| - 1];
      PrimesToTest(primes[..|primes| - 1]) + (if p > 7 then [p] else [])
  }

  /** The filter keeps exactly the primes above 7, and keeps an ascending list ascending. */
  lemma {:induction false} PrimesToTestExact(primes: seq<int>)
    ensures forall x :: x in PrimesToTest(primes) <==> x in primes && x > 7
    ensures |PrimesToTest(primes)| <= |primes|
    ensures StrictlyIncreasing(primes) ==> StrictlyIncreasing(PrimesToTest(primes))
    decreases |primes|
  {
    if primes != [] {
      var init := primes[..|primes| - 1];
      var p := primes[|primes| - 1];
      PrimesToTestExact(init);
      assert primes == init + [p];
      if StrictlyIncreasing(primes) {
        assert StrictlyIncreasing(init);
        var rest := PrimesToTest(init);
        forall j | 0 <= j < |rest|
          ensures rest[j] < p
        {
          assert rest[j] in rest;
        }
      }
    }
  }

  /** Whether prime `q` fails against the grid of `m`. */
  predicate FailsAgainst(q: int, m: nat, oracle: set<int>)
    requires m > 0
  {
    CompositeFailure(Abs(ClosestAnchor(q, m) - q), oracle)
  }

  /** `failure_counts[m]` after the primes `qs`. */
  function FailureCount(qs: seq<int>, m: nat, oracle: set<int>): nat
    requires m > 0
  {
    if qs == [] then 0
    else FailureCount(qs[..|qs| - 1], m, oracle) + (if FailsAgainst(qs[|qs| - 1], m, oracle) then 1 else 0)
  }

  /** A count never exceeds the number of primes tested. */
  lemma {:induction false} FailureCountBounded(qs: seq<int>, m: nat, oracle: set<int>)
    requires m > 0
    ensures FailureCount(qs, m, oracle) <= |qs|
    ensures FailureCount(qs, m, oracle) == 0 <==> forall j :: 0 <= j < |qs| ==> !FailsAgainst(qs[j], m, oracle)
    decreases |qs|
  {
    if qs != [] {
      var init := qs[..|qs| - 1];
      FailureCountBounded(init, m, oracle);
      assert forall j :: 0 <= j < |init| ==> qs[j] == init[j];
    }
  }

  /** `failure_counts` after the primes `qs`. */
  function CountsAfter(qs: seq<int>, oracle: set<int>): map<int, nat>
  {
    map[P2 := FailureCount(qs, P2, oracle), P3 := FailureCount(qs, P3, oracle), P4 := FailureCount(qs, P4, oracle)]
  }

  /** The counts after the loop. */
  function CfrCounts(primes: seq<int>, oracle: set<int>): map<int, nat>
  {
    CountsAfter(PrimesToTest(primes), oracle)
  }

  /** The main loop of test-1. */
  method RunCfrTest(primes: seq<int>, oracle: set<int>) returns (totalPrimesTested: nat, failureCounts: map<int, nat>)
    ensures totalPrimesTested == |PrimesToTest(primes)|
    ensures failureCounts == CfrCounts(primes, oracle)
  {
    var primesToTest := PrimesToTest(primes);
    totalPrimesTested := |primesToTest|;
    failureCounts := map[6 := 0, 30 := 0, 210 := 0];
    for i := 0 to |primesToTest|
      invariant failureCounts == CountsAfter(primesToTest[..i], oracle)
    {
      var q := primesToTest[i];
      CountsAfterStep(primesToTest, i, oracle);
      failureCounts := CountAgainst(failureCounts, q, 6, oracle);
      failureCounts := CountAgainst(failureCounts, q, 30, oracle);
      failureCounts := CountAgainst(failureCounts, q, 210, oracle);
    }
    assert primesToTest[..|primesToTest|] == primesToTest;
  }

  /** One grid of the loop body: the count of `m` goes up by one exactly when `q` fails against
      it, and the other counts stay. */
  method CountAgainst(counts: map<int, nat>, q: int, m: nat, oracle: set<int>) returns (next: map<int, nat>)
    requires m > 0 && m in counts
    ensures next == Bump(counts, q, m, oracle)
  {
    next := counts;
    var a := ClosestAnchor(q, m);
    var k := Abs(a - q);
    if k > 1 && k !in oracle {
      next := counts[m := counts[m] + 1];
    }
  }

  /** One grid's update of the counts. */
  function Bump(counts: map<int, nat>, q: int, m: nat, oracle: set<int>): map<int, nat>
    requires m > 0 && m in counts
  {
    counts[m := counts[m] + (if FailsAgainst(q, m, oracle) then 1 else 0)]
  }

  /** Extending the tested prefix by one prime adds that prime's failure to each count. */
  lemma CountsAfterStep(qs: seq<int>, i: nat, oracle: set<int>)
    requires i < |qs|
    ensures var before := CountsAfter(qs[..i], oracle);
      CountsAfter(qs[..i + 1], oracle) == Bump(Bump(Bump(before, qs[i], P2, oracle), qs[i], P3, oracle), qs[i], P4, oracle)
  {
    assert qs[..i + 1][..i] == qs[..i];
  }

  datatype CfrVerdict = DivisionByZero | ConjectureVerified | ConjectureFalsified

  /** `(failure_counts[m] / total_primes_tested) * 100`, with exact reals. */
  function Cfr(count: nat, total: nat): real
    requires total > 0
  {
    (count as real / total as real) * 100.0
  }

  /** The verdict: verified iff CFR(P_4) < CFR(P_3) < CFR(P_2); with no prime tested the
      percentages divide by zero. */
  function Verdict(total: nat, counts: map<int, nat>): CfrVerdict
    requires P2 in counts && P3 in counts && P4 in counts
  {
    if total == 0 then DivisionByZero
    else if Cfr(counts[P4], total) < Cfr(counts[P3], total) && Cfr(counts[P3], total) < Cfr(counts[P2], total)
    then ConjectureVerified
    else ConjectureFalsified
  }

  /** The shared denominator preserves order. */
  lemma CfrMonotone(a: nat, b: nat, total: nat)
    requires total > 0
    ensures Cfr(a, total) < Cfr(b, total) <==> a < b
  {
    var t := total as real;
    assert Cfr(a, total) == (a as real) * (100.0 / t);
    assert Cfr(b, total) == (b as real) * (100.0 / t);
    assert 100.0 / t > 0.0;
  }

  /** The verdict compares the counts themselves: verified iff fewer failures against 210 than
      against 30, and fewer against 30 than against 6; each count is at most the primes tested. */
  lemma VerdictByCounts(primes: seq<int>, oracle: set<int>)
    ensures var total := |PrimesToTest(primes)|;
      var counts := CfrCounts(primes, oracle);
      && counts[P2] <= total && counts[P3] <= total && counts[P4] <= total
      && (total == 0 <==> Verdict(total, counts) == DivisionByZero)
      && (total > 0 ==>
            (Verdict(total, counts) == ConjectureVerified <==> counts[P4] < counts[P3] < counts[P2]))
  {
    var qs := PrimesToTest(primes);
    var counts := CfrCounts(primes, oracle);
    FailureCountBounded(qs, P2, oracle);
    FailureCountBounded(qs, P3, oracle);
    FailureCountBounded(qs, P4, oracle);
    if |qs| > 0 {
      CfrMonotone(counts[P4], counts[P3], |qs|);
      CfrMonotone(counts[P3], counts[P2], |qs|);
    }
  }
}
