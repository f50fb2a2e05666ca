/** Prime gaps g = p_{i+1} - p_i and the per-class statistics the gap scripts keep. */
module Gaps {
  import opened Search

  /** `{'count': N, 'gap_sum': total_gap}`: the anchors of a class and the sum of their gaps. */
  datatype GapStat = GapStat(count: nat, gapSum: int)

  /** The total gap of anchors `lo .. hi - 1`. */
  function TotalGap(primes: seq<int>, lo: nat, hi: nat): int
    requires lo <= hi < |primes|
    decreases hi - lo
  {
    if hi == lo then 0 else TotalGap(primes, lo, hi - 1) + Gap(primes, hi - 1)
  }

  /** The overall gap total telescopes to the distance between the outer primes. */
  lemma {:induction false} GapTelescopes(primes: seq<int>, lo: nat, hi: nat)
    requires lo <= hi < |primes|
    ensures TotalGap(primes, lo, hi) == primes[hi] - primes[lo]
    decreases hi - lo
  {
    if hi > lo {
      GapTelescopes(primes, lo, hi - 1);
    }
  }

  /** Over a strictly ascending stretch every gap is positive, so the total gap is at least the
      number of anchors. */
  lemma {:induction false} GapsPositive(primes: seq<int>, lo: nat, hi: nat)
    requires lo <= hi < |primes|
    requires forall j :: lo <= j < hi ==> primes[j] < primes[j + 1]
    ensures forall j :: lo <= j < hi ==> Gap(primes, j) >= 1
    ensures TotalGap(primes, lo, hi) >= hi - lo
    decreases hi - lo
  {
    if hi > lo {
      GapsPositive(primes, lo, hi - 1);
    }
  }
}
