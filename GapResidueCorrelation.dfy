/** The gap size versus residue test of test-5-gap: every anchor S_n = p_n + p_{n+1} of the range
    adds one anchor and its gap g_n = p_{n+1} - p_n to its residue class modulo 6, 30 and 210.
    The report lists, per modulus, the classes that occur in increasing residue order. */
module GapResidueCorrelation {
  import opened Search
  import opened Events
  import opened Divisibility
  import opened Ranking
  import opened Gaps

  /** The statistics of residue class `r` modulo `m` over anchors `lo .. hi - 1`. */
  function ClassStat(primes: seq<int>, lo: nat, hi: nat, m: nat, r: int): GapStat
    requires m > 0 && lo <= hi < |primes|
    decreases hi - lo
  {
    if hi == lo then GapStat(0, 0)
    else
      var prev := ClassStat(primes, lo, hi - 1, m, r);
      if Residue(Anchor(primes, hi - 1), m) == r then GapStat(prev.count + 1, prev.gapSum + Gap(primes, hi - 1))
      else prev
  }

  /** The table `{i: {'count', 'gap_sum'} for i in range(m)}` after anchors `lo .. hi - 1`. */
  function Buckets(primes: seq<int>, lo: nat, hi: nat, m: nat): (b: seq<GapStat>)
    requires m > 0 && lo <= hi < |primes|
    ensures |b| == m
  {
    seq(m, r => ClassStat(primes, lo, hi, m, r))
  }

  /** `gap_stats[r]['count'] += 1; gap_stats[r]['gap_sum'] += g`. */
  function AddTo(b: seq<GapStat>, r: nat, g: int): seq<GapStat>
    requires r < |b|
  {
    b[r := GapStat(b[r].count + 1, b[r].gapSum + g)]
  }

  lemma BucketsStep(primes: seq<int>, lo: nat, hi: nat, m: nat)
    requires m > 0 && lo <= hi && hi + 1 < |primes|
    ensures Buckets(primes, lo, hi + 1, m) == AddTo(Buckets(primes, lo, hi, m), Residue(Anchor(primes, hi), m), Gap(primes, hi))
  {
    var b := Buckets(primes, lo, hi, m);
    var b2 := Buckets(primes, lo, hi + 1, m);
    forall r | 0 <= r < m
      ensures b2[r] == AddTo(b, Residue(Anchor(primes, hi), m), Gap(primes, hi))[r]
    {
    }
  }

  datatype GapResidueResult =
    | PrimeFileTooSmall   // fewer than pairs + start + 1 primes
    | Ran(totalAnchors: nat, mod6: seq<GapStat>, mod30: seq<GapStat>, mod210: seq<GapStat>)

  /** What the script ends with. */
  function GapResidueSpec(primes: seq<int>, start: nat, pairs: nat): GapResidueResult
  {
    if |primes| < pairs + start + 1 then PrimeFileTooSmall
    else Ran(pairs, Buckets(primes, start, start + pairs, P2), Buckets(primes, start, start + pairs, P3), Buckets(primes, start, start + pairs, P4))
  }

  /** The main loop of test-5-gap. */
  method RunGapResidueCorrelation(primes: seq<int>, start: nat, pairs: nat) returns (result: GapResidueResult)
    ensures result == GapResidueSpec(primes, start, pairs)
  {
    if |primes| < pairs + start + 1 {
      return PrimeFileTooSmall;
    }
    var gapStatsMod6 := seq(6, _ => GapStat(0, 0));
    var gapStatsMod30 := seq(30, _ => GapStat(0, 0));
    var gapStatsMod210 := seq(210, _ => GapStat(0, 0));
    assert gapStatsMod6 == Buckets(primes, start, start, P2);
    assert gapStatsMod30 == Buckets(primes, start, start, P3);
    assert gapStatsMod210 == Buckets(primes, start, start, P4);
    var totalAnchorsAnalyzed := 0;
    var loopEndIndex := pairs + start;
    for i := start to loopEndIndex
      invariant totalAnchorsAnalyzed == i - start
      invariant gapStatsMod6 == Buckets(primes, start, i, P2)
      invariant gapStatsMod30 == Buckets(primes, start, i, P3)
      invariant gapStatsMod210 == Buckets(primes, start, i, P4)
    {
      var pN, pNPlus1 := primes[i], primes[i + 1];
      var anchorSn := pN + pNPlus1;
      var gapGn := pNPlus1 - pN;
      totalAnchorsAnalyzed := totalAnchorsAnalyzed + 1;
      var residueMod6, residueMod30, residueMod210 := anchorSn % 6, anchorSn % 30, anchorSn % 210;
      gapStatsMod6 := AddAnchor(gapStatsMod6, primes, start, i, P2, residueMod6, gapGn);
      gapStatsMod30 := AddAnchor(gapStatsMod30, primes, start, i, P3, residueMod30, gapGn);
      gapStatsMod210 := AddAnchor(gapStatsMod210, primes, start, i, P4, residueMod210, gapGn);
    }
    return Ran(totalAnchorsAnalyzed, gapStatsMod6, gapStatsMod30, gapStatsMod210);
  }

  /** One table's update for anchor `i`: its class gains the anchor and its gap. */
  method AddAnchor(b: seq<GapStat>, primes: seq<int>, lo: nat, i: nat, m: nat, residue: int, gap: int)
    returns (b': seq<GapStat>)
    requires m > 0 && lo <= i && i + 1 < |primes|
    requires b == Buckets(primes, lo, i, m)
    requires residue == Residue(Anchor(primes, i), m) && gap == Gap(primes, i)
    ensures b' == Buckets(primes, lo, i + 1, m)
  {
    BucketsStep(primes, lo, i, m);
    b' := AddTo(b, residue, gap);
  }

  /** The anchors of a table. */
  function CountSum(b: seq<GapStat>): nat
  {
    if b == [] then 0 else CountSum(b[..|b| - 1]) + b[|b| - 1].count
  }

  /** `sum(stats['gap_sum'] for stats in gap_stats.values())`. */
  function GapSumOf(b: seq<GapStat>): int
  {
    if b == [] then 0 else GapSumOf(b[..|b| - 1]) + b[|b| - 1].gapSum
  }

  lemma {:induction false} AddToSums(b: seq<GapStat>, r: nat, g: int)
    requires r < |b|
    ensures CountSum(AddTo(b, r, g)) == CountSum(b) + 1
    ensures GapSumOf(AddTo(b, r, g)) == GapSumOf(b) + g
    decreases |b|
  {
    var b2 := AddTo(b, r, g);
    var init := b[..|b| - 1];
    if r == |b| - 1 {
      assert b2[..|b| - 1] == init;
    } else {
      AddToSums(init, r, g);
      assert b2[..|b| - 1] == AddTo(init, r, g);
    }
  }

  lemma {:induction false} EmptyTable(n: nat)
    ensures CountSum(seq(n, _ => GapStat(0, 0))) == 0
    ensures GapSumOf(seq(n, _ => GapStat(0, 0))) == 0
  {
    if n > 0 {
      EmptyTable(n - 1);
      assert seq(n, _ => GapStat(0, 0))[..n - 1] == seq(n - 1, _ => GapStat(0, 0));
    }
  }

  /** Every table counts each anchor once, and its gap sums add up to the total gap of the range,
      which telescopes to p_hi - p_lo: the overall average gap is the same from any modulus. */
  lemma BucketTotals(primes: seq<int>, lo: nat, hi: nat, m: nat)
    requires m > 0 && lo <= hi < |primes|
    ensures CountSum(Buckets(primes, lo, hi, m)) == hi - lo
    ensures GapSumOf(Buckets(primes, lo, hi, m)) == TotalGap(primes, lo, hi) == primes[hi] - primes[lo]
  {
    BucketSums(primes, lo, hi, m);
    GapTelescopes(primes, lo, hi);
  }

  /** The induction behind the totals: each anchor adds one count and its gap to one class. */
  lemma {:induction false} BucketSums(primes: seq<int>, lo: nat, hi: nat, m: nat)
    requires m > 0 && lo <= hi < |primes|
    ensures CountSum(Buckets(primes, lo, hi, m)) == hi - lo
    ensures GapSumOf(Buckets(primes, lo, hi, m)) == TotalGap(primes, lo, hi)
    decreases hi - lo
  {
    if hi == lo {
      assert Buckets(primes, lo, hi, m) == seq(m, _ => GapStat(0, 0));
      EmptyTable(m);
    } else {
      BucketSums(primes, lo, hi - 1, m);
      BucketsStep(primes, lo, hi - 1, m);
      AddToSums(Buckets(primes, lo, hi - 1, m), Residue(Anchor(primes, hi - 1), m), Gap(primes, hi - 1));
    }
  }

  /** The anchor of two odd primes is even, so over odd primes the odd classes of an even
      modulus stay empty. */
  lemma {:induction false} OddClassesEmpty(primes: seq<int>, lo: nat, hi: nat, m: nat, r: int)
    requires m > 0 && m % 2 == 0 && lo <= hi < |primes|
    requires forall j :: lo <= j <= hi ==> primes[j] % 2 == 1
    requires r % 2 == 1
    ensures ClassStat(primes, lo, hi, m, r) == GapStat(0, 0)
    decreases hi - lo
  {
    if hi > lo {
      OddClassesEmpty(primes, lo, hi - 1, m, r);
      OddSumEven(primes[hi - 1], primes[hi]);
      ResidueKeepsParity(Anchor(primes, hi - 1), m);
    }
  }

  /** The classes of a table whose residue is `r1` modulo `m1`, added together. */
  function ClassSum(b: seq<GapStat>, m1: nat, r1: int): GapStat
    requires m1 > 0
  {
    if b == [] then GapStat(0, 0)
    else
      var prev := ClassSum(b[..|b| - 1], m1, r1);
      var last := b[|b| - 1];
      if (|b| - 1) % m1 == r1 then GapStat(prev.count + last.count, prev.gapSum + last.gapSum) else prev
  }

  lemma {:induction false} ClassSumAddTo(b: seq<GapStat>, m1: nat, r1: int, r: nat, g: int)
    requires m1 > 0 && r < |b|
    ensures var before := ClassSum(b, m1, r1);
      ClassSum(AddTo(b, r, g), m1, r1)
      == if r % m1 == r1 then GapStat(before.count + 1, before.gapSum + g) else before
    decreases |b|
  {
    var b2 := AddTo(b, r, g);
    var init := b[..|b| - 1];
    if r == |b| - 1 {
      assert b2[..|b| - 1] == init;
    } else {
      ClassSumAddTo(init, m1, r1, r, g);
      assert b2[..|b| - 1] == AddTo(init, r, g);
    }
  }

  lemma {:induction false} ClassSumEmpty(n: nat, m1: nat, r1: int)
    requires m1 > 0
    ensures ClassSum(seq(n, _ => GapStat(0, 0)), m1, r1) == GapStat(0, 0)
  {
    if n > 0 {
      ClassSumEmpty(n - 1, m1, r1);
      assert seq(n, _ => GapStat(0, 0))[..n - 1] == seq(n - 1, _ => GapStat(0, 0));
    }
  }

  /** A coarser modulus dividing a finer one sees the union of the finer classes: the mod 6 table
      is the mod 30 table folded by residue modulo 6, and likewise 30 into 210. */
  lemma {:induction false} TablesRefine(primes: seq<int>, lo: nat, hi: nat, m1: nat, m2: nat, r1: int)
    requires m1 > 0 && m2 > 0 && m2 % m1 == 0 && lo <= hi < |primes|
    ensures ClassStat(primes, lo, hi, m1, r1) == ClassSum(Buckets(primes, lo, hi, m2), m1, r1)
    decreases hi - lo
  {
    if hi == lo {
      assert Buckets(primes, lo, hi, m2) == seq(m2, _ => GapStat(0, 0));
      ClassSumEmpty(m2, m1, r1);
    } else {
      var s := Anchor(primes, hi - 1);
      TablesRefine(primes, lo, hi - 1, m1, m2, r1);
      BucketsStep(primes, lo, hi - 1, m2);
      ClassSumAddTo(Buckets(primes, lo, hi - 1, m2), m1, r1, Residue(s, m2), Gap(primes, hi - 1));
      ResidueRefines(s, m1, m2);
    }
  }

  /** `sorted(gap_stats.keys())` with the `count == 0` classes skipped: the residues printed. */
  method ReportOrder(b: seq<GapStat>) returns (rows: seq<int>)
    ensures StrictlyIncreasing(rows)
    ensures forall r :: r in rows <==> 0 <= r < |b| && b[r].count > 0
  {
    rows := [];
    for residue := 0 to |b|
      invariant StrictlyIncreasing(rows)
      invariant forall j :: 0 <= j < |rows| ==> rows[j] < residue
      invariant forall r :: r in rows <==> 0 <= r < residue && b[r].count > 0
    {
      var count := b[residue].count;
      if count == 0 {
        continue;
      }
      rows := rows + [residue];
    }
  }
}
