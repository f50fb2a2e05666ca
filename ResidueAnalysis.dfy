/** The mod 30 residue analysis of test-3: composite failures are tallied by k in one table per
    residue class S % 30; the report lists the reachable residues of sums of two primes above 5,
    checks class 0 for distances divisible by 3 or 5, and ranks each class's distances. */
module ResidueAnalysis {
  import opened Tally
  import opened Search
  import opened Events
  import opened Ranking
  import opened Divisibility

  const MODULUS: nat := 30

  /** The residues modulo 30 of primes above 5. */
  const PRIME_RESIDUES: seq<int> := [1, 7, 11, 13, 17, 19, 23, 29]

  /** Rows shown per class. */
  const TOP_ROWS: nat := 5

  /** The even residues modulo 30, in increasing order: 0, 2, ..., 28. */
  const EVEN_RESIDUES: seq<int> := seq(15, n => 2 * n)

  function ResidueFailures(primes: seq<int>, oracle: set<int>, start: nat, hi: nat): seq<FailureEvent>
    requires start <= hi < |primes|
  {
    Failures(primes, oracle, start, hi, Cap(DEFAULT_CAP), Unguarded)
  }

  /** `failures_by_residue`: for each residue class, the tally of the distances of its failures. */
  function Buckets(es: seq<FailureEvent>): (b: seq<map<int, nat>>)
    ensures |b| == MODULUS
  {
    seq(MODULUS, r => TallyK(WithResidue(es, MODULUS, r)))
  }

  /** One more failure increments its own class's table at its distance and no other. */
  lemma BucketsSnoc(es: seq<FailureEvent>, e: FailureEvent)
    ensures var r := Residue(e.s, MODULUS);
      Buckets(es + [e]) == Buckets(es)[r := Inc(Buckets(es)[r], e.k)]
  {
    var r := Residue(e.s, MODULUS);
    forall c | 0 <= c < MODULUS
      ensures Buckets(es + [e])[c] == Buckets(es)[r := Inc(Buckets(es)[r], e.k)][c]
    {
      TallyWithResidueSnoc(es, e, MODULUS, c);
    }
  }

  /** Anchor `i` adds its failure to its class, if the search ends at a composite distance. */
  lemma ResidueStep(primes: seq<int>, oracle: set<int>, start: nat, i: nat, o: SearchOutcome)
    requires start <= i && i + 1 < |primes|
    requires o == Nearest(Anchor(primes, i), DEFAULT_CAP, oracle, Unguarded)
    ensures var es := ResidueFailures(primes, oracle, start, i);
      var next := ResidueFailures(primes, oracle, start, i + 1);
      var r := Residue(Anchor(primes, i), MODULUS);
      if o.Found? && CompositeFailure(o.k, oracle)
      then |next| == |es| + 1 && Buckets(next) == Buckets(es)[r := Inc(Buckets(es)[r], o.k)]
      else next == es
  {
    var es := ResidueFailures(primes, oracle, start, i);
    var f := FailureAt(primes, oracle, i, Cap(DEFAULT_CAP), Unguarded);
    FailureAtMatchesSearch(primes, oracle, i, Cap(DEFAULT_CAP), Unguarded);
    assert ResidueFailures(primes, oracle, start, i + 1) == es + Emit(f);
    if f.Some? {
      BucketsSnoc(es, f.value);
    } else {
      assert es + Emit(f) == es;
    }
  }

  /** The main loop of test-3. The prime file holds at least `pairs + start + 10` primes. */
  method RunResidueAnalysis(primes: seq<int>, oracle: set<int>, start: nat, pairs: nat)
    returns (totalFailures: nat, failuresByResidue: seq<map<int, nat>>)
    requires |primes| >= pairs + start + 10
    ensures totalFailures == |ResidueFailures(primes, oracle, start, start + pairs)|
    ensures failuresByResidue == Buckets(ResidueFailures(primes, oracle, start, start + pairs))
  {
    totalFailures := 0;
    failuresByResidue := seq(MODULUS, _ => map[]);
    assert failuresByResidue == Buckets([]);
    for i := start to start + pairs
      invariant totalFailures == |ResidueFailures(primes, oracle, start, i)|
      invariant failuresByResidue == Buckets(ResidueFailures(primes, oracle, start, i))
    {
      totalFailures, failuresByResidue := ClassifyAnchor(primes, oracle, start, i, totalFailures, failuresByResidue);
    }
  }

  /** The loop body for anchor `i`: search, skip a capped search, and record a composite
      distance in the table of the anchor's class. */
  method ClassifyAnchor(primes: seq<int>, oracle: set<int>, start: nat, i: nat, total: nat, tables: seq<map<int, nat>>)
    returns (totalFailures: nat, failuresByResidue: seq<map<int, nat>>)
    requires start <= i && i + 1 < |primes|
    requires total == |ResidueFailures(primes, oracle, start, i)|
    requires tables == Buckets(ResidueFailures(primes, oracle, start, i))
    ensures totalFailures == |ResidueFailures(primes, oracle, start, i + 1)|
    ensures failuresByResidue == Buckets(ResidueFailures(primes, oracle, start, i + 1))
  {
    totalFailures, failuresByResidue := total, tables;
    var s := primes[i] + primes[i + 1];
    var o := FindNearest(s, DEFAULT_CAP, oracle, Unguarded);
    ResidueStep(primes, oracle, start, i, o);
    if o.Capped? {
      return;
    }
    if o.k > 1 && o.k !in oracle {
      totalFailures := totalFailures + 1;
      var residueMod30 := s % 30;
      failuresByResidue := failuresByResidue[residueMod30 := Inc(failuresByResidue[residueMod30], o.k)];
    }
  }

  /** The sum of the tables' totals over classes `0..n-1`. */
  ghost function BucketSum(b: seq<map<int, nat>>, n: nat): int
    requires n <= |b|
  {
    if n == 0 then 0 else BucketSum(b, n - 1) + MapSum(b[n - 1])
  }

  lemma {:induction false} BucketSumIsResidueTotal(es: seq<FailureEvent>, n: nat)
    requires n <= MODULUS
    ensures BucketSum(Buckets(es), n) == ResidueTotal(es, MODULUS, n)
    decreases n
  {
    if n > 0 {
      BucketSumIsResidueTotal(es, n - 1);
      TallyTotal(WithResidue(es, MODULUS, n - 1));
    }
  }

  /** The classes partition the failures: the class totals add up to the overall total. */
  lemma ClassTotalsAddUp(es: seq<FailureEvent>)
    ensures BucketSum(Buckets(es), MODULUS) == |es|
  {
    BucketSumIsResidueTotal(es, MODULUS);
    ResiduePartition(es, MODULUS);
  }

  /** A class's table has key k iff some failure of that class has distance k, and counts them. */
  lemma BucketKeys(es: seq<FailureEvent>, r: nat, k: int)
    requires r < MODULUS
    ensures Count(Buckets(es)[r], k) == CountK(WithResidue(es, MODULUS, r), k)
    ensures k in Buckets(es)[r] <==> exists e :: e in es && Residue(e.s, MODULUS) == r && e.k == k
  {
    var w := WithResidue(es, MODULUS, r);
    TallyCounts(w);
    CountKPositive(w, k);
    WithResidueMembers(es, MODULUS, r);
  }

  /** Every key of every table is a composite distance within the cap. */
  lemma BucketKeysComposite(primes: seq<int>, oracle: set<int>, start: nat, pairs: nat, r: nat, k: int)
    requires start + pairs < |primes|
    requires r < MODULUS
    requires k in Buckets(ResidueFailures(primes, oracle, start, start + pairs))[r]
    ensures CompositeFailure(k, oracle) && k <= DEFAULT_CAP
  {
    var es := ResidueFailures(primes, oracle, start, start + pairs);
    BucketKeys(es, r, k);
    FailuresMembers(primes, oracle, start, start + pairs, Cap(DEFAULT_CAP), Unguarded);
  }

  /** The anchor of two odd primes is even, so when the primes of the range are odd the tables
      of the odd classes stay empty. */
  lemma OddClassesEmpty(primes: seq<int>, oracle: set<int>, start: nat, pairs: nat, r: nat)
    requires start + pairs < |primes|
    requires forall j :: start <= j <= start + pairs ==> primes[j] % 2 == 1
    requires r < MODULUS && r % 2 == 1
    ensures Buckets(ResidueFailures(primes, oracle, start, start + pairs))[r] == map[]
  {
    var es := ResidueFailures(primes, oracle, start, start + pairs);
    FailuresMembers(primes, oracle, start, start + pairs, Cap(DEFAULT_CAP), Unguarded);
    WithResidueMembers(es, MODULUS, r);
    forall e | e in es
      ensures Residue(e.s, MODULUS) != r
    {
      assert e.s == primes[e.index] + primes[e.index + 1];
      OddSumEven(primes[e.index], primes[e.index + 1]);
      ResidueKeepsParity(e.s, MODULUS);
    }
  }

  /** The set `{(r1 + r2) % 30 for r1, r2 in prime_residues}`. */
  function PairSums(): set<int>
  {
    set i, j | 0 <= i < |PRIME_RESIDUES| && 0 <= j < |PRIME_RESIDUES| :: (PRIME_RESIDUES[i] + PRIME_RESIDUES[j]) % 30
  }

  /** A pair of prime residues contributes its sum. */
  lemma PairIn(i: nat, j: nat, x: int)
    requires i < |PRIME_RESIDUES| && j < |PRIME_RESIDUES|
    requires x == (PRIME_RESIDUES[i] + PRIME_RESIDUES[j]) % 30
    ensures x in PairSums()
  {
  }

  lemma PrimeResidueOdd(i: nat)
    requires i < |PRIME_RESIDUES|
    ensures PRIME_RESIDUES[i] % 2 == 1
  {
    if i == 0 {} else if i == 1 {} else if i == 2 {} else if i == 3 {}
    else if i == 4 {} else if i == 5 {} else if i == 6 {} else {}
  }

  /** Every pair sum is an even residue: both residues are odd and 30 is even. */
  lemma PairSumsEven(x: int)
    requires x in PairSums()
    ensures x in EVEN_RESIDUES
  {
    var i, j :| 0 <= i < |PRIME_RESIDUES| && 0 <= j < |PRIME_RESIDUES| && x == (PRIME_RESIDUES[i] + PRIME_RESIDUES[j]) % 30;
    var a, b := PRIME_RESIDUES[i], PRIME_RESIDUES[j];
    PrimeResidueOdd(i);
    PrimeResidueOdd(j);
    OddSumEven(a, b);
    ResidueKeepsParity(a + b, 30);
    assert EVEN_RESIDUES[x / 2] == x;
  }

  /** The even residues 0 .. 8 are pair sums: 1+29, 1+1, 11+23, 7+29, 1+7. */
  lemma LowEvenResiduesReached(n: nat)
    requires n < 5
    ensures 2 * n in PairSums()
  {
    if n == 0 { PairIn(0, 7, 0); } else if n == 1 { PairIn(0, 0, 2); } else if n == 2 { PairIn(2, 6, 4); }
    else if n == 3 { PairIn(1, 7, 6); } else { PairIn(0, 1, 8); }
  }

  /** The even residues 10 .. 18 are pair sums: 11+29, 1+11, 1+13, 17+29, 1+17. */
  lemma MiddleEvenResiduesReached(n: nat)
    requires 5 <= n < 10
    ensures 2 * n in PairSums()
  {
    if n == 5 { PairIn(2, 7, 10); } else if n == 6 { PairIn(0, 2, 12); } else if n == 7 { PairIn(0, 3, 14); }
    else if n == 8 { PairIn(4, 7, 16); } else { PairIn(0, 4, 18); }
  }

  /** The even residues 20 .. 28 are pair sums: 1+19, 23+29, 1+23, 7+19, 11+17. */
  lemma HighEvenResiduesReached(n: nat)
    requires 10 <= n < 15
    ensures 2 * n in PairSums()
  {
    if n == 10 { PairIn(0, 5, 20); } else if n == 11 { PairIn(6, 7, 22); } else if n == 12 { PairIn(0, 6, 24); }
    else if n == 13 { PairIn(1, 5, 26); } else { PairIn(2, 4, 28); }
  }

  lemma EvenResiduesReached()
    ensures forall x :: x in EVEN_RESIDUES ==> x in PairSums()
  {
    forall n | 0 <= n < |EVEN_RESIDUES|
      ensures EVEN_RESIDUES[n] in PairSums()
    {
      assert EVEN_RESIDUES[n] == 2 * n;
      if n < 5 {
        LowEvenResiduesReached(n);
      } else if n < 10 {
        MiddleEvenResiduesReached(n);
      } else {
        HighEvenResiduesReached(n);
      }
    }
  }

  /** Sums of two residues of primes above 5 reach exactly the even residues. */
  lemma PairSumsAreEvenResidues()
    ensures forall x :: x in PairSums() <==> x in EVEN_RESIDUES
  {
    EvenResiduesReached();
    forall x | x in PairSums()
      ensures x in EVEN_RESIDUES
    {
      PairSumsEven(x);
    }
  }

  /** `possible_S_n_residues`: the nested loop over the prime residues, then `sorted(set(...))`.
      The result is the fifteen even residues in increasing order. */
  method PossibleResidues() returns (residues: seq<int>)
    ensures StrictlyIncreasing(residues)
    ensures forall x :: x in residues <==> x in PairSums()
    ensures residues == EVEN_RESIDUES
  {
    var possible: seq<int> := [];
    for a := 0 to |PRIME_RESIDUES|
      invariant forall x :: x in possible <==>
        exists i, j :: 0 <= i < a && 0 <= j < |PRIME_RESIDUES| && x == (PRIME_RESIDUES[i] + PRIME_RESIDUES[j]) % 30
    {
      for b := 0 to |PRIME_RESIDUES|
        invariant forall x :: x in possible <==>
          || (exists i, j :: 0 <= i < a && 0 <= j < |PRIME_RESIDUES| && x == (PRIME_RESIDUES[i] + PRIME_RESIDUES[j]) % 30)
          || (exists j :: 0 <= j < b && x == (PRIME_RESIDUES[a] + PRIME_RESIDUES[j]) % 30)
      {
        possible := possible + [(PRIME_RESIDUES[a] + PRIME_RESIDUES[b]) % 30];
      }
    }
    residues := Ascending(set x | x in possible);
    PairSumsAreEvenResidues();
    assert StrictlyIncreasing(EVEN_RESIDUES);
    IncreasingUnique(residues, EVEN_RESIDUES);
  }

  /** `forbidden_k_found`: the distances of a table divisible by 3 or 5. */
  function ForbiddenFound(table: map<int, nat>): set<int>
  {
    set k | k in table && (k % 3 == 0 || k % 5 == 0)
  }

  /** In class 0 a distance is reported as forbidden iff it is the distance of a mod 30 violation. */
  lemma ForbiddenFoundExact(es: seq<FailureEvent>, k: int)
    ensures k in ForbiddenFound(Buckets(es)[0]) <==> exists e :: e in Violations(es, MODULUS) && e.k == k
  {
    BucketKeys(es, 0, k);
    ViolationsMembers(es, MODULUS);
    ForbiddenByModulus(k);
  }

  /** With genuine primes and neighbours above 5, class 0 reports no forbidden distance. */
  lemma NoForbiddenForGenuinePrimes(primes: seq<int>, oracle: set<int>, start: nat, pairs: nat)
    requires start + pairs < |primes|
    requires OnlyPrimes(oracle)
    requires forall e :: e in ResidueFailures(primes, oracle, start, start + pairs) ==> e.q > 5
    ensures ForbiddenFound(Buckets(ResidueFailures(primes, oracle, start, start + pairs))[0]) == {}
  {
    var es := ResidueFailures(primes, oracle, start, start + pairs);
    assert LargestFilterPrime(MODULUS) == 5;
    NoViolations(primes, oracle, start, start + pairs, Cap(DEFAULT_CAP), Unguarded, MODULUS);
    assert Violations(es, MODULUS) == [];
    forall k | k in ForbiddenFound(Buckets(es)[0])
      ensures false
    {
      ForbiddenFoundExact(es, k);
    }
  }

  /** What the report prints for one class: its total, whether an empty class is flagged as not
      expected, the forbidden distances (class 0 only), and the ranking with its first rows. */
  datatype ClassSummary = ClassSummary(
    total: int,
    unexpected: bool,
    forbidden: Option<set<int>>,
    ranking: seq<int>,
    top: seq<int>,
    more: bool)

  ghost predicate Summarizes(c: ClassSummary, residue: int, table: map<int, nat>, possible: seq<int>)
  {
    && c.total == MapSum(table)
    && (c.unexpected <==> table == map[] && residue !in possible && residue != 0)
    && (c.forbidden.Some? <==> table != map[] && residue == 0)
    && (c.forbidden.Some? ==> c.forbidden.value == ForbiddenFound(table))
    && IsRanking(c.ranking, table)
    && |c.ranking| == |table|
    && c.top == c.ranking[..Min(TOP_ROWS, |table|)]
    && (c.more <==> |table| > TOP_ROWS)
  }

  method SummarizeClass(residue: int, table: map<int, nat>, possible: seq<int>) returns (c: ClassSummary)
    ensures Summarizes(c, residue, table, possible)
  {
    var sortedK, top := Leaders(table, TOP_ROWS);
    EnumerationSum(sortedK, table);
    var total := SumOver(sortedK, table);
    var unexpected := false;
    var forbidden: Option<set<int>> := None;
    if table == map[] {
      if residue !in possible && residue != 0 {
        unexpected := true;
      }
    } else if residue == 0 {
      forbidden := Some(set k | k in table && (k % 3 == 0 || k % 5 == 0));
    }
    c := ClassSummary(total, unexpected, forbidden, sortedK, top, |sortedK| > TOP_ROWS);
  }

  /** The per-class part of the report, for residues 0..29 in order. */
  method ResidueReport(failuresByResidue: seq<map<int, nat>>) returns (classes: seq<ClassSummary>)
    requires |failuresByResidue| == MODULUS
    ensures |classes| == MODULUS
    ensures forall r :: 0 <= r < MODULUS ==> Summarizes(classes[r], r, failuresByResidue[r], EVEN_RESIDUES)
  {
    var possible := PossibleResidues();
    classes := [];
    for residue := 0 to MODULUS
      invariant |classes| == residue
      invariant forall r :: 0 <= r < residue ==> Summarizes(classes[r], r, failuresByResidue[r], EVEN_RESIDUES)
    {
      var c := SummarizeClass(residue, failuresByResidue[residue], possible);
      classes := classes + [c];
    }
  }

  /** An empty class is flagged as not expected exactly when its residue is odd. */
  lemma UnexpectedIffOdd(c: ClassSummary, residue: int, table: map<int, nat>)
    requires 0 <= residue < MODULUS
    requires Summarizes(c, residue, table, EVEN_RESIDUES)
    requires table == map[]
    ensures c.unexpected <==> residue % 2 == 1
  {
    if residue % 2 == 0 {
      assert EVEN_RESIDUES[residue / 2] == residue;
    }
  }

  /** The class totals of the report add up to the overall number of failures. */
  ghost function ReportTotal(classes: seq<ClassSummary>, n: nat): int
    requires n <= |classes|
  {
    if n == 0 then 0 else ReportTotal(classes, n - 1) + classes[n - 1].total
  }

  lemma {:induction false} ReportTotalIsBucketSum(classes: seq<ClassSummary>, b: seq<map<int, nat>>, n: nat)
    requires n <= |classes| == |b| == MODULUS
    requires forall r :: 0 <= r < MODULUS ==> Summarizes(classes[r], r, b[r], EVEN_RESIDUES)
    ensures ReportTotal(classes, n) == BucketSum(b, n)
    decreases n
  {
    if n > 0 {
      ReportTotalIsBucketSum(classes, b, n - 1);
    }
  }

  lemma ReportAddsUp(primes: seq<int>, oracle: set<int>, start: nat, pairs: nat, classes: seq<ClassSummary>)
    requires start + pairs < |primes|
    requires var b := Buckets(ResidueFailures(primes, oracle, start, start + pairs));
      |classes| == MODULUS && forall r :: 0 <= r < MODULUS ==> Summarizes(classes[r], r, b[r], EVEN_RESIDUES)
    ensures ReportTotal(classes, MODULUS) == |ResidueFailures(primes, oracle, start, start + pairs)|
  {
    var es := ResidueFailures(primes, oracle, start, start + pairs);
    ReportTotalIsBucketSum(classes, Buckets(es), MODULUS);
    ClassTotalsAddUp(es);
  }
}
