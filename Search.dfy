/** The anchor S = p_i + p_{i+1}, the capped nearest-prime search around it, and the Law I
    classification of the distance it finds. The membership oracle is an abstract set. */
module Search {

  datatype Option<T> = None | Some(value: T)

  /** Outcome of one capped search: distance `k` and neighbour `q`, or nothing within the cap. */
  datatype SearchOutcome = Found(k: nat, q: int) | Capped
  {
    /** The scripts' `min_distance_k`, where 0 stands for "not found". */
    function KMin(): nat
    {
      if Found? then k else 0
    }
  }

  /** The acceptance test a script applies to a candidate before or instead of plain membership. */
  datatype Probe =
    | Unguarded      // `q in prime_set` on both sides
    | LowerAboveOne  // `q_lower > 1 and q_lower in prime_set`, upper side plain
    | PrimeChecked   // `is_prime(q, prime_set)` on both sides

  /** The search caps written in the scripts. */
  const DEFAULT_CAP: nat := 2000
  const WIDE_CAP: nat := 3000

  function Anchor(primes: seq<int>, i: nat): int
    requires i + 1 < |primes|
  {
    primes[i] + primes[i + 1]
  }

  function Gap(primes: seq<int>, i: nat): int
    requires i + 1 < |primes|
  {
    primes[i + 1] - primes[i]
  }

  function Abs(x: int): nat
  {
    if x < 0 then -x else x
  }

  /** `is_prime(num, prime_set)`: values below 2 are never prime, others are asked of the set. */
  predicate IsPrime(num: int, oracle: set<int>)
  {
    if num < 2 then false else num in oracle
  }

  /** `is_clean_k(k_val, prime_set)`: a distance of 1 or a prime distance. */
  predicate IsCleanK(k: int, oracle: set<int>)
  {
    if k == 1 then true else if k < 2 then false else k in oracle
  }

  /** The Law I failure test `(k > 1) and (k not in prime_set)`. */
  predicate CompositeFailure(k: int, oracle: set<int>)
  {
    k > 1 && k !in oracle
  }

  /** Whether the candidate below the anchor at distance `d` is accepted. */
  predicate LowerHit(s: int, d: int, oracle: set<int>, probe: Probe)
  {
    match probe
    case Unguarded => s - d in oracle
    case LowerAboveOne => s - d > 1 && s - d in oracle
    case PrimeChecked => IsPrime(s - d, oracle)
  }

  /** Whether the candidate above the anchor at distance `d` is accepted. */
  predicate UpperHit(s: int, d: int, oracle: set<int>, probe: Probe)
  {
    match probe
    case PrimeChecked => IsPrime(s + d, oracle)
    case _ => s + d in oracle
  }

  predicate HitAt(s: int, d: int, oracle: set<int>, probe: Probe)
  {
    LowerHit(s, d, oracle, probe) || UpperHit(s, d, oracle, probe)
  }

  /** The search from distance `d` on: lower candidate first, then upper, up to `cap`. */
  function NearestFrom(s: int, d: nat, cap: nat, oracle: set<int>, probe: Probe): SearchOutcome
    requires 1 <= d
    decreases cap + 1 - d
  {
    if d > cap then Capped
    else if LowerHit(s, d, oracle, probe) then Found(d, s - d)
    else if UpperHit(s, d, oracle, probe) then Found(d, s + d)
    else NearestFrom(s, d + 1, cap, oracle, probe)
  }

  /** What every search variant computes for anchor `s`: distances 1..cap, lower side first. */
  function Nearest(s: int, cap: nat, oracle: set<int>, probe: Probe): SearchOutcome
  {
    NearestFrom(s, 1, cap, oracle, probe)
  }

  /** The contract of the search: a found distance is the least accepted one within the cap,
      its neighbour is accepted, and a tie goes to the lower candidate; a capped search
      saw no accepted candidate at any distance 1..cap. */
  ghost predicate IsNearest(o: SearchOutcome, s: int, cap: nat, oracle: set<int>, probe: Probe)
  {
    match o
    case Found(k, q) =>
      && 1 <= k <= cap
      && (forall d :: 1 <= d < k ==> !HitAt(s, d, oracle, probe))
      && (if LowerHit(s, k, oracle, probe) then q == s - k
          else UpperHit(s, k, oracle, probe) && q == s + k)
    case Capped =>
      forall d :: 1 <= d <= cap ==> !HitAt(s, d, oracle, probe)
  }

  lemma {:induction false} NearestFromIsNearest(s: int, d: nat, cap: nat, oracle: set<int>, probe: Probe)
    requires 1 <= d <= cap + 1
    requires forall e :: 1 <= e < d ==> !HitAt(s, e, oracle, probe)
    ensures IsNearest(NearestFrom(s, d, cap, oracle, probe), s, cap, oracle, probe)
    decreases cap + 1 - d
  {
    if d <= cap && !LowerHit(s, d, oracle, probe) && !UpperHit(s, d, oracle, probe) {
      NearestFromIsNearest(s, d + 1, cap, oracle, probe);
    }
  }

  /** The search meets its contract. */
  lemma NearestIsNearest(s: int, cap: nat, oracle: set<int>, probe: Probe)
    ensures IsNearest(Nearest(s, cap, oracle, probe), s, cap, oracle, probe)
  {
    NearestFromIsNearest(s, 1, cap, oracle, probe);
  }

  /** The contract leaves no freedom: at most one outcome meets it. */
  lemma NearestIsUnique(o1: SearchOutcome, o2: SearchOutcome, s: int, cap: nat, oracle: set<int>, probe: Probe)
    requires IsNearest(o1, s, cap, oracle, probe)
    requires IsNearest(o2, s, cap, oracle, probe)
    ensures o1 == o2
  {
    if o1.Found? && o2.Found? {
      assert HitAt(s, o1.k, oracle, probe) && HitAt(s, o2.k, oracle, probe);
    } else if o1.Found? {
      assert HitAt(s, o1.k, oracle, probe);
    } else if o2.Found? {
      assert HitAt(s, o2.k, oracle, probe);
    }
  }

  /** Every accepted neighbour is a member of the oracle, at the found distance. */
  lemma FoundNeighbourInOracle(s: int, cap: nat, oracle: set<int>, probe: Probe)
    requires Nearest(s, cap, oracle, probe).Found?
    ensures var o := Nearest(s, cap, oracle, probe);
      && o.q in oracle
      && Abs(o.q - s) == o.k
      && (o.q == s - o.k || o.q == s + o.k)
  {
    NearestIsNearest(s, cap, oracle, probe);
  }

  /** The search loop of test-2, test-3, test-4 (perfect branch), test-5-data and test-6:
      probe at distance d, then step and stop once d exceeds the cap. */
  method FindNearest(s: int, cap: nat, oracle: set<int>, probe: Probe) returns (o: SearchOutcome)
    requires cap >= 1
    ensures o == Nearest(s, cap, oracle, probe)
    ensures IsNearest(o, s, cap, oracle, probe)
  {
    NearestIsNearest(s, cap, oracle, probe);
    var searchDist := 1;
    while true
      invariant 1 <= searchDist <= cap
      invariant NearestFrom(s, searchDist, cap, oracle, probe) == Nearest(s, cap, oracle, probe)
      decreases cap - searchDist
    {
      var qLower := s - searchDist;
      var qUpper := s + searchDist;
      if LowerHit(s, searchDist, oracle, probe) {
        return Found(searchDist, qLower);
      }
      if UpperHit(s, searchDist, oracle, probe) {
        return Found(searchDist, qUpper);
      }
      searchDist := searchDist + 1;
      if searchDist > cap {
        return Capped;
      }
    }
  }

  /** The search loop of analyze_composite_k_distribution: the cap is tested before each probe,
      both candidates go through `is_prime`. */
  method FindNearestCapFirst(s: int, cap: nat, oracle: set<int>) returns (o: SearchOutcome)
    ensures o == Nearest(s, cap, oracle, PrimeChecked)
    ensures IsNearest(o, s, cap, oracle, PrimeChecked)
  {
    NearestIsNearest(s, cap, oracle, PrimeChecked);
    var searchDist := 1;
    while true
      invariant 1 <= searchDist <= cap + 1
      invariant NearestFrom(s, searchDist, cap, oracle, PrimeChecked) == Nearest(s, cap, oracle, PrimeChecked)
      decreases cap + 1 - searchDist
    {
      if searchDist > cap {
        return Capped;
      }
      var qLower := s - searchDist;
      var qUpper := s + searchDist;
      if IsPrime(qLower, oracle) {
        return Found(searchDist, qLower);
      }
      if IsPrime(qUpper, oracle) {
        return Found(searchDist, qUpper);
      }
      searchDist := searchDist + 1;
    }
  }

  /** The non-perfect branch of test-4: one `or` test per distance, only the distance is kept.
      It finds the same distance as the lower-first search. */
  method FindDistance(s: int, cap: nat, oracle: set<int>) returns (k: nat)
    requires cap >= 1
    ensures k == Nearest(s, cap, oracle, Unguarded).KMin()
    ensures k == 0 <==> forall d :: 1 <= d <= cap ==> !HitAt(s, d, oracle, Unguarded)
    ensures k > 0 ==> k <= cap && (s - k in oracle || s + k in oracle)
  {
    NearestIsNearest(s, cap, oracle, Unguarded);
    k := 0;
    var searchDist := 1;
    while true
      invariant 1 <= searchDist <= cap
      invariant NearestFrom(s, searchDist, cap, oracle, Unguarded) == Nearest(s, cap, oracle, Unguarded)
      decreases cap - searchDist
    {
      var qLower := s - searchDist;
      var qUpper := s + searchDist;
      if qLower in oracle || qUpper in oracle {
        assert HitAt(s, searchDist, oracle, Unguarded);
        k := searchDist;
        return;
      }
      searchDist := searchDist + 1;
      if searchDist > cap {
        return;
      }
    }
  }

  /** For a found distance (k >= 1) the three Law I tests of the scripts agree: success by
      `k == 1 or is_prime(k)`, by `is_clean_k(k)`, and the complement of `CompositeFailure`. */
  lemma LawITestsAgree(k: nat, oracle: set<int>)
    requires k >= 1
    ensures (k == 1 || IsPrime(k, oracle)) <==> !CompositeFailure(k, oracle)
    ensures IsCleanK(k, oracle) <==> !CompositeFailure(k, oracle)
  {
  }

  /** With no member of the set below 2, `is_prime` on both candidates is plain membership, so
      the analyze script's search finds the same outcome as the other scripts' search. */
  lemma PrimeCheckedIsUnguarded(s: int, cap: nat, oracle: set<int>)
    requires forall x :: x in oracle ==> x >= 2
    ensures Nearest(s, cap, oracle, PrimeChecked) == Nearest(s, cap, oracle, Unguarded)
  {
    NearestFromProbesAgree(s, 1, cap, oracle);
  }

  lemma {:induction false} NearestFromProbesAgree(s: int, d: nat, cap: nat, oracle: set<int>)
    requires 1 <= d
    requires forall x :: x in oracle ==> x >= 2
    ensures NearestFrom(s, d, cap, oracle, PrimeChecked) == NearestFrom(s, d, cap, oracle, Unguarded)
    decreases cap + 1 - d
  {
    if d <= cap {
      assert LowerHit(s, d, oracle, PrimeChecked) == LowerHit(s, d, oracle, Unguarded);
      assert UpperHit(s, d, oracle, PrimeChecked) == UpperHit(s, d, oracle, Unguarded);
      NearestFromProbesAgree(s, d + 1, cap, oracle);
    }
  }

  /** The analyze script's `is_prime` and the plain membership test differ only below 2, and
      `is_clean_k` differs from `is_prime` only at 1. */
  lemma IsPrimeIsGuardedMembership(num: int, oracle: set<int>)
    ensures IsPrime(num, oracle) <==> num >= 2 && num in oracle
    ensures IsCleanK(num, oracle) <==> num == 1 || IsPrime(num, oracle)
  {
  }
}
