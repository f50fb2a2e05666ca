/** The Law I failure events of a range of anchors, the filters the classifier scripts
    apply to them, and the divisibility argument behind the primorial filter hypothesis. */
module Events {
  import opened Tally
  import opened Search
  import opened Divisibility

  /** One composite failure: anchor index, anchor S, nearest member q, distance k. */
  datatype FailureEvent = FailureEvent(index: nat, s: int, q: int, k: nat)

  /** The cap a script uses for an anchor: one cap everywhere, or a wider one for anchors
      divisible by a modulus (the perfect branch of the mod 2310 test). */
  datatype CapRule = Cap(limit: nat) | WiderWhenPerfect(modulus: nat, perfectLimit: nat, otherLimit: nat)
  {
    function For(s: int): nat
    {
      match this
      case Cap(limit) => limit
      case WiderWhenPerfect(modulus, perfectLimit, otherLimit) =>
        if modulus > 0 && s % modulus == 0 then perfectLimit else otherLimit
    }
  }

  /** The failure, if any, that anchor `i` produces: the search finds a distance and that
      distance passes the composite test. */
  function FailureAt(primes: seq<int>, oracle: set<int>, i: nat, rule: CapRule, probe: Probe): (r: Option<FailureEvent>)
    requires i + 1 < |primes|
    ensures r.Some? ==>
      && r.value.index == i
      && r.value.s == Anchor(primes, i)
      && CompositeFailure(r.value.k, oracle)
      && r.value.k <= rule.For(r.value.s)
      && r.value.q in oracle
      && (r.value.q == r.value.s - r.value.k || r.value.q == r.value.s + r.value.k)
  {
    var s := Anchor(primes, i);
    var o := Nearest(s, rule.For(s), oracle, probe);
    NearestIsNearest(s, rule.For(s), oracle, probe);
    if o.Found? && CompositeFailure(o.k, oracle) then Some(FailureEvent(i, s, o.q, o.k)) else None
  }

  /** A failure exists exactly when the search finds a distance that is a composite failure,
      and it carries the search's distance and neighbour. */
  lemma FailureAtMatchesSearch(primes: seq<int>, oracle: set<int>, i: nat, rule: CapRule, probe: Probe)
    requires i + 1 < |primes|
    ensures var s := Anchor(primes, i);
      var o := Nearest(s, rule.For(s), oracle, probe);
      && (FailureAt(primes, oracle, i, rule, probe).Some? <==> o.Found? && CompositeFailure(o.k, oracle))
      && (FailureAt(primes, oracle, i, rule, probe).Some? ==>
            FailureAt(primes, oracle, i, rule, probe).value == FailureEvent(i, s, o.q, o.k))
  {
  }

  function Emit(o: Option<FailureEvent>): seq<FailureEvent>
  {
    if o.Some? then [o.value] else []
  }

  /** The failures of anchors `lo..hi-1`, in index order. */
  function Failures(primes: seq<int>, oracle: set<int>, lo: nat, hi: nat, rule: CapRule, probe: Probe): seq<FailureEvent>
    requires lo <= hi < |primes|
    decreases hi - lo
  {
    if hi == lo then []
    else Failures(primes, oracle, lo, hi - 1, rule, probe) + Emit(FailureAt(primes, oracle, hi - 1, rule, probe))
  }

  /** An event is listed iff it is the failure of an index in the range (both directions). */
  lemma {:induction false} FailuresMembers(primes: seq<int>, oracle: set<int>, lo: nat, hi: nat, rule: CapRule, probe: Probe)
    requires lo <= hi < |primes|
    ensures forall e :: e in Failures(primes, oracle, lo, hi, rule, probe) <==>
      lo <= e.index < hi && FailureAt(primes, oracle, e.index, rule, probe) == Some(e)
    decreases hi - lo
  {
    if hi > lo {
      FailuresMembers(primes, oracle, lo, hi - 1, rule, probe);
    }
  }

  /** Each anchor yields at most one failure. */
  lemma {:induction false} FailuresAtMostAnchors(primes: seq<int>, oracle: set<int>, lo: nat, hi: nat, rule: CapRule, probe: Probe)
    requires lo <= hi < |primes|
    ensures |Failures(primes, oracle, lo, hi, rule, probe)| <= hi - lo
    decreases hi - lo
  {
    if hi > lo {
      FailuresAtMostAnchors(primes, oracle, lo, hi - 1, rule, probe);
    }
  }

  /** Events listed by strictly increasing anchor index. */
  predicate Ordered(es: seq<FailureEvent>)
  {
    forall a, b :: 0 <= a < b < |es| ==> es[a].index < es[b].index
  }

  /** The listed failures are in strictly increasing index order, one per index at most. */
  lemma {:induction false} FailuresIncreasing(primes: seq<int>, oracle: set<int>, lo: nat, hi: nat, rule: CapRule, probe: Probe)
    requires lo <= hi < |primes|
    ensures Ordered(Failures(primes, oracle, lo, hi, rule, probe))
    decreases hi - lo
  {
    if hi > lo {
      FailuresIncreasing(primes, oracle, lo, hi - 1, rule, probe);
      FailuresMembers(primes, oracle, lo, hi - 1, rule, probe);
      var init := Failures(primes, oracle, lo, hi - 1, rule, probe);
      var f := FailureAt(primes, oracle, hi - 1, rule, probe);
      var es := init + Emit(f);
      assert Failures(primes, oracle, lo, hi, rule, probe) == es;
      forall a, b | 0 <= a < b < |es|
        ensures es[a].index < es[b].index
      {
        assert es[a] == init[a] && init[a] in init;
        if b < |init| {
          assert es[b] == init[b];
        } else {
          assert f.Some? && es[b] == f.value && f.value.index == hi - 1;
          assert lo <= init[a].index < hi - 1;
        }
      }
    }
  }

  /** Python's `s % m` for a positive modulus. */
  function Residue(s: int, m: nat): (r: int)
    requires m > 0
    ensures 0 <= r < m
  {
    s % m
  }

  /** The events whose anchor lies in residue class `r` modulo `m`. */
  function WithResidue(es: seq<FailureEvent>, m: nat, r: int): (out: seq<FailureEvent>)
    requires m > 0
    ensures |out| <= |es|
  {
    if es == [] then []
    else
      var e := es[|es| - 1];
      assert es == es[..|es| - 1] + [e];
      WithResidue(es[..|es| - 1], m, r) + (if Residue(e.s, m) == r then [e] else [])
  }

  /** The primorials P_2, P_3 and P_4, the moduli of the three-grid scripts. */
  const P2: nat := 6
  const P3: nat := 30
  const P4: nat := 210

  /** The odd primes up to 11 that divide the modulus: 3 for 6; 3, 5 for 30; 3, 5, 7 for 210;
      3, 5, 7, 11 for 2310. */
  predicate Forbidden(k: int, m: int)
  {
    || (m % 3 == 0 && k % 3 == 0)
    || (m % 5 == 0 && k % 5 == 0)
    || (m % 7 == 0 && k % 7 == 0)
    || (m % 11 == 0 && k % 11 == 0)
  }

  /** The filters the scripts write out for each modulus. */
  lemma ForbiddenByModulus(k: int)
    ensures Forbidden(k, 6) <==> k % 3 == 0
    ensures Forbidden(k, 30) <==> k % 3 == 0 || k % 5 == 0
    ensures Forbidden(k, 210) <==> k % 3 == 0 || k % 5 == 0 || k % 7 == 0
    ensures Forbidden(k, 2310) <==> k % 3 == 0 || k % 5 == 0 || k % 7 == 0 || k % 11 == 0
  {
  }

  /** The largest of those primes, the bound a neighbour must exceed for the filter argument. */
  function LargestFilterPrime(m: int): nat
  {
    if m % 11 == 0 then 11 else if m % 7 == 0 then 7 else if m % 5 == 0 then 5 else if m % 3 == 0 then 3 else 1
  }

  /** Events from an anchor divisible by `m` whose distance shares a filter prime with `m`. */
  function Violations(es: seq<FailureEvent>, m: nat): (out: seq<FailureEvent>)
    requires m > 0
    ensures |out| <= |es|
  {
    if es == [] then []
    else
      var e := es[|es| - 1];
      assert es == es[..|es| - 1] + [e];
      Violations(es[..|es| - 1], m) + (if Residue(e.s, m) == 0 && Forbidden(e.k, m) then [e] else [])
  }

  /** How many events have distance `k`. */
  function CountK(es: seq<FailureEvent>, k: int): nat
  {
    if es == [] then 0
    else CountK(es[..|es| - 1], k) + (if es[|es| - 1].k == k then 1 else 0)
  }

  /** The `defaultdict(int)` of distances: `table[k] += 1` for each event in turn. */
  function TallyK(es: seq<FailureEvent>): map<int, nat>
  {
    if es == [] then map[] else Inc(TallyK(es[..|es| - 1]), es[|es| - 1].k)
  }

  lemma WithResidueSnoc(es: seq<FailureEvent>, e: FailureEvent, m: nat, r: int)
    requires m > 0
    ensures WithResidue(es + [e], m, r) == WithResidue(es, m, r) + (if Residue(e.s, m) == r then [e] else [])
  {
    assert (es + [e])[..|es|] == es;
  }

  lemma ViolationsSnoc(es: seq<FailureEvent>, e: FailureEvent, m: nat)
    requires m > 0
    ensures Violations(es + [e], m) == Violations(es, m) + (if Residue(e.s, m) == 0 && Forbidden(e.k, m) then [e] else [])
  {
    assert (es + [e])[..|es|] == es;
  }

  lemma TallySnoc(es: seq<FailureEvent>, e: FailureEvent)
    ensures TallyK(es + [e]) == Inc(TallyK(es), e.k)
  {
    assert (es + [e])[..|es|] == es;
  }

  lemma TallyWithResidueSnoc(es: seq<FailureEvent>, e: FailureEvent, m: nat, r: int)
    requires m > 0
    ensures TallyK(WithResidue(es + [e], m, r)) ==
      if Residue(e.s, m) == r then Inc(TallyK(WithResidue(es, m, r)), e.k) else TallyK(WithResidue(es, m, r))
  {
    WithResidueSnoc(es, e, m, r);
    var w := WithResidue(es, m, r);
    if Residue(e.s, m) == r {
      assert WithResidue(es + [e], m, r) == w + [e];
      TallySnoc(w, e);
    } else {
      assert WithResidue(es + [e], m, r) == w;
    }
  }

  lemma CountKSnoc(es: seq<FailureEvent>, e: FailureEvent, k: int)
    ensures CountK(es + [e], k) == CountK(es, k) + (if e.k == k then 1 else 0)
  {
    assert (es + [e])[..|es|] == es;
  }

  /** An event is kept iff its anchor lies in the class (both directions). */
  lemma {:induction false} WithResidueMembers(es: seq<FailureEvent>, m: nat, r: int)
    requires m > 0
    ensures forall e :: e in WithResidue(es, m, r) <==> e in es && Residue(e.s, m) == r
    decreases |es|
  {
    if es != [] {
      var init := es[..|es| - 1];
      var e := es[|es| - 1];
      assert es == init + [e];
      WithResidueMembers(init, m, r);
      WithResidueSnoc(init, e, m, r);
    }
  }

  /** An event is a violation iff its anchor is perfect and its distance is forbidden. */
  lemma {:induction false} ViolationsMembers(es: seq<FailureEvent>, m: nat)
    requires m > 0
    ensures forall e :: e in Violations(es, m) <==> e in es && Residue(e.s, m) == 0 && Forbidden(e.k, m)
    decreases |es|
  {
    if es != [] {
      var init := es[..|es| - 1];
      var e := es[|es| - 1];
      assert es == init + [e];
      ViolationsMembers(init, m);
      ViolationsSnoc(init, e, m);
    }
  }

  /** The tally holds, for every k, the number of events with distance k, and has a key
      exactly for the distances that occur. */
  lemma {:induction false} TallyCounts(es: seq<FailureEvent>)
    ensures forall k :: Count(TallyK(es), k) == CountK(es, k)
    ensures forall k :: k in TallyK(es) <==> CountK(es, k) > 0
    decreases |es|
  {
    if es != [] {
      TallyCounts(es[..|es| - 1]);
    }
  }

  /** A distance occurs among the events iff some event has it. */
  lemma {:induction false} CountKPositive(es: seq<FailureEvent>, k: int)
    ensures CountK(es, k) > 0 <==> exists e :: e in es && e.k == k
    decreases |es|
  {
    if es != [] {
      var init := es[..|es| - 1];
      var e := es[|es| - 1];
      assert es == init + [e];
      CountKPositive(init, k);
      if e.k != k && CountK(es, k) == 0 {
        forall x | x in es ensures x.k != k {
          if x != e { assert x in init; }
        }
      }
    }
  }

  /** The counters of a tally add up to the number of events it was built from. */
  lemma {:induction false} TallyTotal(es: seq<FailureEvent>)
    ensures MapSum(TallyK(es)) == |es|
    decreases |es|
  {
    if es == [] {
    } else {
      TallyTotal(es[..|es| - 1]);
      MapSumInc(TallyK(es[..|es| - 1]), es[|es| - 1].k);
    }
  }

  /** Violations are failures of perfect anchors: the list is never longer than their tally. */
  lemma {:induction false} ViolationsWithinPerfect(es: seq<FailureEvent>, m: nat)
    requires m > 0
    ensures |Violations(es, m)| <= |WithResidue(es, m, 0)| <= |es|
    decreases |es|
  {
    if es != [] {
      ViolationsWithinPerfect(es[..|es| - 1], m);
    }
  }

  /** When `m1` divides `m2`, every anchor perfect for `m2` is perfect for `m1`, so the per-k
      counts of the finer filter never exceed those of the coarser one. */
  lemma {:induction false} NestedPerfectCounts(es: seq<FailureEvent>, m1: nat, m2: nat, k: int)
    requires m1 > 0 && m2 > 0 && m2 % m1 == 0
    ensures Count(TallyK(WithResidue(es, m2, 0)), k) <= Count(TallyK(WithResidue(es, m1, 0)), k)
  {
    NestedPerfectCountK(es, m1, m2, k);
    TallyCounts(WithResidue(es, m1, 0));
    TallyCounts(WithResidue(es, m2, 0));
  }

  lemma {:induction false} NestedPerfectCountK(es: seq<FailureEvent>, m1: nat, m2: nat, k: int)
    requires m1 > 0 && m2 > 0 && m2 % m1 == 0
    ensures CountK(WithResidue(es, m2, 0), k) <= CountK(WithResidue(es, m1, 0), k)
    decreases |es|
  {
    if es != [] {
      var init := es[..|es| - 1];
      var e := es[|es| - 1];
      assert es == init + [e];
      NestedPerfectCountK(init, m1, m2, k);
      var w1 := WithResidue(init, m1, 0);
      var w2 := WithResidue(init, m2, 0);
      var in1 := Residue(e.s, m1) == 0;
      var in2 := Residue(e.s, m2) == 0;
      if in2 {
        DividesTrans(e.s, m1, m2);
      }
      WithResidueSnoc(init, e, m1, 0);
      WithResidueSnoc(init, e, m2, 0);
      CountKSnoc(w1, e, k);
      CountKSnoc(w2, e, k);
      assert WithResidue(es, m1, 0) == if in1 then w1 + [e] else w1;
      assert WithResidue(es, m2, 0) == if in2 then w2 + [e] else w2;
    }
  }

  /** The number of events in residue classes `0..n-1` modulo `m`. */
  function ResidueTotal(es: seq<FailureEvent>, m: nat, n: nat): nat
    requires m > 0
  {
    if n == 0 then 0 else ResidueTotal(es, m, n - 1) + |WithResidue(es, m, n - 1)|
  }

  lemma {:induction false} ResidueTotalSnoc(es: seq<FailureEvent>, e: FailureEvent, m: nat, n: nat)
    requires m > 0
    ensures ResidueTotal(es + [e], m, n) == ResidueTotal(es, m, n) + (if Residue(e.s, m) < n then 1 else 0)
    decreases n
  {
    if n > 0 {
      ResidueTotalSnoc(es, e, m, n - 1);
      WithResidueSnoc(es, e, m, n - 1);
      var r := Residue(e.s, m);
      assert |WithResidue(es + [e], m, n - 1)| == |WithResidue(es, m, n - 1)| + (if r == n - 1 then 1 else 0);
    }
  }

  /** The residue classes modulo `m` partition the events. */
  lemma {:induction false} ResiduePartition(es: seq<FailureEvent>, m: nat)
    requires m > 0
    ensures ResidueTotal(es, m, m) == |es|
    decreases |es|
  {
    if es == [] {
      ResidueTotalEmpty(m, m);
    } else {
      var init := es[..|es| - 1];
      assert es == init + [es[|es| - 1]];
      ResiduePartition(init, m);
      ResidueTotalSnoc(init, es[|es| - 1], m, m);
    }
  }

  lemma {:induction false} ResidueTotalEmpty(m: nat, n: nat)
    requires m > 0
    ensures ResidueTotal([], m, n) == 0
    decreases n
  {
    if n > 0 {
      ResidueTotalEmpty(m, n - 1);
    }
  }

  /** The number of anchors among `lo..hi-1` divisible by `m`. */
  function PerfectAnchors(primes: seq<int>, lo: nat, hi: nat, m: nat): nat
    requires lo <= hi < |primes|
    requires m > 0
    decreases hi - lo
  {
    if hi == lo then 0
    else PerfectAnchors(primes, lo, hi - 1, m) + (if Residue(Anchor(primes, hi - 1), m) == 0 then 1 else 0)
  }

  /** Perfect anchors are counted whether or not their search succeeds, so failures from
      perfect anchors never outnumber them. */
  lemma {:induction false} PerfectFailuresWithinAnchors(primes: seq<int>, oracle: set<int>, lo: nat, hi: nat, rule: CapRule, probe: Probe, m: nat)
    requires lo <= hi < |primes|
    requires m > 0
    ensures |WithResidue(Failures(primes, oracle, lo, hi, rule, probe), m, 0)| <= PerfectAnchors(primes, lo, hi, m)
    decreases hi - lo
  {
    if hi > lo {
      PerfectFailuresWithinAnchors(primes, oracle, lo, hi - 1, rule, probe, m);
      var init := Failures(primes, oracle, lo, hi - 1, rule, probe);
      var f := FailureAt(primes, oracle, hi - 1, rule, probe);
      if f.Some? {
        assert Failures(primes, oracle, lo, hi, rule, probe) == init + [f.value];
        assert f.value.s == Anchor(primes, hi - 1);
        WithResidueSnoc(init, f.value, m, 0);
      } else {
        assert Failures(primes, oracle, lo, hi, rule, probe) == init;
      }
    }
  }

  /** Trial-division primality, for the hypothesis about genuine primes. */
  ghost predicate IsPrimeNumber(n: int)
  {
    n >= 2 && forall d :: 2 <= d < n ==> n % d != 0
  }

  ghost predicate OnlyPrimes(oracle: set<int>)
  {
    forall x :: x in oracle ==> IsPrimeNumber(x)
  }

  /** The primorial filter argument: if S is divisible by `m` and a filter prime p of `m`
      divides k, then p divides q = S +/- k; a genuine prime q above p cannot be a multiple
      of p, so the event is no violation. */
  lemma NoViolationForGenuinePrime(e: FailureEvent, m: nat)
    requires m > 0
    requires IsPrimeNumber(e.q)
    requires e.q == e.s - e.k || e.q == e.s + e.k
    requires e.q > LargestFilterPrime(m)
    ensures !(Residue(e.s, m) == 0 && Forbidden(e.k, m))
  {
    if Residue(e.s, m) == 0 && Forbidden(e.k, m) {
      var p: nat :| p in {3, 5, 7, 11} && m % p == 0 && e.k % p == 0;
      SharedFactor(e.s, e.k, e.q, p, m);
      assert false;
    }
  }

  /** With an oracle of genuine primes and neighbours above the largest filter prime the
      violation list stays empty. */
  lemma NoViolations(primes: seq<int>, oracle: set<int>, lo: nat, hi: nat, rule: CapRule, probe: Probe, m: nat)
    requires lo <= hi < |primes|
    requires m > 0
    requires OnlyPrimes(oracle)
    requires forall e :: e in Failures(primes, oracle, lo, hi, rule, probe) ==> e.q > LargestFilterPrime(m)
    ensures Violations(Failures(primes, oracle, lo, hi, rule, probe), m) == []
  {
    var es := Failures(primes, oracle, lo, hi, rule, probe);
    FailuresMembers(primes, oracle, lo, hi, rule, probe);
    ViolationsMembers(es, m);
    forall e | e in es
      ensures !(Residue(e.s, m) == 0 && Forbidden(e.k, m))
    {
      NoViolationForGenuinePrime(e, m);
    }
    if Violations(es, m) != [] {
      assert Violations(es, m)[0] in Violations(es, m);
    }
  }
}
