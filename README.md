# Primorial Anchor Conjecture test scripts, modelled in Dafny

The repository's test scripts study the anchors S_n = p_n + p_{n+1} of consecutive primes.
For each anchor they search outward for the nearest member q of the prime set, at distance
1, 2, ... up to a safety cap. At each distance the lower candidate is tried first. The distance k
they find is a *Law I failure* when it is composite, that is `k > 1 and k not in prime_set`.
Each script then classifies, tallies or correlates these failures:

- **test-1 (composite failure rate).** Each prime q above 7 is measured against the nearest
  multiple of 6, 30 and 210. The script counts failures per grid and asks whether the rate falls
  as the primorial grows.
- **test-2 (classifier suite).** Failures at anchors divisible by 6, 30 or 210 are tallied by k.
  They are listed as violations when k shares an odd prime factor with the modulus.
- **test-3 (residue analysis).** Failures are tallied by k within each residue class S mod 30.
  The report lists the residues that sums of two primes above 5 can take. It also lists the
  forbidden distances of class 0 and ranks each class's distances.
- **test-4 (mod 2310).** Anchors divisible by 2310 are counted and searched with cap 3000. Their
  failures are tallied, and they are violations when k is divisible by 3, 5, 7 or 11. All other
  anchors only add to the failure count.
- **test-5-data (Law III correlation).** Each failure has a Law III fix: the nearest anchor
  S_{n-r} or S_{n+r}, with r from 1 to 30, whose distance to q is 1 or prime. The fix is recorded
  with the residues of both anchors. The first failure with no fix stops the run.
- **test-5-gap (gap versus residue).** Each anchor adds its gap p_{n+1} - p_n to its residue
  class modulo 6, 30 and 210.
- **test-6 (gap versus failure type).** Each failure adds its gap to the statistics of its k.
  The report ranks distances by occurrence and shows twenty rows, then an "other" line.
- **analyze_composite_k_distribution.** This script uses a search that tests the cap first
  and checks both candidates with `is_prime`. Failures are tallied by k. The report shows the
  twenty most frequent distances, the remainder and the total.

Module layout:

| module | role |
|---|---|
| `Tally` | `defaultdict(int)` tallies as `map<int, nat>`, their increment and their total |
| `Ranking` | sorting a tally by count (descending) or its keys ascending; shown rows and remainder |
| `Search` | anchors, gaps, the capped nearest-member search in its three probe variants, Law I tests |
| `Divisibility` | the division facts behind the filter hypothesis and the residue tables |
| `Events` | the failures of a range of anchors, residue-class and violation filters, the hypothesis |
| `Gaps` | gap statistics and the telescoping sum of gaps |
| `PacCfr` | test-1 |
| `PacClassifier` | test-2 |
| `ResidueAnalysis` | test-3 |
| `P5Classifier` | test-4 |
| `LawThreeCorrelation` | test-5-data |
| `GapResidueCorrelation` | test-5-gap |
| `GapFailureCorrelation` | test-6 |
| `CompositeKDistribution` | analyze_composite_k_distribution |

Modelling choices:

- **Inputs.** The prime file becomes the parameter `primes: seq<int>` and the prime set becomes
  an abstract `oracle: set<int>`. The analyze script builds its own set from the list, and its
  model does the same (`PrimeSet`). The scripts' constants `START_INDEX = 10` and 50,000,000
  pairs become the parameters `start` and `pairs`.
- **States of the main loops.** Each loop's state is given by a specification function of the
  failures of the range processed so far (`Failures` in `Events`). The loop method is proved
  equal to that function, and the properties are proved as lemmas about the function.
- **Load-size check, test-2, test-3, test-4 and test-6.** These scripts stop when the file has
  fewer than `pairs + start + 10` primes. Their loop methods take that bound as a precondition.
- **Fatal checks of test-5-data, test-5-gap and the analyze script.** Their models return an
  error value instead of stopping. These are test-5-data's two size checks (`PrimeFileTooSmall`,
  `LookupsOutOfRange`) and test-5-gap's size check (`PrimeFileTooSmall`). For the analyze script
  they are the length check at lines 58-65 (`TooFewPrimes`) and the reach check at lines 100-106
  (`LookupOutOfRange`). The reach check stops at the first anchor that, with the 2000 search
  buffer added, exceeds the largest prime of the list.
- **Arithmetic.** Python's `%` and `//` with a positive divisor agree with Dafny's operators, so
  residues are written directly. The percentages of test-1 use exact reals.

## Model

| member | source | states |
|---|---|---|
| Tally.Inc | Test_Scripts/test-2-pac-classifier.py:143-145 | `table[k] += 1` on a defaultdict adds k to the keys, raises its count by one and leaves every other count unchanged |
| Search.IsPrime | Test_Scripts/analyze_composite_k_distribution.py:44-50 | `is_prime(num, prime_set)`: false below 2, set membership otherwise; its contract is stated by Search.IsPrimeIsGuardedMembership |
| Search.IsCleanK | Test_Scripts/test-5-data.py:60-68 | `is_clean_k`: true at 1, false below 2, set membership otherwise; Search.IsPrimeIsGuardedMembership and Search.LawITestsAgree state its contract |
| Search.Nearest | Test_Scripts/test-2-pac-classifier.py:98-120 | the reference search that every loop variant is proved equal to; Search.NearestIsNearest and Search.NearestIsUnique state its contract |
| Search.NearestIsNearest | Test_Scripts/test-2-pac-classifier.py:98-120 | the search finds the least distance 1..cap with an accepted candidate; a tie goes to the lower candidate; a capped search found no candidate at any distance up to the cap |
| Search.NearestIsUnique | Test_Scripts/test-2-pac-classifier.py:98-120 | at most one outcome meets the search contract, so all search variants that meet it agree |
| Search.FoundNeighbourInOracle | Test_Scripts/test-2-pac-classifier.py:98-120 | a found neighbour q is in the prime set and lies at distance exactly k, below or above the anchor |
| Search.FindNearest | Test_Scripts/test-2-pac-classifier.py:98-120 | the while loop (probe, step, stop past the cap) returns the least-distance, lower-first outcome |
| Search.FindNearestCapFirst | Test_Scripts/analyze_composite_k_distribution.py:109-143 | the cap-first loop with `is_prime` on both candidates also returns the least-distance, lower-first outcome |
| Search.FindDistance | Test_Scripts/test-4-p5-classifier.py:133-142 | the one-test loop finds the same distance as the lower-first search; 0 exactly when no candidate lies within the cap |
| Search.LawITestsAgree | Test_Scripts/analyze_composite_k_distribution.py:148-153 | for k >= 1, success by `k == 1 or is_prime(k)` and by `is_clean_k(k)` are both the negation of the composite-failure test |
| Search.IsPrimeIsGuardedMembership | Test_Scripts/analyze_composite_k_distribution.py:44-50 | `is_prime` is set membership restricted to values >= 2; `is_clean_k` is `is_prime` plus the value 1 |
| Search.PrimeCheckedIsUnguarded | Test_Scripts/analyze_composite_k_distribution.py:109-143 | when the set holds nothing below 2, the search with `is_prime` on both candidates gives the same outcome as the plain-membership search of the other scripts |
| Events.FailureAt | Test_Scripts/test-2-pac-classifier.py:122-135 | a failure event carries its own index and anchor, a composite k within the cap, and a neighbour in the set at distance k |
| Events.FailureAtMatchesSearch | Test_Scripts/test-2-pac-classifier.py:120-135 | an anchor yields a failure iff its search finds a distance passing `(k > 1) and (k not in prime_set)`, and the event holds that k and q |
| Events.FailuresMembers | Test_Scripts/test-2-pac-classifier.py:87-135 | an event is among the range's failures iff it is the failure of an index in the range (both directions) |
| Events.FailuresIncreasing | Test_Scripts/test-2-pac-classifier.py:87-135 | the failures are in strictly increasing index order |
| Events.FailuresAtMostAnchors | Test_Scripts/test-2-pac-classifier.py:87-135 | each anchor yields at most one failure, so a range of hi - lo anchors has at most hi - lo failures |
| Events.Residue | Test_Scripts/test-2-pac-classifier.py:143-155 | `S % m` for a positive modulus lies in 0..m-1 |
| Events.ForbiddenByModulus | Test_Scripts/test-2-pac-classifier.py:138-158 | the generic filter "k shares an odd prime <= 11 with m" is the filter the scripts write out for 6, 30, 210 and 2310 |
| Events.WithResidueMembers | Test_Scripts/test-2-pac-classifier.py:143-156 | the failures kept for residue class r are exactly those whose anchor has residue r |
| Events.ViolationsMembers | Test_Scripts/test-2-pac-classifier.py:143-158 | the violations are exactly the failures with an anchor divisible by m and a forbidden distance |
| Events.TallyK | Test_Scripts/test-2-pac-classifier.py:143-145 | the `defaultdict(int)` tally of the failures by k; Events.TallyCounts and Events.TallyTotal state its contract |
| Events.TallyCounts | Test_Scripts/test-2-pac-classifier.py:143-145 | the tally's count at k is the number of events with distance k, and k is a key iff that number is positive |
| Events.CountKPositive | Test_Scripts/test-2-pac-classifier.py:143-145 | some event has distance k iff the count at k is positive |
| Events.TallyTotal | Test_Scripts/test-2-pac-classifier.py:171 | the counts of a tally add up to the number of events tallied |
| Events.ViolationsWithinPerfect | Test_Scripts/test-2-pac-classifier.py:143-158 | no more violations than failures at anchors divisible by m, and no more of those than failures |
| Events.NestedPerfectCounts | Test_Scripts/test-2-pac-classifier.py:143-156 | when m1 divides m2, the count at k from anchors divisible by m2 is at most that from anchors divisible by m1 |
| Events.ResiduePartition | Test_Scripts/test-3-residue-analysis.py:105-108 | the residue classes 0..m-1 partition the failures: the class sizes add up to the number of failures |
| Events.PerfectFailuresWithinAnchors | Test_Scripts/test-4-p5-classifier.py:80-82 | the failures at anchors divisible by m are at most the number of such anchors |
| Events.NoViolationForGenuinePrime | Test_Scripts/test-2-pac-classifier.py:12-14 | the conjecture's argument: if S is divisible by m and k shares a prime p with m, then q = S ± k is divisible by p, so a genuine prime q above p gives no violation |
| Events.NoViolations | Test_Scripts/test-2-pac-classifier.py:12-14 | with a set of genuine primes and every neighbour above the largest filter prime, the violation list of the range is empty |
| Ranking.RankByCount | Test_Scripts/test-6-gap-failure-correlation.py:128 | `sorted(..., key=count, reverse=True)` enumerates every key once, in non-increasing count order |
| Ranking.Leaders | Test_Scripts/analyze_composite_k_distribution.py:173-183 | the ranking enumerates all keys by non-increasing count; the shown rows are its first min(limit, size) entries |
| Ranking.EnumerationSum | Test_Scripts/analyze_composite_k_distribution.py:194 | summing the counts over an enumeration of the keys gives the tally's total |
| Ranking.ShownPlusRemainder | Test_Scripts/analyze_composite_k_distribution.py:186-190 | the counts of the shown rows plus those of the rest add up to the tally's total |
| Ranking.Ascending | Test_Scripts/test-2-pac-classifier.py:172 | `sorted(keys)` is strictly increasing, holds exactly the keys, and has one entry per key |
| Ranking.IncreasingUnique | Test_Scripts/test-3-residue-analysis.py:131 | two strictly increasing sequences with the same elements are equal, so `sorted(set(...))` has one result |
| Gaps.GapTelescopes | Test_Scripts/test-6-gap-failure-correlation.py:75-78 | the gaps of anchors lo..hi-1 add up to p_hi - p_lo |
| Gaps.GapsPositive | Test_Scripts/test-6-gap-failure-correlation.py:75-78 | over ascending primes every gap is at least 1, so the gap total is at least the number of anchors |
| PacCfr.ClosestAnchor | Test_Scripts/test-1-pac-cfr.py:44-55 | `get_closest_anchor(q, m)`; PacCfr.ClosestAnchorIsClosest states its contract |
| PacCfr.ClosestAnchorIsClosest | Test_Scripts/test-1-pac-cfr.py:44-55 | the anchor is a multiple of m; the lower multiple is taken iff it is strictly closer, so a tie goes up; the distance is at most m/2 and no multiple is closer |
| PacCfr.PrimesToTest | Test_Scripts/test-1-pac-cfr.py:71-72 | `[p for p in prime_list if p > 7]`; PacCfr.PrimesToTestExact states its contract |
| PacCfr.PrimesToTestExact | Test_Scripts/test-1-pac-cfr.py:71-72 | the filter keeps exactly the primes above 7, no more entries than the input, and keeps an ascending list ascending |
| PacCfr.FailureCountBounded | Test_Scripts/test-1-pac-cfr.py:81-102 | a grid's failure count is at most the number of primes tested, and it is zero iff no tested prime fails against that grid |
| PacCfr.CountAgainst | Test_Scripts/test-1-pac-cfr.py:87-90 | one grid of the loop body: the grid's count goes up by one exactly when the prime fails against it, and the other counts stay |
| PacCfr.CountsAfterStep | Test_Scripts/test-1-pac-cfr.py:81-102 | one more tested prime adds its failure, if any, to each of the three counts |
| PacCfr.RunCfrTest | Test_Scripts/test-1-pac-cfr.py:71-102 | the loop counts, for each of 6, 30 and 210, the tested primes whose distance to the closest anchor is composite |
| PacCfr.CfrMonotone | Test_Scripts/test-1-pac-cfr.py:113-115 | with a shared positive denominator, the percentages compare as the counts do |
| PacCfr.Verdict | Test_Scripts/test-1-pac-cfr.py:113-126 | the final verdict from the three percentages; PacCfr.VerdictByCounts and PacCfr.CfrMonotone state its contract |
| PacCfr.VerdictByCounts | Test_Scripts/test-1-pac-cfr.py:113-126 | with no prime tested the percentages divide by zero; otherwise the verdict is "verified" iff count(210) < count(30) < count(6) |
| PacClassifier.SummarizeSnoc | Test_Scripts/test-2-pac-classifier.py:127-158 | summarizing one more failure applies the loop body once: counted, and tallied and listed under each modulus whose filter it hits |
| PacClassifier.ClassifyFailure | Test_Scripts/test-2-pac-classifier.py:127-158 | the loop body for one composite failure updates the counters as recording that failure does |
| PacClassifier.SuiteStep | Test_Scripts/test-2-pac-classifier.py:98-158 | an anchor changes the counters iff its search ends at a composite distance, and then by exactly that failure |
| PacClassifier.RunClassifierSuite | Test_Scripts/test-2-pac-classifier.py:85-158 | the counters after the loop are the summary of the range's failures |
| PacClassifier.ViolationListsExact | Test_Scripts/test-2-pac-classifier.py:138-158 | each list holds exactly the failures with an anchor divisible by its modulus and k divisible by 3; by 3 or 5; by 3, 5 or 7 |
| PacClassifier.ViolationListsOrdered | Test_Scripts/test-2-pac-classifier.py:146-158 | every violation list is in increasing anchor-index order |
| PacClassifier.ViolationsOrdered | Test_Scripts/test-2-pac-classifier.py:146-158 | filtering keeps the relative order of the events kept |
| PacClassifier.CountsNested | Test_Scripts/test-2-pac-classifier.py:143-156 | for every k, count_210(k) <= count_30(k) <= count_6(k) |
| PacClassifier.TotalsBounded | Test_Scripts/test-2-pac-classifier.py:171-185 | each violation count is at most its tally's total, which is at most the number of failures |
| PacClassifier.HypothesisHolds | Test_Scripts/test-2-pac-classifier.py:12-14 | with genuine primes and every neighbour above 7, the verdict is not "falsified" |
| PacClassifier.Falsified | Test_Scripts/test-2-pac-classifier.py:190 | `violations_p2 or violations_p3 or violations_p4`; PacClassifier.FalsifiedIffViolation states its contract |
| PacClassifier.FalsifiedIffViolation | Test_Scripts/test-2-pac-classifier.py:190 | the verdict is "falsified" iff some failure of the range hits one of the three filters |
| PacClassifier.SmallestDistances | Test_Scripts/test-2-pac-classifier.py:172 | `sorted(keys)[:10]` is increasing, holds min(10, size) keys of the tally, and every key left out is larger than every key shown |
| P5Classifier.P5Step | Test_Scripts/test-4-p5-classifier.py:78-147 | the counters after an anchor are those before it with that anchor's search outcome recorded |
| P5Classifier.ProcessPerfect | Test_Scripts/test-4-p5-classifier.py:80-130 | for an anchor divisible by 2310: count it, search with cap 3000, skip a capped search, and tally and possibly list a composite distance |
| P5Classifier.ProcessOther | Test_Scripts/test-4-p5-classifier.py:131-147 | for any other anchor: the cap-2000 one-test search, adding only to the overall failure count |
| P5Classifier.RunP5Verification | Test_Scripts/test-4-p5-classifier.py:67-147 | the counters after the loop are the specification state of the range |
| P5Classifier.P5ViolationsExact | Test_Scripts/test-4-p5-classifier.py:117-130 | a violation is exactly a failure with an anchor divisible by 2310 and k divisible by 3, 5, 7 or 11 |
| P5Classifier.P5TallyExact | Test_Scripts/test-4-p5-classifier.py:111-115 | the tally counts, for each k, the failures from anchors divisible by 2310 with that k; k is a key iff one exists |
| P5Classifier.P5TotalsBounded | Test_Scripts/test-4-p5-classifier.py:155-165 | violations <= failures from perfect anchors <= perfect anchors, that number is at most all failures, and failures <= pairs |
| P5Classifier.P5HypothesisHolds | Test_Scripts/test-4-p5-classifier.py:12-14 | with genuine primes and every neighbour above 11, there are no violations |
| P5Classifier.ObservedDistances | Test_Scripts/test-4-p5-classifier.py:163-168 | the distances are listed in increasing order, exactly the tally's keys |
| ResidueAnalysis.Buckets | Test_Scripts/test-3-residue-analysis.py:61 | there is one table per residue class 0..29 |
| ResidueAnalysis.BucketsSnoc | Test_Scripts/test-3-residue-analysis.py:105-108 | a new failure increments its own class's table at its k and changes no other table |
| ResidueAnalysis.ResidueStep | Test_Scripts/test-3-residue-analysis.py:76-108 | an anchor changes the tables iff its search ends at a composite distance, and then in its own class only |
| ResidueAnalysis.ClassifyAnchor | Test_Scripts/test-3-residue-analysis.py:76-108 | one anchor of the loop: a composite failure adds one to the total and to its class's table at k; otherwise nothing changes |
| ResidueAnalysis.RunResidueAnalysis | Test_Scripts/test-3-residue-analysis.py:63-108 | the failure count and the thirty tables after the loop are those of the range's failures |
| ResidueAnalysis.BucketSumIsResidueTotal | Test_Scripts/test-3-residue-analysis.py:105-108 | the totals of the first n tables equal the number of failures in classes below n |
| ResidueAnalysis.ClassTotalsAddUp | Test_Scripts/test-3-residue-analysis.py:136-146 | the thirty class totals add up to the overall number of failures |
| ResidueAnalysis.BucketKeys | Test_Scripts/test-3-residue-analysis.py:105-108 | a class table's count at k is the number of failures of that class with k; k is a key iff such a failure exists |
| ResidueAnalysis.BucketKeysComposite | Test_Scripts/test-3-residue-analysis.py:99-108 | every key of every table is a composite distance within the cap |
| ResidueAnalysis.OddClassesEmpty | Test_Scripts/test-3-residue-analysis.py:143-146 | when the primes of the range are odd, every anchor is even, so the odd classes stay empty |
| ResidueAnalysis.PairSumsEven | Test_Scripts/test-3-residue-analysis.py:122-131 | every sum of two residues of primes above 5 is an even residue mod 30 |
| ResidueAnalysis.EvenResiduesReached | Test_Scripts/test-3-residue-analysis.py:122-131 | every even residue 0..28 is reached by some pair of prime residues |
| ResidueAnalysis.PairSumsAreEvenResidues | Test_Scripts/test-3-residue-analysis.py:122-131 | the pair sums are exactly the even residues |
| ResidueAnalysis.PossibleResidues | Test_Scripts/test-3-residue-analysis.py:122-131 | the nested loop with `sorted(set(...))` gives the pair sums in increasing order, namely 0, 2, ..., 28 |
| ResidueAnalysis.ForbiddenFound | Test_Scripts/test-3-residue-analysis.py:150 | `forbidden_k_found` of class 0; ResidueAnalysis.ForbiddenFoundExact states its contract |
| ResidueAnalysis.ForbiddenFoundExact | Test_Scripts/test-3-residue-analysis.py:149-154 | k is reported as forbidden in class 0 iff some failure at an anchor divisible by 30 has k divisible by 3 or 5 |
| ResidueAnalysis.NoForbiddenForGenuinePrimes | Test_Scripts/test-3-residue-analysis.py:149-154 | with genuine primes and neighbours above 5, class 0 reports no forbidden distance |
| ResidueAnalysis.SummarizeClass | Test_Scripts/test-3-residue-analysis.py:136-163 | a class summary holds the table's total, the "not expected" flag, class 0's forbidden set, the ranking by count and its first five rows |
| ResidueAnalysis.ResidueReport | Test_Scripts/test-3-residue-analysis.py:136-163 | the report summarizes each of the thirty classes, in residue order |
| ResidueAnalysis.UnexpectedIffOdd | Test_Scripts/test-3-residue-analysis.py:143-146 | an empty class is flagged as not expected iff its residue is odd |
| ResidueAnalysis.ReportTotalIsBucketSum | Test_Scripts/test-3-residue-analysis.py:136-146 | the totals printed for the first n classes add up to the totals of the first n tables |
| ResidueAnalysis.ReportAddsUp | Test_Scripts/test-3-residue-analysis.py:136-146 | the class totals of the report add up to the overall number of failures |
| CompositeKDistribution.SeqMax | Test_Scripts/analyze_composite_k_distribution.py:75 | `max(prime_list)` is an element of the list and bounds every element |
| CompositeKDistribution.FirstOutOfReachIsFirst | Test_Scripts/analyze_composite_k_distribution.py:100-106 | the fatal reach check stops at the least offending anchor; it does not stop iff every anchor is within reach |
| CompositeKDistribution.DistributionStep | Test_Scripts/analyze_composite_k_distribution.py:109-157 | an anchor adds one to the total and to its k iff its search ends at a composite distance |
| CompositeKDistribution.AnalyzeKDistribution | Test_Scripts/analyze_composite_k_distribution.py:58-157 | the script ends too short, stopped at an anchor out of reach, or completed with the failure total and the tally by k |
| CompositeKDistribution.CompletedTallyExact | Test_Scripts/analyze_composite_k_distribution.py:148-157 | a completed run's tally sums to its total, counts each k's failures, and its keys are composite distances within the cap |
| CompositeKDistribution.CompletedIsTally | Test_Scripts/analyze_composite_k_distribution.py:58-157 | a completed run had enough primes and holds the number of failures of anchors 1..pairs and their tally by k |
| CompositeKDistribution.TallyKeysComposite | Test_Scripts/analyze_composite_k_distribution.py:148-157 | every key of the tally is a composite distance within the cap |
| CompositeKDistribution.StopsAtFirstOutOfReach | Test_Scripts/analyze_composite_k_distribution.py:100-106 | a run completes iff every anchor 1..pairs is within reach; otherwise it names the first anchor that is not |
| CompositeKDistribution.FrequencyReport | Test_Scripts/analyze_composite_k_distribution.py:164-194 | no table without failures; otherwise the ranking, its first twenty rows and, iff there are more keys, the sum of the rest |
| CompositeKDistribution.TableAddsUp | Test_Scripts/analyze_composite_k_distribution.py:176-194 | the shown counts plus the "other" line add up to the TOTAL line |
| LawThreeCorrelation.FixFrom | Test_Scripts/test-5-data.py:164-181 | the Law III search over radii 1..30, earlier anchor first; LawThreeCorrelation.FixFromIsLeast states its contract |
| LawThreeCorrelation.FixFromIsLeast | Test_Scripts/test-5-data.py:164-181 | the Law III search finds the least radius with a clean neighbouring anchor, the earlier anchor winning a tie; none means no clean anchor within radius 30 |
| LawThreeCorrelation.FindFix | Test_Scripts/test-5-data.py:164-181 | the `for r` loop with its two breaks returns the least fix |
| LawThreeCorrelation.Law3Failures | Test_Scripts/test-5-data.py:114-151 | every failure of the loop range has radius-30 neighbours on both sides inside the list |
| LawThreeCorrelation.Law3Stays | Test_Scripts/test-5-data.py:201-205 | once Law III has failed, later anchors change nothing (the loop breaks) |
| LawThreeCorrelation.ProcessAnchor | Test_Scripts/test-5-data.py:120-205 | one anchor: search with cap 3000 (lower candidate above 1), test for a composite distance, and record the fix or log the Law III failure |
| LawThreeCorrelation.Law3StateStep | Test_Scripts/test-5-data.py:114-205 | before any Law III failure, an anchor extends the run by its own outcome |
| LawThreeCorrelation.RunAnchors | Test_Scripts/test-5-data.py:114-205 | the main loop ends in the specification state of the range, stopping at the first Law III failure |
| LawThreeCorrelation.RunLaw3Correlation | Test_Scripts/test-5-data.py:53-205 | the whole run, with the prime-count check and the end-of-list lookup check as error results |
| LawThreeCorrelation.MaxRadiusIsMax | Test_Scripts/test-5-data.py:184-186 | `max_r_observed` bounds every record's radius, is attained by one record, and is 0 with no records |
| LawThreeCorrelation.DescribesStep | Test_Scripts/test-5-data.py:150-205 | one more anchor keeps the relation between the counters and the range's failures |
| LawThreeCorrelation.Law3Exact | Test_Scripts/test-5-data.py:114-205 | the records are the fixes of the first failures, one each; either all failures are fixed or the next one is the logged Law III failure; the counter counts both kinds |
| LawThreeCorrelation.Law3Verdict | Test_Scripts/test-5-data.py:221-231 | the final verdict of the report; LawThreeCorrelation.Law3VerdictExact states its contract |
| LawThreeCorrelation.Law3VerdictExact | Test_Scripts/test-5-data.py:221-231 | "Law III falsified" iff some failure of the range has no fix within radius 30; "no data" iff there is no failure |
| LawThreeCorrelation.RecordOfValid | Test_Scripts/test-5-data.py:184-198 | a record holds a composite failure with its prime, a clean fixing anchor at radius 1..30 on either side, and the residues of both anchors |
| LawThreeCorrelation.Law3RecordFacts | Test_Scripts/test-5-data.py:184-198 | every record of the run is valid and from the range; the largest radius bounds them all and is at most 30 |
| GapResidueCorrelation.Buckets | Test_Scripts/test-5-gap-residue-correlation.py:61-63 | there is one statistic per residue 0..m-1 |
| GapResidueCorrelation.BucketsStep | Test_Scripts/test-5-gap-residue-correlation.py:82-94 | an anchor adds one and its gap to its own residue class only |
| GapResidueCorrelation.AddAnchor | Test_Scripts/test-5-gap-residue-correlation.py:87-94 | one table's update for an anchor: the table of the anchors so far becomes the table with this anchor too |
| GapResidueCorrelation.RunGapResidueCorrelation | Test_Scripts/test-5-gap-residue-correlation.py:40-94 | the run ends with the prime-count error, or with the anchor count and the three residue tables of the range |
| GapResidueCorrelation.AddToSums | Test_Scripts/test-5-gap-residue-correlation.py:87-94 | recording an anchor in any class raises the table's count total by one and its gap total by its gap |
| GapResidueCorrelation.BucketSums | Test_Scripts/test-5-gap-residue-correlation.py:82-94 | a table's counts add up to the number of anchors and its gap sums to their total gap |
| GapResidueCorrelation.BucketTotals | Test_Scripts/test-5-gap-residue-correlation.py:101-102 | a table's counts add up to the number of anchors, and its gap sums to p_hi - p_lo |
| GapResidueCorrelation.OddClassesEmpty | Test_Scripts/test-5-gap-residue-correlation.py:120-123 | over odd primes and an even modulus, the odd residues never occur and are skipped |
| GapResidueCorrelation.TablesRefine | Test_Scripts/test-5-gap-residue-correlation.py:82-94 | when m1 divides m2, a class modulo m1 collects exactly the classes modulo m2 that reduce to it |
| GapResidueCorrelation.ReportOrder | Test_Scripts/test-5-gap-residue-correlation.py:115-123 | the printed residues are increasing and are exactly those that occur |
| GapFailureCorrelation.GapFailures | Test_Scripts/test-6-gap-failure-correlation.py:80-104 | every failure's anchor index has its gap inside the list |
| GapFailureCorrelation.GapStep | Test_Scripts/test-6-gap-failure-correlation.py:81-108 | an anchor changes the statistics iff its search ends at a composite distance, and then adds one and its gap at its k |
| GapFailureCorrelation.RecordAnchor | Test_Scripts/test-6-gap-failure-correlation.py:80-108 | one anchor of the loop: a composite failure adds one to the total and its gap at its k; a capped search or a success changes nothing |
| GapFailureCorrelation.RunGapFailureCorrelation | Test_Scripts/test-6-gap-failure-correlation.py:59-108 | after the loop the failure count, the per-k statistics, the overall gap sum (over all anchors) and the anchor count are those of the range |
| GapFailureCorrelation.CountsAddGap | Test_Scripts/test-6-gap-failure-correlation.py:107-108 | recording a gap at k increments k's count and adds the gap to k's gap sum |
| GapFailureCorrelation.CountsAreTally | Test_Scripts/test-6-gap-failure-correlation.py:107 | the occurrence counts per k are the tally of the failures by k |
| GapFailureCorrelation.GapSumsPerK | Test_Scripts/test-6-gap-failure-correlation.py:108 | k's gap sum is the sum of the gaps of the failures with k, and k has statistics iff such a failure exists |
| GapFailureCorrelation.GapSumsTotal | Test_Scripts/test-6-gap-failure-correlation.py:108 | the per-k gap sums add up to the total gap of all failures |
| GapFailureCorrelation.CountsPositive | Test_Scripts/test-6-gap-failure-correlation.py:137 | every k with statistics has count at least 1, so the `count == 0` guard never skips |
| GapFailureCorrelation.FailureGapsWithinTotal | Test_Scripts/test-6-gap-failure-correlation.py:77-78 | over ascending primes, the failures' gap total lies between 0 and the overall gap sum |
| GapFailureCorrelation.OccurringAll | Test_Scripts/test-6-gap-failure-correlation.py:137 | when every ranked k has a positive count, the guard keeps the whole ranking |
| GapFailureCorrelation.TopOccurring | Test_Scripts/test-6-gap-failure-correlation.py:131-144 | the print loop shows the first min(20, n) ranked distances of positive count |
| GapFailureCorrelation.ReportByOccurrence | Test_Scripts/test-6-gap-failure-correlation.py:127-154 | the report ranks every k by count, shows the twenty top rows, and iff there are more than twenty, the counts and gap sums of the rest |
| GapFailureCorrelation.CountsOverPositive | Test_Scripts/test-6-gap-failure-correlation.py:148-150 | counts summed over keys of count at least 1 are at least the number of keys, so the "other" line is printed whenever there are more than twenty keys |
| GapFailureCorrelation.RankedOccur | Test_Scripts/test-6-gap-failure-correlation.py:128-137 | every ranked distance is a k with statistics and a positive count |
| GapFailureCorrelation.ReportShowsLeaders | Test_Scripts/test-6-gap-failure-correlation.py:131-150 | every ranked distance has an occurrence, so no row is skipped and the "other" line appears iff there are more than twenty distances |
| GapFailureCorrelation.ReportAccountsForFailures | Test_Scripts/test-6-gap-failure-correlation.py:127-154 | the rows are the first twenty of the ranking; the shown counts plus "other" give the failure count, and the shown gap sums plus "other" give the failures' gap total |

## Left out

- Loading and writing files are not modelled: reading the prime file, building `prime_set`, and test-5-data's CSV writer. The list and the set are parameters, and the CSV rows are the `records` sequence. A missing file ends the scripts before any computation.
- Printing, progress lines, timing and `time.time()` are left out; the printed values are modelled.
- Averages and percentage differences are floating-point and are not modelled. This covers test-5-gap's and test-6's average gaps and "vs overall" columns. The integer sums and counts behind these values are modelled. test-1's percentages are modelled with exact reals, not IEEE floats.
- The order among distances with equal counts in `sorted(..., key=count, reverse=True)` is not fixed. Python keeps the order in which keys were inserted; the model accepts any order of non-increasing counts (`IsRanking`).
- Ranking.RankByCount: states a non-increasing order by count but not Python's stable tie order, for the reason above.
- test-2, test-3, test-4, test-6: when the file holds fewer than `pairs + start + 10` primes, these scripts print an error and return. The loop methods take that bound as a precondition rather than returning an error value.
- analyze_composite_k_distribution.py lines 70-72 check for an empty list. After the length check at lines 58-65 that code cannot be reached, so it is not modelled.
- The number-theoretic claims the scripts test empirically are not proved: the failure-rate decay of test-1, Law III fixes always existing, and gap correlations. What is proved is how each script's verdict depends on the data. The filter hypothesis of test-2, test-3 and test-4 is proved for a set of genuine primes whose neighbours exceed the filter primes.
- Primality is abstract (`IsPrimeNumber` is ordinary divisibility). The scripts never test primality themselves: they ask the loaded set, and so does the model.
- `test-5-correlation-analysis.py` is not part of this model.
