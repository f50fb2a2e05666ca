/** Counters keyed by an integer, as the scripts keep them in `defaultdict(int)`:
    a missing key reads as 0, and the sum of all counters is what the reports total. */
module Tally {

  /** The value a `defaultdict(int)` reports for key `k`. */
  function Count(m: map<int, nat>, k: int): nat
  {
    if k in m then m[k] else 0
  }

  /** The same lookup for integer-valued tables (gap sums). */
  function Get(m: map<int, int>, k: int): int
  {
    if k in m then m[k] else 0
  }

  /** `m[k] += 1` on a `defaultdict(int)`. */
  function Inc(m: map<int, nat>, k: int): (r: map<int, nat>)
    ensures r.Keys == m.Keys + {k}
    ensures Count(r, k) == Count(m, k) + 1
    ensures forall j :: j != k ==> Count(r, j) == Count(m, j)
  {
    m[k := Count(m, k) + 1]
  }

  /** A table with no key is the empty table. */
  lemma EmptyOrHasKey(m: map<int, int>)
    ensures m == map[] || exists k :: k in m
  {
    if forall k :: k !in m {
      assert m == map[];
    }
  }

  /** The sum of all values of a finite table, taken in an arbitrary key order. */
  ghost function MapSum(m: map<int, int>): int
    decreases |m|
  {
    if m == map[] then 0
    else
      EmptyOrHasKey(m);
      var k :| k in m;
      assert (m - {k}).Keys == m.Keys - {k};
      m[k] + MapSum(m - {k})
  }

  /** The sum does not depend on which key is taken first. */
  lemma {:induction false} MapSumRemove(m: map<int, int>, k: int)
    requires k in m
    ensures MapSum(m) == m[k] + MapSum(m - {k})
    decreases |m|
  {
    var j :| j in m && MapSum(m) == m[j] + MapSum(m - {j});
    if j != k {
      var mj := m - {j};
      var mk := m - {k};
      assert mj.Keys == m.Keys - {j};
      assert mk.Keys == m.Keys - {k};
      MapSumRemove(mj, k);
      MapSumRemove(mk, j);
      assert mj - {k} == mk - {j};
    }
  }

  /** Overwriting one entry changes the sum by the difference of the two values. */
  lemma MapSumUpdate(m: map<int, int>, k: int, v: int)
    ensures MapSum(m[k := v]) == MapSum(m) - Get(m, k) + v
  {
    var u := m[k := v];
    MapSumRemove(u, k);
    assert u - {k} == m - {k};
    if k in m {
      MapSumRemove(m, k);
    } else {
      assert m - {k} == m;
    }
  }

  /** One increment adds exactly one to the total of a counter table. */
  lemma MapSumInc(m: map<int, nat>, k: int)
    ensures MapSum(Inc(m, k)) == MapSum(m) + 1
  {
    MapSumUpdate(m, k, Count(m, k) + 1);
  }

  /** A table of counters never sums to a negative total. */
  lemma {:induction false} MapSumNonNegative(m: map<int, nat>)
    ensures MapSum(m) >= 0
    decreases |m|
  {
    EmptyOrHasKey(m);
    if m != map[] {
      var k :| k in m;
      MapSumRemove(m, k);
      var rest: map<int, nat> := m - {k};
      assert rest.Keys == m.Keys - {k};
      MapSumNonNegative(rest);
    }
  }
}
