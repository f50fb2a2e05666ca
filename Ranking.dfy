/** The reports' `sorted(table.items(), key=count, reverse=True)` and the walk over its
    first entries that prints the most frequent keys. */
module Ranking {
  import opened Tally

  function Min(a: int, b: int): int { if a <= b then a else b }

  predicate Distinct(keys: seq<int>)
  {
    forall i, j :: 0 <= i < j < |keys| ==> keys[i] != keys[j]
  }

  /** `keys` lists every key of `m` exactly once. */
  ghost predicate Enumerates(keys: seq<int>, m: map<int, int>)
  {
    Distinct(keys) && forall k :: k in keys <==> k in m
  }

  /** `keys` lists the keys of `m` by non-increasing value. */
  ghost predicate IsRanking(keys: seq<int>, m: map<int, int>)
  {
    && Enumerates(keys, m)
    && forall i, j :: 0 <= i < j < |keys| ==> Get(m, keys[i]) >= Get(m, keys[j])
  }

  /** The total of the values listed at `keys`, missing keys counting 0. */
  function SumOver(keys: seq<int>, m: map<int, int>): int
  {
    if keys == [] then 0 else SumOver(keys[..|keys| - 1], m) + Get(m, keys[|keys| - 1])
  }

  lemma {:induction false} SumOverSplit(keys: seq<int>, n: nat, m: map<int, int>)
    requires n <= |keys|
    ensures SumOver(keys[..n], m) + SumOver(keys[n..], m) == SumOver(keys, m)
    decreases |keys|
  {
    if n < |keys| {
      var init := keys[..|keys| - 1];
      assert keys[..n] == init[..n];
      assert keys[n..] == init[n..] + [keys[|keys| - 1]];
      assert (init[n..] + [keys[|keys| - 1]])[..|init[n..]|] == init[n..];
      SumOverSplit(init, n, m);
    } else {
      assert keys[..n] == keys;
    }
  }

  /** Keys that do not name `k` sum the same in `m` and in `m` without `k`. */
  lemma {:induction false} SumOverWithout(keys: seq<int>, m: map<int, int>, k: int)
    requires k !in keys
    ensures SumOver(keys, m - {k}) == SumOver(keys, m)
    decreases |keys|
  {
    if keys != [] {
      SumOverWithout(keys[..|keys| - 1], m, k);
    }
  }

  /** Summing over any enumeration of the keys gives the table's total. */
  lemma {:induction false} EnumerationSum(keys: seq<int>, m: map<int, int>)
    requires Enumerates(keys, m)
    ensures SumOver(keys, m) == MapSum(m)
    decreases |keys|
  {
    if keys == [] {
      EmptyOrHasKey(m);
    } else {
      var last := keys[|keys| - 1];
      var init := keys[..|keys| - 1];
      var rest := m - {last};
      assert last !in init;
      assert Enumerates(init, rest) by {
        forall j | j in init ensures j in rest {
          var i :| 0 <= i < |init| && init[i] == j;
          assert keys[i] == j;
        }
        forall j | j in rest ensures j in init {
          var i :| 0 <= i < |keys| && keys[i] == j;
          assert i != |keys| - 1;
          assert init[i] == j;
        }
      }
      EnumerationSum(init, rest);
      SumOverWithout(init, m, last);
      MapSumRemove(m, last);
    }
  }

  /** `k` is a key of `m` with the largest value. */
  predicate IsLargestKey(k: int, m: map<int, int>)
  {
    k in m && forall j :: j in m ==> m[j] <= m[k]
  }

  /** A non-empty table has a key of largest value. */
  lemma {:induction false} LargestExists(m: map<int, int>)
    requires m != map[]
    ensures exists k :: IsLargestKey(k, m)
    decreases |m|
  {
    EmptyOrHasKey(m);
    var k :| k in m;
    var rest := m - {k};
    assert rest.Keys == m.Keys - {k};
    if rest == map[] {
      forall j | j in m ensures m[j] <= m[k] {
        assert j !in rest.Keys;
      }
      assert IsLargestKey(k, m);
    } else {
      LargestExists(rest);
      var b :| IsLargestKey(b, rest);
      var top := if m[b] < m[k] then k else b;
      forall j | j in m ensures m[j] <= m[top] {
        if j != k { assert j in rest; assert rest[j] <= rest[b]; }
      }
      assert IsLargestKey(top, m);
    }
  }

  /** Orders the keys of `m` by non-increasing value, as `sorted(..., reverse=True)` does. */
  method RankByCount(m: map<int, int>) returns (keys: seq<int>)
    ensures IsRanking(keys, m)
  {
    keys := [];
    var rest := m;
    while rest != map[]
      invariant rest.Keys <= m.Keys
      invariant forall k :: k in rest ==> rest[k] == m[k]
      invariant Distinct(keys)
      invariant forall k :: k in keys ==> k in m && k !in rest
      invariant forall k :: k in m ==> k in keys || k in rest
      invariant forall i, j :: 0 <= i < j < |keys| ==> Get(m, keys[i]) >= Get(m, keys[j])
      invariant forall i, k :: 0 <= i < |keys| && k in rest ==> Get(m, keys[i]) >= m[k]
      decreases |rest|
    {
      LargestExists(rest);
      var top :| IsLargestKey(top, rest);
      keys := keys + [top];
      assert (rest - {top}).Keys == rest.Keys - {top};
      rest := rest - {top};
    }
  }

  /** A ranking and the first `limit` of its keys, as the report loops with `printed_count`
      walk them. */
  method Leaders(m: map<int, int>, limit: nat) returns (ranking: seq<int>, shown: seq<int>)
    ensures IsRanking(ranking, m)
    ensures |ranking| == |m|
    ensures |shown| == Min(limit, |m|)
    ensures shown == ranking[..|shown|]
  {
    ranking := RankByCount(m);
    assert |ranking| == |m| by {
      EnumerationCardinality(ranking, m);
    }
    shown := [];
    var printed := 0;
    for idx := 0 to |ranking|
      invariant printed == |shown| == Min(limit, idx)
      invariant shown == ranking[..printed]
    {
      if printed < limit {
        shown := shown + [ranking[idx]];
        printed := printed + 1;
      } else {
        break;
      }
    }
  }

  /** An enumeration of the keys is as long as the table. */
  lemma {:induction false} EnumerationCardinality(keys: seq<int>, m: map<int, int>)
    requires Enumerates(keys, m)
    ensures |keys| == |m|
    decreases |keys|
  {
    if keys == [] {
      EmptyOrHasKey(m);
    } else {
      var last := keys[|keys| - 1];
      var init := keys[..|keys| - 1];
      var rest := m - {last};
      assert rest.Keys == m.Keys - {last};
      assert Enumerates(init, rest) by {
        forall j | j in init ensures j in rest {
          var i :| 0 <= i < |init| && init[i] == j;
          assert keys[i] == j;
        }
        forall j | j in rest ensures j in init {
          var i :| 0 <= i < |keys| && keys[i] == j;
          assert i != |keys| - 1;
          assert init[i] == j;
        }
      }
      EnumerationCardinality(init, rest);
    }
  }

  /** The shown rows and the remainder after them account for the whole table: the
      reports' "other" line plus the listed counts equals the total. */
  lemma ShownPlusRemainder(ranking: seq<int>, m: map<int, int>, n: nat)
    requires Enumerates(ranking, m)
    requires n <= |ranking|
    ensures SumOver(ranking[..n], m) + SumOver(ranking[n..], m) == MapSum(m)
  {
    SumOverSplit(ranking, n, m);
    EnumerationSum(ranking, m);
  }

  predicate StrictlyIncreasing(keys: seq<int>)
  {
    forall i, j :: 0 <= i < j < |keys| ==> keys[i] < keys[j]
  }

  /** A set with no element is the empty set. */
  lemma EmptyOrHasElement(keys: set<int>)
    ensures keys == {} || exists k :: k in keys
  {
    if forall k :: k !in keys {
      assert keys == {};
    }
  }

  /** `k` is the least element of `keys`. */
  predicate IsLeast(k: int, keys: set<int>)
  {
    k in keys && forall j :: j in keys ==> k <= j
  }

  /** A non-empty set of integers has a least element. */
  lemma {:induction false} SmallestExists(keys: set<int>)
    requires keys != {}
    ensures exists k :: IsLeast(k, keys)
    decreases |keys|
  {
    EmptyOrHasElement(keys);
    var k :| k in keys;
    var rest := keys - {k};
    if rest == {} {
      forall j | j in keys ensures k <= j {
        assert j !in rest;
      }
      assert IsLeast(k, keys);
    } else {
      SmallestExists(rest);
      var b :| IsLeast(b, rest);
      var least := if k < b then k else b;
      forall j | j in keys ensures least <= j {
        if j != k { assert j in rest; }
      }
      assert IsLeast(least, keys);
    }
  }

  /** `sorted(keys)`: the keys in strictly increasing order, each exactly once. */
  method Ascending(keys: set<int>) returns (sorted: seq<int>)
    ensures StrictlyIncreasing(sorted)
    ensures forall k :: k in sorted <==> k in keys
    ensures |sorted| == |keys|
  {
    sorted := [];
    var rest := keys;
    while rest != {}
      invariant rest <= keys
      invariant StrictlyIncreasing(sorted)
      invariant forall k :: k in sorted ==> k in keys && k !in rest
      invariant forall k :: k in keys ==> k in sorted || k in rest
      invariant forall i, k :: 0 <= i < |sorted| && k in rest ==> sorted[i] < k
      invariant |sorted| + |rest| == |keys|
      decreases |rest|
    {
      EmptyOrHasElement(rest);
      SmallestExists(rest);
      var least :| IsLeast(least, rest);
      sorted := sorted + [least];
      rest := rest - {least};
    }
  }

  /** The last element of a strictly increasing sequence is its largest. */
  lemma LastIsLargest(a: seq<int>, x: int)
    requires StrictlyIncreasing(a) && x in a
    ensures x <= a[|a| - 1]
    ensures x != a[|a| - 1] ==> x in a[..|a| - 1]
  {
    var i :| 0 <= i < |a| && a[i] == x;
    if i != |a| - 1 {
      assert a[..|a| - 1][i] == x;
    }
  }

  /** A set has one increasing enumeration: two with the same elements are equal. */
  lemma {:induction false} IncreasingUnique(a: seq<int>, b: seq<int>)
    requires StrictlyIncreasing(a) && StrictlyIncreasing(b)
    requires forall x :: x in a <==> x in b
    ensures a == b
    decreases |a|
  {
    assert a == [] <==> b == [] by {
      if a != [] { assert a[0] in a; }
      if b != [] { assert b[0] in b; }
    }
    if a != [] {
      var la, lb := a[|a| - 1], b[|b| - 1];
      LastIsLargest(b, la);
      LastIsLargest(a, lb);
      var ia, ib := a[..|a| - 1], b[..|b| - 1];
      forall x
        ensures x in ia <==> x in ib
      {
        if x in ia {
          var i :| 0 <= i < |ia| && ia[i] == x;
          assert a[i] == x;
          LastIsLargest(b, x);
        }
        if x in ib {
          var i :| 0 <= i < |ib| && ib[i] == x;
          assert b[i] == x;
          LastIsLargest(a, x);
        }
      }
      IncreasingUnique(ia, ib);
      assert a == ia + [la];
      assert b == ib + [lb];
    }
  }
}
