/** The worked scenarios of the sort operator's own tests, on integers sorted by
    their own value: the final collection holds one sorted vector with every
    surviving integer as often as its net multiplicity, and nothing at all once
    every integer is retracted. The hash is left free: the results hold for
    every hash function. */
module SortScenarios {
  import opened SortCore
  import opened SortBy

  /** The sort key of the scenarios: the integer itself. */
  function Id(x: int): int {
    x
  }

  /** Sorted vectors with the same elements start with the same element. */
  lemma SortedHeads(a: seq<int>, b: seq<int>)
    requires SortedSeq(a, Id) && SortedSeq(b, Id)
    requires multiset(a) == multiset(b) && |a| > 0
    ensures |b| > 0 && a[0] == b[0]
  {
    assert |b| == |multiset(b)| == |a|;
    assert a[0] in multiset(b) && b[0] in multiset(a);
    var j :| 0 <= j < |b| && b[j] == a[0];
    var k :| 0 <= k < |a| && a[k] == b[0];
    assert Id(b[0]) <= Id(b[j]) || j == 0;
    assert Id(a[0]) <= Id(a[k]) || k == 0;
  }

  /** Removing equal heads from equal multisets leaves equal multisets. */
  lemma TailsPermuted(a: seq<int>, b: seq<int>)
    requires multiset(a) == multiset(b) && |a| > 0 && |b| > 0 && a[0] == b[0]
    ensures multiset(a[1..]) == multiset(b[1..])
  {
    assert a == [a[0]] + a[1..] && b == [b[0]] + b[1..];
    forall y ensures multiset(a[1..])[y] == multiset(b[1..])[y] {
      assert multiset(a)[y] == multiset{a[0]}[y] + multiset(a[1..])[y];
      assert multiset(b)[y] == multiset{a[0]}[y] + multiset(b[1..])[y];
    }
  }

  /** Two vectors sorted ascending with the same elements are equal. */
  lemma {:induction false} SortedUnique(a: seq<int>, b: seq<int>)
    requires SortedSeq(a, Id) && SortedSeq(b, Id)
    requires multiset(a) == multiset(b)
    ensures a == b
    decreases |a|
  {
    if |a| == 0 {
      assert |b| == |multiset(b)| == 0;
    } else {
      SortedHeads(a, b);
      TailsPermuted(a, b);
      SortedUnique(a[1..], b[1..]);
      assert a == [a[0]] + a[1..] && b == [b[0]] + b[1..];
    }
  }

  /** A vector whose neighbours ascend is sorted. */
  lemma {:induction false} Ascending(v: seq<int>)
    requires forall i :: 0 <= i < |v| - 1 ==> v[i] <= v[i + 1]
    ensures SortedSeq(v, Id)
    decreases |v|
  {
    if |v| > 1 {
      Ascending(v[1..]);
      forall i, j | 0 <= i < j < |v| ensures v[i] <= v[j] {
        if i > 0 {
          assert v[1..][i - 1] <= v[1..][j - 1];
        } else {
          assert v[1..][0] <= v[1..][j - 1];
        }
      }
    }
  }

  /** A run of updates with the same diff: `insert` adds diff 1, `remove` diff -1. */
  function Uniform(xs: seq<int>, insert: bool): (u: seq<(int, int)>)
    ensures |u| == |xs|
    ensures forall i :: 0 <= i < |xs| ==> u[i] == (xs[i], if insert then 1 else -1)
  {
    if |xs| == 0 then [] else [(xs[0], if insert then 1 else -1)] + Uniform(xs[1..], insert)
  }

  /** A run of inserts counts every occurrence of `d` once, a run of removes
      once negatively. */
  lemma {:induction false} UniformSum(xs: seq<int>, insert: bool, d: int)
    ensures SumOf(Uniform(xs, insert), d) == if insert then multiset(xs)[d] as int else -(multiset(xs)[d] as int)
    decreases |xs|
  {
    if |xs| > 0 {
      UniformSum(xs[1..], insert, d);
      assert Uniform(xs, insert)[1..] == Uniform(xs[1..], insert);
      assert xs == [xs[0]] + xs[1..];
      assert multiset(xs)[d] == (if xs[0] == d then 1 else 0) + multiset(xs[1..])[d];
    }
  }

  /** The net multiplicities of three runs of updates. */
  lemma RunsSum(a: seq<int>, ia: bool, b: seq<int>, ib: bool, c: seq<int>, ic: bool, d: int)
    ensures SumOf(Uniform(a, ia) + Uniform(b, ib) + Uniform(c, ic), d)
      == SumOf(Uniform(a, ia), d) + SumOf(Uniform(b, ib), d) + SumOf(Uniform(c, ic), d)
  {
    SumOfAppendAt(Uniform(a, ia) + Uniform(b, ib), Uniform(c, ic), d);
    SumOfAppendAt(Uniform(a, ia), Uniform(b, ib), d);
  }

  /** Whatever the hash, the sorted output of a collection whose net
      multiplicities are those of the sorted, non-empty vector `expected` is
      that vector, once. */
  lemma Determined(updates: seq<(int, int)>, rows: seq<(seq<int>, int)>, expected: seq<int>)
    requires |rows| <= 1
    requires |rows| == 0 <==> forall d :: SumOf(updates, d) == 0
    requires forall i :: 0 <= i < |rows| ==> rows[i].1 == 1 && SortedSeq(rows[i].0, Id)
    requires |rows| == 1 ==>
      forall d :: multiset(rows[0].0)[d] == if SumOf(updates, d) > 0 then SumOf(updates, d) else 0
    requires SortedSeq(expected, Id) && |expected| > 0
    requires forall d :: multiset(expected)[d] == SumOf(updates, d)
    ensures rows == [(expected, 1)]
  {
    assert expected[0] in multiset(expected);
    assert SumOf(updates, expected[0]) != 0;
    assert multiset(rows[0].0) == multiset(expected);
    SortedUnique(rows[0].0, expected);
  }

  /** Sorting a collection whose net multiplicities are those of the sorted,
      non-empty vector `expected` yields that vector, once, whatever the hash. */
  method SortToExpected(updates: seq<(int, int)>, expected: seq<int>, hash: int -> nat)
    returns (rows: seq<(seq<int>, int)>)
    requires SortedSeq(expected, Id) && |expected| > 0
    requires forall d :: multiset(expected)[d] == SumOf(updates, d)
    ensures rows == [(expected, 1)]
  {
    rows := HierarchicalSortByNamed(updates, Id, hash);
    Determined(updates, rows, expected);
  }

  /** The updates of `ensure_retractions_propagate`: 1 is inserted twice and
      removed once, then 2 to 5 are inserted. */
  function PropagateUpdates(): (u: seq<(int, int)>)
    ensures |u| == 7
  {
    Uniform([1, 1], true) + Uniform([1], false) + Uniform([2, 3, 4, 5], true)
  }

  /** Their net multiplicities are those of `[1, 2, 3, 4, 5]`. */
  lemma PropagateNet(d: int)
    ensures SumOf(PropagateUpdates(), d) == multiset([1, 2, 3, 4, 5])[d]
  {
    RunsSum([1, 1], true, [1], false, [2, 3, 4, 5], true, d);
    UniformSum([1, 1], true, d);
    UniformSum([1], false, d);
    UniformSum([2, 3, 4, 5], true, d);
  }

  /** `ensure_retractions_propagate`: the result is the single vector
      `[1, 2, 3, 4, 5]`. */
  method EnsureRetractionsPropagate(hash: int -> nat) returns (rows: seq<(seq<int>, int)>)
    ensures rows == [([1, 2, 3, 4, 5], 1)]
  {
    var updates := PropagateUpdates();
    forall d ensures SumOf(updates, d) == multiset([1, 2, 3, 4, 5])[d] {
      PropagateNet(d);
    }
    Ascending([1, 2, 3, 4, 5]);
    rows := SortToExpected(updates, [1, 2, 3, 4, 5], hash);
  }

  /** The updates of `ensure_retractions_propagate_across_timestamps`: 1 twice
      and 2 to 5 at the first time, one 1 removed at the next, 2 inserted again
      at the last. */
  function AcrossTimestampsUpdates(): (u: seq<(int, int)>)
    ensures |u| == 8
  {
    Uniform([1, 1, 2, 3, 4, 5], true) + Uniform([1], false) + Uniform([2], true)
  }

  /** Their net multiplicities are those of `[1, 2, 2, 3, 4, 5]`. */
  lemma AcrossTimestampsNet(d: int)
    ensures SumOf(AcrossTimestampsUpdates(), d) == multiset([1, 2, 2, 3, 4, 5])[d]
  {
    RunsSum([1, 1, 2, 3, 4, 5], true, [1], false, [2], true, d);
    UniformSum([1, 1, 2, 3, 4, 5], true, d);
    UniformSum([1], false, d);
    UniformSum([2], true, d);
  }

  /** `ensure_retractions_propagate_across_timestamps`: the result is the
      single vector `[1, 2, 2, 3, 4, 5]`. */
  method EnsureRetractionsPropagateAcrossTimestamps(hash: int -> nat) returns (rows: seq<(seq<int>, int)>)
    ensures rows == [([1, 2, 2, 3, 4, 5], 1)]
  {
    var updates := AcrossTimestampsUpdates();
    forall d ensures SumOf(updates, d) == multiset([1, 2, 2, 3, 4, 5])[d] {
      AcrossTimestampsNet(d);
    }
    Ascending([1, 2, 2, 3, 4, 5]);
    rows := SortToExpected(updates, [1, 2, 2, 3, 4, 5], hash);
  }

  /** The updates of `fully_retract_values`: 1 to 5 are inserted and then all
      removed. */
  function RetractAllUpdates(): (u: seq<(int, int)>)
    ensures |u| == 10
  {
    Uniform([1, 2, 3, 4, 5], true) + Uniform([1, 2, 3, 4, 5], false) + Uniform([], true)
  }

  /** Every integer nets out to zero. */
  lemma RetractAllNet(d: int)
    ensures SumOf(RetractAllUpdates(), d) == 0
  {
    RunsSum([1, 2, 3, 4, 5], true, [1, 2, 3, 4, 5], false, [], true, d);
    UniformSum([1, 2, 3, 4, 5], true, d);
    UniformSum([1, 2, 3, 4, 5], false, d);
    UniformSum([], true, d);
  }

  /** `fully_retract_values`: nothing is emitted. */
  method FullyRetractValues(hash: int -> nat) returns (rows: seq<(seq<int>, int)>)
    ensures rows == []
  {
    var updates := RetractAllUpdates();
    forall d ensures SumOf(updates, d) == 0 {
      RetractAllNet(d);
    }
    rows := HierarchicalSortByNamed(updates, Id, hash);
  }
}
