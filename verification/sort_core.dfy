/** The pure list computations inside one sort-by bucket reduce of
    `src/dataflow/operators/sort.rs`: flattening the child lists, sorting by the
    user key, compacting, and, after the last level, expanding `(d, r)` pairs
    into `r` copies of `d`. An entry `(d, r)` pairs an element with its diff. */
module SortCore {

  /** A record of a bucketed collection, `((hash, K), Vec<(D, R)>)` with its outer
      diff; the user key `K` is fixed, because records of different keys never
      meet in one reduce. */
  datatype Bucketed<D> = Bucketed(hash: nat, data: seq<(D, int)>, diff: int)

  /* ------------------------------------------------------------------------ */
  /* Observations of entry lists                                               */
  /* ------------------------------------------------------------------------ */

  /** The signed sum of the diffs attached to `d`. */
  function SumOf<D(!new,==)>(s: seq<(D, int)>, d: D): int {
    if |s| == 0 then 0 else (if s[0].0 == d then s[0].1 else 0) + SumOf(s[1..], d)
  }

  /** The elements of an entry list, with repetitions. */
  function DataOf<D(!new,==)>(s: seq<(D, int)>): multiset<D> {
    if |s| == 0 then multiset{} else multiset{s[0].0} + DataOf(s[1..])
  }

  /** No entry carries a zero diff. */
  predicate NonZero<D(!new,==)>(s: seq<(D, int)>) {
    forall i :: 0 <= i < |s| ==> s[i].1 != 0
  }

  /** No two neighbouring entries hold equal data. */
  predicate NoAdjacentEqual<D(!new,==)>(s: seq<(D, int)>) {
    forall i :: 0 <= i < |s| - 1 ==> s[i].0 != s[i + 1].0
  }

  /** Entries holding equal data stand next to each other. */
  predicate Contiguous<D(!new,==)>(s: seq<(D, int)>) {
    forall i, j, k :: 0 <= i < j < k < |s| && s[i].0 == s[k].0 ==> s[j].0 == s[i].0
  }

  /** The entries are in non-decreasing order of `key`. */
  predicate SortedByKey<D(!new,==)>(s: seq<(D, int)>, key: D -> int) {
    forall i, j :: 0 <= i < j < |s| ==> key(s[i].0) <= key(s[j].0)
  }

  lemma {:induction false} SumOfAppendAt<D(!new)>(a: seq<(D, int)>, b: seq<(D, int)>, d: D)
    ensures SumOf(a + b, d) == SumOf(a, d) + SumOf(b, d)
    decreases |a|
  {
    if |a| > 0 {
      assert (a + b)[1..] == a[1..] + b;
      SumOfAppendAt(a[1..], b, d);
    } else {
      assert a + b == b;
    }
  }

  lemma {:induction false} DataOfAppend<D(!new)>(a: seq<(D, int)>, b: seq<(D, int)>)
    ensures DataOf(a + b) == DataOf(a) + DataOf(b)
    decreases |a|
  {
    if |a| > 0 {
      assert (a + b)[1..] == a[1..] + b;
      DataOfAppend(a[1..], b);
    } else {
      assert a + b == b;
    }
  }

  lemma SumOfAppend<D(!new)>(a: seq<(D, int)>, b: seq<(D, int)>)
    ensures forall d :: SumOf(a + b, d) == SumOf(a, d) + SumOf(b, d)
    ensures DataOf(a + b) == DataOf(a) + DataOf(b)
  {
    forall d ensures SumOf(a + b, d) == SumOf(a, d) + SumOf(b, d) {
      SumOfAppendAt(a, b, d);
    }
    DataOfAppend(a, b);
  }

  lemma SumOfSingle<D(!new)>(x: (D, int))
    ensures forall d :: SumOf([x], d) == if x.0 == d then x.1 else 0
    ensures DataOf([x]) == multiset{x.0}
  {
    assert [x][1..] == [];
  }

  /** An element that does not occur has signed sum zero. */
  lemma SumOfAbsent<D(!new)>(s: seq<(D, int)>, d: D)
    requires DataOf(s)[d] == 0
    ensures SumOf(s, d) == 0
  {
  }

  /* ------------------------------------------------------------------------ */
  /* Flattening                                                                */
  /* ------------------------------------------------------------------------ */

  /** The signed sum of `d` over a group of records: each inner diff weighted by
      its record's outer diff. */
  function Net<D(!new,==)>(recs: seq<Bucketed<D>>, d: D): int {
    if |recs| == 0 then 0 else recs[0].diff * SumOf(recs[0].data, d) + Net(recs[1..], d)
  }

  /** All elements of all child lists of a group. */
  function Elements<D(!new,==)>(recs: seq<Bucketed<D>>): multiset<D> {
    if |recs| == 0 then multiset{} else DataOf(recs[0].data) + Elements(recs[1..])
  }

  /** The summed length of the child lists. */
  function LengthSum<D(!new,==)>(recs: seq<Bucketed<D>>): nat {
    if |recs| == 0 then 0 else |recs[0].data| + LengthSum(recs[1..])
  }

  /** Every outer diff and every inner diff of the group is non-zero. */
  predicate AllNonZero<D(!new,==)>(recs: seq<Bucketed<D>>) {
    forall i :: 0 <= i < |recs| ==> recs[i].diff != 0 && NonZero(recs[i].data)
  }

  /** One child list with every inner diff multiplied by the outer diff `r`. */
  function Scale<D(!new,==)>(s: seq<(D, int)>, r: int): (t: seq<(D, int)>)
    ensures |t| == |s|
    ensures forall i :: 0 <= i < |s| ==> t[i] == (s[i].0, r * s[i].1)
  {
    if |s| == 0 then [] else [(s[0].0, r * s[0].1)] + Scale(s[1..], r)
  }

  lemma ScaleSums<D(!new)>(s: seq<(D, int)>, r: int)
    ensures forall d :: SumOf(Scale(s, r), d) == r * SumOf(s, d)
    ensures DataOf(Scale(s, r)) == DataOf(s)
  {
    if |s| > 0 {
      ScaleSums(s[1..], r);
      var t := Scale(s, r);
      assert t[1..] == Scale(s[1..], r);
      forall d ensures SumOf(t, d) == r * SumOf(s, d) {
        calc {
          SumOf(t, d);
          (if s[0].0 == d then r * s[0].1 else 0) + r * SumOf(s[1..], d);
          { assert (if s[0].0 == d then r * s[0].1 else 0) == r * (if s[0].0 == d then s[0].1 else 0); }
          r * ((if s[0].0 == d then s[0].1 else 0) + SumOf(s[1..], d));
        }
      }
    }
  }

  /** The reduce body's first step: concatenate the child lists of the group,
      multiplying each outer diff into the inner diffs. */
  function Flatten<D(!new,==)>(recs: seq<Bucketed<D>>): (r: seq<(D, int)>)
    ensures |r| == LengthSum(recs)
    ensures forall d :: SumOf(r, d) == Net(recs, d)
    ensures DataOf(r) == Elements(recs)
  {
    if |recs| == 0 then []
    else
      var head := Scale(recs[0].data, recs[0].diff);
      var tail := Flatten(recs[1..]);
      ScaleSums(recs[0].data, recs[0].diff);
      SumOfAppend(head, tail);
      head + tail
  }

  /** Products of non-zero diffs are non-zero: a group without zero diffs
      flattens to a list without zero diffs. */
  lemma {:induction false} FlattenNonZero<D(!new)>(recs: seq<Bucketed<D>>)
    requires AllNonZero(recs)
    ensures NonZero(Flatten(recs))
  {
    if |recs| > 0 {
      assert AllNonZero(recs[1..]) by {
        forall i | 0 <= i < |recs[1..]| ensures recs[1..][i].diff != 0 && NonZero(recs[1..][i].data) {
          assert recs[1..][i] == recs[i + 1];
        }
      }
      FlattenNonZero(recs[1..]);
      var head: seq<(D, int)> := Scale(recs[0].data, recs[0].diff);
      var tail: seq<(D, int)> := Flatten(recs[1..]);
      var all: seq<(D, int)> := head + tail;
      assert Flatten(recs) == all;
      forall i | 0 <= i < |all| ensures all[i].1 != 0 {
        if i < |head| {
          assert all[i] == head[i];
        } else {
          assert all[i] == tail[i - |head|];
        }
      }
    }
  }

  /* ------------------------------------------------------------------------ */
  /* Sorting                                                                   */
  /* ------------------------------------------------------------------------ */

  /** Inserts `x` into a sorted list before the first entry with a larger or equal key. */
  function Insert<D(!new,==)>(x: (D, int), s: seq<(D, int)>, key: D -> int): (r: seq<(D, int)>)
    requires SortedByKey(s, key)
    ensures SortedByKey(r, key)
    ensures multiset(r) == multiset(s) + multiset{x}
  {
    if |s| == 0 || key(x.0) <= key(s[0].0) then
      [x] + s
    else
      var rest := Insert(x, s[1..], key);
      assert s == [s[0]] + s[1..];
      InsertLowerBound(x, s, rest, key);
      [s[0]] + rest
  }

  /** Everything in `rest`, which holds `x` and the tail of `s`, has a key at
      least that of the head of `s`. */
  lemma InsertLowerBound<D(!new)>(x: (D, int), s: seq<(D, int)>, rest: seq<(D, int)>, key: D -> int)
    requires |s| > 0 && SortedByKey(s, key) && key(s[0].0) < key(x.0)
    requires multiset(rest) == multiset(s[1..]) + multiset{x}
    ensures forall i :: 0 <= i < |rest| ==> key(s[0].0) <= key(rest[i].0)
  {
    forall i | 0 <= i < |rest| ensures key(s[0].0) <= key(rest[i].0) {
      assert rest[i] in multiset(rest);
      if rest[i] != x {
        assert rest[i] in multiset(s[1..]);
        var j :| 0 <= j < |s[1..]| && s[1..][j] == rest[i];
        assert s[j + 1] == rest[i];
      }
    }
  }

  /** `sort_unstable_by_key`, realised as an insertion sort. Everything the model
      proves about the sort step uses only the two facts in this contract: the
      result is sorted by `key` and is a permutation of the input. */
  function SortByKey<D(!new,==)>(s: seq<(D, int)>, key: D -> int): (r: seq<(D, int)>)
    ensures SortedByKey(r, key)
    ensures multiset(r) == multiset(s)
  {
    if |s| == 0 then []
    else
      assert s == [s[0]] + s[1..];
      Insert(s[0], SortByKey(s[1..], key), key)
  }

  lemma MultisetRemove<D(!new)>(b: seq<(D, int)>, i: nat)
    requires i < |b|
    ensures multiset(b[..i] + b[i + 1..]) + multiset{b[i]} == multiset(b)
  {
    assert b == b[..i] + ([b[i]] + b[i + 1..]);
  }

  /** The head of `a` sits at some position `i` of its permutation `b`; the
      tails that remain are again permutations of each other. */
  lemma PermutationTail<D(!new)>(a: seq<(D, int)>, b: seq<(D, int)>) returns (i: nat)
    requires multiset(a) == multiset(b) && |a| > 0
    ensures i < |b| && b[i] == a[0]
    ensures multiset(a[1..]) == multiset(b[..i] + b[i + 1..])
  {
    assert a[0] in multiset(b);
    i :| 0 <= i < |b| && b[i] == a[0];
    MultisetRemove(b, i);
    assert a == [a[0]] + a[1..];
    var b' := b[..i] + b[i + 1..];
    forall y ensures multiset(a[1..])[y] == multiset(b')[y] {
      assert multiset(a)[y] == multiset(a[1..])[y] + multiset{a[0]}[y];
      assert multiset(b)[y] == multiset(b')[y] + multiset{a[0]}[y];
    }
  }

  lemma {:induction false} PermutationSumAt<D(!new)>(a: seq<(D, int)>, b: seq<(D, int)>, d: D)
    requires multiset(a) == multiset(b)
    ensures SumOf(a, d) == SumOf(b, d)
    decreases |a|
  {
    if |a| == 0 {
      assert |b| == |multiset(b)| == 0;
    } else {
      var i := PermutationTail(a, b);
      PermutationSumAt(a[1..], b[..i] + b[i + 1..], d);
      RemoveSumAt(b, i, d);
    }
  }

  lemma {:induction false} PermutationData<D(!new)>(a: seq<(D, int)>, b: seq<(D, int)>)
    requires multiset(a) == multiset(b)
    ensures DataOf(a) == DataOf(b)
    decreases |a|
  {
    if |a| == 0 {
      assert |b| == |multiset(b)| == 0;
    } else {
      var i := PermutationTail(a, b);
      PermutationData(a[1..], b[..i] + b[i + 1..]);
      RemoveData(b, i);
    }
  }

  /** Permuting a list changes neither the signed sum of any element nor the
      elements themselves. */
  lemma PermutationSums<D(!new)>(a: seq<(D, int)>, b: seq<(D, int)>)
    requires multiset(a) == multiset(b)
    ensures forall d :: SumOf(a, d) == SumOf(b, d)
    ensures DataOf(a) == DataOf(b)
  {
    forall d ensures SumOf(a, d) == SumOf(b, d) {
      PermutationSumAt(a, b, d);
    }
    PermutationData(a, b);
  }

  /* ------------------------------------------------------------------------ */
  /* Compaction                                                                */
  /* ------------------------------------------------------------------------ */

  lemma RemoveSumAt<D(!new)>(s: seq<(D, int)>, i: nat, d: D)
    requires i < |s|
    ensures SumOf(s[..i] + s[i + 1..], d) == SumOf(s, d) - (if s[i].0 == d then s[i].1 else 0)
  {
    var a, b := s[..i], s[i + 1..];
    assert s == a + ([s[i]] + b);
    SumOfAppendAt(a, b, d);
    SumOfAppendAt(a, [s[i]] + b, d);
    assert ([s[i]] + b)[1..] == b;
  }

  lemma RemoveData<D(!new)>(s: seq<(D, int)>, i: nat)
    requires i < |s|
    ensures DataOf(s[..i] + s[i + 1..]) + multiset{s[i].0} == DataOf(s)
  {
    var a, b := s[..i], s[i + 1..];
    assert s == a + ([s[i]] + b);
    var x := multiset{s[i].0};
    DataOfAppend(a, b);
    DataOfAppend(a, [s[i]] + b);
    assert ([s[i]] + b)[1..] == b;
    assert DataOf([s[i]] + b) == x + DataOf(b);
    calc {
      DataOf(s);
      DataOf(a) + (x + DataOf(b));
      (DataOf(a) + DataOf(b)) + x;
    }
  }

  lemma RemoveSums<D(!new)>(s: seq<(D, int)>, i: nat)
    requires i < |s|
    ensures forall d :: SumOf(s[..i] + s[i + 1..], d) == SumOf(s, d) - (if s[i].0 == d then s[i].1 else 0)
    ensures DataOf(s[..i] + s[i + 1..]) + multiset{s[i].0} == DataOf(s)
  {
    forall d ensures SumOf(s[..i] + s[i + 1..], d) == SumOf(s, d) - (if s[i].0 == d then s[i].1 else 0) {
      RemoveSumAt(s, i, d);
    }
    RemoveData(s, i);
  }

  lemma RemoveOrder<D(!new)>(s: seq<(D, int)>, i: nat, key: D -> int)
    requires i < |s|
    ensures SortedByKey(s, key) ==> SortedByKey(s[..i] + s[i + 1..], key)
    ensures Contiguous(s) ==> Contiguous(s[..i] + s[i + 1..])
  {
    var t := s[..i] + s[i + 1..];
    assert forall m :: 0 <= m < |t| ==> t[m] == s[if m < i then m else m + 1];
  }

  /** What the compaction loop keeps true of its working list `r` at position
      `idx`, relative to its input `data`. */
  ghost predicate CompactInv<D(!new)>(data: seq<(D, int)>, r: seq<(D, int)>, idx: int, key: D -> int) {
    && 0 <= idx <= |r| <= |data|
    && (forall d :: SumOf(r, d) == SumOf(data, d))
    && DataOf(r) <= DataOf(data)
    && (forall i :: 0 <= i < idx ==> r[i].1 != 0)
    && (SortedByKey(data, key) ==> SortedByKey(r, key))
    && (Contiguous(data) ==> Contiguous(r))
    && (Contiguous(data) ==> forall i :: 0 <= i < idx && i + 1 < |r| ==> r[i].0 != r[i + 1].0)
    && (NonZero(data) && NoAdjacentEqual(data) ==> r == data)
  }

  /** Entries left of a removed position keep their place; later ones shift by one. */
  lemma RemoveIndex<D(!new)>(s: seq<(D, int)>, i: nat)
    requires i < |s|
    ensures forall m :: 0 <= m < i ==> (s[..i] + s[i + 1..])[m] == s[m]
    ensures forall m :: i < m < |s| ==> (s[..i] + s[i + 1..])[m - 1] == s[m]
  {
  }

  /** In a contiguous list whose first `idx` neighbours differ, removing entry
      `idx` cannot make entry `idx - 1` equal to its new right neighbour. */
  lemma DropNeighbours<D(!new)>(r: seq<(D, int)>, idx: nat)
    requires idx + 1 < |r| && Contiguous(r)
    requires forall i :: 0 <= i < idx && i + 1 < |r| ==> r[i].0 != r[i + 1].0
    ensures var t := r[..idx] + r[idx + 1..];
            forall i :: 0 <= i < idx && i + 1 < |t| ==> t[i].0 != t[i + 1].0
  {
    RemoveIndex(r, idx);
    if idx > 0 {
      assert r[idx - 1].0 != r[idx].0;
      assert r[idx - 1].0 != r[idx + 1].0;
    }
  }

  /** Removing a zero-diff entry at `idx` keeps the loop invariant. */
  lemma CompactDropStep<D(!new)>(data: seq<(D, int)>, r: seq<(D, int)>, idx: nat, key: D -> int)
    requires CompactInv(data, r, idx, key)
    requires idx + 1 < |r| && r[idx].1 == 0
    ensures CompactInv(data, r[..idx] + r[idx + 1..], idx, key)
  {
    var t := r[..idx] + r[idx + 1..];
    RemoveSums(r, idx);
    RemoveOrder(r, idx, key);
    RemoveIndex(r, idx);
    if Contiguous(data) {
      DropNeighbours(r, idx);
    }
  }

  /** Entry `i + 1` folded into entry `i`: its diff is added to entry `i`'s
      and it is removed from the list. */
  function Fold<D(!new,==)>(r: seq<(D, int)>, i: nat): (t: seq<(D, int)>)
    requires i + 1 < |r|
    ensures |t| == |r| - 1
    ensures forall m :: 0 <= m < i ==> t[m] == r[m]
    ensures t[i] == (r[i].0, r[i].1 + r[i + 1].1)
    ensures forall m :: i < m < |t| ==> t[m] == r[m + 1]
  {
    var u := r[i := (r[i].0, r[i].1 + r[i + 1].1)];
    u[..i + 1] + u[i + 2..]
  }

  lemma SumOfSplit<D(!new)>(s: seq<(D, int)>, k: nat, d: D)
    requires k <= |s|
    ensures SumOf(s, d) == SumOf(s[..k], d) + SumOf(s[k..], d)
  {
    assert s == s[..k] + s[k..];
    SumOfAppendAt(s[..k], s[k..], d);
  }

  lemma DataOfSplit<D(!new)>(s: seq<(D, int)>, k: nat)
    requires k <= |s|
    ensures DataOf(s) == DataOf(s[..k]) + DataOf(s[k..])
  {
    assert s == s[..k] + s[k..];
    DataOfAppend(s[..k], s[k..]);
  }

  lemma FoldSumAt<D(!new)>(r: seq<(D, int)>, i: nat, d: D)
    requires i + 1 < |r| && r[i].0 == r[i + 1].0
    ensures SumOf(Fold(r, i), d) == SumOf(r, d)
  {
    var t := Fold(r, i);
    var v := if r[i].0 == d then 1 else 0;
    SumOfSplit(r, i, d);
    SumOfSplit(t, i, d);
    assert t[..i] == r[..i];
    assert r[i..][1..] == r[i + 1..];
    assert r[i + 1..][1..] == r[i + 2..];
    assert t[i..][1..] == r[i + 2..];
    assert SumOf(r[i..], d) == v * r[i].1 + SumOf(r[i + 1..], d);
    assert SumOf(r[i + 1..], d) == v * r[i + 1].1 + SumOf(r[i + 2..], d);
    assert SumOf(t[i..], d) == v * (r[i].1 + r[i + 1].1) + SumOf(r[i + 2..], d);
  }

  lemma FoldDataAt<D(!new)>(r: seq<(D, int)>, i: nat, y: D)
    requires i + 1 < |r| && r[i].0 == r[i + 1].0
    ensures DataOf(Fold(r, i))[y] + (if r[i].0 == y then 1 else 0) == DataOf(r)[y]
  {
    var t := Fold(r, i);
    var v := if r[i].0 == y then 1 else 0;
    DataOfSplit(r, i);
    DataOfSplit(t, i);
    assert t[..i] == r[..i];
    assert r[i..][1..] == r[i + 1..];
    assert r[i + 1..][1..] == r[i + 2..];
    assert t[i..][1..] == r[i + 2..];
    assert DataOf(r[i..])[y] == v + DataOf(r[i + 1..])[y];
    assert DataOf(r[i + 1..])[y] == v + DataOf(r[i + 2..])[y];
    assert DataOf(t[i..])[y] == v + DataOf(r[i + 2..])[y];
  }

  /** Folding keeps order and contiguity. */
  lemma FoldOrder<D(!new)>(r: seq<(D, int)>, i: nat, key: D -> int)
    requires i + 1 < |r|
    ensures SortedByKey(r, key) ==> SortedByKey(Fold(r, i), key)
    ensures Contiguous(r) ==> Contiguous(Fold(r, i))
  {
    var t := Fold(r, i);
    assert forall m :: 0 <= m < |t| ==> t[m].0 == r[if m <= i then m else m + 1].0;
  }

  /** Folding entry `idx + 1` into an equal entry `idx` keeps the loop invariant. */
  lemma CompactMergeStep<D(!new)>(data: seq<(D, int)>, r: seq<(D, int)>, idx: nat, key: D -> int)
    requires CompactInv(data, r, idx, key)
    requires idx + 1 < |r| && r[idx].1 != 0 && r[idx].0 == r[idx + 1].0
    ensures CompactInv(data, Fold(r, idx), idx, key)
  {
    var t := Fold(r, idx);
    forall d ensures SumOf(t, d) == SumOf(data, d) {
      FoldSumAt(r, idx, d);
    }
    forall y ensures DataOf(t)[y] <= DataOf(data)[y] {
      FoldDataAt(r, idx, y);
    }
    FoldOrder(r, idx, key);
    assert forall i :: 0 <= i < idx ==> t[i] == r[i];
    assert NonZero(data) && NoAdjacentEqual(data) ==> r != data;
    if Contiguous(data) && idx > 0 {
      assert t[idx - 1].0 == r[idx - 1].0 && t[idx].0 == r[idx].0;
    }
  }

  /** Stepping past a non-zero entry that differs from its right neighbour keeps
      the loop invariant. */
  lemma CompactAdvanceStep<D(!new)>(data: seq<(D, int)>, r: seq<(D, int)>, idx: nat, key: D -> int)
    requires CompactInv(data, r, idx, key)
    requires idx + 1 < |r| && r[idx].1 != 0 && r[idx].0 != r[idx + 1].0
    ensures CompactInv(data, r, idx + 1, key)
  {
  }

  /** The compaction loop of the bucket reduce: walks the sorted list, removing
      an entry whose diff is zero and folding an entry into an equal left
      neighbour by adding its diff. The guard `idx + 1 < len` never inspects the
      last entry on its own, so a zero diff can survive there. `key` is only used
      to state that sortedness is kept. */
  method Compact<D(!new,==)>(data: seq<(D, int)>, ghost key: D -> int) returns (r: seq<(D, int)>)
    ensures forall d :: SumOf(r, d) == SumOf(data, d)
    ensures DataOf(r) <= DataOf(data)
    ensures |r| <= |data|
    ensures forall i :: 0 <= i < |r| - 1 ==> r[i].1 != 0
    ensures SortedByKey(data, key) ==> SortedByKey(r, key)
    ensures Contiguous(data) ==> NoAdjacentEqual(r)
    ensures NonZero(data) && NoAdjacentEqual(data) ==> r == data
  {
    r := data;
    var idx := 0;
    while idx + 1 < |r|
      invariant CompactInv(data, r, idx, key)
      decreases |r| - idx
    {
      if r[idx].1 == 0 {
        CompactDropStep(data, r, idx, key);
        r := r[..idx] + r[idx + 1..];
      } else if r[idx].0 == r[idx + 1].0 {
        CompactMergeStep(data, r, idx, key);
        r := Fold(r, idx);
      } else {
        CompactAdvanceStep(data, r, idx, key);
        idx := idx + 1;
      }
    }
  }

  /* ------------------------------------------------------------------------ */
  /* Expansion                                                                 */
  /* ------------------------------------------------------------------------ */

  /** `(0..r).map(|_| d)`: `r` copies of `d`, none when `r` is not positive. */
  function Copies<D(!new,==)>(d: D, r: int): (c: seq<D>)
    ensures |c| == if r > 0 then r else 0
    ensures forall i :: 0 <= i < |c| ==> c[i] == d
    decreases r
  {
    if r <= 0 then [] else [d] + Copies(d, r - 1)
  }

  /** The final stage: every entry `(d, r)` becomes its copies, in list order. */
  function Expand<D(!new,==)>(s: seq<(D, int)>): (v: seq<D>)
    ensures forall x :: x in v ==> x in DataOf(s)
  {
    if |s| == 0 then [] else Copies(s[0].0, s[0].1) + Expand(s[1..])
  }

  /** Expansion distributes over concatenation of entry lists. */
  lemma {:induction false} ExpandAppend<D(!new)>(a: seq<(D, int)>, b: seq<(D, int)>)
    ensures Expand(a + b) == Expand(a) + Expand(b)
  {
    if |a| == 0 {
      assert a + b == b;
    } else {
      assert (a + b)[1..] == a[1..] + b;
      ExpandAppend(a[1..], b);
    }
  }

  /** A single entry expands to exactly `r` consecutive copies of its element. */
  lemma ExpandSingle<D(!new)>(d: D, r: int)
    ensures Expand([(d, r)]) == Copies(d, r)
  {
    assert [(d, r)][1..] == [];
  }

  /** Dropping an entry whose diff is not positive leaves the expansion unchanged;
      in particular a zero diff left at the end of a compacted list is harmless. */
  lemma ExpandDropNonPositive<D(!new)>(s: seq<(D, int)>, i: nat)
    requires i < |s| && s[i].1 <= 0
    ensures Expand(s[..i] + s[i + 1..]) == Expand(s)
  {
    var a, b := s[..i], s[i + 1..];
    assert s == a + ([s[i]] + b);
    ExpandAppend(a, [s[i]] + b);
    ExpandAppend([s[i]], b);
    ExpandSingle(s[i].0, s[i].1);
    ExpandAppend(a, b);
  }

  /** When `d` occurs in at most one entry, the expansion holds `d` exactly as
      many times as its positive net diff. */
  lemma {:induction false} ExpandCount<D(!new)>(s: seq<(D, int)>, d: D)
    requires DataOf(s)[d] <= 1
    ensures multiset(Expand(s))[d] == if SumOf(s, d) > 0 then SumOf(s, d) else 0
  {
    if |s| > 0 {
      var c := Copies(s[0].0, s[0].1);
      assert multiset(Expand(s)) == multiset(c) + multiset(Expand(s[1..]));
      if s[0].0 == d {
        SumOfAbsent(s[1..], d);
        assert d !in Expand(s[1..]);
        assert multiset(c)[d] == |c| by {
          assert c == Copies(d, s[0].1);
          CopiesCount(d, s[0].1);
        }
      } else {
        ExpandCount(s[1..], d);
        assert d !in multiset(c);
      }
    }
  }

  lemma {:induction false} CopiesCount<D(!new)>(d: D, r: int)
    ensures multiset(Copies(d, r))[d] == if r > 0 then r else 0
    decreases r
  {
    if r > 0 {
      CopiesCount(d, r - 1);
    }
  }

  /** The elements of a sequence are in non-decreasing order of `key`. */
  predicate SortedSeq<D(!new,==)>(v: seq<D>, key: D -> int) {
    forall i, j :: 0 <= i < j < |v| ==> key(v[i]) <= key(v[j])
  }

  /** A sorted entry list expands to a sorted vector. */
  lemma {:induction false} ExpandSorted<D(!new)>(s: seq<(D, int)>, key: D -> int)
    requires SortedByKey(s, key)
    ensures SortedSeq(Expand(s), key)
  {
    if |s| > 0 {
      ExpandSorted(s[1..], key);
      var c, rest := Copies(s[0].0, s[0].1), Expand(s[1..]);
      forall x | x in rest ensures key(s[0].0) <= key(x) {
        var j :| 0 <= j < |s[1..]| && s[1..][j].0 == x by {
          DataOfMember(s[1..], x);
        }
        assert s[1..][j] == s[j + 1];
      }
      var v := c + rest;
      forall i, j | 0 <= i < j < |v| ensures key(v[i]) <= key(v[j]) {
        if j >= |c| {
          if i >= |c| {
            assert v[i] == rest[i - |c|] && v[j] == rest[j - |c|];
          } else {
            assert rest[j - |c|] in rest;
          }
        }
      }
    }
  }

  lemma DataOfMember<D(!new)>(s: seq<(D, int)>, x: D)
    requires x in DataOf(s)
    ensures exists j :: 0 <= j < |s| && s[j].0 == x
  {
    if s[0].0 != x {
      DataOfMember(s[1..], x);
      var j :| 0 <= j < |s[1..]| && s[1..][j].0 == x;
      assert s[j + 1].0 == x;
    }
  }
}
