/** The hierarchical sort-by-key operator of `src/dataflow/operators/sort.rs`,
    evaluated at one logical time for one user key `K`: the input collection is
    consolidated, every element becomes a one-entry list keyed by its hash, and
    each bucket level regroups the lists by `hash % 2^b` and runs the bucket
    reduce on every group. The final stage expands each surviving list. */
module SortBy {
  import opened Wrappers
  import opened SortCore

  /** `DEFAULT_HIERARCHICAL_BUCKETS`: the bucket exponents of the hierarchical variant. */
  const DEFAULT_HIERARCHICAL_BUCKETS: seq<nat> := [60, 56, 52, 48, 44, 40, 36, 32, 28, 24, 20, 16, 12, 8, 4, 0]

  /** The single bucket exponent `sort_by_named` passes to the core. */
  const SORT_BY_BUCKETS: seq<nat> := [0]

  function Pow2(b: nat): (p: nat)
    ensures p >= 1
  {
    if b == 0 then 1 else 2 * Pow2(b - 1)
  }

  lemma {:induction false} Pow2Add(a: nat, b: nat)
    ensures Pow2(a + b) == Pow2(a) * Pow2(b)
    decreases a
  {
    if a > 0 {
      Pow2Add(a - 1, b);
    }
  }

  /** `1u64 << bucket`; the shift is defined only below the word width. */
  function BucketWidth(bucket: nat): (w: nat)
    requires bucket < 64
    ensures w >= 1
  {
    Pow2(bucket)
  }

  lemma MulNonNeg(a: int, m: int)
    requires a >= 0 && m >= 0
    ensures a * m >= 0
  {
  }

  lemma MulAtLeast(k: int, m: int)
    requires m >= 0
    ensures k >= 1 ==> k * m >= m
    ensures k <= -1 ==> k * m <= -m
  {
    if k >= 1 {
      MulNonNeg(k - 1, m);
      assert k * m == (k - 1) * m + m;
    } else if k <= -1 {
      MulNonNeg(-k - 1, m);
      assert k * m == -((-k - 1) * m) - m;
    }
  }

  /** Euclidean division is unique. */
  lemma ModUnique(h: int, m: int, q: int, r: int)
    requires m > 0 && 0 <= r < m && h == q * m + r
    ensures h % m == r
  {
    var q2, r2 := h / m, h % m;
    assert h == q2 * m + r2;
    assert (q - q2) * m == r2 - r;
    MulAtLeast(q - q2, m);
  }

  lemma MulAssoc(q: int, k: int, m: int)
    ensures q * (m * k) == (q * k) * m
  {
  }

  /** Reducing modulo a multiple of `m` first does not change the residue modulo `m`. */
  lemma ModNested(h: nat, m: nat, k: nat)
    requires m > 0 && k > 0
    ensures (h % (m * k)) % m == h % m
  {
    var pa := m * k;
    MulNonNeg(m, k);
    MulAtLeast(k, m);
    var r := h % pa;
    var q := h / pa;
    var r2 := r % m;
    var q2 := r / m;
    assert h == q * pa + r;
    assert r == q2 * m + r2;
    MulAssoc(q, k, m);
    assert h == (q * k + q2) * m + r2;
    ModUnique(h, m, q * k + q2, r2);
  }

  /** Re-keying twice, with a width dividing the first, is re-keying once:
      `(h % 2^a) % 2^b == h % 2^b` for `b <= a`. */
  lemma ModPow2Refines(h: nat, a: nat, b: nat)
    requires b <= a
    ensures (h % Pow2(a)) % Pow2(b) == h % Pow2(b)
  {
    Pow2Add(b, a - b);
    ModNested(h, Pow2(b), Pow2(a - b));
  }

  /** A width of `2^0` sends every hash to bucket 0. */
  lemma LastBucketIsZero(h: nat)
    ensures h % BucketWidth(0) == 0
  {
  }

  /** The default exponents strictly decrease, stay below the word width and end
      at 0; `sort_by_named` uses the single exponent 0. */
  lemma BucketChoices()
    ensures forall i, j :: 0 <= i < j < |DEFAULT_HIERARCHICAL_BUCKETS| ==>
      DEFAULT_HIERARCHICAL_BUCKETS[i] > DEFAULT_HIERARCHICAL_BUCKETS[j]
    ensures forall i :: 0 <= i < |DEFAULT_HIERARCHICAL_BUCKETS| ==> DEFAULT_HIERARCHICAL_BUCKETS[i] < 64
    ensures DEFAULT_HIERARCHICAL_BUCKETS[|DEFAULT_HIERARCHICAL_BUCKETS| - 1] == 0
    ensures SORT_BY_BUCKETS[|SORT_BY_BUCKETS| - 1] == 0
  {
  }

  /* ------------------------------------------------------------------------ */
  /* Collections of bucketed records                                           */
  /* ------------------------------------------------------------------------ */

  /** Every element occurs at most once. */
  ghost predicate Distinct<D(!new)>(m: multiset<D>) {
    forall d :: m[d] <= 1
  }

  /** A group as every level leaves it: no zero diff, outer or inner, and no
      element in two places. */
  ghost predicate Clean<D(!new)>(recs: seq<Bucketed<D>>) {
    AllNonZero(recs) && Distinct(Elements(recs))
  }

  lemma {:induction false} NetAppendAt<D(!new)>(a: seq<Bucketed<D>>, b: seq<Bucketed<D>>, d: D)
    ensures Net(a + b, d) == Net(a, d) + Net(b, d)
    decreases |a|
  {
    if |a| > 0 {
      assert (a + b)[1..] == a[1..] + b;
      NetAppendAt(a[1..], b, d);
    } else {
      assert a + b == b;
    }
  }

  lemma AllNonZeroAppend<D(!new)>(a: seq<Bucketed<D>>, b: seq<Bucketed<D>>)
    requires AllNonZero(a) && AllNonZero(b)
    ensures AllNonZero(a + b)
  {
    forall i | 0 <= i < |a + b| ensures (a + b)[i].diff != 0 && NonZero((a + b)[i].data) {
      if i < |a| {
        assert (a + b)[i] == a[i];
      } else {
        assert (a + b)[i] == b[i - |a|];
      }
    }
  }

  lemma SingleRecord<D(!new)>(x: Bucketed<D>)
    ensures forall d :: Net([x], d) == x.diff * SumOf(x.data, d)
    ensures Elements([x]) == DataOf(x.data)
  {
    assert [x][1..] == [];
  }

  /** The records whose re-keyed hash `hash % width` is (`inside`) or is not
      (`!inside`) the bucket `b`, in input order. */
  function Select<D(!new)>(recs: seq<Bucketed<D>>, width: nat, b: nat, inside: bool): (r: seq<Bucketed<D>>)
    requires width > 0
    ensures |r| <= |recs|
    ensures |recs| > 0 && (recs[0].hash % width == b) != inside ==> |r| < |recs|
    ensures forall x :: x in r ==> x in recs && (x.hash % width == b <==> inside)
  {
    if |recs| == 0 then []
    else
      var rest := Select(recs[1..], width, b, inside);
      if (recs[0].hash % width == b) == inside then [recs[0]] + rest else rest
  }

  /** Splitting by bucket loses and invents no signed sum. */
  lemma {:induction false} SelectNetAt<D(!new)>(recs: seq<Bucketed<D>>, width: nat, b: nat, d: D)
    requires width > 0
    ensures Net(recs, d) == Net(Select(recs, width, b, true), d) + Net(Select(recs, width, b, false), d)
  {
    if |recs| > 0 {
      SelectNetAt(recs[1..], width, b, d);
      var yes, no := Select(recs[1..], width, b, true), Select(recs[1..], width, b, false);
      assert ([recs[0]] + yes)[1..] == yes;
      assert ([recs[0]] + no)[1..] == no;
    }
  }

  /** Both halves of a split keep only records of the input. */
  lemma SelectNonZero<D(!new)>(recs: seq<Bucketed<D>>, width: nat, b: nat, inside: bool)
    requires width > 0 && AllNonZero(recs)
    ensures AllNonZero(Select(recs, width, b, inside))
  {
    var r := Select(recs, width, b, inside);
    forall i | 0 <= i < |r| ensures r[i].diff != 0 && NonZero(r[i].data) {
      assert r[i] in recs;
    }
  }

  /* ------------------------------------------------------------------------ */
  /* One bucket level                                                          */
  /* ------------------------------------------------------------------------ */

  lemma NonZeroPermutation<D(!new)>(a: seq<(D, int)>, b: seq<(D, int)>)
    requires multiset(a) == multiset(b) && NonZero(a)
    ensures NonZero(b)
  {
    forall i | 0 <= i < |b| ensures b[i].1 != 0 {
      assert b[i] in multiset(a);
    }
  }

  /** Two neighbouring entries both count towards their elements. */
  lemma DataOfPair<D(!new)>(s: seq<(D, int)>, i: nat, x: D)
    requires i + 1 < |s|
    ensures DataOf(s)[x] >= (if s[i].0 == x then 1 else 0) + (if s[i + 1].0 == x then 1 else 0)
  {
    DataOfSplit(s, i);
    assert s[i..][1..] == s[i + 1..];
    assert DataOf(s[i..])[x] == (if s[i].0 == x then 1 else 0) + DataOf(s[i + 1..])[x];
    assert DataOf(s[i + 1..])[x] >= (if s[i + 1].0 == x then 1 else 0);
  }

  /** A list holding each element at most once has no equal neighbours. */
  lemma DistinctNoAdjacent<D(!new)>(s: seq<(D, int)>)
    requires Distinct(DataOf(s))
    ensures NoAdjacentEqual(s)
  {
    forall i | 0 <= i < |s| - 1 ensures s[i].0 != s[i + 1].0 {
      DataOfPair(s, i, s[i].0);
    }
  }

  /** The body of one `SortByBucket` reduce: flatten the group with outer diffs
      multiplied in, sort by `key`, compact. The group emits this one list,
      with diff 1. */
  method SortBucket<D(!new,==)>(group: seq<Bucketed<D>>, key: D -> int) returns (list: seq<(D, int)>)
    ensures SortedByKey(list, key)
    ensures forall d :: SumOf(list, d) == Net(group, d)
    ensures DataOf(list) <= Elements(group)
    ensures forall i :: 0 <= i < |list| - 1 ==> list[i].1 != 0
    ensures Clean(group) ==> NonZero(list) && DataOf(list) == Elements(group)
  {
    var flat := Flatten(group);
    var sorted := SortByKey(flat, key);
    PermutationSums(sorted, flat);
    if Clean(group) {
      FlattenNonZero(group);
      NonZeroPermutation(flat, sorted);
      DistinctNoAdjacent(sorted);
    }
    list := Compact(sorted, key);
  }

  /** What the level loop keeps true of the records `out` emitted so far and of
      the records `rest` not yet grouped. */
  ghost predicate LevelLoopInv<D(!new)>(recs: seq<Bucketed<D>>, out: seq<Bucketed<D>>, rest: seq<Bucketed<D>>,
                                       key: D -> int, width: nat) {
    && width > 0
    && (forall d :: Net(out, d) + Net(rest, d) == Net(recs, d))
    && (forall y :: Elements(out)[y] + Elements(rest)[y] <= Elements(recs)[y])
    && (Clean(recs) ==> AllNonZero(out) && AllNonZero(rest))
    && (Clean(recs) ==> forall y :: Elements(out)[y] + Elements(rest)[y] == Elements(recs)[y])
    && (|out| == 0 ==> rest == recs)
    && (|recs| == 0 ==> |out| == 0 && |rest| == 0)
    && (forall i :: 0 <= i < |out| ==> out[i].diff == 1 && out[i].hash < width && SortedByKey(out[i].data, key))
    && (forall i, j :: 0 <= i < j < |out| ==> out[i].hash != out[j].hash)
    && (forall i, x :: 0 <= i < |out| && x in rest ==> x.hash % width != out[i].hash)
  }

  /** The group taken out of a clean level input is clean. */
  lemma LevelGroupClean<D(!new)>(recs: seq<Bucketed<D>>, out: seq<Bucketed<D>>, rest: seq<Bucketed<D>>,
                                 key: D -> int, width: nat)
    requires LevelLoopInv(recs, out, rest, key, width) && |rest| > 0 && Clean(recs)
    ensures Clean(Select(rest, width, rest[0].hash % width, true))
  {
    var b := rest[0].hash % width;
    var group := Select(rest, width, b, true);
    SelectNonZero(rest, width, b, true);
    forall y ensures Elements(group)[y] <= 1 {
      SelectElementsAt(rest, width, b, y);
      assert Elements(rest)[y] <= Elements(recs)[y];
    }
  }

  /** The sums of one level step: the emitted record carries the signed sums
      its group carried. */
  lemma LevelStepSums<D(!new)>(recs: seq<Bucketed<D>>, out: seq<Bucketed<D>>, rest: seq<Bucketed<D>>,
                               key: D -> int, width: nat, list: seq<(D, int)>)
    requires LevelLoopInv(recs, out, rest, key, width) && |rest| > 0
    requires forall d :: SumOf(list, d) == Net(Select(rest, width, rest[0].hash % width, true), d)
    ensures var b := rest[0].hash % width;
      forall d :: Net(out + [Bucketed(b, list, 1)], d) + Net(Select(rest, width, b, false), d) == Net(recs, d)
  {
    var b := rest[0].hash % width;
    var rec := Bucketed(b, list, 1);
    SingleRecord(rec);
    forall d ensures Net(out + [rec], d) + Net(Select(rest, width, b, false), d) == Net(recs, d) {
      NetAppendAt(out, [rec], d);
      SelectNetAt(rest, width, b, d);
    }
  }

  lemma {:induction false} ElementsAppendAt<D(!new)>(a: seq<Bucketed<D>>, b: seq<Bucketed<D>>, y: D)
    ensures Elements(a + b)[y] == Elements(a)[y] + Elements(b)[y]
    decreases |a|
  {
    if |a| > 0 {
      assert (a + b)[1..] == a[1..] + b;
      ElementsAppendAt(a[1..], b, y);
    } else {
      assert a + b == b;
    }
  }

  lemma {:induction false} SelectElementsAt<D(!new)>(recs: seq<Bucketed<D>>, width: nat, b: nat, y: D)
    requires width > 0
    ensures Elements(recs)[y] == Elements(Select(recs, width, b, true))[y] + Elements(Select(recs, width, b, false))[y]
  {
    if |recs| > 0 {
      SelectElementsAt(recs[1..], width, b, y);
      var yes, no := Select(recs[1..], width, b, true), Select(recs[1..], width, b, false);
      assert ([recs[0]] + yes)[1..] == yes;
      assert ([recs[0]] + no)[1..] == no;
    }
  }

  /** For a clean input, no level step emits or keeps a zero diff. */
  lemma LevelStepNonZero<D(!new)>(out: seq<Bucketed<D>>, rest: seq<Bucketed<D>>, width: nat, list: seq<(D, int)>)
    requires width > 0 && |rest| > 0 && AllNonZero(out) && AllNonZero(rest) && NonZero(list)
    ensures var b := rest[0].hash % width;
      AllNonZero(out + [Bucketed(b, list, 1)]) && AllNonZero(Select(rest, width, b, false))
  {
    var rec := Bucketed(rest[0].hash % width, list, 1);
    SelectNonZero(rest, width, rest[0].hash % width, false);
    assert AllNonZero([rec]);
    AllNonZeroAppend(out, [rec]);
  }

  /** The bucket bookkeeping of one level step: the new record's bucket is in
      range, differs from every earlier bucket, and no record left over falls
      into it. */
  lemma LevelStepBuckets<D(!new)>(recs: seq<Bucketed<D>>, out: seq<Bucketed<D>>, rest: seq<Bucketed<D>>,
                                  key: D -> int, width: nat, list: seq<(D, int)>)
    requires LevelLoopInv(recs, out, rest, key, width) && |rest| > 0 && SortedByKey(list, key)
    ensures var b := rest[0].hash % width;
      var out', rest' := out + [Bucketed(b, list, 1)], Select(rest, width, b, false);
      && (forall i :: 0 <= i < |out'| ==> out'[i].diff == 1 && out'[i].hash < width && SortedByKey(out'[i].data, key))
      && (forall i, j :: 0 <= i < j < |out'| ==> out'[i].hash != out'[j].hash)
      && (forall i, x :: 0 <= i < |out'| && x in rest' ==> x.hash % width != out'[i].hash)
  {
    var b := rest[0].hash % width;
    var out' := out + [Bucketed(b, list, 1)];
    assert rest[0] in rest;
    assert forall i :: 0 <= i < |out| ==> out'[i] == out[i];
  }

  /** One level step keeps the loop invariant. */
  lemma LevelStep<D(!new)>(recs: seq<Bucketed<D>>, out: seq<Bucketed<D>>, rest: seq<Bucketed<D>>,
                           key: D -> int, width: nat, list: seq<(D, int)>)
    requires LevelLoopInv(recs, out, rest, key, width) && |rest| > 0
    requires var group := Select(rest, width, rest[0].hash % width, true);
      && SortedByKey(list, key)
      && (forall d :: SumOf(list, d) == Net(group, d))
      && (forall y :: DataOf(list)[y] <= Elements(group)[y])
      && (Clean(recs) ==> NonZero(list) && DataOf(list) == Elements(group))
    ensures var b := rest[0].hash % width;
      LevelLoopInv(recs, out + [Bucketed(b, list, 1)], Select(rest, width, b, false), key, width)
  {
    LevelStepSums(recs, out, rest, key, width, list);
    var b := rest[0].hash % width;
    var rec := Bucketed(b, list, 1);
    var group, rest' := Select(rest, width, b, true), Select(rest, width, b, false);
    assert Elements([rec]) == DataOf(list) by {
      assert [rec][1..] == [];
    }
    forall y ensures Elements(out + [rec])[y] + Elements(rest')[y] <= Elements(recs)[y]
      && (Clean(recs) ==> Elements(out + [rec])[y] + Elements(rest')[y] == Elements(recs)[y])
    {
      ElementsAppendAt(out, [rec], y);
      SelectElementsAt(rest, width, b, y);
      assert Elements(out + [rec])[y] == Elements(out)[y] + DataOf(list)[y];
      assert Elements(rest)[y] == Elements(group)[y] + Elements(rest')[y];
    }
    if Clean(recs) {
      LevelStepNonZero(out, rest, width, list);
    }
    LevelStepBuckets(recs, out, rest, key, width, list);
  }

  /** The records of one level are re-keyed by `hash % width` and grouped; each
      group is reduced to one record holding the sorted list, with diff 1. */
  method BuildSortBucket<D(!new,==)>(recs: seq<Bucketed<D>>, key: D -> int, width: nat)
    returns (out: seq<Bucketed<D>>)
    requires width > 0
    ensures forall d :: Net(out, d) == Net(recs, d)
    ensures Elements(out) <= Elements(recs)
    ensures |out| == 0 <==> |recs| == 0
    ensures forall i :: 0 <= i < |out| ==>
      out[i].diff == 1 && out[i].hash < width && SortedByKey(out[i].data, key)
    ensures forall i, j :: 0 <= i < j < |out| ==> out[i].hash != out[j].hash
    ensures Clean(recs) ==> Clean(out) && Elements(out) == Elements(recs)
  {
    out := [];
    var rest := recs;
    while |rest| > 0
      invariant LevelLoopInv(recs, out, rest, key, width)
      decreases |rest|
    {
      var b := rest[0].hash % width;
      var group := Select(rest, width, b, true);
      if Clean(recs) {
        LevelGroupClean(recs, out, rest, key, width);
      }
      var list := SortBucket(group, key);
      LevelStep(recs, out, rest, key, width, list);
      out := out + [Bucketed(b, list, 1)];
      rest := Select(rest, width, b, false);
    }
    assert Elements(out) <= Elements(recs) by {
      assert forall y :: Elements(out)[y] <= Elements(recs)[y];
    }
    if Clean(recs) {
      assert Elements(out) == Elements(recs);
    }
  }

  /** With width 1 every record lands in bucket 0, so distinct buckets leave at
      most one record. */
  lemma AtMostOneBucket<D(!new)>(recs: seq<Bucketed<D>>)
    requires forall i :: 0 <= i < |recs| ==> recs[i].hash < 1
    requires forall i, j :: 0 <= i < j < |recs| ==> recs[i].hash != recs[j].hash
    ensures |recs| <= 1
  {
    assert |recs| > 1 ==> recs[0].hash != recs[1].hash;
  }

  /* ------------------------------------------------------------------------ */
  /* The whole operator                                                        */
  /* ------------------------------------------------------------------------ */

  /** The entries other than those holding `d`. */
  function Without<D(!new,==)>(s: seq<(D, int)>, d: D): (r: seq<(D, int)>)
    ensures |r| <= |s|
    ensures |s| > 0 && s[0].0 == d ==> |r| < |s|
    ensures forall e :: SumOf(r, e) == if e == d then 0 else SumOf(s, e)
    ensures forall e :: DataOf(r)[e] == if e == d then 0 else DataOf(s)[e]
  {
    if |s| == 0 then []
    else
      var rest := Without(s[1..], d);
      if s[0].0 == d then rest
      else
        assert ([s[0]] + rest)[1..] == rest;
        [s[0]] + rest
  }

  /** The input collection at the time: each element with its accumulated
      multiplicity, elements whose updates cancel left out. */
  function Consolidate<D(!new,==)>(updates: seq<(D, int)>): (r: seq<(D, int)>)
    ensures NonZero(r)
    ensures forall d :: SumOf(r, d) == SumOf(updates, d)
    decreases |updates|
  {
    if |updates| == 0 then []
    else
      var d := updates[0].0;
      var rest := Consolidate(Without(updates, d));
      var n := SumOf(updates, d);
      if n == 0 then rest
      else
        assert ([(d, n)] + rest)[1..] == rest;
        [(d, n)] + rest
  }

  /** Consolidation holds every element at most once, and only elements that
      were updated. */
  lemma {:induction false} ConsolidateData<D(!new)>(updates: seq<(D, int)>)
    ensures Distinct(DataOf(Consolidate(updates)))
    ensures forall d :: DataOf(Consolidate(updates))[d] > 0 ==> DataOf(updates)[d] > 0
    decreases |updates|
  {
    if |updates| > 0 {
      var d := updates[0].0;
      var w := Without(updates, d);
      var rest := Consolidate(w);
      ConsolidateData(w);
      if SumOf(updates, d) != 0 {
        var n := SumOf(updates, d);
        assert Consolidate(updates) == [(d, n)] + rest;
        assert ([(d, n)] + rest)[1..] == rest;
        assert DataOf(rest)[d] == 0;
      }
    }
  }

  /** `((data.hashed(), key), vec![(data, 1)])` for every element of the
      consolidated input, with the element's multiplicity as its diff. */
  function Initial<D(!new)>(cons: seq<(D, int)>, hash: D -> nat): (recs: seq<Bucketed<D>>)
    ensures |recs| == |cons|
    ensures forall i :: 0 <= i < |cons| ==> recs[i] == Bucketed(hash(cons[i].0), [(cons[i].0, 1)], cons[i].1)
  {
    if |cons| == 0 then [] else [Bucketed(hash(cons[0].0), [(cons[0].0, 1)], cons[0].1)] + Initial(cons[1..], hash)
  }

  lemma {:induction false} InitialFacts<D(!new)>(cons: seq<(D, int)>, hash: D -> nat)
    ensures forall d :: Net(Initial(cons, hash), d) == SumOf(cons, d)
    ensures Elements(Initial(cons, hash)) == DataOf(cons)
  {
    if |cons| > 0 {
      InitialFacts(cons[1..], hash);
      var head := Bucketed(hash(cons[0].0), [(cons[0].0, 1)], cons[0].1);
      assert Initial(cons, hash)[1..] == Initial(cons[1..], hash);
      SumOfSingle((cons[0].0, 1));
    }
  }

  /** Every initial record carries a non-zero multiplicity and a one-entry list
      with diff 1. */
  lemma InitialNonZero<D(!new)>(cons: seq<(D, int)>, hash: D -> nat)
    requires NonZero(cons)
    ensures AllNonZero(Initial(cons, hash))
  {
    var recs := Initial(cons, hash);
    forall i | 0 <= i < |recs| ensures recs[i].diff != 0 && NonZero(recs[i].data) {
      assert recs[i].data == [(cons[i].0, 1)];
    }
  }

  /** The output rows `(Vec<D>, diff)`: every record's list expanded, with the
      record's diff. */
  function Rows<D(!new,==)>(recs: seq<Bucketed<D>>): (rows: seq<(seq<D>, int)>)
    ensures |rows| == |recs|
    ensures forall i :: 0 <= i < |recs| ==> rows[i] == (Expand(recs[i].data), recs[i].diff)
  {
    if |recs| == 0 then [] else [(Expand(recs[0].data), recs[0].diff)] + Rows(recs[1..])
  }

  /** How many times the emitted rows hold `d`, each row weighted by its diff. */
  function RowsCount<D(!new,==)>(rows: seq<(seq<D>, int)>, d: D): int {
    if |rows| == 0 then 0 else rows[0].1 * multiset(rows[0].0)[d] + RowsCount(rows[1..], d)
  }

  /** Records whose lists expand to as many copies of `d` as their net diff
      for `d` emit `d` as often as their signed sum. */
  lemma {:induction false} RowsCountNet<D(!new)>(recs: seq<Bucketed<D>>, d: D)
    requires forall j :: 0 <= j < |recs| ==> multiset(Expand(recs[j].data))[d] == SumOf(recs[j].data, d)
    ensures RowsCount(Rows(recs), d) == Net(recs, d)
  {
    if |recs| > 0 {
      assert Rows(recs)[1..] == Rows(recs[1..]);
      RowsCountNet(recs[1..], d);
    }
  }

  /** Records of diff 1 in which `d` occurs at most once emit `d` as often as
      its positive signed sum. */
  lemma {:induction false} RowsCountClean<D(!new)>(recs: seq<Bucketed<D>>, d: D)
    requires Elements(recs)[d] <= 1
    requires forall j :: 0 <= j < |recs| ==> recs[j].diff == 1
    ensures RowsCount(Rows(recs), d) == if Net(recs, d) > 0 then Net(recs, d) else 0
  {
    if |recs| > 0 {
      assert Rows(recs)[1..] == Rows(recs[1..]);
      ExpandCount(recs[0].data, d);
      RowsCountClean(recs[1..], d);
      if DataOf(recs[0].data)[d] == 0 {
        SumOfAbsent(recs[0].data, d);
      } else {
        NetAbsent(recs[1..], d);
      }
    }
  }

  /** An element in no list has signed sum 0. */
  lemma {:induction false} NetAbsent<D(!new)>(recs: seq<Bucketed<D>>, d: D)
    requires Elements(recs)[d] == 0
    ensures Net(recs, d) == 0
  {
    if |recs| > 0 {
      SumOfAbsent(recs[0].data, d);
      NetAbsent(recs[1..], d);
    }
  }

  /** The initial records emit every element as often as its signed sum. */
  lemma InitialRowsCount<D(!new)>(cons: seq<(D, int)>, hash: D -> nat, d: D)
    ensures RowsCount(Rows(Initial(cons, hash)), d) == SumOf(cons, d)
  {
    var recs := Initial(cons, hash);
    forall j | 0 <= j < |recs| ensures multiset(Expand(recs[j].data))[d] == SumOf(recs[j].data, d) {
      ExpandSingle(cons[j].0, 1);
      CopiesCount(cons[j].0, 1);
      SumOfSingle((cons[j].0, 1));
      if cons[j].0 != d {
        assert Copies(cons[j].0, 1) == [cons[j].0];
      }
    }
    RowsCountNet(recs, d);
    InitialFacts(cons, hash);
  }

  /** The state that every level keeps: each element's signed sum is its net
      multiplicity in the input, the records are clean, and there are records
      exactly when some element survives consolidation. */
  ghost predicate LevelInv<D(!new)>(recs: seq<Bucketed<D>>, updates: seq<(D, int)>, cons: seq<(D, int)>) {
    && (forall d :: Net(recs, d) == SumOf(updates, d))
    && Clean(recs)
    && (|recs| == 0 <==> |cons| == 0)
  }

  /** The consolidated input is empty exactly when every element's updates cancel. */
  lemma ConsolidatedEmpty<D(!new)>(updates: seq<(D, int)>, cons: seq<(D, int)>)
    requires NonZero(cons) && Distinct(DataOf(cons))
    requires forall d :: SumOf(cons, d) == SumOf(updates, d)
    ensures |cons| == 0 <==> forall d :: SumOf(updates, d) == 0
  {
    if |cons| > 0 {
      var d := cons[0].0;
      assert DataOf(cons)[d] == 1 + DataOf(cons[1..])[d];
      SumOfAbsent(cons[1..], d);
      assert SumOf(updates, d) == cons[0].1;
    }
  }

  /** With one record of diff 1 left, its expansion holds each element as many
      times as its positive net multiplicity. */
  lemma SingleRecordCount<D(!new)>(recs: seq<Bucketed<D>>, updates: seq<(D, int)>, cons: seq<(D, int)>)
    requires LevelInv(recs, updates, cons)
    requires |recs| == 1 && recs[0].diff == 1
    ensures forall d :: multiset(Expand(recs[0].data))[d] == if SumOf(updates, d) > 0 then SumOf(updates, d) else 0
  {
    SingleRecord(recs[0]);
    assert recs == [recs[0]];
    forall d ensures multiset(Expand(recs[0].data))[d] == if SumOf(updates, d) > 0 then SumOf(updates, d) else 0 {
      ExpandCount(recs[0].data, d);
    }
  }

  /** The state of the level loop: the level state, the initial records while
      no level has run, sorted lists of diff 1 once one has, and at most one
      record after a level of width 1. */
  ghost predicate CoreInv<D(!new)>(recs: seq<Bucketed<D>>, updates: seq<(D, int)>, cons: seq<(D, int)>,
                                   key: D -> int, hash: D -> nat, applied: bool, lastZero: bool) {
    && LevelInv(recs, updates, cons)
    && (!applied ==> recs == Initial(cons, hash))
    && (applied ==> forall j :: 0 <= j < |recs| ==> recs[j].diff == 1 && SortedByKey(recs[j].data, key))
    && (lastZero ==> |recs| <= 1)
  }

  /** One bucket level keeps the loop state. */
  lemma LevelAdvance<D(!new)>(recs: seq<Bucketed<D>>, next: seq<Bucketed<D>>, updates: seq<(D, int)>,
                              cons: seq<(D, int)>, key: D -> int, hash: D -> nat, applied: bool, lastZero: bool,
                              width: nat)
    requires CoreInv(recs, updates, cons, key, hash, applied, lastZero)
    requires forall d :: Net(next, d) == Net(recs, d)
    requires |next| == 0 <==> |recs| == 0
    requires Clean(recs) ==> Clean(next)
    requires forall i :: 0 <= i < |next| ==> next[i].diff == 1 && next[i].hash < width && SortedByKey(next[i].data, key)
    requires forall i, j :: 0 <= i < j < |next| ==> next[i].hash != next[j].hash
    ensures CoreInv(next, updates, cons, key, hash, true, width == 1)
  {
    if width == 1 {
      AtMostOneBucket(next);
    }
  }

  /** The rows emitted from the records the last level leaves. */
  lemma FinalRows<D(!new)>(recs: seq<Bucketed<D>>, updates: seq<(D, int)>, cons: seq<(D, int)>,
                           key: D -> int, hash: D -> nat, applied: bool, lastZero: bool)
    requires LevelInv(recs, updates, cons)
    requires NonZero(cons) && Distinct(DataOf(cons)) && forall d :: SumOf(cons, d) == SumOf(updates, d)
    requires !applied ==> recs == Initial(cons, hash)
    requires applied ==> forall j :: 0 <= j < |recs| ==> recs[j].diff == 1 && SortedByKey(recs[j].data, key)
    requires lastZero ==> |recs| <= 1
    ensures var rows := Rows(recs);
      && (|rows| == 0 <==> forall d :: SumOf(updates, d) == 0)
      && (forall i :: 0 <= i < |rows| ==> SortedSeq(rows[i].0, key))
      && (applied ==> forall i :: 0 <= i < |rows| ==> rows[i].1 == 1)
      && (lastZero ==> |rows| <= 1)
      && (applied && lastZero && |rows| == 1 ==>
            forall d :: multiset(rows[0].0)[d] == if SumOf(updates, d) > 0 then SumOf(updates, d) else 0)
      && (applied ==> forall d :: RowsCount(rows, d) == if SumOf(updates, d) > 0 then SumOf(updates, d) else 0)
      && (!applied ==> forall d :: RowsCount(rows, d) == SumOf(updates, d))
  {
    var rows := Rows(recs);
    ConsolidatedEmpty(updates, cons);
    forall j | 0 <= j < |rows| ensures SortedSeq(rows[j].0, key) {
      if applied {
        ExpandSorted(recs[j].data, key);
      } else {
        ExpandSingle(cons[j].0, 1);
      }
    }
    if applied && |rows| == 1 {
      SingleRecordCount(recs, updates, cons);
    }
    forall d ensures applied ==> RowsCount(rows, d) == if SumOf(updates, d) > 0 then SumOf(updates, d) else 0 {
      if applied {
        RowsCountClean(recs, d);
      }
    }
    forall d ensures !applied ==> RowsCount(rows, d) == SumOf(updates, d) {
      if !applied {
        InitialRowsCount(cons, hash, d);
      }
    }
  }

  /** `hierarchical_sort_core` for one user key: the rows `(Vec<D>, diff)` it
      emits at the time when `updates` are all the updates up to that time. */
  method HierarchicalSortCore<D(!new,==)>(updates: seq<(D, int)>, buckets: seq<nat>, key: D -> int, hash: D -> nat)
    returns (rows: seq<(seq<D>, int)>)
    requires forall i :: 0 <= i < |buckets| ==> buckets[i] < 64
    ensures |rows| == 0 <==> forall d :: SumOf(updates, d) == 0
    ensures forall i :: 0 <= i < |rows| ==> SortedSeq(rows[i].0, key)
    ensures |buckets| > 0 ==> forall i :: 0 <= i < |rows| ==> rows[i].1 == 1
    ensures |buckets| > 0 && buckets[|buckets| - 1] == 0 ==> |rows| <= 1
    ensures |buckets| > 0 && buckets[|buckets| - 1] == 0 && |rows| == 1 ==>
      forall d :: multiset(rows[0].0)[d] == if SumOf(updates, d) > 0 then SumOf(updates, d) else 0
    ensures |buckets| > 0 ==> forall d :: RowsCount(rows, d) == if SumOf(updates, d) > 0 then SumOf(updates, d) else 0
    ensures |buckets| == 0 ==> forall d :: RowsCount(rows, d) == SumOf(updates, d)
  {
    var cons := Consolidate(updates);
    ConsolidateData(updates);
    var recs := Initial(cons, hash);
    InitialFacts(cons, hash);
    InitialNonZero(cons, hash);
    var i := 0;
    while i < |buckets|
      invariant 0 <= i <= |buckets|
      invariant CoreInv(recs, updates, cons, key, hash, i > 0, i > 0 && buckets[i - 1] == 0)
    {
      var width := BucketWidth(buckets[i]);
      var next := BuildSortBucket(recs, key, width);
      LevelAdvance(recs, next, updates, cons, key, hash, i > 0, i > 0 && buckets[i - 1] == 0, width);
      recs := next;
      i := i + 1;
    }
    FinalRows(recs, updates, cons, key, hash, |buckets| > 0, |buckets| > 0 && buckets[|buckets| - 1] == 0);
    rows := Rows(recs);
  }

  /** `sort_by_named`: the core with the single bucket exponent 0. */
  method SortByNamed<D(!new,==)>(updates: seq<(D, int)>, key: D -> int, hash: D -> nat)
    returns (rows: seq<(seq<D>, int)>)
    ensures |rows| <= 1
    ensures |rows| == 0 <==> forall d :: SumOf(updates, d) == 0
    ensures forall i :: 0 <= i < |rows| ==> rows[i].1 == 1 && SortedSeq(rows[i].0, key)
    ensures |rows| == 1 ==>
      forall d :: multiset(rows[0].0)[d] == if SumOf(updates, d) > 0 then SumOf(updates, d) else 0
  {
    rows := HierarchicalSortCore(updates, SORT_BY_BUCKETS, key, hash);
  }

  /** `hierarchical_sort_by_named`: the core with the default bucket exponents. */
  method HierarchicalSortByNamed<D(!new,==)>(updates: seq<(D, int)>, key: D -> int, hash: D -> nat)
    returns (rows: seq<(seq<D>, int)>)
    ensures |rows| <= 1
    ensures |rows| == 0 <==> forall d :: SumOf(updates, d) == 0
    ensures forall i :: 0 <= i < |rows| ==> rows[i].1 == 1 && SortedSeq(rows[i].0, key)
    ensures |rows| == 1 ==>
      forall d :: multiset(rows[0].0)[d] == if SumOf(updates, d) > 0 then SumOf(updates, d) else 0
  {
    BucketChoices();
    rows := HierarchicalSortCore(updates, DEFAULT_HIERARCHICAL_BUCKETS, key, hash);
  }
}
