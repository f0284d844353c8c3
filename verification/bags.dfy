/** A differential collection observed at one logical time: a finite map from
    record to its (signed) multiplicity. A consolidated collection stores no
    zero multiplicities. The relational operators used by the statistics
    dataflow are functions on such maps. */
module Bags {

  /** Multiplicity of `x` in `m`; absent records have multiplicity 0. */
  function Get<T(!new)>(m: map<T, int>, x: T): int {
    if x in m then m[x] else 0
  }

  /** No record is stored with multiplicity zero. */
  predicate Consolidated<T(!new)>(m: map<T, int>) {
    forall x :: x in m ==> m[x] != 0
  }

  /** Every record is present with a positive multiplicity. */
  predicate Positive<T(!new)>(m: map<T, int>) {
    forall x :: x in m ==> m[x] > 0
  }

  /** Every record is present exactly once (a set seen as a collection). */
  predicate SetLike<T(!new)>(m: map<T, int>) {
    forall x :: x in m ==> m[x] == 1
  }

  /** Two consolidated collections with the same multiplicities are equal. */
  lemma ConsolidatedExt<T(!new)>(a: map<T, int>, b: map<T, int>)
    requires Consolidated(a) && Consolidated(b)
    requires forall x :: Get(a, x) == Get(b, x)
    ensures a == b
  {
    assert a.Keys == b.Keys by {
      forall x ensures x in a <==> x in b {
        assert Get(a, x) == Get(b, x);
      }
    }
    forall x | x in a ensures a[x] == b[x] {
      assert Get(a, x) == Get(b, x);
    }
  }

  /** `concat`: the multiplicities of the two collections add. */
  function Concat<T(!new)>(a: map<T, int>, b: map<T, int>): (r: map<T, int>)
    ensures Consolidated(r)
    ensures forall x :: Get(r, x) == Get(a, x) + Get(b, x)
  {
    map x | x in a.Keys + b.Keys && Get(a, x) + Get(b, x) != 0 :: Get(a, x) + Get(b, x)
  }

  /** `negate`: every multiplicity changes sign. */
  function Negate<T(!new)>(a: map<T, int>): (r: map<T, int>)
    ensures forall x :: Get(r, x) == -Get(a, x)
    ensures r.Keys == a.Keys
  {
    map x | x in a :: -a[x]
  }

  /** `filter(p)`: records satisfying `p` keep their multiplicity, the others vanish. */
  function Filter<T(!new)>(a: map<T, int>, p: T -> bool): (r: map<T, int>)
    ensures forall x :: Get(r, x) == (if p(x) then Get(a, x) else 0)
    ensures r.Keys <= a.Keys
  {
    map x | x in a && p(x) :: a[x]
  }

  /** `semijoin`: a record's multiplicity is multiplied by the multiplicity of its
      key in `keys` (the join of a collection with a keys-only collection). */
  function Semijoin<T(!new)>(a: map<T, int>, keys: map<T, int>): (r: map<T, int>)
    ensures Consolidated(r)
    ensures forall x :: Get(r, x) == Get(a, x) * Get(keys, x)
  {
    map x | x in a && x in keys && a[x] * keys[x] != 0 :: a[x] * keys[x]
  }

  /** `antijoin`: the collection minus its semijoin with `keys`. */
  function Antijoin<T(!new)>(a: map<T, int>, keys: map<T, int>): (r: map<T, int>)
    ensures Consolidated(r)
    ensures forall x :: Get(r, x) == Get(a, x) - Get(a, x) * Get(keys, x)
  {
    Concat(a, Negate(Semijoin(a, keys)))
  }

  /** Antijoin and semijoin with the same keys always add back up to the input. */
  lemma AntijoinSemijoinPartition<T(!new)>(a: map<T, int>, keys: map<T, int>)
    requires Consolidated(a)
    ensures Concat(Antijoin(a, keys), Semijoin(a, keys)) == a
  {
    ConsolidatedExt(Concat(Antijoin(a, keys), Semijoin(a, keys)), a);
  }

  /** With a set-like key collection, semijoin keeps exactly the records whose key
      is present and antijoin exactly those whose key is absent, each with its
      own multiplicity: the two results are disjoint and cover the input. */
  lemma SetLikeKeysSplit<T(!new)>(a: map<T, int>, keys: map<T, int>)
    requires Consolidated(a) && SetLike(keys)
    ensures Semijoin(a, keys).Keys == a.Keys * keys.Keys
    ensures Antijoin(a, keys).Keys == a.Keys - keys.Keys
    ensures forall x :: x in Semijoin(a, keys) ==> Semijoin(a, keys)[x] == a[x]
    ensures forall x :: x in Antijoin(a, keys) ==> Antijoin(a, keys)[x] == a[x]
  {
    var s, n := Semijoin(a, keys), Antijoin(a, keys);
    forall x ensures (x in s <==> x in a && x in keys) && (x in s ==> s[x] == a[x]) {
      assert Get(s, x) == Get(a, x) * Get(keys, x);
    }
    forall x ensures (x in n <==> x in a && x !in keys) && (x in n ==> n[x] == a[x]) {
      assert Get(n, x) == Get(a, x) - Get(a, x) * Get(keys, x);
    }
  }

  /* ------------------------------------------------------------------------ */
  /* Sums over finite sets                                                     */
  /* ------------------------------------------------------------------------ */

  /** The sum of `f` over the finite set `s`. */
  ghost function Sum<T(!new)>(s: set<T>, f: T -> int): int
    decreases s
  {
    if s == {} then 0 else var x :| x in s; f(x) + Sum(s - {x}, f)
  }

  /** Any element can be taken out of a sum first. */
  lemma {:induction false} SumRemove<T(!new)>(s: set<T>, f: T -> int, y: T)
    requires y in s
    ensures Sum(s, f) == f(y) + Sum(s - {y}, f)
    decreases s
  {
    var x :| x in s && Sum(s, f) == f(x) + Sum(s - {x}, f);
    if x != y {
      SumRemove(s - {x}, f, y);
      SumRemove(s - {y}, f, x);
      assert s - {x} - {y} == s - {y} - {x};
    }
  }

  /** Adding an element not in the set adds its value to the sum. */
  lemma SumInsert<T(!new)>(s: set<T>, f: T -> int, y: T)
    requires y !in s
    ensures Sum(s + {y}, f) == f(y) + Sum(s, f)
  {
    SumRemove(s + {y}, f, y);
    assert s + {y} - {y} == s;
  }

  /** Sums only depend on the values taken on the set. */
  lemma {:induction false} SumExt<T(!new)>(s: set<T>, f: T -> int, g: T -> int)
    requires forall x :: x in s ==> f(x) == g(x)
    ensures Sum(s, f) == Sum(s, g)
    decreases s
  {
    if s != {} {
      var x :| x in s;
      SumRemove(s, f, x);
      SumRemove(s, g, x);
      SumExt(s - {x}, f, g);
    }
  }

  /** A sum of ones is the cardinality. */
  lemma {:induction false} SumOnes<T(!new)>(s: set<T>, f: T -> int)
    requires forall x :: x in s ==> f(x) == 1
    ensures Sum(s, f) == |s|
    decreases s
  {
    if s != {} {
      var x :| x in s;
      SumRemove(s, f, x);
      SumOnes(s - {x}, f);
    }
  }

  /** A sum of positive terms over a non-empty set is positive, and a sum of
      non-negative terms is non-negative. */
  lemma {:induction false} SumPositive<T(!new)>(s: set<T>, f: T -> int)
    requires forall x :: x in s ==> f(x) >= 0
    ensures Sum(s, f) >= 0
    ensures (forall x :: x in s ==> f(x) > 0) && s != {} ==> Sum(s, f) > 0
    decreases s
  {
    if s != {} {
      var x :| x in s;
      SumRemove(s, f, x);
      SumPositive(s - {x}, f);
    }
  }

  /** A sum over a single element is its value. */
  lemma SumSingle<T(!new)>(y: T, f: T -> int)
    ensures Sum({y}, f) == f(y)
  {
    SumRemove({y}, f, y);
    assert {y} - {y} == {};
  }

  /** A sum of zeros is zero. */
  lemma {:induction false} SumZeros<T(!new)>(s: set<T>, f: T -> int)
    requires forall x :: x in s ==> f(x) == 0
    ensures Sum(s, f) == 0
    decreases s
  {
    if s != {} {
      var x :| x in s;
      SumRemove(s, f, x);
      SumZeros(s - {x}, f);
    }
  }

  /** The larger of two integers. */
  function MaxInt(a: int, b: int): (m: int)
    ensures m >= a && m >= b && (m == a || m == b)
  {
    if a >= b then a else b
  }

  /** The largest value of `f` on the non-empty finite set `s` (the `Max`
      difference accumulated over `s`). */
  ghost function Largest<T(!new)>(s: set<T>, f: T -> int): int
    requires s != {}
    decreases s
  {
    var x :| x in s; if s == {x} then f(x) else MaxInt(f(x), Largest(s - {x}, f))
  }

  /** `Largest` bounds every value on the set and is one of them. */
  lemma {:induction false} LargestBounds<T(!new)>(s: set<T>, f: T -> int)
    requires s != {}
    ensures forall y :: y in s ==> f(y) <= Largest(s, f)
    ensures exists y :: y in s && f(y) == Largest(s, f)
    decreases s
  {
    var x :| x in s && Largest(s, f) == if s == {x} then f(x) else MaxInt(f(x), Largest(s - {x}, f));
    if s != {x} {
      LargestBounds(s - {x}, f);
      var m := Largest(s - {x}, f);
      var z :| z in s - {x} && f(z) == m;
      assert Largest(s, f) == MaxInt(f(x), m);
      assert z in s;
      forall y | y in s ensures f(y) <= Largest(s, f) {
        if y != x {
          assert y in s - {x};
        }
      }
    } else {
      assert f(x) == Largest(s, f);
    }
  }

  /** `Largest` only depends on the values taken on the set. */
  lemma LargestExt<T(!new)>(s: set<T>, f: T -> int, g: T -> int)
    requires s != {}
    requires forall x :: x in s ==> f(x) == g(x)
    ensures Largest(s, f) == Largest(s, g)
  {
    LargestBounds(s, f);
    LargestBounds(s, g);
    var y :| y in s && f(y) == Largest(s, f);
    var z :| z in s && g(z) == Largest(s, g);
    assert f(z) <= Largest(s, f) && g(y) <= Largest(s, g);
  }

  /** `Largest` over a single element is its value. */
  lemma LargestSingle<T(!new)>(y: T, f: T -> int)
    ensures Largest({y}, f) == f(y)
  {
    LargestBounds({y}, f);
  }

  /** Adding an element to a non-empty set combines its value by `max`. */
  lemma LargestInsert<T(!new)>(s: set<T>, f: T -> int, y: T)
    requires s != {} && y !in s
    ensures Largest(s + {y}, f) == MaxInt(f(y), Largest(s, f))
  {
    LargestBounds(s, f);
    LargestBounds(s + {y}, f);
    var z :| z in s + {y} && f(z) == Largest(s + {y}, f);
    var u :| u in s && f(u) == Largest(s, f);
    assert u in s + {y};
  }

  /* ------------------------------------------------------------------------ */
  /* count_total                                                               */
  /* ------------------------------------------------------------------------ */

  /** The records of `m` that `proj` sends to `w`. */
  function Preimage<T(!new), W(!new,==)>(m: map<T, int>, proj: T -> W, w: W): (r: set<T>)
    ensures forall x :: x in r <==> x in m && proj(x) == w
  {
    set x | x in m.Keys && proj(x) == w
  }

  /** All values of `proj` on the records of `m`. */
  function Image<T(!new), W(!new,==)>(m: map<T, int>, proj: T -> W): (r: set<W>)
    ensures forall w :: w in r <==> exists x :: x in m && proj(x) == w
  {
    set x | x in m.Keys :: proj(x)
  }

  /** The accumulated multiplicity of the records that `proj` maps to `w`. */
  ghost function Total<T(!new), W(!new)>(m: map<T, int>, proj: T -> W, w: W): int {
    Sum(Preimage(m, proj, w), x => Get(m, x))
  }

  /** `map(proj).count_total()`: one row per key with its non-zero accumulated
      multiplicity. */
  ghost function CountTotal<T(!new), W(!new)>(m: map<T, int>, proj: T -> W): (r: map<W, int>)
    ensures Consolidated(r)
    ensures forall w :: w in r ==> r[w] == Total(m, proj, w)
    ensures forall w :: w in r ==> exists x :: x in m && proj(x) == w
    ensures forall w :: w in Image(m, proj) && Total(m, proj, w) != 0 ==> w in r
  {
    map w | w in Image(m, proj) && Total(m, proj, w) != 0 :: Total(m, proj, w)
  }

  /** On a collection with positive multiplicities every projected key gets a
      row, and its count is positive. */
  lemma CountTotalPositive<T(!new), W(!new)>(m: map<T, int>, proj: T -> W)
    requires Positive(m)
    ensures CountTotal(m, proj).Keys == Image(m, proj)
    ensures forall w :: w in CountTotal(m, proj) ==> CountTotal(m, proj)[w] > 0
  {
    forall w | w in Image(m, proj) ensures Total(m, proj, w) > 0 {
      var x :| x in m && proj(x) == w;
      assert x in Preimage(m, proj, w);
      SumPositive(Preimage(m, proj, w), x => Get(m, x));
    }
  }

  /** On a set-like collection the count of a key is the number of records
      projecting to it. */
  lemma CountTotalSetLike<T(!new), W(!new)>(m: map<T, int>, proj: T -> W)
    requires SetLike(m)
    ensures CountTotal(m, proj).Keys == Image(m, proj)
    ensures forall w :: w in CountTotal(m, proj) ==> CountTotal(m, proj)[w] == |Preimage(m, proj, w)|
  {
    forall w | w in Image(m, proj) ensures Total(m, proj, w) == |Preimage(m, proj, w)| > 0 {
      SumOnes(Preimage(m, proj, w), x => Get(m, x));
      var x :| x in m && proj(x) == w;
      assert x in Preimage(m, proj, w);
    }
  }
}
