/**
  `allPairsEach`, `allPairsMap` and `allPairsMapFilter`: the callback runs
  once for every index pair `i < j`, row by row, with `items[i]`,
  `items[j]`, both indices and the array.
 */
module AllPairs {
  import opened Wrappers
  import opened Seqs
  import opened MapFilters

  /** The pairs of the inner loop for `i`: `(i, i + 1)`, …, `(i, n - 1)`. */
  function Row(i: nat, n: nat): (r: seq<(nat, nat)>)
    ensures |r| == if i < n then n - i - 1 else 0
    ensures forall k :: 0 <= k < |r| ==> r[k] == (i, i + 1 + k)
  {
    seq(if i < n then n - i - 1 else 0, k => (i, i + 1 + k))
  }

  /** The pairs of the first `i` rows, in loop order. */
  function PairsBelow(i: nat, n: nat): (r: seq<(nat, nat)>)
    ensures forall k :: 0 <= k < |r| ==> r[k].0 < i && r[k].0 < r[k].1 < n
  {
    if i == 0 then [] else PairsBelow(i - 1, n) + Row(i - 1, n)
  }

  /** The call sequence of the nested loops over `n` items; `allPairsEach` makes exactly these calls. */
  function Pairs(n: nat): (r: seq<(nat, nat)>)
    ensures forall k :: 0 <= k < |r| ==> r[k].0 < r[k].1 < n
  {
    PairsBelow(n, n)
  }

  /** `(a, b)` comes strictly before `(c, d)` in lexicographic order. */
  predicate LexLess(p: (nat, nat), q: (nat, nat))
  {
    p.0 < q.0 || (p.0 == q.0 && p.1 < q.1)
  }

  predicate LexSorted(s: seq<(nat, nat)>)
  {
    forall a, b :: 0 <= a < b < |s| ==> LexLess(s[a], s[b])
  }

  /** After `i` rows: exactly the pairs with first index below `i`. */
  lemma {:induction false} PairsBelowMembers(i: nat, n: nat)
    ensures forall p: (nat, nat) :: p in PairsBelow(i, n) <==> p.0 < i && p.0 < p.1 < n
  {
    if i > 0 {
      PairsBelowMembers(i - 1, n);
      var a, row := PairsBelow(i - 1, n), Row(i - 1, n);
      forall p: (nat, nat) | p.0 == i - 1 && p.0 < p.1 < n ensures p in a + row {
        assert row[p.1 - i] == p;
      }
    }
  }

  /** The rows come out in strictly increasing lexicographic order. */
  lemma {:induction false} PairsBelowSorted(i: nat, n: nat)
    ensures LexSorted(PairsBelow(i, n))
  {
    if i > 0 {
      PairsBelowSorted(i - 1, n);
      var a, row := PairsBelow(i - 1, n), Row(i - 1, n);
      forall x, y | 0 <= x < y < |a + row| ensures LexLess((a + row)[x], (a + row)[y]) {
        if x < |a| {
          assert (a + row)[x] == a[x];
        }
        if y < |a| {
          assert (a + row)[y] == a[y];
        }
      }
    }
  }

  /** After `i` rows there are `i(2n - i - 1)/2` pairs. */
  lemma {:induction false} PairsBelowCount(i: nat, n: nat)
    requires i <= n
    ensures 2 * |PairsBelow(i, n)| == i * (2 * n - i - 1)
  {
    if i > 0 {
      PairsBelowCount(i - 1, n);
      assert |PairsBelow(i, n)| == |PairsBelow(i - 1, n)| + (n - i);
      assert (i - 1) * (2 * n - i) + 2 * (n - i) == i * (2 * n - i - 1) by {
        assert (i - 1) * (2 * n - i) == i * (2 * n - i) - (2 * n - i);
        assert i * (2 * n - i) == i * (2 * n - i - 1) + i;
      }
    }
  }

  /** Every index pair `i < j < n` exactly once, in lexicographic order, `n(n - 1)/2` in all. */
  lemma {:induction false} PairsSpec(n: nat)
    ensures forall p: (nat, nat) :: p in Pairs(n) <==> p.0 < p.1 < n
    ensures LexSorted(Pairs(n)) && NoDup(Pairs(n))
    ensures 2 * |Pairs(n)| == n * (n - 1)
  {
    PairsBelowMembers(n, n);
    PairsBelowSorted(n, n);
    PairsBelowCount(n, n);
  }

  /** The callback applied to the pairs `ps`, in order. */
  function MapPairs<T, R>(items: seq<T>, cb: (T, T, nat, nat, seq<T>) -> R, ps: seq<(nat, nat)>): (r: seq<R>)
    requires forall k :: 0 <= k < |ps| ==> ps[k].0 < |items| && ps[k].1 < |items|
    ensures |r| == |ps|
    ensures forall k :: 0 <= k < |ps| ==> r[k] == cb(items[ps[k].0], items[ps[k].1], ps[k].0, ps[k].1, items)
  {
    seq(|ps|, k requires 0 <= k < |ps| => cb(items[ps[k].0], items[ps[k].1], ps[k].0, ps[k].1, items))
  }

  /** `allPairsMap(items, cb)`: `n(n - 1)/2` results, the k-th for the k-th pair of the loops. */
  function AllPairsMap<T, R>(items: seq<T>, cb: (T, T, nat, nat, seq<T>) -> R): (r: seq<R>)
    ensures 2 * |r| == |items| * (|items| - 1) && |r| == |Pairs(|items|)|
    ensures forall k :: 0 <= k < |r| ==> var p := Pairs(|items|)[k]; r[k] == cb(items[p.0], items[p.1], p.0, p.1, items)
  {
    PairsSpec(|items|);
    MapPairs(items, cb, Pairs(|items|))
  }

  lemma {:induction false} MapPairsMember<T, R>(items: seq<T>, cb: (T, T, nat, nat, seq<T>) -> R, ps: seq<(nat, nat)>, i: nat, j: nat)
    requires forall k :: 0 <= k < |ps| ==> ps[k].0 < |items| && ps[k].1 < |items|
    requires (i, j) in ps && i < |items| && j < |items|
    ensures cb(items[i], items[j], i, j, items) in MapPairs(items, cb, ps)
  {
    var k :| 0 <= k < |ps| && ps[k] == (i, j);
    assert MapPairs(items, cb, ps)[k] == cb(items[i], items[j], i, j, items);
  }

  /**
    The callback as a `mapFilter` callback on index pairs; a pair outside
    the array, which the loops never produce, gives `undefined`.
   */
  function PairCall<T, R>(cb: (T, T, nat, nat, seq<T>) -> Option<R>, items: seq<T>): ((nat, nat)) -> Option<R>
  {
    (p: (nat, nat)) => if p.0 < |items| && p.1 < |items| then cb(items[p.0], items[p.1], p.0, p.1, items) else None
  }

  /** `allPairsMapFilter(items, cb)`: one result per defined call, in loop order. */
  function AllPairsMapFilter<T, R>(items: seq<T>, cb: (T, T, nat, nat, seq<T>) -> Option<R>): (r: seq<R>)
    ensures r == MapFilter(Pairs(|items|), PairCall(cb, items))
    ensures forall y :: y in r ==> exists i: nat, j: nat :: i < j < |items| && cb(items[i], items[j], i, j, items) == Some(y)
    ensures forall i, j :: 0 <= i < j < |items| && cb(items[i], items[j], i, j, items).Some? ==> cb(items[i], items[j], i, j, items).value in r
  {
    var m := AllPairsMap(items, cb);
    PairsSpec(|items|);
    forall i: nat, j: nat | i < j < |items| ensures cb(items[i], items[j], i, j, items) in m {
      MapPairsMember(items, cb, Pairs(|items|), i, j);
    }
    SomesMembers(m);
    SomesOfCalls(Pairs(|items|), PairCall(cb, items), m);
    Somes(m)
  }

  /** `[1, 2, 3, 4]` summed pairwise gives `[3, 4, 5, 5, 6, 7]`. */
  lemma {:induction false} SumOfPairs()
    ensures AllPairsMap([1, 2, 3, 4], (a: int, b: int, i: nat, j: nat, s: seq<int>) => a + b) == [3, 4, 5, 5, 6, 7]
  {
    assert Row(0, 4) == [(0, 1), (0, 2), (0, 3)];
    assert Row(1, 4) == [(1, 2), (1, 3)];
    assert Row(2, 4) == [(2, 3)];
    assert Row(3, 4) == [];
    assert Pairs(4) == [(0, 1), (0, 2), (0, 3), (1, 2), (1, 3), (2, 3)];
  }
}
