/**
  `twoPointerEach`, `twoPointerMap` and `twoPointerMapFilter`: the same
  nested loops as the all-pairs helpers, written out here as loops and
  shown to produce exactly the all-pairs results.
 */
module TwoPointer {
  import opened Wrappers
  import opened MapFilters
  import opened AllPairs

  /** The pairs visited before `(i, j)`: all earlier rows and the start of row `i`. */
  function Visited(i: nat, j: nat, n: nat): (r: seq<(nat, nat)>)
    requires i < j <= n
    ensures forall k :: 0 <= k < |r| ==> r[k].0 < r[k].1 < n
  {
    PairsBelow(i, n) + Row(i, n)[..j - i - 1]
  }

  lemma {:induction false} VisitedStep(i: nat, j: nat, n: nat)
    requires i < j < n
    ensures Visited(i, j + 1, n) == Visited(i, j, n) + [(i, j)]
  {
    assert Row(i, n)[..j - i] == Row(i, n)[..j - i - 1] + [(i, j)];
  }

  lemma {:induction false} VisitedRowStart(i: nat, n: nat)
    requires i < n
    ensures Visited(i, i + 1, n) == PairsBelow(i, n)
  {
    assert Row(i, n)[..0] == [];
  }

  lemma {:induction false} VisitedRowEnd(i: nat, n: nat)
    requires i < n
    ensures Visited(i, n, n) == PairsBelow(i + 1, n)
  {
    assert Row(i, n)[..n - i - 1] == Row(i, n);
  }

  lemma {:induction false} MapPairsSnoc<T, R>(items: seq<T>, cb: (T, T, nat, nat, seq<T>) -> R, ps: seq<(nat, nat)>, i: nat, j: nat)
    requires forall k :: 0 <= k < |ps| ==> ps[k].0 < |items| && ps[k].1 < |items|
    requires i < |items| && j < |items|
    ensures MapPairs(items, cb, ps + [(i, j)]) == MapPairs(items, cb, ps) + [cb(items[i], items[j], i, j, items)]
  {
  }

  /** `twoPointerMap(items, cb)`: the nested loops, pushing every result. */
  method TwoPointerMap<T, R>(items: seq<T>, cb: (T, T, nat, nat, seq<T>) -> R) returns (result: seq<R>)
    ensures result == AllPairsMap(items, cb)
  {
    var n := |items|;
    result := [];
    var i := 0;
    while i < n
      invariant 0 <= i <= n
      invariant result == MapPairs(items, cb, PairsBelow(i, n))
    {
      var j := i + 1;
      while j < n
        invariant i < j <= n
        invariant result == MapPairs(items, cb, Visited(i, j, n))
      {
        VisitedStep(i, j, n);
        MapPairsSnoc(items, cb, Visited(i, j, n), i, j);
        result := result + [cb(items[i], items[j], i, j, items)];
        j := j + 1;
      }
      VisitedRowEnd(i, n);
      i := i + 1;
    }
  }

  /** `twoPointerMapFilter(items, cb)`: the nested loops, pushing the defined results. */
  method TwoPointerMapFilter<T, R>(items: seq<T>, cb: (T, T, nat, nat, seq<T>) -> Option<R>) returns (result: seq<R>)
    ensures result == AllPairsMapFilter(items, cb)
  {
    result := [];
    var i := 0;
    while i < |items|
      invariant 0 <= i <= |items|
      invariant result == Somes(MapPairs(items, cb, PairsBelow(i, |items|)))
    {
      result := DefinedRow(items, cb, i, result);
      i := i + 1;
    }
    MapFilterOfPairs(items, cb);
  }

  /** The inner loop of `twoPointerMapFilter` for row `i`, pushing onto `acc`. */
  method DefinedRow<T, R>(items: seq<T>, cb: (T, T, nat, nat, seq<T>) -> Option<R>, i: nat, acc: seq<R>) returns (result: seq<R>)
    requires i < |items| && acc == Somes(MapPairs(items, cb, PairsBelow(i, |items|)))
    ensures result == Somes(MapPairs(items, cb, PairsBelow(i + 1, |items|)))
  {
    result := acc;
    var j := i + 1;
    VisitedRowStart(i, |items|);
    while j < |items|
      invariant i < j <= |items|
      invariant result == Somes(MapPairs(items, cb, Visited(i, j, |items|)))
    {
      var res := cb(items[i], items[j], i, j, items);
      DefinedStep(items, cb, i, j, result);
      if res.Some? {
        result := result + [res.value];
      }
      j := j + 1;
    }
    VisitedRowEnd(i, |items|);
  }

  /** One inner iteration of `twoPointerMapFilter`: the pair's result is kept when defined. */
  lemma {:induction false} DefinedStep<T, R>(items: seq<T>, cb: (T, T, nat, nat, seq<T>) -> Option<R>, i: nat, j: nat, result: seq<R>)
    requires i < j < |items| && result == Somes(MapPairs(items, cb, Visited(i, j, |items|)))
    ensures var res := cb(items[i], items[j], i, j, items);
      Somes(MapPairs(items, cb, Visited(i, j + 1, |items|))) == if res.Some? then result + [res.value] else result
  {
    VisitedStep(i, j, |items|);
    MapPairsSnoc(items, cb, Visited(i, j, |items|), i, j);
    SomesSnoc(MapPairs(items, cb, Visited(i, j, |items|)), cb(items[i], items[j], i, j, items));
  }

  lemma {:induction false} MapFilterOfPairs<T, R>(items: seq<T>, cb: (T, T, nat, nat, seq<T>) -> Option<R>)
    ensures AllPairsMapFilter(items, cb) == Somes(MapPairs(items, cb, PairsBelow(|items|, |items|)))
  {
  }
}
