/**
  The mappers module: `mapGroups`, `mapPartition` and `mapTupleToObject`
  (its `mapFilter` and `mapFind` are the ones of the `MapFilter` module).

  An object of callbacks is an ordered property list of functions; its
  key order is the order `Object.values` and lodash `mapValues` visit.
 */
module Mappers {
  import opened Wrappers
  import opened Seqs
  import opened Fields
  import opened MapFilters

  /** `mapGroups(items, fns)`: every callback applied to all items, undefined results dropped. */
  function MapGroups<T, R>(items: seq<T>, fns: seq<(string, T -> Option<R>)>): (r: seq<(string, seq<R>)>)
    ensures Keys(r) == Keys(fns)
    ensures forall k :: Lookup(r, k) == match Lookup(fns, k) case Some(f) => Some(MapFilter(items, f)) case None => None
  {
    MapValues(fns, (f: T -> Option<R>) => MapFilter(items, f))
  }

  /** The position of the first callback, in key order, with a defined result for `x`, and that result. */
  function FirstMatch<T, R>(fns: seq<(string, T -> Option<R>)>, x: T): (r: Option<(nat, R)>)
    ensures r.Some? ==> r.value.0 < |fns| && fns[r.value.0].1(x) == Some(r.value.1)
    ensures r.Some? ==> forall j :: 0 <= j < r.value.0 ==> fns[j].1(x).None?
    ensures r.None? <==> forall j :: 0 <= j < |fns| ==> fns[j].1(x).None?
  {
    if |fns| == 0 then None
    else
      assert forall j :: 1 <= j < |fns| ==> fns[j] == fns[1..][j - 1];
      match fns[0].1(x)
      case Some(y) => Some((0, y))
      case None =>
        match FirstMatch(fns[1..], x)
        case Some((j, y)) => Some((j + 1, y))
        case None => None
  }

  /** The result `x` contributes to collection `k`: defined exactly when callback `k` is the first match. */
  function ClaimedBy<T, R>(fns: seq<(string, T -> Option<R>)>, k: nat): T -> Option<R>
  {
    x => match FirstMatch(fns, x) case Some((j, y)) => if j == k then Some(y) else None case None => None
  }

  /** No callback has a defined result for the item. */
  function Unclaimed<T, R>(fns: seq<(string, T -> Option<R>)>): T -> bool
  {
    x => FirstMatch(fns, x).None?
  }

  datatype Partition<T, R> = Partition(result: seq<(string, seq<R>)>, orphans: seq<T>)

  /** The state after the items `done`: collections and orphans as the first-match rule assigns them. */
  ghost predicate Partitioned<T, R>(done: seq<T>, fns: seq<(string, T -> Option<R>)>, p: Partition<T, R>)
  {
    Grouped(done, fns, p.result) && Counted(done, fns, p)
  }

  ghost predicate Grouped<T, R>(done: seq<T>, fns: seq<(string, T -> Option<R>)>, gs: seq<(string, seq<R>)>)
  {
    Keys(gs) == Keys(fns) && forall k :: 0 <= k < |fns| ==> gs[k].1 == MapFilter(done, ClaimedBy(fns, k))
  }

  ghost predicate Counted<T, R>(done: seq<T>, fns: seq<(string, T -> Option<R>)>, p: Partition<T, R>)
  {
    |p.result| == |fns| && p.orphans == Filter(done, Unclaimed(fns)) && Sum(ValueLengths(p.result)) + |p.orphans| == |done|
  }

  /** One iteration of the loop: `match(item)` pushes into the first accepting collection, or the item is an orphan. */
  function Place<T, R>(p: Partition<T, R>, fns: seq<(string, T -> Option<R>)>, x: T): Partition<T, R>
    requires |p.result| == |fns|
  {
    match FirstMatch(fns, x)
    case Some((k, y)) => p.(result := p.result[k := (p.result[k].0, p.result[k].1 + [y])])
    case None => p.(orphans := p.orphans + [x])
  }

  lemma {:induction false} PlaceGroups<T, R>(done: seq<T>, fns: seq<(string, T -> Option<R>)>, p: Partition<T, R>, x: T)
    requires Grouped(done, fns, p.result)
    ensures Grouped(done + [x], fns, Place(p, fns, x).result)
  {
    forall k | 0 <= k < |fns|
      ensures Place(p, fns, x).result[k].1 == MapFilter(done + [x], ClaimedBy(fns, k))
    {
      MapFilterAppend(done, [x], ClaimedBy(fns, k));
    }
    assert Keys(Place(p, fns, x).result) == Keys(fns);
  }

  lemma {:induction false} PlaceCounts<T, R>(done: seq<T>, fns: seq<(string, T -> Option<R>)>, p: Partition<T, R>, x: T)
    requires Counted(done, fns, p)
    ensures Counted(done + [x], fns, Place(p, fns, x))
  {
    FilterAppend(done, [x], Unclaimed(fns));
    var m := FirstMatch(fns, x);
    if m.Some? {
      PushLength(p.result, m.value.0, m.value.1);
    }
  }

  /** Pushing one value onto one collection adds one to the total. */
  lemma {:induction false} PushLength<R>(gs: seq<(string, seq<R>)>, k: nat, y: R)
    requires k < |gs|
    ensures Sum(ValueLengths(gs[k := (gs[k].0, gs[k].1 + [y])])) == Sum(ValueLengths(gs)) + 1
  {
    var ns := ValueLengths(gs);
    assert ValueLengths(gs[k := (gs[k].0, gs[k].1 + [y])]) == ns[k := ns[k] + 1];
    SumIncrement(ns, k);
  }

  /** One iteration keeps the state in step with the items done. */
  lemma {:induction false} PlaceStep<T, R>(items: seq<T>, i: nat, fns: seq<(string, T -> Option<R>)>, p: Partition<T, R>)
    requires i < |items| && Partitioned(items[..i], fns, p)
    ensures Partitioned(items[..i + 1], fns, Place(p, fns, items[i]))
  {
    assert items[..i + 1] == items[..i] + [items[i]];
    PlaceGroups(items[..i], fns, p, items[i]);
    PlaceCounts(items[..i], fns, p, items[i]);
  }

  /** The empty collections, one per callback, in key order. */
  function EmptyGroups<T, R>(fns: seq<(string, T -> Option<R>)>): (gs: seq<(string, seq<R>)>)
    ensures |gs| == |fns|
  {
    seq(|fns|, k requires 0 <= k < |fns| => (fns[k].0, []))
  }

  /** Once all items are done, the state is the result of `mapPartition`. */
  lemma {:induction false} PartitionEnd<T, R>(items: seq<T>, fns: seq<(string, T -> Option<R>)>, p: Partition<T, R>)
    requires Partitioned(items[..|items|], fns, p)
    ensures Keys(p.result) == Keys(fns)
    ensures forall k :: 0 <= k < |fns| ==> p.result[k].1 == MapFilter(items, ClaimedBy(fns, k))
    ensures p.orphans == Filter(items, Unclaimed(fns))
    ensures Sum(ValueLengths(p.result)) + |p.orphans| == |items|
  {
    assert items[..|items|] == items;
  }

  /**
    `mapPartition(items, fns)`: each item's result goes into the collection
    of the first callback that returns a defined value; items that no
    callback accepts become orphans.
   */
  method MapPartition<T, R>(items: seq<T>, fns: seq<(string, T -> Option<R>)>) returns (p: Partition<T, R>)
    ensures Keys(p.result) == Keys(fns)
    ensures forall k :: 0 <= k < |fns| ==> p.result[k].1 == MapFilter(items, ClaimedBy(fns, k))
    ensures p.orphans == Filter(items, Unclaimed(fns))
    ensures Sum(ValueLengths(p.result)) + |p.orphans| == |items|
  {
    p := Partition(EmptyGroups(fns), []);
    PartitionStart(items, fns);
    var i := 0;
    while i < |items|
      invariant 0 <= i <= |items|
      invariant Partitioned(items[..i], fns, p)
    {
      PlaceStep(items, i, fns, p);
      p := Place(p, fns, items[i]);
      i := i + 1;
    }
    PartitionEnd(items, fns, p);
  }

  /** Before the loop every collection is empty and there are no orphans. */
  lemma {:induction false} PartitionStart<T, R>(items: seq<T>, fns: seq<(string, T -> Option<R>)>)
    ensures Partitioned(items[..0], fns, Partition(EmptyGroups(fns), []))
  {
    var gs: seq<(string, seq<R>)> := EmptyGroups(fns);
    assert items[..0] == [];
    EmptyGroupsSum(gs);
    assert Keys(gs) == Keys(fns);
  }

  lemma {:induction false} EmptyGroupsSum<R>(gs: seq<(string, seq<R>)>)
    requires forall i :: 0 <= i < |gs| ==> gs[i].1 == []
    ensures Sum(ValueLengths(gs)) == 0
  {
    if |gs| > 0 {
      assert ValueLengths(gs)[1..] == ValueLengths(gs[1..]);
      EmptyGroupsSum(gs[1..]);
    }
  }

  /** `tuple[i]`: undefined unless `i` is an index of the tuple. */
  function TupleAt<V>(tuple: seq<V>, i: int): (r: Option<V>)
    ensures r.Some? <==> 0 <= i < |tuple|
  {
    if 0 <= i < |tuple| then Some(tuple[i]) else None
  }

  /** `mapTupleToObject(tuple, enums)`: `result[key] = tuple[enums[key]]` for each key of `enums`, in order. */
  function MapTupleToObject<V>(tuple: seq<V>, enums: seq<(string, int)>): (r: seq<(string, Option<V>)>)
    ensures forall k :: k in Keys(r) <==> k in Keys(enums)
  {
    var writes := MapValues(enums, (i: int) => TupleAt(tuple, i));
    AssignAllKeys([], writes);
    AssignAll([], writes)
  }

  /** On an enum object (distinct keys) the result has its keys in its order, each bound to the indexed element. */
  lemma {:induction false} MapTupleToObjectLookup<V>(tuple: seq<V>, enums: seq<(string, int)>)
    requires DistinctKeys(enums)
    ensures Keys(MapTupleToObject(tuple, enums)) == Keys(enums)
    ensures forall i :: 0 <= i < |enums| ==> Lookup(MapTupleToObject(tuple, enums), enums[i].0) == Some(TupleAt(tuple, enums[i].1))
  {
    var writes := MapValues(enums, (i: int) => TupleAt(tuple, i));
    AssignAllIntoEmpty(writes);
    forall i | 0 <= i < |enums|
      ensures Lookup(MapTupleToObject(tuple, enums), enums[i].0) == Some(TupleAt(tuple, enums[i].1))
    {
      LookupAt(enums, i);
    }
  }
}
