/**
  `partitionItems(items, patterns, options)`: every item is offered to the
  patterns in key order; a pattern that accepts an item contributes its
  parse output to that pattern's collection, and items that no pattern
  accepts are orphans. A schema's `safeParse` is a callback returning the
  parsed data, or nothing when parsing fails.

  Two match strategies exist: `attemptPushMatch` stops at the first
  accepting pattern, `matchAll` pushes into every accepting pattern. The
  option `prioritizeByKeyOrderOnConflict` chooses between them.
 */
module PartitionItems {
  import opened Wrappers
  import opened Seqs
  import opened Fields
  import opened MapFilters
  import opened Mappers

  datatype Strategy = AttemptPushMatch | MatchAll

  /** What one item contributes through one pattern: its parse output, or nothing. */
  lemma {:induction false} MapFilterSingle<T, R>(x: T, f: T -> Option<R>)
    ensures MapFilter([x], f) == if f(x).Some? then [f(x).value] else []
  {
    assert [x][1..] == [];
  }

  /** `matchAll`: every accepting pattern gets the item's parse output; with none, the item is an orphan. */
  function MatchAllStep<T, R>(p: Partition<T, R>, fns: seq<(string, T -> Option<R>)>, x: T): Partition<T, R>
    requires |p.result| == |fns|
  {
    if Unclaimed(fns)(x) then p.(orphans := p.orphans + [x])
    else p.(result := seq(|fns|, k requires 0 <= k < |fns| => (p.result[k].0, p.result[k].1 + MapFilter([x], fns[k].1))))
  }

  /** One iteration of the loop over the items, with the chosen strategy. */
  function Step<T, R>(strategy: Strategy, p: Partition<T, R>, fns: seq<(string, T -> Option<R>)>, x: T): Partition<T, R>
    requires |p.result| == |fns|
  {
    match strategy
    case AttemptPushMatch => Place(p, fns, x)
    case MatchAll => MatchAllStep(p, fns, x)
  }

  /** The collections and orphans after the loop has visited `items`, starting from empty collections. */
  function Collect<T, R>(items: seq<T>, fns: seq<(string, T -> Option<R>)>, strategy: Strategy): (p: Partition<T, R>)
    ensures |p.result| == |fns|
    decreases |items|
  {
    if |items| == 0 then Partition(EmptyGroups(fns), [])
    else Step(strategy, Collect(items[..|items| - 1], fns, strategy), fns, items[|items| - 1])
  }

  /**
    `partitionItems` as written: the option being true selects `matchAll`,
    false (the default) selects `attemptPushMatch`.
   */
  function PartitionItems<T, R>(items: seq<T>, fns: seq<(string, T -> Option<R>)>, prioritize: bool): Partition<T, R>
  {
    Collect(items, fns, if prioritize then MatchAll else AttemptPushMatch)
  }

  /** `partitionItems` with the option read as its name and the test suite describe it. */
  function PartitionItemsIntended<T, R>(items: seq<T>, fns: seq<(string, T -> Option<R>)>, prioritize: bool): Partition<T, R>
  {
    Collect(items, fns, if prioritize then AttemptPushMatch else MatchAll)
  }

  /** The state after the items `done` under `matchAll`: each collection holds everything its pattern accepts. */
  ghost predicate AllGrouped<T, R>(done: seq<T>, fns: seq<(string, T -> Option<R>)>, p: Partition<T, R>)
  {
    |p.result| == |fns| && Keys(p.result) == Keys(fns)
    && (forall k :: 0 <= k < |fns| ==> p.result[k].1 == MapFilter(done, fns[k].1))
    && p.orphans == Filter(done, Unclaimed(fns))
  }

  lemma {:induction false} MatchAllStepGrouped<T, R>(done: seq<T>, fns: seq<(string, T -> Option<R>)>, p: Partition<T, R>, x: T)
    requires AllGrouped(done, fns, p)
    ensures AllGrouped(done + [x], fns, MatchAllStep(p, fns, x))
  {
    var q := MatchAllStep(p, fns, x);
    FilterAppend(done, [x], Unclaimed(fns));
    forall k | 0 <= k < |fns|
      ensures q.result[k].1 == MapFilter(done + [x], fns[k].1)
    {
      MapFilterAppend(done, [x], fns[k].1);
      MapFilterSingle(x, fns[k].1);
    }
    assert Keys(q.result) == Keys(fns);
  }

  lemma {:induction false} CollectAll<T, R>(items: seq<T>, fns: seq<(string, T -> Option<R>)>)
    ensures AllGrouped(items, fns, Collect(items, fns, MatchAll))
    decreases |items|
  {
    if |items| == 0 {
      PartitionStart(items, fns);
      assert items[..0] == items;
    } else {
      var init := items[..|items| - 1];
      CollectAll(init, fns);
      MatchAllStepGrouped(init, fns, Collect(init, fns, MatchAll), items[|items| - 1]);
      InitLast(items);
    }
  }

  lemma {:induction false} CollectFirst<T, R>(items: seq<T>, fns: seq<(string, T -> Option<R>)>)
    ensures Partitioned(items, fns, Collect(items, fns, AttemptPushMatch))
    decreases |items|
  {
    if |items| == 0 {
      PartitionStart(items, fns);
      assert items[..0] == items;
    } else {
      var init := items[..|items| - 1];
      CollectFirst(init, fns);
      PlaceGroups(init, fns, Collect(init, fns, AttemptPushMatch), items[|items| - 1]);
      PlaceCounts(init, fns, Collect(init, fns, AttemptPushMatch), items[|items| - 1]);
      InitLast(items);
    }
  }

  /**
    With the option false (the default), an item's parse output goes only
    to the first accepting pattern in key order, as in `mapPartition`;
    every item is accounted for exactly once.
   */
  lemma {:induction false} PartitionItemsDefault<T, R>(items: seq<T>, fns: seq<(string, T -> Option<R>)>)
    ensures Keys(PartitionItems(items, fns, false).result) == Keys(fns)
    ensures forall k :: 0 <= k < |fns| ==> PartitionItems(items, fns, false).result[k].1 == MapFilter(items, ClaimedBy(fns, k))
    ensures PartitionItems(items, fns, false).orphans == Filter(items, Unclaimed(fns))
    ensures Sum(ValueLengths(PartitionItems(items, fns, false).result)) + |PartitionItems(items, fns, false).orphans| == |items|
  {
    CollectFirst(items, fns);
  }

  /** With the option true, every accepting pattern receives the item's parse output. */
  lemma {:induction false} PartitionItemsPrioritized<T, R>(items: seq<T>, fns: seq<(string, T -> Option<R>)>)
    ensures Keys(PartitionItems(items, fns, true).result) == Keys(fns)
    ensures forall k :: 0 <= k < |fns| ==> PartitionItems(items, fns, true).result[k].1 == MapFilter(items, fns[k].1)
    ensures PartitionItems(items, fns, true).orphans == Filter(items, Unclaimed(fns))
  {
    CollectAll(items, fns);
  }

  /**
    The intended reading: with the option true only the first accepting
    pattern (in key order) receives an item, otherwise every accepting
    pattern does; the orphans are the same either way.
   */
  lemma {:induction false} PartitionItemsIntendedProps<T, R>(items: seq<T>, fns: seq<(string, T -> Option<R>)>, prioritize: bool)
    ensures Keys(PartitionItemsIntended(items, fns, prioritize).result) == Keys(fns)
    ensures prioritize ==> forall k :: 0 <= k < |fns| ==> PartitionItemsIntended(items, fns, prioritize).result[k].1 == MapFilter(items, ClaimedBy(fns, k))
    ensures !prioritize ==> forall k :: 0 <= k < |fns| ==> PartitionItemsIntended(items, fns, prioritize).result[k].1 == MapFilter(items, fns[k].1)
    ensures PartitionItemsIntended(items, fns, prioritize).orphans == Filter(items, Unclaimed(fns))
  {
    if prioritize {
      CollectFirst(items, fns);
    } else {
      CollectAll(items, fns);
    }
  }

  /**
    The two accepting patterns of the test for the option: one accepts
    everything, the second (later in key order) accepts the same item.
   */
  function Ambiguous(): seq<(string, int -> Option<int>)>
  {
    [("ambiguous", (x: int) => Some(x)), ("fruit", (x: int) => if x == 0 then Some(x) else None)]
  }

  /**
    As written, asking for key-order priority puts the item into the later
    pattern's collection as well, and leaving the option off keeps it out:
    the opposite of what the option's name and its tests promise.
   */
  lemma PrioritizeFlagInverted()
    ensures PartitionItems([0], Ambiguous(), true).result[1].1 == [0]
    ensures PartitionItems([0], Ambiguous(), false).result[1].1 == []
  {
    var fns := Ambiguous();
    PartitionItemsPrioritized([0], fns);
    PartitionItemsDefault([0], fns);
    MapFilterSingle(0, fns[1].1);
    MapFilterSingle(0, ClaimedBy(fns, 1));
    assert fns[0].1(0) == Some(0);
  }

  /** Under the intended reading the same input keeps the item out of the later collection when priority is asked for. */
  lemma PrioritizeIntended()
    ensures PartitionItemsIntended([0], Ambiguous(), true).result[1].1 == []
    ensures PartitionItemsIntended([0], Ambiguous(), false).result[1].1 == [0]
  {
    var fns := Ambiguous();
    PartitionItemsIntendedProps([0], fns, true);
    PartitionItemsIntendedProps([0], fns, false);
    MapFilterSingle(0, fns[1].1);
    MapFilterSingle(0, ClaimedBy(fns, 1));
    assert fns[0].1(0) == Some(0);
  }

  /** No items give empty collections and no orphans; no patterns make every item an orphan. */
  lemma {:induction false} PartitionItemsEdges<T, R>(items: seq<T>, fns: seq<(string, T -> Option<R>)>, prioritize: bool)
    ensures |items| == 0 ==> forall k :: 0 <= k < |fns| ==> PartitionItems(items, fns, prioritize).result[k].1 == []
    ensures |items| == 0 ==> PartitionItems(items, fns, prioritize).orphans == []
    ensures |fns| == 0 ==> PartitionItems(items, fns, prioritize).orphans == items
  {
    if prioritize {
      CollectAll(items, fns);
    } else {
      CollectFirst(items, fns);
    }
    if |fns| == 0 {
      FilterAll(items, Unclaimed(fns));
    }
  }
}
