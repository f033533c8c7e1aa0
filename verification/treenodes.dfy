/**
  `getTreeNodes(obj, { excludeArrays })`: the records and arrays of a tree,
  collected by a post-order traversal whose visitor adds each context
  not skipped to a `Set`.

  Without shared subtrees every position holds its own object, so the
  set's identity check never drops anything and the collection is the
  sequence of kept nodes in visiting order.
 */
module TreeNodes {
  import opened Wrappers
  import opened Values
  import opened Access
  import opened Ancestors
  import opened Traversal
  import opened NodeContext
  import opened PostDfs
  import opened Processing

  /** The visitor only reads its context; the collection is taken from the views it was shown. */
  function Collector(): DfsVisitor
  {
    view => DfsReply(Keep, false)
  }

  /** `skipArrays` or `skipNothing`. */
  predicate Skipped(node: Value, excludeArrays: bool)
  {
    excludeArrays && node.Arr?
  }

  /** The contexts of the views that are not skipped, in visiting order. */
  function Collected(trace: seq<NodeView>, excludeArrays: bool): (r: seq<Value>)
    ensures |r| <= |trace|
    ensures forall x :: x in r ==> !Skipped(x, excludeArrays)
    ensures forall i :: 0 <= i < |trace| && !Skipped(trace[i].node, excludeArrays) ==> trace[i].node in r
  {
    if |trace| == 0 then []
    else
      var rest := Collected(trace[1..], excludeArrays);
      assert forall i :: 1 <= i < |trace| ==> trace[i] == trace[1..][i - 1];
      if Skipped(trace[0].node, excludeArrays) then rest else [trace[0].node] + rest
  }

  function GetTreeNodes(data: Value, excludeArrays: bool): (r: seq<Value>)
  {
    var coerce: Coercion := k => None;
    Collected(PostDfsObjectTraversal(data, Collector(), coerce).trace, excludeArrays)
  }

  /** The values of the items that are not skipped, in order. */
  function KeptNodes(items: seq<Item>, excludeArrays: bool): (r: seq<Value>)
    ensures forall x :: x in r ==> exists i :: 0 <= i < |items| && items[i].current == x && !Skipped(x, excludeArrays)
    ensures forall i :: 0 <= i < |items| && !Skipped(items[i].current, excludeArrays) ==> items[i].current in r
  {
    if |items| == 0 then []
    else if Skipped(items[0].current, excludeArrays) then KeptNodes(items[1..], excludeArrays)
    else [items[0].current] + KeptNodes(items[1..], excludeArrays)
  }

  lemma {:induction false} CollectedIsKept(trace: seq<NodeView>, items: seq<Item>, excludeArrays: bool)
    requires |trace| == |items| && forall i :: 0 <= i < |trace| ==> trace[i].node == items[i].current
    ensures Collected(trace, excludeArrays) == KeptNodes(items, excludeArrays)
  {
    if |trace| > 0 {
      CollectedIsKept(trace[1..], items[1..], excludeArrays);
    }
  }

  lemma {:induction false} KeptNodesCount(items: seq<Item>)
    ensures |KeptNodes(items, false)| == |items|
  {
    if |items| > 0 {
      KeptNodesCount(items[1..]);
    }
  }

  /** On well-formed data the result is the post-order of the records and arrays, arrays dropped when excluded. */
  lemma {:induction false} GetTreeNodesIsPostOrder(data: Value, excludeArrays: bool)
    requires WellFormed(data)
    ensures GetTreeNodes(data, excludeArrays) == KeptNodes(PostOrder(Item([], data, 0)), excludeArrays)
  {
    var coerce: Coercion := k => None;
    var po := PostOrder(Item([], data, 0));
    var out := PostDfsObjectTraversal(data, Collector(), coerce);
    PostDfsObjectTraversalPassive(data, Collector(), coerce);
    CollectedIsKept(out.trace, po, excludeArrays);
  }

  /**
    On well-formed data every node collected is a record or an array and
    no array when excluded; every record and array at a strict path is
    collected unless excluded; without exclusion there is one node per
    record and array.
   */
  lemma {:induction false} GetTreeNodesFacts(data: Value, excludeArrays: bool)
    requires WellFormed(data)
    ensures var r := GetTreeNodes(data, excludeArrays);
      (forall x :: x in r ==> IsObjectOrArray(x) && !(excludeArrays && x.Arr?))
      && (forall p :: At(data, p).Some? && IsObjectOrArray(At(data, p).value) && !(excludeArrays && At(data, p).value.Arr?)
            ==> At(data, p).value in r)
      && (!excludeArrays ==> |r| == Nodes(data))
  {
    var root := Item([], data, 0);
    var po := PostOrder(root);
    GetTreeNodesIsPostOrder(data, excludeArrays);
    PostOrderFacts(data, root);
    assert AllInPlace(data, po);
    forall p | At(data, p).Some? && IsObjectOrArray(At(data, p).value) && !(excludeArrays && At(data, p).value.Arr?)
      ensures At(data, p).value in KeptNodes(po, excludeArrays)
    {
      PostOrderComplete(root, p);
    }
    KeptNodesCount(po);
  }
}
