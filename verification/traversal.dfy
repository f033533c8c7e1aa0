/**
  The work items of the traversals (`TraversalContextWithDepth`): a
  container's path from the root, the container, and its depth.
 */
module Traversal {
  import opened Wrappers
  import opened Seqs
  import opened Fields
  import opened Values
  import opened Access

  datatype Item = Item(path: Path, current: Value, depth: nat)

  function ItemSizes(q: seq<Item>): (ns: seq<nat>)
    ensures |ns| == |q|
    ensures forall i :: 0 <= i < |q| ==> ns[i] == Size(q[i].current)
  {
    seq(|q|, i requires 0 <= i < |q| => Size(q[i].current))
  }

  /** The total size of the items' values: the termination measure of every traversal loop. */
  function ItemsWeight(q: seq<Item>): nat
  {
    Sum(ItemSizes(q))
  }

  lemma {:induction false} ItemsWeightAppend(q: seq<Item>, it: Item)
    ensures ItemsWeight(q + [it]) == ItemsWeight(q) + Size(it.current)
  {
    assert ItemSizes(q + [it]) == ItemSizes(q) + [Size(it.current)];
    SumAppend(ItemSizes(q), [Size(it.current)]);
    assert [Size(it.current)][1..] == [];
  }

  lemma {:induction false} ItemsWeightPop(q: seq<Item>)
    requires |q| > 0
    ensures ItemsWeight(q) == Size(q[0].current) + ItemsWeight(q[1..])
  {
    assert ItemSizes(q)[1..] == ItemSizes(q[1..]);
  }

  lemma {:induction false} ItemsWeightConcat(a: seq<Item>, b: seq<Item>)
    ensures ItemsWeight(a + b) == ItemsWeight(a) + ItemsWeight(b)
  {
    assert ItemSizes(a + b) == ItemSizes(a) + ItemSizes(b);
    SumAppend(ItemSizes(a), ItemSizes(b));
  }

  predicate AllComposite(q: seq<Item>)
  {
    forall i :: 0 <= i < |q| ==> IsObjectOrArray(q[i].current)
  }

  /** If a container is in place, so are its entries, each at its key below it. */
  lemma {:induction false} EntriesPlaced(tree: Value, q0: Item)
    requires IsObjectOrArray(q0.current) && At(tree, q0.path) == Some(q0.current) && WellFormed(q0.current)
    ensures var es := Entries(q0.current);
      (forall i :: 0 <= i < |es| ==> At(tree, q0.path + [es[i].0]) == Some(es[i].1) && WellFormed(es[i].1))
      && (forall i, j :: 0 <= i < j < |es| ==> es[i].0 != es[j].0)
  {
    var es := Entries(q0.current);
    forall i | 0 <= i < |es|
      ensures At(tree, q0.path + [es[i].0]) == Some(es[i].1) && WellFormed(es[i].1)
    {
      AtAppend(tree, q0.path, [es[i].0]);
      AtEntry(q0.current, i);
    }
  }

  /** Neither path is a prefix of the other: writing at one leaves the other alone. */
  predicate Apart(p: Path, q: Path)
  {
    !IsPrefix(p, q) && !IsPrefix(q, p)
  }

  lemma {:induction false} ApartExtend(q: Path, c: Path, k: Seg)
    requires Apart(q, c)
    ensures Apart(q, c + [k])
  {
    if |q| <= |c| {
      assert (c + [k])[..|q|] == c[..|q|];
    } else {
      assert q[..|c|] == q[..|c| + 1][..|c|];
      assert (c + [k])[..|c|] == c;
    }
  }

  lemma {:induction false} ApartSiblings(c: Path, k: Seg, k': Seg)
    requires k != k'
    ensures Apart(c + [k], c + [k'])
  {
    assert (c + [k])[|c|] == k && (c + [k'])[|c|] == k';
  }


  /** Paths extending two apart paths are apart. */
  lemma {:induction false} ApartUnder(p: Path, q: Path, x: Path, y: Path)
    requires Apart(p, q) && IsPrefix(p, x) && IsPrefix(q, y)
    ensures Apart(x, y)
  {
  }

  lemma {:induction false} PrefixTrans(a: Path, b: Path, c: Path)
    requires IsPrefix(a, b) && IsPrefix(b, c)
    ensures IsPrefix(a, c)
  {
    assert c[..|a|] == c[..|b|][..|a|];
  }

  /** The item is where its path says, well formed, at a depth equal to its path's length. */
  predicate InPlace(tree: Value, it: Item)
  {
    At(tree, it.path) == Some(it.current) && WellFormed(it.current) && it.depth == |it.path|
  }

  /** Number of records and arrays in `v`, itself included. */
  function Nodes(v: Value): nat
    decreases Size(v), 1
  {
    if IsObjectOrArray(v) then
      SizeIsEntriesWeight(v);
      1 + EntriesNodes(Entries(v))
    else 0
  }

  /** Number of records and arrays among and below the values of `es`. */
  function EntriesNodes(es: seq<(Seg, Value)>): nat
    decreases EntriesWeight(es), 2
  {
    if |es| == 0 then 0
    else
      EntriesWeightCons(es[0], es[1..]);
      assert es == [es[0]] + es[1..];
      Nodes(es[0].1) + EntriesNodes(es[1..])
  }

  function ItemsNodes(q: seq<Item>): nat
  {
    if |q| == 0 then 0 else Nodes(q[0].current) + ItemsNodes(q[1..])
  }

  /** Items holding the values of `es`, in order, count the same nodes. */
  lemma {:induction false} ItemsNodesMatch(q: seq<Item>, es: seq<(Seg, Value)>)
    requires |q| == |es| && forall i :: 0 <= i < |q| ==> q[i].current == es[i].1
    ensures ItemsNodes(q) == EntriesNodes(es)
  {
    if |q| > 0 {
      ItemsNodesMatch(q[1..], es[1..]);
    }
  }
}
