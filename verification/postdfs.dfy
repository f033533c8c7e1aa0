/**
  `loadDFSStack`: the collection pass of the post-order traversals.

  A retrieval stack starts with the root; each popped composite item is
  recorded on the processing stack and its entries are pushed in entry
  order, so the last entry is popped next. Leaves are popped and dropped.
  The processing stack is later popped from its end, which makes the
  dispatch order the reverse of the recording order.

  `PreOrder` and `StackOrder` describe the recording order structurally;
  `PostOrder` is the independent left-to-right post-order the dispatch
  order is proved equal to.
 */
module PostDfs {
  import opened Wrappers
  import Fields
  import opened Seqs
  import opened Values
  import opened Access
  import opened Traversal

  /** The items pushed for a container's entries, in entry order. */
  function ChildItems(it: Item): (cs: seq<Item>)
    requires IsObjectOrArray(it.current)
    ensures |cs| == |Entries(it.current)|
    ensures forall i :: 0 <= i < |cs| ==>
      cs[i] == Item(it.path + [Entries(it.current)[i].0], Entries(it.current)[i].1, it.depth + 1)
  {
    var es := Entries(it.current);
    seq(|es|, i requires 0 <= i < |es| => Item(it.path + [es[i].0], es[i].1, it.depth + 1))
  }

  lemma {:induction false} ChildItemsWeight(it: Item)
    requires IsObjectOrArray(it.current)
    ensures ItemsWeight(ChildItems(it)) + 1 == Size(it.current)
  {
    assert ItemSizes(ChildItems(it)) == EntrySizes(Entries(it.current));
    SizeIsEntriesWeight(it.current);
  }

  lemma {:induction false} SplitLast(st: seq<Item>)
    requires |st| > 0
    ensures st == st[..|st| - 1] + [st[|st| - 1]]
    ensures ItemsWeight(st) == ItemsWeight(st[..|st| - 1]) + Size(st[|st| - 1].current)
  {
    ItemsWeightAppend(st[..|st| - 1], st[|st| - 1]);
    assert st == st[..|st| - 1] + [st[|st| - 1]];
  }

  /** The `while (retrievalStack.length)` loop: `retrieval` still to pop, `processing` recorded so far. */
  function LoadLoop(retrieval: seq<Item>, processing: seq<Item>): seq<Item>
    decreases ItemsWeight(retrieval)
  {
    if |retrieval| == 0 then processing
    else
      var top := retrieval[|retrieval| - 1];
      var rest := retrieval[..|retrieval| - 1];
      SplitLast(retrieval);
      if !IsObjectOrArray(top.current) then LoadLoop(rest, processing)
      else
        ChildItemsWeight(top);
        ItemsWeightConcat(rest, ChildItems(top));
        LoadLoop(rest + ChildItems(top), processing + [top])
  }

  /** `loadDFSStack(data)`: the processing stack, root first. */
  function LoadDfsStack(data: Value): seq<Item>
  {
    LoadLoop([Item([], data, 0)], [])
  }

  /** Pre-order in which each container's children are taken last entry first: what popping one item records. */
  function PreOrder(it: Item): seq<Item>
    decreases Size(it.current), 1
  {
    if !IsObjectOrArray(it.current) then []
    else
      ChildItemsWeight(it);
      [it] + StackOrder(ChildItems(it))
  }

  /** What popping the stack `st` to exhaustion records: the top item's subtree first. */
  function StackOrder(st: seq<Item>): seq<Item>
    decreases ItemsWeight(st), 2
  {
    if |st| == 0 then []
    else
      SplitLast(st);
      PreOrder(st[|st| - 1]) + StackOrder(st[..|st| - 1])
  }

  /** Left-to-right post-order of the composite nodes: children in entry order, then the node. */
  function PostOrder(it: Item): seq<Item>
    decreases Size(it.current), 1
  {
    if !IsObjectOrArray(it.current) then []
    else
      ChildItemsWeight(it);
      PostOrders(ChildItems(it)) + [it]
  }

  /** The post-orders of `cs`, one after the other. */
  function PostOrders(cs: seq<Item>): seq<Item>
    decreases ItemsWeight(cs), 2
  {
    if |cs| == 0 then []
    else
      ItemsWeightPop(cs);
      PostOrder(cs[0]) + PostOrders(cs[1..])
  }

  lemma {:induction false} StackOrderConcat(a: seq<Item>, b: seq<Item>)
    ensures StackOrder(a + b) == StackOrder(b) + StackOrder(a)
    decreases |b|
  {
    if |b| == 0 {
      assert a + b == a;
    } else {
      var ab := a + b;
      var last, init := b[|b| - 1], b[..|b| - 1];
      assert ab[|ab| - 1] == last;
      assert ab[..|ab| - 1] == a + init;
      StackOrderPop(ab);
      StackOrderPop(b);
      StackOrderConcat(a, init);
      AppendAssoc(PreOrder(last), StackOrder(init), StackOrder(a));
    }
  }

  lemma {:induction false} StackOrderPop(st: seq<Item>)
    requires |st| > 0
    ensures StackOrder(st) == PreOrder(st[|st| - 1]) + StackOrder(st[..|st| - 1])
  {
  }

  /** One iteration of the loop: pop the top item, record it and push its children if it is a container. */
  lemma {:induction false} LoadLoopStep(retrieval: seq<Item>, processing: seq<Item>)
    requires |retrieval| > 0
    ensures var top := retrieval[|retrieval| - 1];
      var rest := retrieval[..|retrieval| - 1];
      ItemsWeight(rest) < ItemsWeight(retrieval)
      && StackOrder(retrieval) == PreOrder(top) + StackOrder(rest)
      && (!IsObjectOrArray(top.current) ==> LoadLoop(retrieval, processing) == LoadLoop(rest, processing) && PreOrder(top) == [])
      && (IsObjectOrArray(top.current) ==>
            ItemsWeight(rest + ChildItems(top)) < ItemsWeight(retrieval)
            && LoadLoop(retrieval, processing) == LoadLoop(rest + ChildItems(top), processing + [top])
            && PreOrder(top) == [top] + StackOrder(ChildItems(top)))
  {
    var top := retrieval[|retrieval| - 1];
    var rest := retrieval[..|retrieval| - 1];
    SplitLast(retrieval);
    if IsObjectOrArray(top.current) {
      ChildItemsWeight(top);
      ItemsWeightConcat(rest, ChildItems(top));
    }
  }

  /** The loop appends, to what it has recorded, exactly the stack order of what is left to pop. */
  lemma {:induction false} LoadLoopStackOrder(retrieval: seq<Item>, processing: seq<Item>)
    ensures LoadLoop(retrieval, processing) == processing + StackOrder(retrieval)
    decreases ItemsWeight(retrieval)
  {
    if |retrieval| == 0 {
      assert processing + StackOrder(retrieval) == processing;
    } else {
      var top := retrieval[|retrieval| - 1];
      var rest := retrieval[..|retrieval| - 1];
      LoadLoopStep(retrieval, processing);
      if !IsObjectOrArray(top.current) {
        LoadLoopStackOrder(rest, processing);
        assert StackOrder(retrieval) == StackOrder(rest);
      } else {
        LoadLoopStackOrder(rest + ChildItems(top), processing + [top]);
        StackOrderRegroup(processing, top, rest);
      }
    }
  }

  /** Recording `top` and then the stack order of `rest` with `top`'s children pushed. */
  lemma {:induction false} StackOrderRegroup(processing: seq<Item>, top: Item, rest: seq<Item>)
    requires IsObjectOrArray(top.current)
    ensures (processing + [top]) + StackOrder(rest + ChildItems(top)) == processing + (PreOrder(top) + StackOrder(rest))
  {
    var cs := ChildItems(top);
    StackOrderConcat(rest, cs);
    AppendAssoc(processing, [top], StackOrder(cs));
    AppendAssoc(processing + [top], StackOrder(cs), StackOrder(rest));
    AppendAssoc(processing, [top] + StackOrder(cs), StackOrder(rest));
  }

  lemma {:induction false} PostOrdersSnoc(a: seq<Item>, x: Item)
    ensures PostOrders(a + [x]) == PostOrders(a) + PostOrder(x)
    decreases |a|
  {
    if |a| == 0 {
      assert a + [x] == [x];
      assert [x][1..] == [];
    } else {
      assert (a + [x])[0] == a[0] && (a + [x])[1..] == a[1..] + [x];
      PostOrdersSnoc(a[1..], x);
    }
  }

  /** Reversing the recording order gives the left-to-right post-order. */
  lemma {:induction false} ReversePreOrder(it: Item)
    ensures Reverse(PreOrder(it)) == PostOrder(it)
    decreases Size(it.current), 1
  {
    if IsObjectOrArray(it.current) {
      ChildItemsWeight(it);
      ReverseStackOrder(ChildItems(it));
      ReverseAppend([it], StackOrder(ChildItems(it)));
      assert Reverse([it]) == [it];
    }
  }

  lemma {:induction false} ReverseStackOrder(st: seq<Item>)
    ensures Reverse(StackOrder(st)) == PostOrders(st)
    decreases ItemsWeight(st), 2
  {
    if |st| > 0 {
      var top := st[|st| - 1];
      var rest := st[..|st| - 1];
      SplitLast(st);
      ReversePreOrder(top);
      ReverseStackOrder(rest);
      ReverseAppend(PreOrder(top), StackOrder(rest));
      PostOrdersSnoc(rest, top);
    }
  }

  /**
    The dispatch order, the processing stack popped from its end, is the
    left-to-right post-order of the composite nodes.
   */
  lemma {:induction false} DispatchIsPostOrder(data: Value)
    ensures LoadDfsStack(data) == PreOrder(Item([], data, 0))
    ensures Reverse(LoadDfsStack(data)) == PostOrder(Item([], data, 0))
  {
    var root := Item([], data, 0);
    LoadLoopStackOrder([root], []);
    StackOrderSingle(root);
    ReversePreOrder(root);
  }

  lemma {:induction false} StackOrderSingle(it: Item)
    ensures StackOrder([it]) == PreOrder(it)
  {
    SplitLast([it]);
    assert [it][..0] == [];
  }

  /** No node comes before one of its descendants, and no node comes twice. */
  predicate PostOrdered(s: seq<Item>)
  {
    forall i, j :: 0 <= i < j < |s| ==> !IsPrefix(s[i].path, s[j].path)
  }

  /** The children of an item in place are in place one level down, at pairwise apart paths. */
  lemma {:induction false} ChildItemsPlaced(tree: Value, it: Item)
    requires IsObjectOrArray(it.current) && InPlace(tree, it)
    ensures var cs := ChildItems(it);
      (forall k :: 0 <= k < |cs| ==> InPlace(tree, cs[k]) && IsStrictPrefix(it.path, cs[k].path))
      && (forall k, l :: 0 <= k < l < |cs| ==> Apart(cs[k].path, cs[l].path))
      && ItemsNodes(cs) + 1 == Nodes(it.current)
  {
    var cs := ChildItems(it);
    var es := Entries(it.current);
    EntriesPlaced(tree, it);
    forall k | 0 <= k < |cs|
      ensures InPlace(tree, cs[k]) && IsStrictPrefix(it.path, cs[k].path)
    {
      assert (it.path + [es[k].0])[..|it.path|] == it.path;
    }
    forall k, l | 0 <= k < l < |cs|
      ensures Apart(cs[k].path, cs[l].path)
    {
      ApartSiblings(it.path, es[k].0, es[l].0);
    }
    ItemsNodesMatch(cs, es);
  }

  /** Every item is a record or an array in place in `tree`. */
  predicate AllInPlace(tree: Value, s: seq<Item>)
  {
    forall i :: 0 <= i < |s| ==> InPlace(tree, s[i]) && IsObjectOrArray(s[i].current)
  }

  /** Every item lies at or below the path of one of `cs`. */
  predicate UnderSome(s: seq<Item>, cs: seq<Item>)
  {
    forall i :: 0 <= i < |s| ==> exists k :: 0 <= k < |cs| && IsPrefix(cs[k].path, s[i].path)
  }

  predicate PairwiseApart(cs: seq<Item>)
  {
    forall k, l :: 0 <= k < l < |cs| ==> Apart(cs[k].path, cs[l].path)
  }

  /**
    The post-order of an item in place lists composite nodes in place
    below it, never a node before its descendants, as many as the item's
    subtree has, and the item itself last.
   */
  lemma {:induction false} PostOrderFacts(tree: Value, it: Item)
    requires InPlace(tree, it)
    ensures var po := PostOrder(it);
      AllInPlace(tree, po) && UnderSome(po, [it]) && PostOrdered(po)
      && |po| == Nodes(it.current)
      && (IsObjectOrArray(it.current) ==> po[|po| - 1] == it)
    decreases Size(it.current), 1
  {
    if IsObjectOrArray(it.current) {
      ChildItemsWeight(it);
      var cs := ChildItems(it);
      ChildItemsPlaced(tree, it);
      PostOrdersFacts(tree, cs);
      SnocParent(it, cs, PostOrders(cs));
    }
  }

  /** Appending the parent after its children's post-orders keeps the order and the placement. */
  lemma {:induction false} SnocParent(it: Item, cs: seq<Item>, rest: seq<Item>)
    requires forall k :: 0 <= k < |cs| ==> IsStrictPrefix(it.path, cs[k].path)
    requires UnderSome(rest, cs) && PostOrdered(rest)
    ensures UnderSome(rest + [it], [it]) && PostOrdered(rest + [it])
  {
    var po := rest + [it];
    forall i | 0 <= i < |rest|
      ensures IsStrictPrefix(it.path, rest[i].path)
    {
      var k :| 0 <= k < |cs| && IsPrefix(cs[k].path, rest[i].path);
      PrefixTrans(it.path, cs[k].path, rest[i].path);
    }
    forall i | 0 <= i < |po|
      ensures IsPrefix([it][0].path, po[i].path)
    {
      if i == |rest| {
        assert po[i].path[..|it.path|] == it.path;
      }
    }
  }

  lemma {:induction false} PostOrdersFacts(tree: Value, cs: seq<Item>)
    requires forall k :: 0 <= k < |cs| ==> InPlace(tree, cs[k])
    requires PairwiseApart(cs)
    ensures var po := PostOrders(cs);
      AllInPlace(tree, po) && UnderSome(po, cs) && PostOrdered(po)
      && |po| == ItemsNodes(cs)
    decreases ItemsWeight(cs), 2
  {
    if |cs| > 0 {
      ItemsWeightPop(cs);
      PostOrderFacts(tree, cs[0]);
      PostOrdersFacts(tree, cs[1..]);
      PostOrdersCons(tree, cs, PostOrder(cs[0]), PostOrders(cs[1..]));
    }
  }

  /** The facts for a list of siblings, from those for its first and for the rest. */
  lemma {:induction false} PostOrdersCons(tree: Value, cs: seq<Item>, a: seq<Item>, b: seq<Item>)
    requires |cs| > 0 && PairwiseApart(cs)
    requires AllInPlace(tree, a) && UnderSome(a, [cs[0]]) && PostOrdered(a) && |a| == Nodes(cs[0].current)
    requires AllInPlace(tree, b) && UnderSome(b, cs[1..]) && PostOrdered(b) && |b| == ItemsNodes(cs[1..])
    ensures AllInPlace(tree, a + b) && UnderSome(a + b, cs) && PostOrdered(a + b)
    ensures |a + b| == ItemsNodes(cs)
  {
    ConcatSiblings(cs, a, b);
    AllInPlaceConcat(tree, a, b);
  }

  lemma {:induction false} AllInPlaceConcat(tree: Value, a: seq<Item>, b: seq<Item>)
    requires AllInPlace(tree, a) && AllInPlace(tree, b)
    ensures AllInPlace(tree, a + b)
  {
    forall i | 0 <= i < |a + b|
      ensures InPlace(tree, (a + b)[i]) && IsObjectOrArray((a + b)[i].current)
    {
      if i >= |a| {
        assert (a + b)[i] == b[i - |a|];
      }
    }
  }

  /** The post-order of the first sibling followed by that of the rest. */
  lemma {:induction false} ConcatSiblings(cs: seq<Item>, a: seq<Item>, b: seq<Item>)
    requires |cs| > 0 && PairwiseApart(cs)
    requires UnderSome(a, [cs[0]]) && PostOrdered(a)
    requires UnderSome(b, cs[1..]) && PostOrdered(b)
    ensures UnderSome(a + b, cs) && PostOrdered(a + b)
  {
    var po := a + b;
    forall i | 0 <= i < |po|
      ensures exists k :: 0 <= k < |cs| && IsPrefix(cs[k].path, po[i].path)
    {
      if i < |a| {
        assert IsPrefix([cs[0]][0].path, a[i].path);
        assert IsPrefix(cs[0].path, po[i].path);
      } else {
        var k :| 0 <= k < |cs| - 1 && IsPrefix(cs[1..][k].path, b[i - |a|].path);
        assert IsPrefix(cs[k + 1].path, po[i].path);
      }
    }
    forall i, j | 0 <= i < |a| <= j < |po|
      ensures !IsPrefix(po[i].path, po[j].path)
    {
      assert IsPrefix([cs[0]][0].path, a[i].path);
      var k :| 0 <= k < |cs| - 1 && IsPrefix(cs[1..][k].path, b[j - |a|].path);
      ApartUnder(cs[0].path, cs[k + 1].path, a[i].path, b[j - |a|].path);
    }
  }

  /**
    `loadDFSStack` on well-formed data records every record and array once,
    in place, root first, and never records a node after one of its
    descendants; a non-composite root records nothing.
   */
  lemma {:induction false} LoadDfsStackFacts(data: Value)
    requires WellFormed(data)
    ensures var s := LoadDfsStack(data);
      (forall i :: 0 <= i < |s| ==> InPlace(data, s[i]) && IsObjectOrArray(s[i].current))
      && (forall i, j :: 0 <= i < j < |s| ==> !IsPrefix(s[j].path, s[i].path))
      && |s| == Nodes(data)
      && (IsObjectOrArray(data) ==> s[0] == Item([], data, 0))
      && (!IsObjectOrArray(data) ==> s == [])
  {
    var root := Item([], data, 0);
    DispatchIsPostOrder(data);
    PostOrderFacts(data, root);
    ReversedFacts(data, LoadDfsStack(data), PostOrder(root));
  }

  /** The facts about a post-order, read on its reverse. */
  lemma {:induction false} ReversedFacts(tree: Value, s: seq<Item>, po: seq<Item>)
    requires Reverse(s) == po && AllInPlace(tree, po) && PostOrdered(po)
    ensures forall i :: 0 <= i < |s| ==> InPlace(tree, s[i]) && IsObjectOrArray(s[i].current)
    ensures forall i, j :: 0 <= i < j < |s| ==> !IsPrefix(s[j].path, s[i].path)
    ensures |s| == |po|
    ensures |s| > 0 ==> s[0] == po[|po| - 1]
  {
    forall i | 0 <= i < |s|
      ensures InPlace(tree, s[i]) && IsObjectOrArray(s[i].current)
    {
      assert po[|s| - 1 - i] == s[i];
    }
    forall i, j | 0 <= i < j < |s|
      ensures !IsPrefix(s[j].path, s[i].path)
    {
      assert po[|s| - 1 - j] == s[j] && po[|s| - 1 - i] == s[i];
    }
  }

  /** The first step of a strict path follows one of the container's entries. */
  lemma {:induction false} StrictStepEntry(v: Value, p: Path) returns (k: nat)
    requires |p| > 0 && At(v, p).Some?
    ensures IsObjectOrArray(v) && k < |Entries(v)|
    ensures Entries(v)[k].0 == p[0] && At(v, p) == At(Entries(v)[k].1, p[1..])
  {
    match (v, p[0])
    case (Arr(items), Idx(i)) =>
      k := i as nat;
    case (Rec(fields), Key(key)) =>
      k := Fields.IndexOf(fields, key).value;
  }

  lemma {:induction false} PostOrdersMember(cs: seq<Item>, k: nat, x: Item)
    requires k < |cs| && x in PostOrder(cs[k])
    ensures x in PostOrders(cs)
  {
    if k > 0 {
      PostOrdersMember(cs[1..], k - 1, x);
    }
  }

  /**
    Every record and array below an item, at any strict path `r`, is in
    its post-order, with the path and depth that reach it.
   */
  lemma {:induction false} PostOrderComplete(it: Item, r: Path)
    requires At(it.current, r).Some? && IsObjectOrArray(At(it.current, r).value)
    ensures Item(it.path + r, At(it.current, r).value, it.depth + |r|) in PostOrder(it)
    decreases |r|
  {
    PostOrderUnfold(it);
    if |r| == 0 {
      assert it.path + r == it.path;
    } else {
      var k := StrictStepEntry(it.current, r);
      var cs := ChildItems(it);
      PostOrderComplete(cs[k], r[1..]);
      PathExtend(it.path, r);
      PostOrdersMember(cs, k, Item(it.path + r, At(it.current, r).value, it.depth + |r|));
    }
  }

  /** A record or array comes last in its post-order, after its children's. */
  lemma {:induction false} PostOrderUnfold(it: Item)
    requires IsObjectOrArray(it.current)
    ensures PostOrder(it) == PostOrders(ChildItems(it)) + [it]
  {
  }

  /** Extending a path by the first segment of `r`, then by the rest, extends it by `r`. */
  lemma {:induction false} PathExtend(p: Path, r: Path)
    requires |r| > 0
    ensures p + [r[0]] + r[1..] == p + r
  {
    assert [r[0]] + r[1..] == r;
    AppendAssoc(p, [r[0]], r[1..]);
  }
}
