/**
  The dispatch phase of the post-order traversals (`processingStack.ts`)
  and their entry points (`postDFSObjectTraversal`, `treePostDFS`).

  `MutatingContextProcessor` pops the processing stack from its end and
  hands one whole-node view per container to the visitor. The visitor's
  reply is the action it asks of its context (`merge`, `replace`, or
  nothing) and whether it called `break()`.

  The node in a view is the object the stack holds a reference to. Every
  earlier visit rewrote a descendant of it or a node apart from it, so its
  current state is the node at the view's path in the current tree; on
  well-formed data `NodeOf` never takes its fallback (`DispatchLive`).

  `BaseProcessor` hands one entry view per entry of each popped container,
  with the container's own path and depth, and can stop between two
  entries. The value setter of these views has no change callback: it
  writes the value into the container and then throws a TypeError when it
  calls the missing callback, so a visitor that catches that error goes on
  with a changed tree. That use of the setter is not modelled; the visitor
  here only answers whether it called `break()`.
 */
module Processing {
  import opened Wrappers
  import opened Seqs
  import opened Values
  import opened Access
  import opened Ancestors
  import opened Merger
  import opened Traversal
  import opened NodeContext
  import opened PostDfs
  import EntryContext

  datatype DfsAction = Keep | MergeIn(src: Value, removeExisting: bool) | ReplaceWith(value: Value)

  /** What the visitor asks of its context, and whether it called `break()`. */
  datatype DfsReply = DfsReply(action: DfsAction, stop: bool)

  type DfsVisitor = NodeView -> DfsReply

  /** The final tree, the views handed to the visitor, the exception that ended the run if any, and whether it broke. */
  datatype DfsOutcome = DfsOutcome(tree: Value, trace: seq<NodeView>, fault: Option<Fault>, stopped: bool)

  /** The current state of the container a stack item refers to. */
  function NodeOf(tree: Value, it: Item): (n: Value)
    requires IsObjectOrArray(it.current)
    ensures IsObjectOrArray(n)
    ensures (match At(tree, it.path) case Some(m) => IsObjectOrArray(m) case None => false) ==> Some(n) == At(tree, it.path)
  {
    match At(tree, it.path)
    case Some(m) => if IsObjectOrArray(m) then m else it.current
    case None => it.current
  }

  /** The tree after the context carries out `action`; a `replace` that throws ends the run. */
  function Act(view: NodeView, action: DfsAction, coerce: Coercion): (r: Result<Value, Fault>)
    requires IsObjectOrArray(view.node)
    ensures action.Keep? ==> r == Success(view.root)
    ensures action.MergeIn? ==> r.Success?
    ensures r.Failure? ==> action.ReplaceWith? && r.error == TypeError
  {
    match action
    case Keep => Success(view.root)
    case MergeIn(src, removeExisting) => Success(Merge(view, src, removeExisting).0)
    case ReplaceWith(value) =>
      var (t, _) :- Replace(view, value, coerce);
      Success(t)
  }

  /** The view built for the top of the stack. */
  function TopView(stack: seq<Item>, tree: Value): (view: NodeView)
    requires AllComposite(stack) && |stack| > 0
    ensures IsObjectOrArray(view.node) && view.root == tree
    ensures view.path == stack[|stack| - 1].path && view.depth == stack[|stack| - 1].depth
  {
    var it := stack[|stack| - 1];
    NodeView(NodeOf(tree, it), it.depth, it.path, tree)
  }

  /** `MutatingContextProcessor.run`: pop, visit, act, and stop on `break()`. */
  function Dispatch(stack: seq<Item>, tree: Value, visitor: DfsVisitor, coerce: Coercion): (r: DfsOutcome)
    requires AllComposite(stack)
    decreases |stack|
  {
    if |stack| == 0 then DfsOutcome(tree, [], None, false)
    else
      var view := TopView(stack, tree);
      var reply := visitor(view);
      match Act(view, reply.action, coerce)
      case Failure(e) => DfsOutcome(tree, [view], Some(e), false)
      case Success(t) =>
        if reply.stop then DfsOutcome(t, [view], None, true)
        else
          var rest := Dispatch(stack[..|stack| - 1], t, visitor, coerce);
          DfsOutcome(rest.tree, [view] + rest.trace, rest.fault, rest.stopped)
  }

  lemma {:induction false} LoadLoopComposite(retrieval: seq<Item>, processing: seq<Item>)
    requires AllComposite(processing)
    ensures AllComposite(LoadLoop(retrieval, processing))
    decreases ItemsWeight(retrieval)
  {
    if |retrieval| > 0 {
      var top := retrieval[|retrieval| - 1];
      var rest := retrieval[..|retrieval| - 1];
      LoadLoopStep(retrieval, processing);
      if IsObjectOrArray(top.current) {
        LoadLoopComposite(rest + ChildItems(top), processing + [top]);
      } else {
        LoadLoopComposite(rest, processing);
      }
    }
  }

  /** `postDFSObjectTraversal(data, visitor)`. */
  function PostDfsObjectTraversal(data: Value, visitor: DfsVisitor, coerce: Coercion): (r: DfsOutcome)
    ensures !IsObjectOrArray(data) ==> r == DfsOutcome(data, [], None, false)
  {
    if !IsObjectOrArray(data) then DfsOutcome(data, [], None, false)
    else
      LoadLoopComposite([Item([], data, 0)], []);
      Dispatch(LoadDfsStack(data), data, visitor, coerce)
  }

  /** One round of the loop: the top view comes first, then the rest of the stack unless the run ended. */
  lemma {:induction false} DispatchStep(stack: seq<Item>, tree: Value, visitor: DfsVisitor, coerce: Coercion)
    requires AllComposite(stack) && |stack| > 0
    ensures var view := TopView(stack, tree);
      var reply := visitor(view);
      var act := Act(view, reply.action, coerce);
      var r := Dispatch(stack, tree, visitor, coerce);
      AllComposite(stack[..|stack| - 1])
      && (act.Failure? ==> r == DfsOutcome(tree, [view], Some(act.error), false))
      && (act.Success? && reply.stop ==> r == DfsOutcome(act.value, [view], None, true))
      && (act.Success? && !reply.stop ==>
            var rest := Dispatch(stack[..|stack| - 1], act.value, visitor, coerce);
            r == DfsOutcome(rest.tree, [view] + rest.trace, rest.fault, rest.stopped))
  {
  }

  /** The views take the stack's items from its top down, each with the item's path and depth. */
  predicate FollowsStack(trace: seq<NodeView>, stack: seq<Item>)
  {
    |trace| <= |stack|
    && forall i :: 0 <= i < |trace| ==>
         trace[i].path == stack[|stack| - 1 - i].path && trace[i].depth == stack[|stack| - 1 - i].depth
  }

  /** Only the last view's call may have broken, and a run that broke ended on such a call. */
  predicate BreaksLast(r: DfsOutcome, visitor: DfsVisitor)
  {
    (forall i :: 0 <= i < |r.trace| - 1 ==> !visitor(r.trace[i]).stop)
    && (r.stopped ==> |r.trace| > 0 && visitor(r.trace[|r.trace| - 1]).stop && r.fault.None?)
  }

  lemma {:induction false} FollowsStackCons(view: NodeView, rest: seq<NodeView>, stack: seq<Item>)
    requires |stack| > 0 && view.path == stack[|stack| - 1].path && view.depth == stack[|stack| - 1].depth
    requires FollowsStack(rest, stack[..|stack| - 1])
    ensures FollowsStack([view] + rest, stack)
  {
    var trace := [view] + rest;
    var init := stack[..|stack| - 1];
    forall j | 1 <= j < |trace|
      ensures trace[j].path == stack[|stack| - 1 - j].path && trace[j].depth == stack[|stack| - 1 - j].depth
    {
      assert trace[j] == rest[j - 1];
      assert init[|init| - 1 - (j - 1)] == stack[|stack| - 1 - j];
    }
  }

  /** The views take the items of `order` from its start, each with the item's path and depth. */
  predicate FollowsOrder(trace: seq<NodeView>, order: seq<Item>)
  {
    |trace| <= |order|
    && forall i :: 0 <= i < |trace| ==> trace[i].path == order[i].path && trace[i].depth == order[i].depth
  }

  lemma {:induction false} FollowsReversed(trace: seq<NodeView>, stack: seq<Item>, order: seq<Item>)
    requires FollowsStack(trace, stack) && |stack| == |order|
    requires forall i :: 0 <= i < |stack| ==> stack[|stack| - 1 - i] == order[i]
    ensures FollowsOrder(trace, order)
  {
  }

  lemma {:induction false} BreaksLastCons(view: NodeView, rest: DfsOutcome, visitor: DfsVisitor)
    requires !visitor(view).stop && BreaksLast(rest, visitor)
    ensures BreaksLast(DfsOutcome(rest.tree, [view] + rest.trace, rest.fault, rest.stopped), visitor)
  {
    var trace := [view] + rest.trace;
    assert forall i :: 0 < i < |trace| ==> trace[i] == rest.trace[i - 1];
  }

  /**
    The views follow the stack from its top down, each with its item's
    path and depth; the visitor's `break()` ends the run right after the
    call that made it, and only a `break()` or an exception ends it early.
   */
  lemma {:induction false} DispatchOrder(stack: seq<Item>, tree: Value, visitor: DfsVisitor, coerce: Coercion)
    requires AllComposite(stack)
    ensures var r := Dispatch(stack, tree, visitor, coerce);
      FollowsStack(r.trace, stack) && BreaksLast(r, visitor)
      && (r.fault.None? && !r.stopped ==> |r.trace| == |stack|)
    decreases |stack|
  {
    if |stack| > 0 {
      var view := TopView(stack, tree);
      var reply := visitor(view);
      var act := Act(view, reply.action, coerce);
      DispatchStep(stack, tree, visitor, coerce);
      if act.Success? && !reply.stop {
        var init := stack[..|stack| - 1];
        DispatchOrder(init, act.value, visitor, coerce);
        var rest := Dispatch(init, act.value, visitor, coerce);
        FollowsStackCons(view, rest.trace, stack);
        BreaksLastCons(view, rest, visitor);
      } else {
        FollowsStackTop(view, stack);
      }
    }
  }

  lemma {:induction false} FollowsStackTop(view: NodeView, stack: seq<Item>)
    requires |stack| > 0 && view.path == stack[|stack| - 1].path && view.depth == stack[|stack| - 1].depth
    ensures FollowsStack([view], stack)
  {
  }

  /** The path-addressed meaning of an action: a rewrite of the view's own slot, or nothing. */
  function Effect(view: NodeView, action: DfsAction): Value
  {
    match action
    case Keep => view.root
    case MergeIn(src, removeExisting) =>
      if IsObjectOrArray(src) && IsObjectOrArray(view.node) then SetAt(view.root, view.path, MergeValues(view.node, src, removeExisting))
      else view.root
    case ReplaceWith(value) =>
      if |view.path| == 0 then view.root else SetAt(view.root, view.path, value)
  }

  /** Each view sees the tree its predecessor's action left, starting from `start` and ending at `end`. */
  predicate Chained(trace: seq<NodeView>, start: Value, end: Value, visitor: DfsVisitor)
  {
    if |trace| == 0 then end == start
    else trace[0].root == start && Chained(trace[1..], Effect(trace[0], visitor(trace[0]).action), end, visitor)
  }

  /** On a node that is where its path says, the context's action is exactly its path-addressed meaning. */
  lemma {:induction false} ActIsEffect(view: NodeView, action: DfsAction, coerce: Coercion)
    requires IsObjectOrArray(view.node) && At(view.root, view.path) == Some(view.node)
    ensures Act(view, action, coerce) == Success(Effect(view, action))
  {
    match action
    case Keep =>
    case MergeIn(src, removeExisting) =>
    case ReplaceWith(value) =>
      if |view.path| > 0 {
        ReplaceAt(view, value, coerce);
      }
  }

  /** Later-popped items are never at or below an earlier-popped one. */
  predicate StackOrdered(s: seq<Item>)
  {
    forall i, j :: 0 <= i < j < |s| ==> !IsPrefix(s[j].path, s[i].path)
  }

  /** Every item's path leads to a record or an array of `tree`. */
  predicate Live(s: seq<Item>, tree: Value)
  {
    forall i :: 0 <= i < |s| ==> At(tree, s[i].path).Some? && IsObjectOrArray(At(tree, s[i].path).value)
  }

  /** Rewriting a slot at or below none of the items keeps them all live. */
  lemma {:induction false} LiveAfterWrite(s: seq<Item>, tree: Value, p: Path, x: Value)
    requires Live(s, tree) && At(tree, p).Some?
    requires forall i :: 0 <= i < |s| ==> !IsPrefix(p, s[i].path)
    ensures Live(s, SetAt(tree, p, x))
  {
    forall i | 0 <= i < |s|
      ensures At(SetAt(tree, p, x), s[i].path).Some? && IsObjectOrArray(At(SetAt(tree, p, x), s[i].path).value)
    {
      if IsPrefix(s[i].path, p) {
        AtSetAtPrefix(tree, p, s[i].path, x);
      } else {
        AtSetAtDisjoint(tree, p, s[i].path, x);
      }
    }
  }

  lemma {:induction false} LiveAfterEffect(s: seq<Item>, view: NodeView, action: DfsAction)
    requires Live(s, view.root) && At(view.root, view.path).Some?
    requires forall i :: 0 <= i < |s| ==> !IsPrefix(view.path, s[i].path)
    ensures Live(s, Effect(view, action))
  {
    match action
    case Keep =>
    case MergeIn(src, removeExisting) =>
      if IsObjectOrArray(src) && IsObjectOrArray(view.node) {
        LiveAfterWrite(s, view.root, view.path, MergeValues(view.node, src, removeExisting));
      }
    case ReplaceWith(value) =>
      if |view.path| > 0 {
        LiveAfterWrite(s, view.root, view.path, value);
      }
  }

  /**
    On a live, ordered stack nothing throws, each view's node is the node
    at its path in the tree it is shown, and the views chain through the
    path-addressed effects of the visitor's actions.
   */
  lemma {:induction false} DispatchLive(stack: seq<Item>, tree: Value, visitor: DfsVisitor, coerce: Coercion)
    requires AllComposite(stack) && StackOrdered(stack) && Live(stack, tree)
    ensures var r := Dispatch(stack, tree, visitor, coerce);
      r.fault.None?
      && (forall i :: 0 <= i < |r.trace| ==> At(r.trace[i].root, r.trace[i].path) == Some(r.trace[i].node))
      && Chained(r.trace, tree, r.tree, visitor)
    decreases |stack|
  {
    if |stack| > 0 {
      var init := stack[..|stack| - 1];
      var view := TopView(stack, tree);
      var reply := visitor(view);
      DispatchStep(stack, tree, visitor, coerce);
      ActIsEffect(view, reply.action, coerce);
      var t := Effect(view, reply.action);
      assert StackOrdered(init);
      assert Live(init, tree);
      LiveAfterEffect(init, view, reply.action);
      if !reply.stop {
        DispatchLive(init, t, visitor, coerce);
        var rest := Dispatch(init, t, visitor, coerce);
        assert ([view] + rest.trace)[1..] == rest.trace;
      } else {
        assert [view][1..] == [];
      }
    }
  }

  /** The processing stack popped from its end is the post-order, item by item. */
  lemma {:induction false} StackIsReversedPostOrder(data: Value)
    ensures var s := LoadDfsStack(data);
      var po := PostOrder(Item([], data, 0));
      AllComposite(s) && |s| == |po| && forall i :: 0 <= i < |s| ==> s[|s| - 1 - i] == po[i]
  {
    LoadLoopComposite([Item([], data, 0)], []);
    DispatchIsPostOrder(data);
  }

  /**
    The mutating post-order traversal shows the visitor the records and
    arrays in left-to-right post-order, each with its path and depth, and
    stops right after the call that broke; only a `break()` or an
    exception ends it before the last node.
   */
  lemma {:induction false} PostDfsObjectTraversalOrder(data: Value, visitor: DfsVisitor, coerce: Coercion)
    ensures var r := PostDfsObjectTraversal(data, visitor, coerce);
      var po := PostOrder(Item([], data, 0));
      FollowsOrder(r.trace, po) && BreaksLast(r, visitor)
      && (r.fault.None? && !r.stopped ==> |r.trace| == |po|)
  {
    if IsObjectOrArray(data) {
      var s := LoadDfsStack(data);
      TraversalIsDispatch(data, visitor, coerce);
      DispatchOrder(s, data, visitor, coerce);
      TraceFollowsPostOrder(PostDfsObjectTraversal(data, visitor, coerce), data, visitor);
    }
  }

  /** A run that follows the loaded stack follows the data's post-order. */
  lemma {:induction false} TraceFollowsPostOrder(r: DfsOutcome, data: Value, visitor: DfsVisitor)
    requires FollowsStack(r.trace, LoadDfsStack(data))
    requires r.fault.None? && !r.stopped ==> |r.trace| == |LoadDfsStack(data)|
    ensures FollowsOrder(r.trace, PostOrder(Item([], data, 0)))
    ensures r.fault.None? && !r.stopped ==> |r.trace| == |PostOrder(Item([], data, 0))|
  {
    StackIsReversedPostOrder(data);
    OrderFromStack(r, LoadDfsStack(data), PostOrder(Item([], data, 0)), visitor);
  }

  lemma {:induction false} TraversalIsDispatch(data: Value, visitor: DfsVisitor, coerce: Coercion)
    requires IsObjectOrArray(data)
    ensures AllComposite(LoadDfsStack(data))
    ensures PostDfsObjectTraversal(data, visitor, coerce) == Dispatch(LoadDfsStack(data), data, visitor, coerce)
  {
    LoadLoopComposite([Item([], data, 0)], []);
  }

  /** What `DispatchOrder` says about a stack, read on the order in which it pops. */
  lemma {:induction false} OrderFromStack(r: DfsOutcome, stack: seq<Item>, order: seq<Item>, visitor: DfsVisitor)
    requires FollowsStack(r.trace, stack) && (r.fault.None? && !r.stopped ==> |r.trace| == |stack|)
    requires |stack| == |order| && forall i :: 0 <= i < |stack| ==> stack[|stack| - 1 - i] == order[i]
    ensures FollowsOrder(r.trace, order) && (r.fault.None? && !r.stopped ==> |r.trace| == |order|)
  {
    FollowsReversed(r.trace, stack, order);
  }

  /**
    On well-formed data no `replace` throws, each view holds the node at
    its path in the tree of the moment, the tree evolves by the
    path-addressed effects of the requested actions, and the whole run
    has as many visits as the data has records and arrays.
   */
  lemma {:induction false} PostDfsObjectTraversalLive(data: Value, visitor: DfsVisitor, coerce: Coercion)
    requires WellFormed(data)
    ensures var r := PostDfsObjectTraversal(data, visitor, coerce);
      r.fault.None?
      && (forall i :: 0 <= i < |r.trace| ==> At(r.trace[i].root, r.trace[i].path) == Some(r.trace[i].node))
      && Chained(r.trace, data, r.tree, visitor)
      && |PostOrder(Item([], data, 0))| == Nodes(data)
  {
    PostOrderCount(data);
    if IsObjectOrArray(data) {
      var s := LoadDfsStack(data);
      StackReady(data);
      TraversalIsDispatch(data, visitor, coerce);
      DispatchLive(s, data, visitor, coerce);
    }
  }

  lemma {:induction false} PostOrderCount(data: Value)
    requires WellFormed(data)
    ensures |PostOrder(Item([], data, 0))| == Nodes(data)
  {
    PostOrderFacts(data, Item([], data, 0));
  }

  /** The processing stack of well-formed data meets what `DispatchLive` asks of it. */
  lemma {:induction false} StackReady(data: Value)
    requires WellFormed(data)
    ensures var s := LoadDfsStack(data);
      AllComposite(s) && StackOrdered(s) && Live(s, data)
  {
    LoadDfsStackFacts(data);
    LoadLoopComposite([Item([], data, 0)], []);
  }

  /** A visitor that asks for nothing and never breaks. */
  ghost predicate Passive(visitor: DfsVisitor)
  {
    forall view :: visitor(view) == DfsReply(Keep, false)
  }

  lemma {:induction false} PassiveChained(trace: seq<NodeView>, start: Value, end: Value, visitor: DfsVisitor)
    requires Passive(visitor) && Chained(trace, start, end, visitor)
    ensures end == start && forall i :: 0 <= i < |trace| ==> trace[i].root == start
  {
    if |trace| > 0 {
      PassiveChained(trace[1..], start, end, visitor);
      assert forall i :: 1 <= i < |trace| ==> trace[i] == trace[1..][i - 1];
    }
  }

  /**
    A visitor that only looks leaves the data unchanged and is shown every
    record and array of it once, in post-order, each as it was in the data.
   */
  lemma {:induction false} PostDfsObjectTraversalPassive(data: Value, visitor: DfsVisitor, coerce: Coercion)
    requires WellFormed(data) && Passive(visitor)
    ensures var r := PostDfsObjectTraversal(data, visitor, coerce);
      var po := PostOrder(Item([], data, 0));
      r.tree == data && !r.stopped && r.fault.None? && |r.trace| == |po| == Nodes(data)
      && forall i :: 0 <= i < |r.trace| ==> r.trace[i] == NodeView(po[i].current, po[i].depth, po[i].path, data)
  {
    var r := PostDfsObjectTraversal(data, visitor, coerce);
    var po := PostOrder(Item([], data, 0));
    PostDfsObjectTraversalOrder(data, visitor, coerce);
    PostDfsObjectTraversalLive(data, visitor, coerce);
    PostOrderFacts(data, Item([], data, 0));
    PassiveChained(r.trace, data, r.tree, visitor);
    forall i | 0 <= i < |r.trace|
      ensures r.trace[i] == NodeView(po[i].current, po[i].depth, po[i].path, data)
    {
      assert InPlace(data, po[i]);
      assert At(data, r.trace[i].path) == Some(r.trace[i].node);
    }
  }

  /** `BaseProcessor`'s visitor: reports whether it called `break()`. */
  type EntryVisitor = EntryContext.EntryView -> bool

  datatype BaseOutcome = BaseOutcome(trace: seq<EntryContext.EntryView>, stopped: bool)

  /** The entry views built for one popped container: the container's path and depth, not the entry's. */
  function EntryViewsOf(it: Item, root: Value): (vs: seq<EntryContext.EntryView>)
    requires IsObjectOrArray(it.current)
    ensures |vs| == |Entries(it.current)|
  {
    var es := Entries(it.current);
    seq(|es|, i requires 0 <= i < |es| => EntryContext.EntryView(es[i].0, es[i].1, it.current, it.depth, it.path, root))
  }

  /** The inner `for` loop: visit the views in order until one breaks. */
  function VisitEntries(vs: seq<EntryContext.EntryView>, visitor: EntryVisitor): (r: BaseOutcome)
    ensures IsPrefix(r.trace, vs)
    ensures forall i :: 0 <= i < |r.trace| - 1 ==> !visitor(r.trace[i])
    ensures r.stopped <==> exists i :: 0 <= i < |vs| && visitor(vs[i])
    ensures r.stopped ==> |r.trace| > 0 && visitor(r.trace[|r.trace| - 1])
    ensures !r.stopped ==> r.trace == vs
  {
    if |vs| == 0 then BaseOutcome([], false)
    else if visitor(vs[0]) then BaseOutcome([vs[0]], true)
    else
      var rest := VisitEntries(vs[1..], visitor);
      assert forall i :: 1 <= i < |vs| ==> vs[i] == vs[1..][i - 1];
      BaseOutcome([vs[0]] + rest.trace, rest.stopped)
  }

  /** `BaseProcessor.run`: pop a container, visit its entries, stop on `break()`. */
  function BaseRun(stack: seq<Item>, root: Value, visitor: EntryVisitor): (r: BaseOutcome)
    requires AllComposite(stack)
    decreases |stack|
  {
    if |stack| == 0 then BaseOutcome([], false)
    else
      var here := VisitEntries(EntryViewsOf(stack[|stack| - 1], root), visitor);
      if here.stopped then here
      else
        var rest := BaseRun(stack[..|stack| - 1], root, visitor);
        BaseOutcome(here.trace + rest.trace, rest.stopped)
  }

  /** The entry views of the containers of `order`, one container after the other. */
  function AllEntryViews(order: seq<Item>, root: Value): seq<EntryContext.EntryView>
    requires AllComposite(order)
  {
    if |order| == 0 then [] else EntryViewsOf(order[0], root) + AllEntryViews(order[1..], root)
  }

  /** Visiting `a + b` is visiting `a`, then `b` unless `a` broke. */
  lemma {:induction false} VisitEntriesAppend(a: seq<EntryContext.EntryView>, b: seq<EntryContext.EntryView>, visitor: EntryVisitor)
    ensures VisitEntries(a + b, visitor)
      == if VisitEntries(a, visitor).stopped then VisitEntries(a, visitor)
         else BaseOutcome(a + VisitEntries(b, visitor).trace, VisitEntries(b, visitor).stopped)
  {
    if |a| == 0 {
      assert a + b == b;
    } else {
      assert (a + b)[0] == a[0] && (a + b)[1..] == a[1..] + b;
      VisitEntriesAppend(a[1..], b, visitor);
    }
  }

  /** `BaseProcessor.run` visits the entry views of the popped containers as one sequence, cut after the first `break()`. */
  lemma {:induction false} BaseRunIsCut(stack: seq<Item>, root: Value, visitor: EntryVisitor)
    requires AllComposite(stack)
    ensures AllComposite(Reverse(stack))
    ensures BaseRun(stack, root, visitor) == VisitEntries(AllEntryViews(Reverse(stack), root), visitor)
    decreases |stack|
  {
    if |stack| > 0 {
      var init := stack[..|stack| - 1];
      ReverseLast(stack);
      BaseRunIsCut(init, root, visitor);
      var order := Reverse(stack);
      assert order[1..] == Reverse(init);
      VisitEntriesAppend(EntryViewsOf(stack[|stack| - 1], root), AllEntryViews(Reverse(init), root), visitor);
    }
  }

  /** `treePostDFS(data, visitor)`. */
  function TreePostDfs(data: Value, visitor: EntryVisitor): (r: BaseOutcome)
    ensures !IsObjectOrArray(data) ==> r == BaseOutcome([], false)
  {
    if !IsObjectOrArray(data) then BaseOutcome([], false)
    else
      LoadLoopComposite([Item([], data, 0)], []);
      BaseRun(LoadDfsStack(data), data, visitor)
  }

  /**
    `treePostDFS` shows the visitor the entries of every record and array,
    containers in left-to-right post-order and entries in their natural
    order, and stops right after the first view whose call broke.
   */
  lemma {:induction false} TreePostDfsIsCut(data: Value, visitor: EntryVisitor)
    ensures AllComposite(PostOrder(Item([], data, 0)))
    ensures TreePostDfs(data, visitor) == VisitEntries(AllEntryViews(PostOrder(Item([], data, 0)), data), visitor)
  {
    var root := Item([], data, 0);
    LoadLoopComposite([root], []);
    DispatchIsPostOrder(data);
    BaseRunIsCut(LoadDfsStack(data), data, visitor);
  }
}
