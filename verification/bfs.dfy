/**
  `treeBFS(data, visitor)`: breadth-first traversal by entries.

  The queue holds (path, container, depth) items; each dequeued container's
  entries are visited in order with a per-entry view. After each visit the
  traversal stops if the visitor asked to break; otherwise, unless the
  visitor set the entry's value, a composite value is enqueued with its
  path and depth. The visitor is a function from the view to its reply:
  the value to set, if any, and whether to break.
 */
module Bfs {
  import opened Wrappers
  import opened Seqs
  import opened Fields
  import opened Values
  import opened Access
  import opened EntryContext
  import opened Traversal

  /** What a visitor call did: `ctx.value = x` (at most once) and `ctx.break()`. */
  datatype BfsReply = BfsReply(newValue: Option<Value>, stop: bool)

  type BfsVisitor = EntryView -> BfsReply

  /** The final tree, the views in visiting order, and whether the traversal broke off. */
  datatype BfsOutcome = BfsOutcome(tree: Value, trace: seq<EntryView>, stopped: bool)

  /** The container object as it is now: the tree's node at the item's path. */
  function Container(tree: Value, cur: Item): (c: Value)
    requires IsObjectOrArray(cur.current)
    ensures IsObjectOrArray(c)
  {
    match At(tree, cur.path)
    case Some(c) => if IsObjectOrArray(c) then c else cur.current
    case None => cur.current
  }

  /** The view handed to the visitor for the first pending entry of `cur`. */
  function ViewOf(tree: Value, cur: Item, e: (Seg, Value)): EntryView
    requires IsObjectOrArray(cur.current)
  {
    EntryView(e.0, e.1, Container(tree, cur), cur.depth, cur.path + [e.0], tree)
  }

  /** The tree after the visitor's reply to `view`. */
  function Apply(view: EntryView, reply: BfsReply): Value
    requires IsObjectOrArray(view.container)
  {
    match reply.newValue
    case None => view.root
    case Some(x) => SetValue(view, x).value
  }

  /**
    The state of `BFS.run`: `queue` is still to be dequeued, `pending` holds
    the remaining entries of the container `cur`, `tree` is the data as
    mutated so far and `trace` the views visited so far.
   */
  datatype Frame = Frame(queue: seq<Item>, cur: Item, pending: seq<(Seg, Value)>, tree: Value, trace: seq<EntryView>)

  predicate Valid(f: Frame)
  {
    AllComposite(f.queue) && IsObjectOrArray(f.cur.current)
  }

  function Weight(f: Frame): nat
  {
    ItemsWeight(f.queue) + EntriesWeight(f.pending)
  }

  /** `g` comes strictly before `f` in the order the traversal's termination rests on. */
  predicate Smaller(g: Frame, f: Frame)
  {
    Weight(g) < Weight(f) || (Weight(g) == Weight(f) && |g.pending| < |f.pending|)
  }

  datatype Move = Next(frame: Frame) | Done(outcome: BfsOutcome)

  /**
    One step of `BFS.run`: dequeue the next container when its predecessor's
    entries are exhausted, otherwise visit the next entry and act on the reply.
   */
  function Step(f: Frame, visitor: BfsVisitor): (m: Move)
    requires Valid(f)
    ensures m.Next? ==> Valid(m.frame) && Smaller(m.frame, f)
    ensures m.Done? && |f.pending| == 0 ==> m.outcome == BfsOutcome(f.tree, f.trace, false)
  {
    if |f.pending| == 0 then
      if |f.queue| == 0 then Done(BfsOutcome(f.tree, f.trace, false))
      else
        var next := f.queue[0];
        ItemsWeightPop(f.queue);
        SizeIsEntriesWeight(next.current);
        Next(Frame(f.queue[1..], next, Entries(next.current), f.tree, f.trace))
    else
      var e := f.pending[0];
      var view := ViewOf(f.tree, f.cur, e);
      var reply := visitor(view);
      var tree' := Apply(view, reply);
      EntriesWeightCons(e, f.pending[1..]);
      assert f.pending == [e] + f.pending[1..];
      if reply.stop then Done(BfsOutcome(tree', f.trace + [view], true))
      else if reply.newValue.Some? || !IsObjectOrArray(e.1) then
        Next(Frame(f.queue, f.cur, f.pending[1..], tree', f.trace + [view]))
      else
        var it := Item(f.cur.path + [e.0], e.1, |f.cur.path| + 1);
        ItemsWeightAppend(f.queue, it);
        Next(Frame(f.queue + [it], f.cur, f.pending[1..], tree', f.trace + [view]))
  }

  /** `BFS.run`, from frame `f` until the queue runs dry or the visitor breaks. */
  function Run(f: Frame, visitor: BfsVisitor): BfsOutcome
    requires Valid(f)
    decreases Weight(f), |f.pending|
  {
    match Step(f, visitor)
    case Done(o) => o
    case Next(g) => Run(g, visitor)
  }

  /** The frame after the constructor: the root alone in the queue. */
  function Start(data: Value): (f: Frame)
    requires IsObjectOrArray(data)
    ensures Valid(f)
  {
    var root := Item([], data, 0);
    Frame([root], root, [], data, [])
  }

  /** `treeBFS(data, visitor)`. */
  function TreeBfs(data: Value, visitor: BfsVisitor): (r: BfsOutcome)
    ensures !IsObjectOrArray(data) ==> r == BfsOutcome(data, [], false)
  {
    if !IsObjectOrArray(data) then BfsOutcome(data, [], false)
    else Run(Start(data), visitor)
  }

  /** A view as the traversal builds it: the path ends in the key, and the depth is the container's. */
  predicate WellShaped(view: EntryView)
  {
    |view.path| >= 1 && view.path[|view.path| - 1] == view.key && view.depth == |view.path| - 1
    && IsObjectOrArray(view.container)
  }

  /** Invariant of the basic guarantees: depths match paths, and no visit so far asked to break. */
  predicate DepthsMatch(f: Frame)
  {
    (forall i :: 0 <= i < |f.queue| ==> f.queue[i].depth == |f.queue[i].path|)
    && f.cur.depth == |f.cur.path|
  }

  predicate Shaped(f: Frame, visitor: BfsVisitor)
  {
    DepthsMatch(f)
    && (forall i :: 0 <= i < |f.trace| ==> WellShaped(f.trace[i]) && !visitor(f.trace[i]).stop)
  }

  /** What the traversal promises about every run: well-shaped views, and a break ends it. */
  predicate Finished(r: BfsOutcome, visitor: BfsVisitor)
  {
    (forall i :: 0 <= i < |r.trace| ==> WellShaped(r.trace[i]))
    && (forall i :: 0 <= i < |r.trace| - 1 ==> !visitor(r.trace[i]).stop)
    && (r.stopped <==> |r.trace| > 0 && visitor(r.trace[|r.trace| - 1]).stop)
  }

  lemma {:induction false} StepShaped(f: Frame, visitor: BfsVisitor)
    requires Valid(f) && Shaped(f, visitor)
    ensures Step(f, visitor).Next? ==> Shaped(Step(f, visitor).frame, visitor)
    ensures Step(f, visitor).Done? ==> Finished(Step(f, visitor).outcome, visitor)
  {
    if |f.pending| > 0 {
      var view := ViewOf(f.tree, f.cur, f.pending[0]);
      assert WellShaped(view);
    }
  }

  lemma {:induction false} RunShaped(f: Frame, visitor: BfsVisitor)
    requires Valid(f) && Shaped(f, visitor)
    ensures Finished(Run(f, visitor), visitor)
    decreases Weight(f), |f.pending|
  {
    StepShaped(f, visitor);
    match Step(f, visitor)
    case Done(_) =>
    case Next(g) => RunShaped(g, visitor);
  }

  /**
    The traversal's basic guarantees: no visit for a non-composite root; an
    entry's path is its container's path plus its key and its depth is
    `|path| - 1`; a break ends the traversal at once.
   */
  lemma {:induction false} TreeBfsBasics(data: Value, visitor: BfsVisitor)
    ensures !IsObjectOrArray(data) ==> TreeBfs(data, visitor).trace == []
    ensures Finished(TreeBfs(data, visitor), visitor)
  {
    if IsObjectOrArray(data) {
      RunShaped(Start(data), visitor);
    }
  }

  /** A queued path that is a child of `cur` whose entry has already been visited. */
  predicate SiblingDone(q: Path, f: Frame)
  {
    |q| == |f.cur.path| + 1 && q[..|f.cur.path|] == f.cur.path
    && forall j :: 0 <= j < |f.pending| ==> q[|f.cur.path|] != f.pending[j].0
  }

  /** While entries of `cur` are pending: its node is a container, each pending entry sits at its key, and the queue is clear of them. */
  predicate PendingPlaced(f: Frame)
  {
    At(f.tree, f.cur.path).Some? && IsObjectOrArray(At(f.tree, f.cur.path).value)
    && (forall i :: 0 <= i < |f.pending| ==>
          At(f.tree, f.cur.path + [f.pending[i].0]) == Some(f.pending[i].1) && WellFormed(f.pending[i].1))
    && (forall i, j :: 0 <= i < j < |f.pending| ==> f.pending[i].0 != f.pending[j].0)
    && (forall i :: 0 <= i < |f.queue| ==> Apart(f.queue[i].path, f.cur.path) || SiblingDone(f.queue[i].path, f))
  }

  /** Every view in `trace` sees its container and its value where its path says. */
  predicate ViewsPlaced(trace: seq<EntryView>)
  {
    forall i :: 0 <= i < |trace| ==> Consistent(trace[i]) && At(trace[i].root, trace[i].path) == Some(trace[i].value)
  }

  /** Invariant of a traversal over a well-formed tree. */
  predicate Placed(f: Frame)
  {
    (forall i :: 0 <= i < |f.queue| ==> At(f.tree, f.queue[i].path) == Some(f.queue[i].current) && WellFormed(f.queue[i].current))
    && (forall i, j :: 0 <= i < j < |f.queue| ==> Apart(f.queue[i].path, f.queue[j].path))
    && (|f.pending| > 0 ==> PendingPlaced(f))
    && ViewsPlaced(f.trace)
  }

  lemma {:induction false} StepPlacedDequeue(f: Frame, visitor: BfsVisitor)
    requires Valid(f) && Placed(f) && |f.pending| == 0 && |f.queue| > 0
    ensures Placed(Step(f, visitor).frame)
  {
    var q0 := f.queue[0];
    var g := Frame(f.queue[1..], q0, Entries(q0.current), f.tree, f.trace);
    StepDequeue(f, visitor);
    EntriesPlaced(f.tree, q0);
    assert ViewsPlaced(g.trace);
    forall i | 0 <= i < |g.queue|
      ensures At(g.tree, g.queue[i].path) == Some(g.queue[i].current) && WellFormed(g.queue[i].current)
      ensures Apart(g.queue[i].path, g.cur.path)
    {
      assert g.queue[i] == f.queue[i + 1];
    }
    forall i, j | 0 <= i < j < |g.queue|
      ensures Apart(g.queue[i].path, g.queue[j].path)
    {
      assert g.queue[i] == f.queue[i + 1] && g.queue[j] == f.queue[j + 1];
    }
  }

  /** What one visit does to the tree: paths apart from the entry's keep their nodes, the container stays one. */
  lemma {:induction false} VisitEffect(f: Frame, visitor: BfsVisitor)
    requires Valid(f) && |f.pending| > 0 && PendingPlaced(f)
    ensures var view := ViewOf(f.tree, f.cur, f.pending[0]);
      var tree' := Apply(view, visitor(view));
      Consistent(view) && At(view.root, view.path) == Some(view.value)
      && (forall q :: At(f.tree, q).Some? && Apart(q, view.path) ==> At(tree', q) == At(f.tree, q))
      && At(tree', f.cur.path).Some? && IsObjectOrArray(At(tree', f.cur.path).value)
      && (visitor(view).newValue.None? ==> tree' == f.tree)
  {
    var e := f.pending[0];
    var c := f.cur.path;
    var p := c + [e.0];
    var view := ViewOf(f.tree, f.cur, e);
    assert Init(p) == c;
    assert Consistent(view);
    var reply := visitor(view);
    var tree' := Apply(view, reply);
    if reply.newValue.Some? {
      var x := reply.newValue.value;
      SetValueAt(view, x);
      assert tree' == SetAt(f.tree, p, x);
      forall q | At(f.tree, q).Some? && Apart(q, p)
        ensures At(tree', q) == At(f.tree, q)
      {
        AtSetAtDisjoint(f.tree, p, q, x);
      }
      AtSetAtPrefix(f.tree, p, c, x);
    }
  }

  /** Every path the invariant speaks of, other than the container's own, is apart from the visited entry's. */
  lemma {:induction false} VisitApart(f: Frame)
    requires Valid(f) && |f.pending| > 0 && PendingPlaced(f)
    ensures forall i :: 0 <= i < |f.queue| ==> Apart(f.queue[i].path, f.cur.path + [f.pending[0].0])
    ensures forall i :: 1 <= i < |f.pending| ==> Apart(f.cur.path + [f.pending[i].0], f.cur.path + [f.pending[0].0])
  {
    var c := f.cur.path;
    var k := f.pending[0].0;
    forall i | 0 <= i < |f.queue|
      ensures Apart(f.queue[i].path, c + [k])
    {
      if Apart(f.queue[i].path, c) {
        ApartExtend(f.queue[i].path, c, k);
      } else {
        var k' := f.queue[i].path[|c|];
        assert f.queue[i].path == c + [k'];
        ApartSiblings(c, k', k);
      }
    }
    forall i | 1 <= i < |f.pending|
      ensures Apart(c + [f.pending[i].0], c + [k])
    {
      ApartSiblings(c, f.pending[i].0, k);
    }
  }

  /** The queue after visiting `e` with reply `reply`: a composite value nobody replaced joins it. */
  function Enqueued(queue: seq<Item>, cur: Item, e: (Seg, Value), reply: BfsReply): seq<Item>
  {
    if reply.newValue.None? && IsObjectOrArray(e.1) then queue + [Item(cur.path + [e.0], e.1, |cur.path| + 1)]
    else queue
  }

  lemma {:induction false} StepDequeue(f: Frame, visitor: BfsVisitor)
    requires Valid(f) && |f.pending| == 0 && |f.queue| > 0
    ensures Step(f, visitor) == Next(Frame(f.queue[1..], f.queue[0], Entries(f.queue[0].current), f.tree, f.trace))
  {
  }

  lemma {:induction false} StepVisit(f: Frame, visitor: BfsVisitor)
    requires Valid(f) && |f.pending| > 0
    ensures var view := ViewOf(f.tree, f.cur, f.pending[0]);
      var reply := visitor(view);
      var tree' := Apply(view, reply);
      (reply.stop ==> Step(f, visitor) == Done(BfsOutcome(tree', f.trace + [view], true)))
      && (!reply.stop ==>
            Step(f, visitor) == Next(Frame(Enqueued(f.queue, f.cur, f.pending[0], reply), f.cur, f.pending[1..], tree', f.trace + [view])))
  {
  }

  /** After a visit, every queued container is still in place, and queued paths stay apart. */
  lemma {:induction false} QueuePlacedAfterVisit(f: Frame, visitor: BfsVisitor)
    requires Valid(f) && Placed(f) && |f.pending| > 0
    ensures var view := ViewOf(f.tree, f.cur, f.pending[0]);
      var tree' := Apply(view, visitor(view));
      var q := Enqueued(f.queue, f.cur, f.pending[0], visitor(view));
      (forall i :: 0 <= i < |q| ==> At(tree', q[i].path) == Some(q[i].current) && WellFormed(q[i].current))
      && (forall i, j :: 0 <= i < j < |q| ==> Apart(q[i].path, q[j].path))
  {
    var view := ViewOf(f.tree, f.cur, f.pending[0]);
    var q := Enqueued(f.queue, f.cur, f.pending[0], visitor(view));
    VisitEffect(f, visitor);
    VisitApart(f);
    assert forall i :: 0 <= i < |f.queue| ==> q[i] == f.queue[i];
  }

  /** After a visit, the remaining entries of `cur` are still in place and clear of the queue. */
  lemma {:induction false} PendingPlacedAfterVisit(f: Frame, visitor: BfsVisitor)
    requires Valid(f) && Placed(f) && |f.pending| > 1
    ensures var view := ViewOf(f.tree, f.cur, f.pending[0]);
      var reply := visitor(view);
      PendingPlaced(Frame(Enqueued(f.queue, f.cur, f.pending[0], reply), f.cur, f.pending[1..], Apply(view, reply), f.trace + [view]))
  {
    var e := f.pending[0];
    var c := f.cur.path;
    var view := ViewOf(f.tree, f.cur, e);
    var reply := visitor(view);
    var tree' := Apply(view, reply);
    var g := Frame(Enqueued(f.queue, f.cur, e, reply), f.cur, f.pending[1..], tree', f.trace + [view]);
    VisitEffect(f, visitor);
    VisitApart(f);
    forall j | 0 <= j < |g.pending|
      ensures At(tree', c + [g.pending[j].0]) == Some(g.pending[j].1) && WellFormed(g.pending[j].1)
    {
      assert g.pending[j] == f.pending[j + 1];
    }
    forall i | 0 <= i < |g.queue|
      ensures Apart(g.queue[i].path, c) || SiblingDone(g.queue[i].path, g)
    {
      if i < |f.queue| {
        assert g.queue[i] == f.queue[i];
        assert Apart(f.queue[i].path, c) || SiblingDone(f.queue[i].path, f);
      } else {
        assert g.queue[i].path == c + [e.0];
        assert (c + [e.0])[..|c|] == c;
      }
    }
  }

  lemma {:induction false} PlacedAfterVisit(f: Frame, visitor: BfsVisitor)
    requires Valid(f) && Placed(f) && |f.pending| > 0
    ensures var view := ViewOf(f.tree, f.cur, f.pending[0]);
      var reply := visitor(view);
      ViewsPlaced(f.trace + [view])
      && Placed(Frame(Enqueued(f.queue, f.cur, f.pending[0], reply), f.cur, f.pending[1..], Apply(view, reply), f.trace + [view]))
  {
    VisitEffect(f, visitor);
    QueuePlacedAfterVisit(f, visitor);
    if |f.pending| > 1 {
      PendingPlacedAfterVisit(f, visitor);
    }
  }

  lemma {:induction false} StepPlacedVisit(f: Frame, visitor: BfsVisitor)
    requires Valid(f) && Placed(f) && |f.pending| > 0
    ensures Step(f, visitor).Next? ==> Placed(Step(f, visitor).frame)
    ensures Step(f, visitor).Done? ==> ViewsPlaced(Step(f, visitor).outcome.trace)
  {
    StepVisit(f, visitor);
    PlacedAfterVisit(f, visitor);
  }

  lemma {:induction false} StepPlaced(f: Frame, visitor: BfsVisitor)
    requires Valid(f) && Placed(f)
    ensures Step(f, visitor).Next? ==> Placed(Step(f, visitor).frame)
    ensures Step(f, visitor).Done? ==> ViewsPlaced(Step(f, visitor).outcome.trace)
  {
    if |f.pending| > 0 {
      StepPlacedVisit(f, visitor);
    } else if |f.queue| > 0 {
      StepPlacedDequeue(f, visitor);
    }
  }

  lemma {:induction false} RunPlaced(f: Frame, visitor: BfsVisitor)
    requires Valid(f) && Placed(f)
    ensures ViewsPlaced(Run(f, visitor).trace)
    decreases Weight(f), |f.pending|
  {
    StepPlaced(f, visitor);
    match Step(f, visitor)
    case Done(_) =>
    case Next(g) => RunPlaced(g, visitor);
  }

  /**
    On a well-formed tree every view is accurate: its container is the node
    at the path's parent, its value the node at its path, in the tree as the
    earlier visits left it. So a visitor's `value` write lands exactly at
    the entry's path.
   */
  lemma {:induction false} TreeBfsViewsPlaced(data: Value, visitor: BfsVisitor)
    requires WellFormed(data)
    ensures ViewsPlaced(TreeBfs(data, visitor).trace)
    ensures forall i, x :: 0 <= i < |TreeBfs(data, visitor).trace| ==>
      var view := TreeBfs(data, visitor).trace[i];
      SetValue(view, x) == Success(SetAt(view.root, view.path, x))
  {
    if IsObjectOrArray(data) {
      var f := Start(data);
      assert At(data, []) == Some(data);
      RunPlaced(f, visitor);
    }
    var r := TreeBfs(data, visitor);
    forall i, x | 0 <= i < |r.trace|
      ensures SetValue(r.trace[i], x) == Success(SetAt(r.trace[i].root, r.trace[i].path, x))
    {
      SetValueAt(r.trace[i], x);
    }
  }

  /** Invariant of the breadth-first order: queued depths ascend within one level of `cur`, past views are no deeper. */
  predicate Layered(f: Frame)
  {
    (forall i, j :: 0 <= i < j < |f.queue| ==> f.queue[i].depth <= f.queue[j].depth)
    && (forall i :: 0 <= i < |f.queue| ==> f.cur.depth <= f.queue[i].depth <= f.cur.depth + 1)
    && (forall i :: 0 <= i < |f.trace| ==> f.trace[i].depth <= f.cur.depth)
    && (forall i, j :: 0 <= i < j < |f.trace| ==> f.trace[i].depth <= f.trace[j].depth)
  }

  predicate DepthOrdered(trace: seq<EntryView>)
  {
    forall i, j :: 0 <= i < j < |trace| ==> trace[i].depth <= trace[j].depth
  }

  lemma {:induction false} StepLayeredVisit(f: Frame, visitor: BfsVisitor)
    requires Valid(f) && DepthsMatch(f) && Layered(f) && |f.pending| > 0
    ensures var view := ViewOf(f.tree, f.cur, f.pending[0]);
      var g := Frame(Enqueued(f.queue, f.cur, f.pending[0], visitor(view)), f.cur, f.pending[1..],
                     Apply(view, visitor(view)), f.trace + [view]);
      DepthsMatch(g) && Layered(g)
  {
    var view := ViewOf(f.tree, f.cur, f.pending[0]);
    var q' := Enqueued(f.queue, f.cur, f.pending[0], visitor(view));
    assert forall i :: 0 <= i < |f.queue| ==> q'[i] == f.queue[i];
  }

  lemma {:induction false} StepLayeredDequeue(f: Frame, visitor: BfsVisitor)
    requires Valid(f) && DepthsMatch(f) && Layered(f) && |f.pending| == 0 && |f.queue| > 0
    ensures DepthsMatch(Step(f, visitor).frame) && Layered(Step(f, visitor).frame)
  {
    StepDequeue(f, visitor);
    var g := Frame(f.queue[1..], f.queue[0], Entries(f.queue[0].current), f.tree, f.trace);
    assert forall i :: 0 <= i < |g.queue| ==> g.queue[i] == f.queue[i + 1];
    assert DepthsMatch(g);
  }

  lemma {:induction false} StepLayered(f: Frame, visitor: BfsVisitor)
    requires Valid(f) && DepthsMatch(f) && Layered(f)
    ensures Step(f, visitor).Next? ==> DepthsMatch(Step(f, visitor).frame) && Layered(Step(f, visitor).frame)
    ensures Step(f, visitor).Done? ==> DepthOrdered(Step(f, visitor).outcome.trace)
  {
    if |f.pending| > 0 {
      StepVisit(f, visitor);
      StepLayeredVisit(f, visitor);
    } else if |f.queue| > 0 {
      StepLayeredDequeue(f, visitor);
    }
  }

  lemma {:induction false} RunLayered(f: Frame, visitor: BfsVisitor)
    requires Valid(f) && DepthsMatch(f) && Layered(f)
    ensures DepthOrdered(Run(f, visitor).trace)
    decreases Weight(f), |f.pending|
  {
    StepLayered(f, visitor);
    match Step(f, visitor)
    case Done(_) =>
    case Next(g) => RunLayered(g, visitor);
  }

  /** Breadth first: the views come in order of non-decreasing depth. */
  lemma {:induction false} TreeBfsDepthOrdered(data: Value, visitor: BfsVisitor)
    ensures DepthOrdered(TreeBfs(data, visitor).trace)
  {
    if IsObjectOrArray(data) {
      RunLayered(Start(data), visitor);
    }
  }

  /**
    Each visit sees the tree its predecessor left: the first view's root is
    `data`, each later root is the result of applying the previous reply,
    and the final tree is the result of the last one.
   */
  predicate Chained(trace: seq<EntryView>, data: Value, tree: Value, visitor: BfsVisitor)
  {
    (forall i :: 0 <= i < |trace| ==> IsObjectOrArray(trace[i].container))
    && (if |trace| == 0 then tree == data
        else trace[0].root == data && tree == Apply(trace[|trace| - 1], visitor(trace[|trace| - 1])))
    && (forall i :: 0 <= i < |trace| - 1 ==> trace[i + 1].root == Apply(trace[i], visitor(trace[i])))
  }

  lemma {:induction false} StepChained(f: Frame, visitor: BfsVisitor, data: Value)
    requires Valid(f) && Chained(f.trace, data, f.tree, visitor)
    ensures Step(f, visitor).Next? ==> Chained(Step(f, visitor).frame.trace, data, Step(f, visitor).frame.tree, visitor)
    ensures Step(f, visitor).Done? ==> Chained(Step(f, visitor).outcome.trace, data, Step(f, visitor).outcome.tree, visitor)
  {
    if |f.pending| > 0 {
      StepVisit(f, visitor);
      ChainedSnoc(f.trace, data, f.tree, visitor, ViewOf(f.tree, f.cur, f.pending[0]));
    }
  }

  /** A visit of the current tree extends the chain by the tree the visitor's reply leads to. */
  lemma {:induction false} ChainedSnoc(trace: seq<EntryView>, data: Value, tree: Value, visitor: BfsVisitor, view: EntryView)
    requires Chained(trace, data, tree, visitor) && view.root == tree && IsObjectOrArray(view.container)
    ensures Chained(trace + [view], data, Apply(view, visitor(view)), visitor)
  {
    var t := trace + [view];
    forall i | 0 <= i < |t| - 1
      ensures t[i + 1].root == Apply(t[i], visitor(t[i]))
    {
      assert t[i] == trace[i];
    }
  }

  lemma {:induction false} RunChained(f: Frame, visitor: BfsVisitor, data: Value)
    requires Valid(f) && Chained(f.trace, data, f.tree, visitor)
    ensures Chained(Run(f, visitor).trace, data, Run(f, visitor).tree, visitor)
    decreases Weight(f), |f.pending|
  {
    StepChained(f, visitor, data);
    match Step(f, visitor)
    case Done(_) =>
    case Next(g) => RunChained(g, visitor, data);
  }

  lemma {:induction false} TreeBfsChained(data: Value, visitor: BfsVisitor)
    ensures Chained(TreeBfs(data, visitor).trace, data, TreeBfs(data, visitor).tree, visitor)
  {
    if IsObjectOrArray(data) {
      RunChained(Start(data), visitor, data);
    }
  }

  /** The number of entries strictly below `v`: every entry of every container reachable from it. */
  function Below(v: Value): nat
    decreases Size(v), 1
  {
    if IsObjectOrArray(v) then
      SizeIsEntriesWeight(v);
      EntriesBelow(Entries(v))
    else 0
  }

  /** The entries `es` themselves, and everything below each of them. */
  function EntriesBelow(es: seq<(Seg, Value)>): nat
    decreases EntriesWeight(es), 2
  {
    if |es| == 0 then 0
    else
      EntriesWeightCons(es[0], es[1..]);
      assert es == [es[0]] + es[1..];
      1 + Below(es[0].1) + EntriesBelow(es[1..])
  }

  function QueueBelow(q: seq<Item>): nat
  {
    if |q| == 0 then 0 else Below(q[0].current) + QueueBelow(q[1..])
  }

  lemma {:induction false} QueueBelowAppend(q: seq<Item>, it: Item)
    ensures QueueBelow(q + [it]) == QueueBelow(q) + Below(it.current)
  {
    if |q| > 0 {
      assert (q + [it])[1..] == q[1..] + [it];
      QueueBelowAppend(q[1..], it);
    }
  }

  /** A visitor that neither sets a value nor breaks. */
  ghost predicate Passive(visitor: BfsVisitor)
  {
    forall view :: visitor(view) == BfsReply(None, false)
  }

  lemma {:induction false} StepPassive(f: Frame, visitor: BfsVisitor)
    requires Valid(f) && Passive(visitor)
    ensures Step(f, visitor).Next? ==>
      var g := Step(f, visitor).frame;
      g.tree == f.tree
      && |g.trace| + EntriesBelow(g.pending) + QueueBelow(g.queue) == |f.trace| + EntriesBelow(f.pending) + QueueBelow(f.queue)
    ensures Step(f, visitor).Done? ==> Step(f, visitor).outcome == BfsOutcome(f.tree, f.trace, false) && |f.pending| + |f.queue| == 0
  {
    if |f.pending| > 0 {
      StepVisit(f, visitor);
      var e := f.pending[0];
      if IsObjectOrArray(e.1) {
        QueueBelowAppend(f.queue, Item(f.cur.path + [e.0], e.1, |f.cur.path| + 1));
      }
    } else if |f.queue| > 0 {
      SizeIsEntriesWeight(f.queue[0].current);
    }
  }

  lemma {:induction false} RunPassive(f: Frame, visitor: BfsVisitor)
    requires Valid(f) && Passive(visitor)
    ensures Run(f, visitor).tree == f.tree && !Run(f, visitor).stopped
    ensures |Run(f, visitor).trace| == |f.trace| + EntriesBelow(f.pending) + QueueBelow(f.queue)
    decreases Weight(f), |f.pending|
  {
    StepPassive(f, visitor);
    match Step(f, visitor)
    case Done(_) =>
    case Next(g) => RunPassive(g, visitor);
  }

  /**
    A visitor that only looks leaves the data unchanged and is shown every
    entry below the root: as many views as `Below(data)` counts.
   */
  lemma {:induction false} TreeBfsPassive(data: Value, visitor: BfsVisitor)
    requires Passive(visitor)
    ensures TreeBfs(data, visitor).tree == data && !TreeBfs(data, visitor).stopped
    ensures |TreeBfs(data, visitor).trace| == Below(data)
  {
    if IsObjectOrArray(data) {
      RunPassive(Start(data), visitor);
      assert QueueBelow([Item([], data, 0)]) == Below(data);
    }
  }

  /** A visiting step records the view of the first pending entry and moves past it. */
  lemma {:induction false} StepVisitTrace(f: Frame, visitor: BfsVisitor)
    requires Valid(f) && |f.pending| > 0
    ensures var view := ViewOf(f.tree, f.cur, f.pending[0]);
      match Step(f, visitor)
      case Done(o) => o.trace == f.trace + [view]
      case Next(g) => g.trace == f.trace + [view] && g.pending == f.pending[1..] && g.cur == f.cur
  {
    StepVisit(f, visitor);
  }

  /** The trace only grows. */
  lemma {:induction false} RunExtends(f: Frame, visitor: BfsVisitor)
    requires Valid(f)
    ensures IsPrefix(f.trace, Run(f, visitor).trace)
    decreases Weight(f), |f.pending|
  {
    if |f.pending| > 0 {
      StepVisitTrace(f, visitor);
    }
    match Step(f, visitor)
    case Done(_) =>
    case Next(g) =>
      RunExtends(g, visitor);
      var r := Run(g, visitor).trace;
      assert IsPrefix(f.trace, g.trace);
      assert r[..|f.trace|] == r[..|g.trace|][..|f.trace|];
  }

  /** `r` continues with a visit of each pending entry of `f`, in order, for as long as it lasts. */
  predicate VisitsPending(f: Frame, r: seq<EntryView>)
  {
    forall i :: 0 <= i < |f.pending| && |f.trace| + i < |r| ==>
      r[|f.trace| + i].path == f.cur.path + [f.pending[i].0] && r[|f.trace| + i].value == f.pending[i].1
  }

  /** The pending entries of `cur` are the next ones visited, in order. */
  lemma {:induction false} VisitsPendingStep(f: Frame, g: Frame, view: EntryView, r: seq<EntryView>)
    requires |f.pending| > 0 && g.trace == f.trace + [view] && g.pending == f.pending[1..] && g.cur == f.cur
    requires view.path == f.cur.path + [f.pending[0].0] && view.value == f.pending[0].1
    requires IsPrefix(g.trace, r) && VisitsPending(g, r)
    ensures VisitsPending(f, r)
  {
    forall i | 0 <= i < |f.pending| && |f.trace| + i < |r|
      ensures r[|f.trace| + i].path == f.cur.path + [f.pending[i].0] && r[|f.trace| + i].value == f.pending[i].1
    {
      if i == 0 {
        assert r[|f.trace|] == g.trace[|f.trace|] == view;
      } else {
        assert f.pending[i] == g.pending[i - 1];
        assert |f.trace| + i == |g.trace| + (i - 1);
      }
    }
  }

  lemma {:induction false} RunVisitsPending(f: Frame, visitor: BfsVisitor)
    requires Valid(f)
    ensures VisitsPending(f, Run(f, visitor).trace)
    decreases Weight(f), |f.pending|
  {
    if |f.pending| > 0 {
      StepVisitTrace(f, visitor);
      var m := Step(f, visitor);
      if m.Next? {
        var g := m.frame;
        RunVisitsPending(g, visitor);
        RunExtends(g, visitor);
        VisitsPendingStep(f, g, ViewOf(f.tree, f.cur, f.pending[0]), Run(g, visitor).trace);
      }
    }
  }

  /** The root's entries are visited first, in entry order (unless a visit breaks off earlier). */
  lemma {:induction false} TreeBfsRootEntriesFirst(data: Value, visitor: BfsVisitor)
    requires IsObjectOrArray(data)
    ensures forall i :: 0 <= i < |Entries(data)| && i < |TreeBfs(data, visitor).trace| ==>
      TreeBfs(data, visitor).trace[i].path == [Entries(data)[i].0]
      && TreeBfs(data, visitor).trace[i].value == Entries(data)[i].1
  {
    var f := Start(data);
    var g := Step(f, visitor).frame;
    assert g == Frame([], Item([], data, 0), Entries(data), data, []);
    RunVisitsPending(g, visitor);
  }

  /** The visit of `view` let the traversal descend below it: nothing was set and the value is a container. */
  predicate Descends(view: EntryView, visitor: BfsVisitor)
  {
    visitor(view).newValue.None? && IsObjectOrArray(view.value)
  }

  /**
    No path is visited twice, and a visit below an earlier one happens only
    when that earlier visit neither set its value nor met a non-container.
   */
  predicate Fresh(trace: seq<EntryView>, visitor: BfsVisitor)
  {
    (forall i, j :: 0 <= i < j < |trace| ==> trace[i].path != trace[j].path)
    && (forall i, j :: 0 <= i < j < |trace| && IsStrictPrefix(trace[i].path, trace[j].path) ==> Descends(trace[i], visitor))
  }

  /** Invariant behind `Fresh`: what is still to come lies outside what was seen, and below what was descended into. */
  predicate Tracked(f: Frame, visitor: BfsVisitor)
  {
    (forall i, j :: 0 <= i < |f.trace| && 0 <= j < |f.pending| ==> !IsPrefix(f.cur.path + [f.pending[j].0], f.trace[i].path))
    && (forall i, j :: 0 <= i < |f.trace| && 0 <= j < |f.queue| ==> !IsStrictPrefix(f.queue[j].path, f.trace[i].path))
    && (forall i, j :: 0 <= i < |f.trace| && 0 <= j < |f.queue| && IsPrefix(f.trace[i].path, f.queue[j].path) ==>
          Descends(f.trace[i], visitor))
    && (|f.pending| > 0 ==>
          forall i :: 0 <= i < |f.trace| && IsPrefix(f.trace[i].path, f.cur.path) ==> Descends(f.trace[i], visitor))
    && Fresh(f.trace, visitor)
  }

  lemma {:induction false} PrefixOfExtended(t: Path, c: Path, k: Seg)
    requires IsPrefix(t, c + [k])
    ensures IsPrefix(t, c) || t == c + [k]
  {
    if |t| <= |c| {
      assert (c + [k])[..|t|] == c[..|t|];
    } else {
      assert (c + [k])[..|t|] == c + [k];
    }
  }

  lemma {:induction false} ExtendedPrefix(c: Path, k: Seg, t: Path)
    requires IsPrefix(c + [k], t)
    ensures IsStrictPrefix(c, t)
  {
    assert t[..|c|] == t[..|c| + 1][..|c|];
    assert (c + [k])[..|c|] == c;
  }

  lemma {:induction false} StepTrackedDequeue(f: Frame, visitor: BfsVisitor)
    requires Valid(f) && Tracked(f, visitor) && |f.pending| == 0 && |f.queue| > 0
    ensures Tracked(Step(f, visitor).frame, visitor)
  {
    var g := Step(f, visitor).frame;
    var q0 := f.queue[0];
    StepDequeue(f, visitor);
    assert g == Frame(f.queue[1..], q0, Entries(q0.current), f.tree, f.trace);
    forall i, j | 0 <= i < |g.trace| && 0 <= j < |g.pending|
      ensures !IsPrefix(g.cur.path + [g.pending[j].0], g.trace[i].path)
    {
      if IsPrefix(g.cur.path + [g.pending[j].0], g.trace[i].path) {
        ExtendedPrefix(g.cur.path, g.pending[j].0, g.trace[i].path);
        assert false;
      }
    }
    assert forall j :: 0 <= j < |g.queue| ==> g.queue[j] == f.queue[j + 1];
  }

  /** Earlier views sit neither at the visited entry's path nor below it, and those above it were descended into. */
  lemma {:induction false} AboveVisit(f: Frame, visitor: BfsVisitor)
    requires Valid(f) && Tracked(f, visitor) && |f.pending| > 0
    ensures forall i :: 0 <= i < |f.trace| ==> !IsPrefix(f.cur.path + [f.pending[0].0], f.trace[i].path)
    ensures forall i :: 0 <= i < |f.trace| && IsPrefix(f.trace[i].path, f.cur.path + [f.pending[0].0]) ==>
      IsPrefix(f.trace[i].path, f.cur.path) && Descends(f.trace[i], visitor)
  {
    var c := f.cur.path;
    var k := f.pending[0].0;
    forall i | 0 <= i < |f.trace| && IsPrefix(f.trace[i].path, c + [k])
      ensures IsPrefix(f.trace[i].path, c) && Descends(f.trace[i], visitor)
    {
      PrefixOfExtended(f.trace[i].path, c, k);
    }
  }

  lemma {:induction false} FreshAfterVisit(f: Frame, visitor: BfsVisitor)
    requires Valid(f) && Tracked(f, visitor) && |f.pending| > 0
    ensures Fresh(f.trace + [ViewOf(f.tree, f.cur, f.pending[0])], visitor)
  {
    AboveVisit(f, visitor);
  }

  /** After a visit, the remaining entries of `cur` still lie outside what was seen. */
  lemma {:induction false} PendingAfterVisit(f: Frame, visitor: BfsVisitor)
    requires Valid(f) && Placed(f) && Tracked(f, visitor) && |f.pending| > 0
    ensures var t := f.trace + [ViewOf(f.tree, f.cur, f.pending[0])];
      (forall i, j :: 0 <= i < |t| && 1 <= j < |f.pending| ==> !IsPrefix(f.cur.path + [f.pending[j].0], t[i].path))
      && (forall i :: 0 <= i < |t| && IsPrefix(t[i].path, f.cur.path) ==> Descends(t[i], visitor))
  {
    var c := f.cur.path;
    forall j | 1 <= j < |f.pending|
      ensures !IsPrefix(c + [f.pending[j].0], c + [f.pending[0].0])
    {
      ApartSiblings(c, f.pending[j].0, f.pending[0].0);
    }
  }

  /** After a visit, the queue (with the entry joining it, if it does) still lies outside what was seen. */
  lemma {:induction false} QueueAfterVisit(f: Frame, visitor: BfsVisitor)
    requires Valid(f) && Placed(f) && Tracked(f, visitor) && |f.pending| > 0
    ensures var view := ViewOf(f.tree, f.cur, f.pending[0]);
      var t := f.trace + [view];
      var q := Enqueued(f.queue, f.cur, f.pending[0], visitor(view));
      (forall i, j :: 0 <= i < |t| && 0 <= j < |q| ==> !IsStrictPrefix(q[j].path, t[i].path))
      && (forall i, j :: 0 <= i < |t| && 0 <= j < |q| && IsPrefix(t[i].path, q[j].path) ==> Descends(t[i], visitor))
  {
    var view := ViewOf(f.tree, f.cur, f.pending[0]);
    var q := Enqueued(f.queue, f.cur, f.pending[0], visitor(view));
    VisitApart(f);
    AboveVisit(f, visitor);
    assert forall j :: 0 <= j < |f.queue| ==> q[j] == f.queue[j];
  }

  lemma {:induction false} TrackedAfterVisit(f: Frame, visitor: BfsVisitor)
    requires Valid(f) && Placed(f) && Tracked(f, visitor) && |f.pending| > 0
    ensures var view := ViewOf(f.tree, f.cur, f.pending[0]);
      var reply := visitor(view);
      Tracked(Frame(Enqueued(f.queue, f.cur, f.pending[0], reply), f.cur, f.pending[1..], Apply(view, reply), f.trace + [view]), visitor)
  {
    var view := ViewOf(f.tree, f.cur, f.pending[0]);
    var g := Frame(Enqueued(f.queue, f.cur, f.pending[0], visitor(view)), f.cur, f.pending[1..], Apply(view, visitor(view)), f.trace + [view]);
    FreshAfterVisit(f, visitor);
    PendingAfterVisit(f, visitor);
    QueueAfterVisit(f, visitor);
    assert forall j :: 0 <= j < |g.pending| ==> g.pending[j] == f.pending[j + 1];
  }

  lemma {:induction false} StepTrackedVisit(f: Frame, visitor: BfsVisitor)
    requires Valid(f) && Placed(f) && Tracked(f, visitor) && |f.pending| > 0
    ensures Step(f, visitor).Next? ==> Tracked(Step(f, visitor).frame, visitor)
    ensures Step(f, visitor).Done? ==> Fresh(Step(f, visitor).outcome.trace, visitor)
  {
    StepVisit(f, visitor);
    FreshAfterVisit(f, visitor);
    TrackedAfterVisit(f, visitor);
  }

  lemma {:induction false} StepTracked(f: Frame, visitor: BfsVisitor)
    requires Valid(f) && Placed(f) && Tracked(f, visitor)
    ensures Step(f, visitor).Next? ==> Tracked(Step(f, visitor).frame, visitor)
    ensures Step(f, visitor).Done? ==> Fresh(Step(f, visitor).outcome.trace, visitor)
  {
    if |f.pending| > 0 {
      StepTrackedVisit(f, visitor);
    } else if |f.queue| > 0 {
      StepTrackedDequeue(f, visitor);
    }
  }

  lemma {:induction false} RunTracked(f: Frame, visitor: BfsVisitor)
    requires Valid(f) && Placed(f) && Tracked(f, visitor)
    ensures Fresh(Run(f, visitor).trace, visitor)
    decreases Weight(f), |f.pending|
  {
    StepTracked(f, visitor);
    StepPlaced(f, visitor);
    match Step(f, visitor)
    case Done(_) =>
    case Next(g) => RunTracked(g, visitor);
  }

  /**
    On a well-formed tree no entry is visited twice, and the traversal goes
    below an entry only if its visit left the value alone and the value is a
    container: setting a value stops the descent into it.
   */
  lemma {:induction false} TreeBfsFresh(data: Value, visitor: BfsVisitor)
    requires WellFormed(data)
    ensures Fresh(TreeBfs(data, visitor).trace, visitor)
  {
    if IsObjectOrArray(data) {
      var f := Start(data);
      assert At(data, []) == Some(data);
      RunTracked(f, visitor);
    }
  }
}
