/**
  The level order of `treeBFS`.

  `LevelOrder(data)` lists the entries below a record or array level by
  level, without a queue: first the root's entries, then the entries of
  each record or array found among them in that order, then the next level
  down. `Drain` is the first-in first-out reading of a queue of containers
  that `BFS.run` follows when no value is set; the two agree, and a visitor
  that never sets a value is shown exactly `LevelOrder(data)`, or a prefix
  of it when it breaks off.
 */
module BfsLevels {
  import opened Wrappers
  import opened Seqs
  import opened Values
  import opened Access
  import opened EntryContext
  import opened Traversal
  import opened Bfs
  import PostDfs

  /** The views of the entries `es` of the container `it` in the unchanged tree `root`, in order. */
  function EntryViews(root: Value, it: Item, es: seq<(Seg, Value)>): (vs: seq<EntryView>)
    ensures |vs| == |es|
    ensures forall i :: 0 <= i < |es| ==> vs[i] == EntryView(es[i].0, es[i].1, it.current, it.depth, it.path + [es[i].0], root)
  {
    if |es| == 0 then []
    else [EntryView(es[0].0, es[0].1, it.current, it.depth, it.path + [es[0].0], root)] + EntryViews(root, it, es[1..])
  }

  /** The containers among the entries `es` of `it`, as the items queued for them: one per record or array value, in entry order. */
  function KidsOf(it: Item, es: seq<(Seg, Value)>): (ks: seq<Item>)
    ensures AllComposite(ks)
    ensures ItemsWeight(ks) <= EntriesWeight(es)
  {
    if |es| == 0 then []
    else
      var rest := KidsOf(it, es[1..]);
      EntriesWeightCons(es[0], es[1..]);
      assert es == [es[0]] + es[1..];
      if IsObjectOrArray(es[0].1) then
        var k := Item(it.path + [es[0].0], es[0].1, |it.path| + 1);
        ItemsWeightAppend([], k);
        assert [] + [k] == [k];
        ItemsWeightConcat([k], rest);
        [k] + rest
      else rest
  }

  /** The views of every entry of every container of the layer `layer`, container by container. */
  function LayerViews(root: Value, layer: seq<Item>): seq<EntryView>
    requires AllComposite(layer)
  {
    if |layer| == 0 then []
    else EntryViews(root, layer[0], Entries(layer[0].current)) + LayerViews(root, layer[1..])
  }

  /** The layer below `layer`: the containers among its entries, in the order their entries are listed. */
  function NextLayer(layer: seq<Item>): (next: seq<Item>)
    requires AllComposite(layer)
    ensures AllComposite(next)
    ensures ItemsWeight(next) + |layer| <= ItemsWeight(layer)
  {
    if |layer| == 0 then []
    else
      var kids := KidsOf(layer[0], Entries(layer[0].current));
      var rest := NextLayer(layer[1..]);
      ItemsWeightPop(layer);
      SizeIsEntriesWeight(layer[0].current);
      ItemsWeightConcat(kids, rest);
      kids + rest
  }

  /** The views of `layer`, then of each layer below it in turn. */
  function Levels(root: Value, layer: seq<Item>): seq<EntryView>
    requires AllComposite(layer)
    decreases ItemsWeight(layer)
  {
    if |layer| == 0 then []
    else LayerViews(root, layer) + Levels(root, NextLayer(layer))
  }

  /** The entries below `data`, level by level; nothing for a value that is not a record or array. */
  function LevelOrder(data: Value): seq<EntryView>
  {
    if IsObjectOrArray(data) then Levels(data, [Item([], data, 0)]) else []
  }

  /** The views a first-in first-out queue `q` of containers yields: the head's entries, then the rest with the head's containers queued behind. */
  function Drain(root: Value, q: seq<Item>): seq<EntryView>
    requires AllComposite(q)
    decreases ItemsWeight(q)
  {
    if |q| == 0 then []
    else
      var kids := KidsOf(q[0], Entries(q[0].current));
      ItemsWeightPop(q);
      SizeIsEntriesWeight(q[0].current);
      ItemsWeightConcat(q[1..], kids);
      EntryViews(root, q[0], Entries(q[0].current)) + Drain(root, q[1..] + kids)
  }

  /** Draining a queue that starts with the layer `a` lists `a`'s entries first and queues `a`'s containers behind the rest. */
  lemma {:induction false} DrainSplit(root: Value, a: seq<Item>, b: seq<Item>)
    requires AllComposite(a) && AllComposite(b)
    ensures Drain(root, a + b) == LayerViews(root, a) + Drain(root, b + NextLayer(a))
    decreases |a|
  {
    if |a| == 0 {
      assert a + b == b;
      assert b + NextLayer(a) == b;
    } else {
      var kids := KidsOf(a[0], Entries(a[0].current));
      var own := EntryViews(root, a[0], Entries(a[0].current));
      assert (a + b)[0] == a[0];
      assert (a + b)[1..] + kids == a[1..] + (b + kids);
      DrainSplit(root, a[1..], b + kids);
      AppendAssoc(b, kids, NextLayer(a[1..]));
      AppendAssoc(own, LayerViews(root, a[1..]), Drain(root, b + NextLayer(a)));
    }
  }

  /** The queue reading and the level-by-level reading agree. */
  lemma {:induction false} DrainIsLevels(root: Value, layer: seq<Item>)
    requires AllComposite(layer)
    ensures Drain(root, layer) == Levels(root, layer)
    decreases ItemsWeight(layer)
  {
    if |layer| > 0 {
      DrainSplit(root, layer, []);
      assert layer + [] == layer;
      assert [] + NextLayer(layer) == NextLayer(layer);
      DrainIsLevels(root, NextLayer(layer));
    }
  }

  /** A visitor that never assigns `ctx.value`; it may break. */
  ghost predicate NeverSets(visitor: BfsVisitor)
  {
    forall view :: visitor(view).newValue.None?
  }

  /** While nothing is set: the tree is `data`, `cur` and the queued items are in place, and `pending` is what is left of `cur`'s entries. */
  predicate Untouched(f: Frame, data: Value)
    requires Valid(f)
  {
    var es := Entries(f.cur.current);
    f.tree == data && InPlace(data, f.cur)
    && (forall i :: 0 <= i < |f.queue| ==> InPlace(data, f.queue[i]))
    && |f.pending| <= |es| && f.pending == es[|es| - |f.pending|..]
  }

  /** The views frame `f` leads to when nothing is set and nothing breaks off. */
  function Rest(f: Frame): seq<EntryView>
    requires Valid(f)
  {
    f.trace + EntryViews(f.tree, f.cur, f.pending) + Drain(f.tree, f.queue + KidsOf(f.cur, f.pending))
  }

  lemma {:induction false} StepNoSetDequeue(f: Frame, visitor: BfsVisitor, data: Value)
    requires Valid(f) && Untouched(f, data) && |f.pending| == 0
    ensures Step(f, visitor).Done? ==> Step(f, visitor).outcome == BfsOutcome(f.tree, Rest(f), false)
    ensures Step(f, visitor).Next? ==> Untouched(Step(f, visitor).frame, data) && Rest(Step(f, visitor).frame) == Rest(f)
  {
    assert f.queue + KidsOf(f.cur, f.pending) == f.queue;
    if |f.queue| > 0 {
      StepDequeue(f, visitor);
      var q0 := f.queue[0];
      var g := Frame(f.queue[1..], q0, Entries(q0.current), f.tree, f.trace);
      assert Entries(q0.current)[0..] == Entries(q0.current);
      AppendAssoc(f.trace, EntryViews(f.tree, q0, Entries(q0.current)), Drain(f.tree, f.queue[1..] + KidsOf(q0, Entries(q0.current))));
    }
  }

  /** Where `cur` sits in the unchanged tree, the traversal's view of its next entry is the listed one. */
  lemma {:induction false} ViewIsListed(f: Frame, data: Value)
    requires Valid(f) && Untouched(f, data) && |f.pending| > 0
    ensures ViewOf(f.tree, f.cur, f.pending[0]) == EntryViews(f.tree, f.cur, f.pending)[0]
    ensures InPlace(data, Item(f.cur.path + [f.pending[0].0], f.pending[0].1, |f.cur.path| + 1))
  {
    var es := Entries(f.cur.current);
    EntriesPlaced(data, f.cur);
    assert f.pending[0] == es[|es| - |f.pending|];
  }

  /** `Rest` after peeling off the view of the next pending entry. */
  lemma {:induction false} RestCons(f: Frame)
    requires Valid(f) && |f.pending| > 0
    ensures Rest(f) == f.trace + [EntryViews(f.tree, f.cur, f.pending)[0]] + EntryViews(f.tree, f.cur, f.pending[1..])
                       + Drain(f.tree, f.queue + KidsOf(f.cur, f.pending))
  {
    var own := EntryViews(f.tree, f.cur, f.pending);
    var v := own[0];
    var rest := EntryViews(f.tree, f.cur, f.pending[1..]);
    var after := Drain(f.tree, f.queue + KidsOf(f.cur, f.pending));
    assert own == [v] + rest;
    AppendAssoc(f.trace, [v], rest);
  }

  /** Queueing the next entry's container, if nothing replaced it, keeps the queue-and-children sequence. */
  lemma {:induction false} KidsCons(f: Frame, stop: bool)
    requires |f.pending| > 0
    ensures f.queue + KidsOf(f.cur, f.pending)
            == Enqueued(f.queue, f.cur, f.pending[0], BfsReply(None, stop)) + KidsOf(f.cur, f.pending[1..])
  {
    assert f.pending == [f.pending[0]] + f.pending[1..];
    if IsObjectOrArray(f.pending[0].1) {
      var k := Item(f.cur.path + [f.pending[0].0], f.pending[0].1, |f.cur.path| + 1);
      AppendAssoc(f.queue, [k], KidsOf(f.cur, f.pending[1..]));
    }
  }

  /** The frame after visiting the next pending entry of `f` with a reply that sets nothing and does not break. */
  function Visited(f: Frame): (g: Frame)
    requires Valid(f) && |f.pending| > 0
    ensures Valid(g)
  {
    var view := EntryViews(f.tree, f.cur, f.pending)[0];
    var q := Enqueued(f.queue, f.cur, f.pending[0], BfsReply(None, false));
    assert forall i :: 0 <= i < |f.queue| ==> q[i] == f.queue[i];
    Frame(q, f.cur, f.pending[1..], f.tree, f.trace + [view])
  }

  lemma {:induction false} VisitedUntouched(f: Frame, data: Value)
    requires Valid(f) && Untouched(f, data) && |f.pending| > 0
    ensures Untouched(Visited(f), data)
  {
    var g := Visited(f);
    ViewIsListed(f, data);
    assert forall i :: 0 <= i < |f.queue| ==> g.queue[i] == f.queue[i];
    var es := Entries(f.cur.current);
    assert f.pending[1..] == es[|es| - |f.pending[1..]|..];
  }

  lemma {:induction false} VisitedRest(f: Frame)
    requires Valid(f) && |f.pending| > 0
    ensures Rest(Visited(f)) == Rest(f)
  {
    RestCons(f);
    KidsCons(f, false);
  }

  lemma {:induction false} StepNoSetVisit(f: Frame, visitor: BfsVisitor, data: Value)
    requires Valid(f) && NeverSets(visitor) && Untouched(f, data) && |f.pending| > 0
    ensures Step(f, visitor).Done? ==> IsPrefix(Step(f, visitor).outcome.trace, Rest(f)) && Step(f, visitor).outcome.stopped
    ensures Step(f, visitor).Next? ==> Untouched(Step(f, visitor).frame, data) && Rest(Step(f, visitor).frame) == Rest(f)
  {
    var view := ViewOf(f.tree, f.cur, f.pending[0]);
    var reply := visitor(view);
    StepVisit(f, visitor);
    ViewIsListed(f, data);
    assert reply.newValue.None?;
    if reply.stop {
      RestCons(f);
    } else {
      assert reply == BfsReply(None, false);
      assert Step(f, visitor).frame == Visited(f);
      VisitedUntouched(f, data);
      VisitedRest(f);
    }
  }

  /** From a frame where nothing has been set, the rest of the run is `Rest(f)`, cut short if the visitor breaks. */
  lemma {:induction false} RunNoSet(f: Frame, visitor: BfsVisitor, data: Value)
    requires Valid(f) && NeverSets(visitor) && Untouched(f, data)
    ensures IsPrefix(Run(f, visitor).trace, Rest(f))
    ensures !Run(f, visitor).stopped ==> Run(f, visitor).trace == Rest(f)
    decreases Weight(f), |f.pending|
  {
    if |f.pending| == 0 {
      StepNoSetDequeue(f, visitor, data);
    } else {
      StepNoSetVisit(f, visitor, data);
    }
    match Step(f, visitor)
    case Done(_) =>
    case Next(g) => RunNoSet(g, visitor, data);
  }

  /** The constructor's frame: nothing is set yet, and the rest is the root item drained. */
  lemma {:induction false} StartUntouched(data: Value)
    requires WellFormed(data) && IsObjectOrArray(data)
    ensures Untouched(Start(data), data)
    ensures Rest(Start(data)) == Drain(data, [Item([], data, 0)])
  {
    var root := Item([], data, 0);
    assert At(data, []) == Some(data);
    assert [root] + KidsOf(root, []) == [root];
  }

  /**
    Level order: a visitor that never sets a value is shown the entries
    below `data` exactly as `LevelOrder(data)` lists them, or a prefix of
    that list when it breaks off.
   */
  lemma {:induction false} TreeBfsLevelOrder(data: Value, visitor: BfsVisitor)
    requires WellFormed(data) && NeverSets(visitor)
    ensures IsPrefix(TreeBfs(data, visitor).trace, LevelOrder(data))
    ensures !TreeBfs(data, visitor).stopped ==> TreeBfs(data, visitor).trace == LevelOrder(data)
  {
    if IsObjectOrArray(data) {
      StartUntouched(data);
      RunNoSet(Start(data), visitor, data);
      DrainIsLevels(data, [Item([], data, 0)]);
    }
  }

  /** `vs` holds a view of the entry at `p` showing `x`. */
  predicate Lists(vs: seq<EntryView>, p: Path, x: Value)
  {
    exists i :: 0 <= i < |vs| && vs[i].path == p && vs[i].value == x
  }

  lemma {:induction false} ListsAppend(a: seq<EntryView>, b: seq<EntryView>, p: Path, x: Value)
    ensures Lists(a, p, x) ==> Lists(a + b, p, x)
    ensures Lists(b, p, x) ==> Lists(a + b, p, x)
  {
    if Lists(a, p, x) {
      var i :| 0 <= i < |a| && a[i].path == p && a[i].value == x;
      assert (a + b)[i] == a[i];
    }
    if Lists(b, p, x) {
      var i :| 0 <= i < |b| && b[i].path == p && b[i].value == x;
      assert (a + b)[|a| + i] == b[i];
    }
  }

  /** The layer's views include each entry of each of its containers. */
  lemma {:induction false} LayerViewsHas(root: Value, layer: seq<Item>, j: nat, k: nat)
    requires AllComposite(layer) && j < |layer| && k < |Entries(layer[j].current)|
    ensures var e := Entries(layer[j].current)[k];
      Lists(LayerViews(root, layer), layer[j].path + [e.0], e.1)
    decreases j
  {
    var e := Entries(layer[j].current)[k];
    var own := EntryViews(root, layer[0], Entries(layer[0].current));
    if j == 0 {
      assert own[k].path == layer[j].path + [e.0];
      ListsAppend(own, LayerViews(root, layer[1..]), layer[j].path + [e.0], e.1);
    } else {
      LayerViewsHas(root, layer[1..], j - 1, k);
      ListsAppend(own, LayerViews(root, layer[1..]), layer[j].path + [e.0], e.1);
    }
  }

  /** A container among the entries `es` is queued for them. */
  lemma {:induction false} KidsOfHas(it: Item, es: seq<(Seg, Value)>, k: nat) returns (m: nat)
    requires k < |es| && IsObjectOrArray(es[k].1)
    ensures m < |KidsOf(it, es)| && KidsOf(it, es)[m] == Item(it.path + [es[k].0], es[k].1, |it.path| + 1)
    decreases k
  {
    if k == 0 {
      m := 0;
    } else {
      var m' := KidsOfHas(it, es[1..], k - 1);
      m := if IsObjectOrArray(es[0].1) then m' + 1 else m';
    }
  }

  /** A container among the entries of a layer's item is in the next layer. */
  lemma {:induction false} NextLayerHas(layer: seq<Item>, j: nat, k: nat) returns (m: nat)
    requires AllComposite(layer) && j < |layer| && k < |Entries(layer[j].current)|
    requires IsObjectOrArray(Entries(layer[j].current)[k].1)
    ensures var e := Entries(layer[j].current)[k];
      m < |NextLayer(layer)| && NextLayer(layer)[m] == Item(layer[j].path + [e.0], e.1, |layer[j].path| + 1)
    decreases j
  {
    var kids := KidsOf(layer[0], Entries(layer[0].current));
    if j == 0 {
      m := KidsOfHas(layer[0], Entries(layer[0].current), k);
    } else {
      var m' := NextLayerHas(layer[1..], j - 1, k);
      m := |kids| + m';
    }
  }

  /** Every entry below a layer's container, at any non-empty relative path `r`, is listed with the path and value reaching it. */
  lemma {:induction false} LevelsComplete(root: Value, layer: seq<Item>, j: nat, r: Path)
    requires AllComposite(layer) && j < |layer| && |r| > 0 && At(layer[j].current, r).Some?
    ensures Lists(Levels(root, layer), layer[j].path + r, At(layer[j].current, r).value)
    decreases |r|
  {
    var it := layer[j];
    var k := PostDfs.StrictStepEntry(it.current, r);
    var e := Entries(it.current)[k];
    var x := At(it.current, r).value;
    var below := Levels(root, NextLayer(layer));
    PostDfs.PathExtend(it.path, r);
    if |r| == 1 {
      assert r[1..] == [] && it.path + r == it.path + [e.0];
      LayerViewsHas(root, layer, j, k);
      ListsAppend(LayerViews(root, layer), below, it.path + r, x);
    } else {
      var _ := PostDfs.StrictStepEntry(e.1, r[1..]);
      var m := NextLayerHas(layer, j, k);
      LevelsComplete(root, NextLayer(layer), m, r[1..]);
      ListsAppend(LayerViews(root, layer), below, it.path + r, x);
    }
  }

  /** Every entry below `data`, at any non-empty path, is in its level order with its value. */
  lemma {:induction false} LevelOrderComplete(data: Value, p: Path)
    requires |p| > 0 && At(data, p).Some?
    ensures Lists(LevelOrder(data), p, At(data, p).value)
  {
    var _ := PostDfs.StrictStepEntry(data, p);
    var root := Item([], data, 0);
    assert [root][0] == root && root.path + p == p;
    LevelsComplete(data, [root], 0, p);
  }

  /**
    A visitor that neither sets nor breaks is shown every entry below
    `data`: each existing non-empty path, with the value there.
   */
  lemma {:induction false} TreeBfsPassiveComplete(data: Value, visitor: BfsVisitor, p: Path)
    requires WellFormed(data) && Passive(visitor) && |p| > 0 && At(data, p).Some?
    ensures Lists(TreeBfs(data, visitor).trace, p, At(data, p).value)
  {
    TreeBfsPassive(data, visitor);
    assert forall view :: visitor(view).newValue.None? by {
      forall view ensures visitor(view).newValue.None? {
        assert visitor(view) == BfsReply(None, false);
      }
    }
    TreeBfsLevelOrder(data, visitor);
    LevelOrderComplete(data, p);
  }

  /**
    The test fixture's shape: a record with the leaf field `a` and two
    record fields `b` and `c`, each holding only an `a` leaf (in the test
    `a`, `b` and `c` are `value`, `left` and `right`).
   */
  function ExampleTree(a: string, b: string, c: string, x: Prim, y: Prim, z: Prim): Value
  {
    Rec([(a, Leaf(x)), (b, ExampleChildValue(a, y)), (c, ExampleChildValue(a, z))])
  }

  function ExampleChildValue(a: string, w: Prim): Value { Rec([(a, Leaf(w))]) }

  function ExampleSecond(a: string, b: string, c: string, y: Prim, z: Prim): seq<Item>
  {
    [Item([Key(b)], ExampleChildValue(a, y), 1), Item([Key(c)], ExampleChildValue(a, z), 1)]
  }

  lemma ExampleRootKids(a: string, b: string, c: string, x: Prim, y: Prim, z: Prim)
    ensures Entries(ExampleTree(a, b, c, x, y, z)) == [(Key(a), Leaf(x)), (Key(b), ExampleChildValue(a, y)), (Key(c), ExampleChildValue(a, z))]
    ensures KidsOf(Item([], ExampleTree(a, b, c, x, y, z), 0), Entries(ExampleTree(a, b, c, x, y, z))) == ExampleSecond(a, b, c, y, z)
  {
    var root := Item([], ExampleTree(a, b, c, x, y, z), 0);
    var es: seq<(Seg, Value)> := [(Key(a), Leaf(x)), (Key(b), ExampleChildValue(a, y)), (Key(c), ExampleChildValue(a, z))];
    assert Entries(root.current) == es;
    var ks := ExampleSecond(a, b, c, y, z);
    assert root.path + [Key(c)] == [Key(c)] && root.path + [Key(b)] == [Key(b)];
    assert es[2..][1..] == [];
    assert KidsOf(root, es[2..]) == [ks[1]];
    assert es[1..][1..] == es[2..];
    assert KidsOf(root, es[1..]) == ks;
  }

  /** A layer of one container lists its entries and queues its containers. */
  lemma {:induction false} LayerOne(root: Value, it: Item)
    requires IsObjectOrArray(it.current)
    ensures LayerViews(root, [it]) == EntryViews(root, it, Entries(it.current))
    ensures NextLayer([it]) == KidsOf(it, Entries(it.current))
  {
    assert [it][1..] == [];
    assert EntryViews(root, it, Entries(it.current)) + [] == EntryViews(root, it, Entries(it.current));
    assert KidsOf(it, Entries(it.current)) + [] == KidsOf(it, Entries(it.current));
  }

  /** A container holding the single entry `e`, which is not a record or array. */
  lemma {:induction false} OneLeafEntry(root: Value, it: Item, e: (Seg, Value))
    requires IsObjectOrArray(it.current) && Entries(it.current) == [e] && !IsObjectOrArray(e.1)
    ensures LayerViews(root, [it]) == [EntryView(e.0, e.1, it.current, it.depth, it.path + [e.0], root)]
    ensures NextLayer([it]) == []
  {
    LayerOne(root, it);
    assert [e][1..] == [];
  }

  /** A layer whose next layer has nothing below it: two layers of views. */
  lemma {:induction false} TwoLevels(root: Value, layer: seq<Item>)
    requires AllComposite(layer) && |layer| > 0 && |NextLayer(layer)| > 0 && NextLayer(NextLayer(layer)) == []
    ensures Levels(root, layer) == LayerViews(root, layer) + LayerViews(root, NextLayer(layer))
  {
    var next := NextLayer(layer);
    assert Levels(root, next) == LayerViews(root, next) + Levels(root, []);
    assert LayerViews(root, next) + [] == LayerViews(root, next);
  }

  lemma ExampleFirstViews(a: string, b: string, c: string, x: Prim, y: Prim, z: Prim)
    ensures var vs := LayerViews(ExampleTree(a, b, c, x, y, z), [Item([], ExampleTree(a, b, c, x, y, z), 0)]);
      |vs| == 3 && vs[0].path == [Key(a)] && vs[0].value == Leaf(x)
      && vs[1].path == [Key(b)] && vs[2].path == [Key(c)]
  {
    var root := Item([], ExampleTree(a, b, c, x, y, z), 0);
    LayerOne(root.current, root);
    ExampleRootKids(a, b, c, x, y, z);
    assert [] + [Key(a)] == [Key(a)] && [] + [Key(b)] == [Key(b)] && [] + [Key(c)] == [Key(c)];
  }

  /** A layer of two containers lists the first one's entries, then the second's. */
  lemma {:induction false} LayerPair(root: Value, a: Item, b: Item)
    requires IsObjectOrArray(a.current) && IsObjectOrArray(b.current)
    ensures LayerViews(root, [a, b]) == LayerViews(root, [a]) + LayerViews(root, [b])
    ensures NextLayer([a, b]) == NextLayer([a]) + NextLayer([b])
  {
    assert [a, b][1..] == [b];
    LayerOne(root, a);
  }

  /** A child holding only an `a` leaf contributes that one view to its layer. */
  lemma {:induction false} ExampleChild(root: Value, a: string, k: Seg, w: Prim)
    ensures var vs := LayerViews(root, [Item([k], ExampleChildValue(a, w), 1)]);
      |vs| == 1 && vs[0].path == [k, Key(a)] && vs[0].value == Leaf(w)
    ensures NextLayer([Item([k], ExampleChildValue(a, w), 1)]) == []
  {
    var it := Item([k], ExampleChildValue(a, w), 1);
    assert Entries(it.current) == [(Key(a), Leaf(w))];
    OneLeafEntry(root, it, (Key(a), Leaf(w)));
  }

  lemma ExampleSecondLayer(root: Value, a: string, b: string, c: string, y: Prim, z: Prim)
    ensures var vs := LayerViews(root, ExampleSecond(a, b, c, y, z));
      |vs| == 2 && vs[0].path == [Key(b), Key(a)] && vs[0].value == Leaf(y)
      && vs[1].path == [Key(c), Key(a)] && vs[1].value == Leaf(z)
    ensures NextLayer(ExampleSecond(a, b, c, y, z)) == []
  {
    var ks := ExampleSecond(a, b, c, y, z);
    LayerPair(root, ks[0], ks[1]);
    ExampleChild(root, a, Key(b), y);
    ExampleChild(root, a, Key(c), z);
  }

  /** The fixture-shaped tree lists its root's layer, then its children's layer. */
  lemma ExampleLevels(a: string, b: string, c: string, x: Prim, y: Prim, z: Prim)
    ensures var tree := ExampleTree(a, b, c, x, y, z);
      LevelOrder(tree) == LayerViews(tree, [Item([], tree, 0)]) + LayerViews(tree, ExampleSecond(a, b, c, y, z))
  {
    var tree := ExampleTree(a, b, c, x, y, z);
    var root := Item([], tree, 0);
    LayerOne(tree, root);
    ExampleRootKids(a, b, c, x, y, z);
    ExampleSecondLayer(tree, a, b, c, y, z);
    TwoLevels(tree, [root]);
  }

  /**
    On the fixture-shaped tree the root's entries come first, then the
    entries of its two children, `b` before `c`: with the test's values
    1, 2 and 3 the `value` entries are met in that order.
   */
  lemma LevelOrderExample(a: string, b: string, c: string, x: Prim, y: Prim, z: Prim)
    ensures var lo := LevelOrder(ExampleTree(a, b, c, x, y, z));
      |lo| == 5
      && lo[0].path == [Key(a)] && lo[0].value == Leaf(x)
      && lo[1].path == [Key(b)] && lo[2].path == [Key(c)]
      && lo[3].path == [Key(b), Key(a)] && lo[3].value == Leaf(y)
      && lo[4].path == [Key(c), Key(a)] && lo[4].value == Leaf(z)
  {
    var tree := ExampleTree(a, b, c, x, y, z);
    ExampleLevels(a, b, c, x, y, z);
    ExampleFirstViews(a, b, c, x, y, z);
    ExampleSecondLayer(tree, a, b, c, y, z);
  }
}
