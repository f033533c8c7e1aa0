/**
  `TreeContext`: the per-entry context the breadth-first traversal (and
  the non-mutating post-order traversal) hands to its visitor.

  A view records the entry's key and the value captured when the view
  was built, the container it belongs to, the depth, the path and the
  root. The value setter writes into the container, which sits in the
  tree at the path minus its last segment.
 */
module EntryContext {
  import opened Wrappers
  import opened Seqs
  import opened Fields
  import opened Values
  import opened Access
  import opened Ancestors
  import NodeContext

  datatype EntryView = EntryView(key: Seg, value: Value, container: Value, depth: nat, path: Path, root: Value)

  /** `children`: the composite values of the container, in entry order. */
  function Children(view: EntryView): (cs: seq<Value>)
    requires IsObjectOrArray(view.container)
    ensures forall c :: c in cs <==> c in ValuesOf(view.container) && IsObjectOrArray(c)
  {
    CompositeChildren(view.container)
  }

  /** `isAtRoot`: the entry belongs to the root container. */
  predicate IsAtRoot(view: EntryView)
  {
    |view.path| == 1
  }

  /** `parent`: the root for a root entry, otherwise lodash `get` of the path minus its last segment. */
  function Parent(view: EntryView): (r: Value)
    ensures IsAtRoot(view) ==> r == view.root
    ensures |view.path| == 0 ==> r == Undef
  {
    if |view.path| == 1 then view.root else LodashGet(view.root, Init(view.path))
  }

  /** `ancestors`: one node per path segment, starting at the root. */
  function EntryAncestors(view: EntryView, coerce: Coercion): (r: Result<seq<Value>, Fault>)
    ensures r.Success? ==> |r.value| == |view.path|
    ensures r.Success? && |view.path| > 0 ==> r.value[0] == view.root
  {
    AncestorsAlong(view.root, view.path, coerce)
  }

  /** `isArray` and `isRecord` look at the container. */
  predicate IsArrayEntry(view: EntryView)
  {
    view.container.Arr?
  }

  predicate IsRecordEntry(view: EntryView)
  {
    !IsArrayEntry(view)
  }

  /** `getOrThrowRecordContext` and `getOrThrowArrayContext` on the container. */
  function RequireRecordEntry(view: EntryView): (r: Result<Value, Fault>)
    ensures r.Failure? <==> IsArrayEntry(view)
  {
    NodeContext.RequireRecord(view.container)
  }

  function RequireArrayEntry(view: EntryView): (r: Result<Value, Fault>)
    ensures r.Failure? <==> IsRecordEntry(view)
  {
    NodeContext.RequireArray(view.container)
  }

  /**
    The `value` setter: `container[key] = x`, written back where the
    container sits in the tree. The view itself, and so the `value`
    getter, keeps the value captured at construction.
   */
  function SetValue(view: EntryView, x: Value): (r: Result<Value, Fault>)
    ensures r.Failure? <==> view.container.Leaf?
  {
    var c' :- JsPut(view.container, view.key, x);
    Success(SetAt(view.root, Init(view.path), c'))
  }

  /** A view as the breadth-first traversal builds it: path = container path + key, depth = container depth. */
  predicate Consistent(view: EntryView)
  {
    |view.path| > 0 && view.path[|view.path| - 1] == view.key
    && At(view.root, Init(view.path)) == Some(view.container)
    && At(view.root, view.path).Some?
  }

  /** For a consistent view, `parent` is the entry's own container, and the last ancestor is that container too. */
  lemma {:induction false} ParentIsContainer(view: EntryView, coerce: Coercion)
    requires Consistent(view)
    ensures Parent(view) == view.container
    ensures EntryAncestors(view, coerce).Success?
    ensures EntryAncestors(view, coerce).value[|view.path| - 1] == view.container
  {
    var q := Init(view.path);
    if |view.path| > 1 {
      AtIsLocate(view.root, q);
      LocateIsLodashGet(view.root, q);
    } else {
      assert q == [];
    }
    AncestorsAt(view.root, view.path, coerce);
    assert view.path[..|view.path| - 1] == q;
  }

  /** For a consistent view, setting the value is writing it at the entry's own path. */
  lemma {:induction false} SetValueAt(view: EntryView, x: Value)
    requires Consistent(view)
    ensures SetValue(view, x) == Success(SetAt(view.root, view.path, x))
    ensures At(SetValue(view, x).value, view.path) == Some(x)
  {
    var p := view.path;
    AtLastStep(view.root, p);
    var n := Slot(view.container, view.key).value;
    assert JsPut(view.container, view.key, x) == Success(WithChild(view.container, n, x)) by {
      if view.container.Arr? {
        assert ArrayIndex(Idx(view.key.i)) == Some(view.key.i as nat);
      } else {
        assert Keys(view.container.fields[n := (view.key.k, x)]) == Keys(view.container.fields);
      }
    }
    AtIsLocate(view.root, Init(p));
    SetAtSplit(view.root, p, view.container, n, x);
    AtSetAtBelow(view.root, p, [], x);
    assert p + [] == p;
  }

  /** Setting the value changes no slot outside the entry's own. */
  lemma {:induction false} SetValueFrame(view: EntryView, x: Value, q: Path)
    requires Consistent(view)
    requires At(view.root, q).Some? && !IsPrefix(view.path, q) && !IsPrefix(q, view.path)
    ensures SetValue(view, x).Success?
    ensures At(SetValue(view, x).value, q) == At(view.root, q)
  {
    SetValueAt(view, x);
    AtSetAtDisjoint(view.root, view.path, q, x);
  }
}
