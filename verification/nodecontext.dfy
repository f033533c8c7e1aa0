/**
  `ObjectTraversalContext`: the whole-node context the mutating post-order
  traversal hands to its visitor.

  A view records the node (a record or an array), its depth, its path
  from the root, and the root. The node in the view is the object the
  traversal holds a reference to; writing into it is modelled as
  rewriting the slot of the tree at the view's path.
 */
module NodeContext {
  import opened Wrappers
  import opened Seqs
  import opened Fields
  import opened Values
  import opened Access
  import opened Status
  import opened Merger
  import opened Ancestors

  datatype NodeView = NodeView(node: Value, depth: nat, path: Path, root: Value)

  /** `children`: the composite values among the node's own values, in entry order. */
  function Children(view: NodeView): (cs: seq<Value>)
    requires IsObjectOrArray(view.node)
    ensures forall c :: c in cs <==> c in ValuesOf(view.node) && IsObjectOrArray(c)
  {
    CompositeChildren(view.node)
  }

  /** `ancestors`: one node per path segment, starting at the root. */
  function NodeAncestors(view: NodeView, coerce: Coercion): (r: Result<seq<Value>, Fault>)
    ensures r.Success? ==> |r.value| == |view.path|
    ensures r.Success? && |view.path| > 0 ==> r.value[0] == view.root
  {
    AncestorsAlong(view.root, view.path, coerce)
  }

  /**
    For a node that sits at its path, `ancestors` succeeds and its i-th
    entry is the node at the first i segments of the path.
   */
  lemma NodeAncestorsAt(view: NodeView, coerce: Coercion)
    requires At(view.root, view.path) == Some(view.node)
    ensures NodeAncestors(view, coerce).Success?
    ensures forall i :: 0 <= i < |view.path| ==>
      At(view.root, view.path[..i]) == Some(NodeAncestors(view, coerce).value[i])
  {
    AncestorsAt(view.root, view.path, coerce);
  }

  /** `isAtRoot`: the path is empty. */
  predicate IsAtRoot(view: NodeView)
  {
    |view.path| == 0
  }

  /** `isArray` and `isRecord`. */
  predicate IsArrayNode(view: NodeView)
  {
    view.node.Arr?
  }

  predicate IsRecordNode(view: NodeView)
  {
    !IsArrayNode(view)
  }

  /** `getOrThrowRecordContext`: fails exactly on an array. */
  function RequireRecord(context: Value): (r: Result<Value, Fault>)
    ensures r.Failure? <==> context.Arr?
    ensures r.Failure? ==> r.error == ContextMismatch(false)
    ensures r.Success? ==> r.value == context
  {
    if context.Arr? then Result.Failure(ContextMismatch(false)) else Success(context)
  }

  /** `getOrThrowArrayContext`: fails exactly on a non-array. */
  function RequireArray(context: Value): (r: Result<Value, Fault>)
    ensures r.Failure? <==> !context.Arr?
    ensures r.Failure? ==> r.error == ContextMismatch(true)
    ensures r.Success? ==> r.value == context
  {
    if context.Arr? then Success(context) else Result.Failure(ContextMismatch(true))
  }

  /** `parent`: undefined at the root, the root one level down, otherwise lodash `get` of the path minus its last segment. */
  function Parent(view: NodeView): (r: Value)
    ensures IsAtRoot(view) ==> r == Undef
    ensures |view.path| == 1 ==> r == view.root
  {
    if IsAtRoot(view) then Undef
    else if |view.path| == 1 then view.root
    else LodashGet(view.root, Init(view.path))
  }

  /** `merge(src, removeExisting)`: the new root and the status. */
  function Merge(view: NodeView, src: Value, removeExisting: bool): (r: (Value, Status))
    requires IsObjectOrArray(view.node)
    ensures !IsObjectOrArray(src) ==> r == (view.root, NotContextOrArray)
    ensures IsObjectOrArray(src) ==> r.1 == ContextMerged
    ensures IsObjectOrArray(src) && Locate(view.root, view.path) == Some(view.node)
      ==> Locate(r.0, view.path) == Some(MergeValues(view.node, src, removeExisting))
  {
    if !IsObjectOrArray(src) then (view.root, NotContextOrArray)
    else
      var merged := MergeValues(view.node, src, removeExisting);
      LocateSetAtIfLocated(view.root, view.path, merged);
      (SetAt(view.root, view.path, merged), ContextMerged)
  }

  lemma {:induction false} LocateSetAtIfLocated(v: Value, path: Path, x: Value)
    ensures Locate(v, path).Some? ==> Locate(SetAt(v, path, x), path) == Some(x)
  {
    if Locate(v, path).Some? {
      LocateSetAt(v, path, x);
    }
  }

  /** `replace(value)`: writes `value` into the parent's slot for the last segment. */
  function Replace(view: NodeView, value: Value, coerce: Coercion): (r: Result<(Value, Status), Fault>)
    ensures IsAtRoot(view) ==> r == Success((view.root, AlreadyAtRootOrEmptyPath))
    ensures Falsy(Parent(view)) ==> r == Success((view.root, AlreadyAtRootOrEmptyPath))
    ensures !IsAtRoot(view) && Parent(view).Arr? && CoerceSeg(view.path[|view.path| - 1], coerce).None?
      ==> r == Success((view.root, InvalidIndexTypeForArray))
    ensures r.Failure? ==> r.error == TypeError && Parent(view).Leaf?
    ensures r.Success? && r.value.1 != ContextReplaced ==> r.value.0 == view.root
  {
    var parent := Parent(view);
    if Falsy(parent) then Success((view.root, AlreadyAtRootOrEmptyPath))
    else
      var last := view.path[|view.path| - 1];
      if parent.Arr? then
        match CoerceSeg(last, coerce)
        case None => Success((view.root, InvalidIndexTypeForArray))
        case Some(n) =>
          var p' := JsPut(parent, Idx(n), value).value;
          Success((SetAt(view.root, Init(view.path), p'), ContextReplaced))
      else
        var p' :- JsPut(parent, last, value);
        Success((SetAt(view.root, Init(view.path), p'), ContextReplaced))
  }

  /** On a strict path the parent is the node at the path minus its last segment. */
  lemma {:induction false} ParentAt(view: NodeView)
    requires |view.path| > 0 && At(view.root, view.path).Some?
    ensures At(view.root, Init(view.path)) == Some(Parent(view))
    ensures IsObjectOrArray(Parent(view))
  {
    var q := Init(view.path);
    AtPrefixSome(view.root, view.path, q);
    var p := At(view.root, q).value;
    AtLastStep(view.root, view.path);
    if |view.path| > 1 {
      AtIsLocate(view.root, q);
      LocateIsLodashGet(view.root, q);
    } else {
      assert q == [];
    }
  }

  /** On a strict path, `replace` succeeds and is exactly a write of the value at the node's own path. */
  lemma {:induction false} ReplaceAt(view: NodeView, value: Value, coerce: Coercion)
    requires |view.path| > 0 && At(view.root, view.path).Some?
    ensures Replace(view, value, coerce) == Success((SetAt(view.root, view.path, value), ContextReplaced))
  {
    ParentAt(view);
    var parent := Parent(view);
    var q := Init(view.path);
    var last := view.path[|view.path| - 1];
    AtLastStep(view.root, view.path);
    var n := Slot(parent, last).value;
    assert JsPut(parent, if parent.Arr? then Idx(CoerceSeg(last, coerce).value) else last, value)
        == Success(WithChild(parent, n, value)) by {
      if parent.Arr? {
        assert ArrayIndex(Idx(last.i)) == Some(last.i as nat);
      } else {
        assert Keys(parent.fields[n := (last.k, value)]) == Keys(parent.fields);
      }
    }
    AtIsLocate(view.root, q);
    SetAtSplit(view.root, view.path, parent, n, value);
  }

  /** A merge rewrites only the node's own subtree: every strict path outside it reads as before. */
  lemma {:induction false} MergeFrame(view: NodeView, src: Value, removeExisting: bool, q: Path)
    requires IsObjectOrArray(view.node) && At(view.root, view.path).Some? && At(view.root, q).Some?
    requires !IsPrefix(view.path, q) && !IsPrefix(q, view.path)
    ensures At(Merge(view, src, removeExisting).0, q) == At(view.root, q)
  {
    if IsObjectOrArray(src) {
      AtSetAtDisjoint(view.root, view.path, q, MergeValues(view.node, src, removeExisting));
    }
  }

  /** A replace rewrites only the node's own slot: every strict path outside it reads as before. */
  lemma {:induction false} ReplaceFrame(view: NodeView, value: Value, coerce: Coercion, q: Path)
    requires |view.path| > 0 && At(view.root, view.path).Some? && At(view.root, q).Some?
    requires !IsPrefix(view.path, q) && !IsPrefix(q, view.path)
    ensures Replace(view, value, coerce).Success?
    ensures At(Replace(view, value, coerce).value.0, q) == At(view.root, q)
  {
    ReplaceAt(view, value, coerce);
    AtSetAtDisjoint(view.root, view.path, q, value);
  }
}
