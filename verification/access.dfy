/**
  Reading and writing one property of a JavaScript value, and following a
  path of properties from the root of a tree.

  `JsGet` is the property read `obj[key]`, `JsPut` the property write
  `obj[key] = x` (ES module code is strict, so a write to a primitive
  throws), and `LodashGet` is lodash's `get(obj, path)`. `Locate` and
  `SetAt` address a slot of the tree by path; they are how the functional
  model expresses "the object that the reference points to" and "mutate
  that object in place".
 */
module Access {
  import opened Wrappers
  import opened Seqs
  import opened Fields
  import opened Values
  import opened Numerals

  /** The failures the traversal code can throw. */
  datatype Fault =
    | PathError(current: Seg, path: Path)  // `PathError`: a segment under an array did not coerce to a number
    | TypeError                            // reading from null/undefined, or writing to a primitive
    | ContextMismatch(expectedArray: bool) // `getOrThrowArrayContext` / `getOrThrowRecordContext`

  /** JavaScript's property-key conversion of a segment: numbers become their decimal spelling. */
  function KeyString(seg: Seg): string
  {
    match seg
    case Key(k) => k
    case Idx(i) => IntToString(i)
  }

  /** A segment names an array slot exactly when its key is a canonical index. */
  function ArrayIndex(seg: Seg): (r: Option<nat>)
    ensures seg.Idx? ==> (r.Some? <==> seg.i >= 0)
    ensures seg.Idx? && seg.i >= 0 ==> r == Some(seg.i as nat)
  {
    var r := CanonicalIndex(KeyString(seg));
    if seg.Idx? && seg.i >= 0 then CanonicalIndexOfNat(seg.i); r
    else if seg.Idx? then NegativeNotCanonical(seg.i); r
    else r
  }

  lemma {:induction false} NegativeNotCanonical(i: int)
    requires i < 0
    ensures CanonicalIndex(IntToString(i)).None?
  {
    assert IntToString(i)[0] == '-';
  }

  /** Number of own enumerable slots. */
  function SlotCount(v: Value): nat
  {
    match v
    case Leaf(_) => 0
    case Opaque(_, props) => |props|
    case Arr(items) => |items|
    case Rec(fields) => |fields|
  }

  /** The own slot `v[seg]` reads, if there is one. */
  function Slot(v: Value, seg: Seg): (r: Option<nat>)
    ensures r.Some? ==> r.value < SlotCount(v)
  {
    match v
    case Leaf(_) => None
    case Opaque(_, props) => IndexOf(props, KeyString(seg))
    case Arr(items) =>
      (match ArrayIndex(seg)
       case Some(n) => if n < |items| then Some(n) else None
       case None => None)
    case Rec(fields) => IndexOf(fields, KeyString(seg))
  }

  function Child(v: Value, n: nat): Value
    requires n < SlotCount(v)
  {
    match v
    case Opaque(_, props) => props[n].1
    case Arr(items) => items[n]
    case Rec(fields) => fields[n].1
  }

  function WithChild(v: Value, n: nat, c: Value): (r: Value)
    requires n < SlotCount(v)
    ensures SlotCount(r) == SlotCount(v) && Child(r, n) == c
    ensures forall m :: 0 <= m < SlotCount(v) && m != n ==> Child(r, m) == Child(v, m)
  {
    match v
    case Opaque(kind, props) => Opaque(kind, props[n := (props[n].0, c)])
    case Arr(items) => Arr(items[n := c])
    case Rec(fields) => Rec(fields[n := (fields[n].0, c)])
  }

  /** The property read `v[seg]`; `None` is the TypeError of reading from null or undefined. */
  function JsGet(v: Value, seg: Seg): (r: Option<Value>)
    ensures r.None? <==> v == Leaf(Undefined) || v == Leaf(Null)
    ensures Slot(v, seg).Some? ==> r == Some(Child(v, Slot(v, seg).value))
    ensures v != Leaf(Undefined) && v != Leaf(Null) && Slot(v, seg).None? ==> r == Some(Undef)
  {
    match v
    case Leaf(Undefined) => None
    case Leaf(Null) => None
    case Leaf(_) => Some(Undef)
    case _ =>
      match Slot(v, seg)
      case Some(n) => Some(Child(v, n))
      case None => Some(Undef)
  }

  /** Follows `path` from `v`; undefined once a null or undefined is met before the end. */
  function Walk(v: Value, path: Path): Value
    decreases |path|
  {
    if |path| == 0 then v
    else
      match JsGet(v, path[0])
      case None => Undef
      case Some(c) => Walk(c, path[1..])
  }

  /** lodash `get(obj, path)`: the empty path gives undefined. */
  function LodashGet(root: Value, path: Path): Value
  {
    if |path| == 0 then Undef else Walk(root, path)
  }

  /** The value in the slot `path` addresses, following own slots only. */
  function Locate(v: Value, path: Path): (r: Option<Value>)
    decreases |path|
  {
    if |path| == 0 then Some(v)
    else
      match Slot(v, path[0])
      case None => None
      case Some(n) => Locate(Child(v, n), path[1..])
  }

  /** In-place replacement of the slot `path` addresses; nothing happens if it addresses none. */
  function SetAt(v: Value, path: Path, x: Value): (r: Value)
    decreases |path|
  {
    if |path| == 0 then x
    else
      match Slot(v, path[0])
      case None => v
      case Some(n) => WithChild(v, n, SetAt(Child(v, n), path[1..], x))
  }

  /** The strict form of a path: index segments under arrays, key segments under records, nothing else. */
  function At(v: Value, path: Path): (r: Option<Value>)
    decreases |path|
  {
    if |path| == 0 then Some(v)
    else
      match (v, path[0])
      case (Arr(items), Idx(i)) => if 0 <= i < |items| then At(items[i], path[1..]) else None
      case (Rec(fields), Key(k)) =>
        (match IndexOf(fields, k)
         case Some(n) => At(fields[n].1, path[1..])
         case None => None)
      case _ => None
  }

  /** A strict path reaches the same slot under the JavaScript reading. */
  lemma {:induction false} AtIsLocate(v: Value, path: Path)
    requires At(v, path).Some?
    ensures Locate(v, path) == At(v, path)
    decreases |path|
  {
    if |path| > 0 {
      match (v, path[0])
      case (Arr(items), Idx(i)) =>
        assert Slot(v, path[0]) == Some(i as nat);
        AtIsLocate(items[i], path[1..]);
      case (Rec(fields), Key(k)) =>
        AtIsLocate(fields[IndexOf(fields, k).value].1, path[1..]);
    }
  }

  /** Where `Locate` succeeds on a non-empty path, lodash `get` returns the same value. */
  lemma {:induction false} LocateIsLodashGet(v: Value, path: Path)
    requires |path| > 0 && Locate(v, path).Some?
    ensures LodashGet(v, path) == Locate(v, path).value
  {
    LocateIsWalk(v, path);
  }

  lemma {:induction false} LocateIsWalk(v: Value, path: Path)
    requires Locate(v, path).Some?
    ensures Walk(v, path) == Locate(v, path).value
    decreases |path|
  {
    if |path| > 0 {
      var n := Slot(v, path[0]).value;
      LocateIsWalk(Child(v, n), path[1..]);
    }
  }

  /** lodash `get` only returns an object that sits at the addressed slot; a missing slot reads as a primitive. */
  lemma {:induction false} WalkObjectIsLocated(v: Value, path: Path)
    requires !Walk(v, path).Leaf?
    ensures Locate(v, path) == Some(Walk(v, path))
    decreases |path|
  {
    if |path| > 0 {
      var c := JsGet(v, path[0]).value;
      if Slot(v, path[0]).None? {
        UndefinedWalk(path[1..]);
      } else {
        WalkObjectIsLocated(c, path[1..]);
      }
    }
  }

  lemma {:induction false} UndefinedWalk(path: Path)
    ensures Walk(Undef, path).Leaf?
  {
  }

  lemma {:induction false} LodashGetObjectIsLocated(v: Value, path: Path)
    requires !LodashGet(v, path).Leaf?
    ensures |path| > 0 && Locate(v, path) == Some(LodashGet(v, path))
  {
    WalkObjectIsLocated(v, path);
  }

  /** After `SetAt`, the addressed slot holds the new value. */
  lemma {:induction false} LocateSetAt(v: Value, path: Path, x: Value)
    requires Locate(v, path).Some?
    ensures Locate(SetAt(v, path, x), path) == Some(x)
    decreases |path|
  {
    if |path| > 0 {
      var n := Slot(v, path[0]).value;
      LocateSetAt(Child(v, n), path[1..], x);
      SlotOfWithChild(v, n, SetAt(Child(v, n), path[1..], x), path[0]);
    }
  }

  /** Replacing a child keeps every segment naming the same slot. */
  lemma {:induction false} SlotOfWithChild(v: Value, n: nat, c: Value, seg: Seg)
    requires n < SlotCount(v)
    ensures Slot(WithChild(v, n, c), seg) == Slot(v, seg)
  {
    match v
    case Opaque(kind, props) =>
      assert Keys(props[n := (props[n].0, c)]) == Keys(props);
      IndexOfSameKeys(props, props[n := (props[n].0, c)], KeyString(seg));
    case Arr(items) =>
    case Rec(fields) =>
      assert Keys(fields[n := (fields[n].0, c)]) == Keys(fields);
      IndexOfSameKeys(fields, fields[n := (fields[n].0, c)], KeyString(seg));
  }

  /** A path that addresses no slot leaves the tree unchanged. */
  lemma {:induction false} SetAtUnresolved(v: Value, path: Path, x: Value)
    requires Locate(v, path).None?
    ensures SetAt(v, path, x) == v
    decreases |path|
  {
    if |path| > 0 && Slot(v, path[0]).Some? {
      var n := Slot(v, path[0]).value;
      SetAtUnresolved(Child(v, n), path[1..], x);
      WithChildSame(v, n);
    }
  }

  lemma {:induction false} WithChildSame(v: Value, n: nat)
    requires n < SlotCount(v)
    ensures WithChild(v, n, Child(v, n)) == v
  {
  }

  /** Writing back the value already in a slot changes nothing. */
  lemma {:induction false} SetAtSame(v: Value, path: Path)
    requires Locate(v, path).Some?
    ensures SetAt(v, path, Locate(v, path).value) == v
    decreases |path|
  {
    if |path| > 0 {
      var n := Slot(v, path[0]).value;
      SetAtSame(Child(v, n), path[1..]);
      WithChildSame(v, n);
    }
  }

  /** `SetAt` along a strict path keeps the shape of every node on the way. */
  lemma {:induction false} AtSetAtPrefix(v: Value, p: Path, q: Path, x: Value)
    requires At(v, p).Some? && IsStrictPrefix(q, p)
    ensures At(v, q).Some?
    ensures At(SetAt(v, p, x), q).Some?
    ensures At(SetAt(v, p, x), q).value.Arr? == At(v, q).value.Arr?
    ensures At(SetAt(v, p, x), q).value.Rec? == At(v, q).value.Rec?
    decreases |p|
  {
    AtIsLocate(v, p);
    var n := Slot(v, p[0]).value;
    var c' := SetAt(Child(v, n), p[1..], x);
    var r := WithChild(v, n, c');
    assert SetAt(v, p, x) == r;
    if |q| > 0 {
      assert q[0] == p[0];
      AtStep(v, p);
      assert IsStrictPrefix(q[1..], p[1..]);
      AtSetAtPrefix(Child(v, n), p[1..], q[1..], x);
      AtStepAny(v, q);
      AtStepWithChild(v, n, c', q);
    }
  }

  /** The first step of a strict path goes to the slot `Slot` names. */
  lemma {:induction false} AtStep(v: Value, p: Path)
    requires |p| > 0 && At(v, p).Some?
    ensures StrictSeg(v, p[0])
    ensures Slot(v, p[0]).Some?
    ensures At(v, p) == At(Child(v, Slot(v, p[0]).value), p[1..])
  {
    match (v, p[0])
    case (Arr(items), Idx(i)) =>
      assert Slot(v, p[0]) == Some(i as nat);
    case (Rec(fields), Key(k)) =>
  }

  /** `seg` is an in-range index of an array or a present key of a record. */
  predicate StrictSeg(v: Value, seg: Seg)
  {
    (v.Arr? && seg.Idx? && 0 <= seg.i < |v.items|) || (v.Rec? && seg.Key? && IndexOf(v.fields, seg.k).Some?)
  }

  lemma {:induction false} AtStepAny(v: Value, q: Path)
    requires |q| > 0 && StrictSeg(v, q[0])
    ensures Slot(v, q[0]).Some?
    ensures At(v, q) == At(Child(v, Slot(v, q[0]).value), q[1..])
  {
    match (v, q[0])
    case (Arr(items), Idx(i)) =>
      assert Slot(v, q[0]) == Some(i as nat);
    case (Rec(fields), Key(k)) =>
  }

  lemma {:induction false} AtStepWithChild(v: Value, n: nat, c: Value, q: Path)
    requires |q| > 0 && At(v, q).Some? && Slot(v, q[0]) == Some(n)
    ensures At(WithChild(v, n, c), q) == At(c, q[1..])
  {
    var r := WithChild(v, n, c);
    match (v, q[0])
    case (Arr(items), Idx(i)) =>
      assert ArrayIndex(q[0]) == Some(i as nat);
    case (Rec(fields), Key(k)) =>
      assert Keys(fields[n := (fields[n].0, c)]) == Keys(fields);
      IndexOfSameKeys(fields, r.fields, k);
  }

  /** Writing one slot leaves every strict path that neither contains nor extends it unchanged. */
  lemma {:induction false} AtSetAtDisjoint(v: Value, p: Path, q: Path, x: Value)
    requires At(v, p).Some? && At(v, q).Some?
    requires !IsPrefix(p, q) && !IsPrefix(q, p)
    ensures At(SetAt(v, p, x), q) == At(v, q)
    decreases |p|
  {
    AtIsLocate(v, p);
    AtStep(v, p);
    AtStep(v, q);
    var n := Slot(v, p[0]).value;
    var m := Slot(v, q[0]).value;
    var c' := SetAt(Child(v, n), p[1..], x);
    if n == m {
      assert p[0] == q[0] by { SlotDeterminesSeg(v, p, q); }
      assert !IsPrefix(p[1..], q[1..]) && !IsPrefix(q[1..], p[1..]);
      AtStepWithChild(v, n, c', q);
      AtSetAtDisjoint(Child(v, n), p[1..], q[1..], x);
    } else {
      AtStepWithChild(v, m, Child(v, m), q);
      AtStepOther(v, n, c', q);
    }
  }

  /** On strict paths, two segments that reach the same slot are the same segment. */
  lemma {:induction false} SlotDeterminesSeg(v: Value, p: Path, q: Path)
    requires |p| > 0 && |q| > 0 && At(v, p).Some? && At(v, q).Some?
    requires Slot(v, p[0]).Some? && Slot(v, p[0]) == Slot(v, q[0])
    ensures p[0] == q[0]
  {
    match v
    case Arr(items) =>
      assert ArrayIndex(p[0]) == Some(p[0].i as nat);
      assert ArrayIndex(q[0]) == Some(q[0].i as nat);
    case Rec(fields) =>
  }

  lemma {:induction false} AtStepOther(v: Value, n: nat, c: Value, q: Path)
    requires |q| > 0 && At(v, q).Some? && Slot(v, q[0]).Some? && Slot(v, q[0]).value != n
    requires n < SlotCount(v)
    ensures At(WithChild(v, n, c), q) == At(v, q)
  {
    var r := WithChild(v, n, c);
    var m := Slot(v, q[0]).value;
    AtStep(v, q);
    match (v, q[0])
    case (Arr(items), Idx(i)) =>
      assert ArrayIndex(q[0]) == Some(i as nat);
    case (Rec(fields), Key(k)) =>
      assert Keys(fields[n := (fields[n].0, c)]) == Keys(fields);
      IndexOfSameKeys(fields, r.fields, k);
  }

  /** After `SetAt` on a strict path, paths below it read the new value. */
  lemma {:induction false} AtSetAtBelow(v: Value, p: Path, r: Path, x: Value)
    requires At(v, p).Some?
    ensures At(SetAt(v, p, x), p + r) == At(x, r)
    decreases |p|
  {
    if |p| == 0 {
      assert p + r == r;
    } else {
      AtStep(v, p);
      var n := Slot(v, p[0]).value;
      var c' := SetAt(Child(v, n), p[1..], x);
      AtSetAtBelow(Child(v, n), p[1..], r, x);
      ConcatHead(p, r);
      AtStepWithChildAny(v, n, c', p + r);
    }
  }

  lemma {:induction false} AtStepWithChildAny(v: Value, n: nat, c: Value, q: Path)
    requires |q| > 0 && Slot(v, q[0]) == Some(n) && (v.Arr? ==> q[0].Idx?) && (v.Rec? ==> q[0].Key?) && !v.Opaque?
    ensures At(WithChild(v, n, c), q) == At(c, q[1..])
  {
    var r := WithChild(v, n, c);
    match (v, q[0])
    case (Arr(items), Idx(i)) =>
      assert ArrayIndex(q[0]) == Some(i as nat);
    case (Rec(fields), Key(k)) =>
      assert Keys(fields[n := (fields[n].0, c)]) == Keys(fields);
      IndexOfSameKeys(fields, r.fields, k);
  }

  /** `array[n] = x` on the element list: holes between the old end and `n` read as undefined. */
  function WriteIndex(items: seq<Value>, n: nat, x: Value): (r: seq<Value>)
    ensures |r| == if n < |items| then |items| else n + 1
    ensures r[n] == x
    ensures forall m :: 0 <= m < |items| && m != n ==> r[m] == items[m]
    ensures forall m :: |items| <= m < |r| && m != n ==> r[m] == Undef
  {
    if n < |items| then items[n := x]
    else items + seq(n - |items|, _ => Undef) + [x]
  }

  /**
    The property write `container[seg] = x`. Writing to a primitive throws;
    a non-index name on an array becomes a named property that entry
    enumeration never shows, so the entries are unchanged.
   */
  function JsPut(container: Value, seg: Seg, x: Value): (r: Result<Value, Fault>)
    ensures r.Failure? <==> container.Leaf?
    ensures r.Failure? ==> r.error == TypeError
    ensures r.Success? ==> SameKind(container, r.value)
  {
    match container
    case Leaf(_) => Failure(TypeError)
    case Opaque(kind, props) => Success(Opaque(kind, Assign(props, KeyString(seg), x)))
    case Arr(items) =>
      (match ArrayIndex(seg)
       case Some(n) => Success(Arr(WriteIndex(items, n, x)))
       case None => Success(container))
    case Rec(fields) => Success(Rec(Assign(fields, KeyString(seg), x)))
  }

  /** Same constructor, and the same host class for opaque objects. */
  predicate SameKind(a: Value, b: Value)
  {
    (a.Arr? <==> b.Arr?) && (a.Rec? <==> b.Rec?) && (a.Leaf? <==> b.Leaf?)
      && (a.Opaque? ==> b.Opaque? && a.kind == b.kind)
  }

  /** After a successful write the property reads back as the written value (array names that are not indices excepted). */
  lemma {:induction false} JsPutReadBack(container: Value, seg: Seg, x: Value)
    requires JsPut(container, seg, x).Success?
    requires container.Arr? ==> ArrayIndex(seg).Some?
    ensures JsGet(JsPut(container, seg, x).value, seg) == Some(x)
  {
    match container
    case Opaque(kind, props) =>
    case Arr(items) =>
    case Rec(fields) =>
  }

  /** A write changes no other property: every segment with a different key reads as before. */
  lemma {:induction false} JsPutFrame(container: Value, seg: Seg, x: Value, other: Seg)
    requires JsPut(container, seg, x).Success?
    requires KeyString(other) != KeyString(seg)
    ensures JsGet(JsPut(container, seg, x).value, other) == JsGet(container, other)
  {
    var r := JsPut(container, seg, x).value;
    match container
    case Opaque(kind, props) =>
      var k := KeyString(seg);
      var fs := Assign(props, k, x);
      assert Lookup(fs, KeyString(other)) == Lookup(props, KeyString(other));
      LookupSlot(fs, KeyString(other));
      LookupSlot(props, KeyString(other));
    case Arr(items) =>
      if ArrayIndex(seg).Some? && ArrayIndex(other).Some? {
        var n, m := ArrayIndex(seg).value, ArrayIndex(other).value;
        if n == m {
          NatOfCanonicalIndex(KeyString(seg));
          NatOfCanonicalIndex(KeyString(other));
        }
      }
    case Rec(fields) =>
      var k := KeyString(seg);
      var fs := Assign(fields, k, x);
      assert Lookup(fs, KeyString(other)) == Lookup(fields, KeyString(other));
      LookupSlot(fs, KeyString(other));
      LookupSlot(fields, KeyString(other));
  }

  lemma {:induction false} LookupSlot(fs: seq<(string, Value)>, k: string)
    ensures IndexOf(fs, k).Some? ==> Lookup(fs, k) == Some(fs[IndexOf(fs, k).value].1)
    ensures IndexOf(fs, k).None? ==> Lookup(fs, k).None?
  {
  }
  /** `path.slice(0, -1)`: the path without its last segment. */
  function Init(path: Path): (r: Path)
    ensures |r| == if |path| == 0 then 0 else |path| - 1
    ensures IsPrefix(r, path)
  {
    if |path| == 0 then [] else path[..|path| - 1]
  }

  /** Strict paths are closed under prefixes. */
  lemma {:induction false} AtPrefixSome(v: Value, p: Path, q: Path)
    requires At(v, p).Some? && IsPrefix(q, p)
    ensures At(v, q).Some?
    decreases |p|
  {
    if |q| > 0 {
      AtStep(v, p);
      assert q[0] == p[0];
      AtStepAny(v, q);
      assert IsPrefix(q[1..], p[1..]);
      AtPrefixSome(Child(v, Slot(v, p[0]).value), p[1..], q[1..]);
    }
  }

  /** The last step of a strict path: the node is its parent's child at the last segment. */
  lemma {:induction false} AtLastStep(v: Value, p: Path)
    requires |p| > 0 && At(v, p).Some?
    ensures At(v, Init(p)).Some?
    ensures StrictSeg(At(v, Init(p)).value, p[|p| - 1])
    ensures Slot(At(v, Init(p)).value, p[|p| - 1]).Some?
    ensures At(v, p) == Some(Child(At(v, Init(p)).value, Slot(At(v, Init(p)).value, p[|p| - 1]).value))
    decreases |p|
  {
    AtStep(v, p);
    var c := Child(v, Slot(v, p[0]).value);
    if |p| == 1 {
      assert Init(p) == [];
      assert p[1..] == [];
    } else {
      AtLastStep(c, p[1..]);
      assert Init(p)[0] == p[0] && Init(p)[1..] == Init(p[1..]);
      AtStepAny(v, Init(p));
    }
  }

  /** Rewriting a slot is rewriting its parent with that one child replaced. */
  lemma {:induction false} SetAtSplit(v: Value, p: Path, parent: Value, n: nat, x: Value)
    requires |p| > 0 && Locate(v, Init(p)) == Some(parent) && Slot(parent, p[|p| - 1]) == Some(n)
    ensures SetAt(v, p, x) == SetAt(v, Init(p), WithChild(parent, n, x))
    decreases |p|
  {
    if |p| == 1 {
      assert Init(p) == [];
      assert p[1..] == [];
    } else {
      var m := Slot(v, p[0]).value;
      assert Init(p)[0] == p[0] && Init(p)[1..] == Init(p[1..]);
      SetAtSplit(Child(v, m), p[1..], parent, n, x);
    }
  }

  /** Following `p` and then `r` is following `p + r`. */
  lemma {:induction false} AtAppend(v: Value, p: Path, r: Path)
    ensures At(v, p + r) == match At(v, p) case Some(n) => At(n, r) case None => None
    decreases |p|
  {
    if |p| > 0 {
      assert (p + r)[0] == p[0] && (p + r)[1..] == p[1..] + r;
      match (v, p[0])
      case (Arr(items), Idx(i)) =>
        if 0 <= i < |items| {
          AtAppend(items[i], p[1..], r);
        }
      case (Rec(fields), Key(k)) =>
        if IndexOf(fields, k).Some? {
          AtAppend(fields[IndexOf(fields, k).value].1, p[1..], r);
        }
      case _ =>
    } else {
      assert p + r == r;
    }
  }

  /** Each entry of a well-formed container sits at its own key. */
  lemma {:induction false} AtEntry(v: Value, i: nat)
    requires IsObjectOrArray(v) && WellFormed(v) && i < |Entries(v)|
    ensures At(v, [Entries(v)[i].0]) == Some(Entries(v)[i].1)
    ensures WellFormed(Entries(v)[i].1)
  {
    var path := [Entries(v)[i].0];
    assert path[1..] == [];
    if v.Rec? {
      var j := IndexOf(v.fields, v.fields[i].0);
      assert j.Some?;
      assert j.value == i;
    }
  }
}
