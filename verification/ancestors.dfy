/**
  Path-to-ancestor resolution: `getAncestor(root, path)` and the
  `ancestors` getters of both context classes.

  Under an array, a segment is first passed through zod's
  `coerce.number` schema; the coercion is a parameter (`Coercion`) that
  always accepts a numeric segment. A segment that does not coerce raises
  `PathError`; reading a property of null or undefined raises a
  TypeError. Under anything else the raw segment is used.
 */
module Ancestors {
  import opened Wrappers
  import opened Seqs
  import opened Fields
  import opened Values
  import opened Access

  /** zod's `coerce.number().safeParse` on a string segment. */
  type Coercion = string -> Option<int>

  /** `numberSchema.safeParse(seg)`: a numeric segment always parses to itself. */
  function CoerceSeg(seg: Seg, coerce: Coercion): (r: Option<int>)
    ensures seg.Idx? ==> r == Some(seg.i)
    ensures seg.Key? ==> r == coerce(seg.k)
  {
    match seg
    case Idx(i) => Some(i)
    case Key(k) => coerce(k)
  }

  /** One step of the walk from `ctx` along `seg`; `path` is the whole path, reported by `PathError`. */
  function Step(ctx: Value, seg: Seg, path: Path, coerce: Coercion): (r: Result<Value, Fault>)
    ensures ctx.Arr? && CoerceSeg(seg, coerce).None? ==> r == Failure(PathError(seg, path))
    ensures ctx.Arr? && CoerceSeg(seg, coerce).Some? ==> r == Success(JsGet(ctx, Idx(CoerceSeg(seg, coerce).value)).value)
    ensures !ctx.Arr? ==> (r.Failure? <==> JsGet(ctx, seg).None?)
    ensures !ctx.Arr? && r.Success? ==> r.value == JsGet(ctx, seg).value
    ensures r.Failure? ==> r.error == TypeError || r.error == PathError(seg, path)
  {
    if ctx.Arr? then
      match CoerceSeg(seg, coerce)
      case None => Failure(PathError(seg, path))
      case Some(n) => Success(JsGet(ctx, Idx(n)).value)
    else
      match JsGet(ctx, seg)
      case None => Failure(TypeError)
      case Some(c) => Success(c)
  }

  /** The values reached after each segment of `segs`, starting from `ctx`. */
  function Descend(ctx: Value, segs: Path, path: Path, coerce: Coercion): (r: Result<seq<Value>, Fault>)
    ensures r.Success? ==> |r.value| == |segs|
    ensures r.Success? && |segs| > 0 ==> Step(ctx, segs[0], path, coerce) == Success(r.value[0])
    decreases |segs|
  {
    if |segs| == 0 then Success([])
    else
      var c :- Step(ctx, segs[0], path, coerce);
      var rest :- Descend(c, segs[1..], path, coerce);
      Success([c] + rest)
  }

  /** After a successful first step the walk goes on from the child. */
  lemma {:induction false} DescendCons(ctx: Value, segs: Path, path: Path, coerce: Coercion)
    requires |segs| > 0 && Step(ctx, segs[0], path, coerce).Success?
    ensures var c := Step(ctx, segs[0], path, coerce).value;
      Descend(ctx, segs, path, coerce) == match Descend(c, segs[1..], path, coerce)
                                          case Success(rest) => Success([c] + rest)
                                          case Failure(e) => Failure(e)
  {
  }

  /** `getAncestor(root, path)`: the root, then one value per segment except the last. */
  function GetAncestor(root: Value, path: Path, coerce: Coercion): (r: Result<seq<Value>, Fault>)
    ensures r.Success? ==> |r.value| == (if |path| == 0 then 1 else |path|) && r.value[0] == root
  {
    var after :- Descend(root, Init(path), path, coerce);
    Success([root] + after)
  }

  /**
    The `ancestors` getters: a `reduce` over the whole path that records
    the current value and then steps, so the last segment is stepped over
    (and can raise) although its value is not recorded.
   */
  function AncestorsAlong(root: Value, path: Path, coerce: Coercion): (r: Result<seq<Value>, Fault>)
    ensures r.Success? ==> |r.value| == |path|
    ensures r.Success? && |path| > 0 ==> r.value[0] == root
  {
    var after :- Descend(root, path, path, coerce);
    Success(([root] + after)[..|path|])
  }

  /** Each recorded value is the previous one's child at the corresponding segment. */
  lemma {:induction false} DescendSteps(ctx: Value, segs: Path, path: Path, coerce: Coercion)
    requires Descend(ctx, segs, path, coerce).Success?
    ensures var vs := [ctx] + Descend(ctx, segs, path, coerce).value;
      forall i :: 0 <= i < |segs| ==> Step(vs[i], segs[i], path, coerce) == Success(vs[i + 1])
    decreases |segs|
  {
    if |segs| > 0 {
      var c := Step(ctx, segs[0], path, coerce).value;
      DescendSteps(c, segs[1..], path, coerce);
      var vs := [ctx] + Descend(ctx, segs, path, coerce).value;
      var ws := [c] + Descend(c, segs[1..], path, coerce).value;
      assert vs == [ctx] + ws;
      forall i | 0 <= i < |segs|
        ensures Step(vs[i], segs[i], path, coerce) == Success(vs[i + 1])
      {
        if i > 0 {
          assert vs[i] == ws[i - 1] && vs[i + 1] == ws[i] && segs[i] == segs[1..][i - 1];
        }
      }
    }
  }

  /** Element i + 1 of `getAncestor` is element i's child at segment i. */
  lemma {:induction false} GetAncestorSteps(root: Value, path: Path, coerce: Coercion)
    requires GetAncestor(root, path, coerce).Success?
    ensures var r := GetAncestor(root, path, coerce).value;
      forall i :: 0 <= i < |r| - 1 ==> Step(r[i], path[i], path, coerce) == Success(r[i + 1])
  {
    var segs := Init(path);
    DescendSteps(root, segs, path, coerce);
    var r := GetAncestor(root, path, coerce).value;
    assert r == [root] + Descend(root, segs, path, coerce).value;
    forall i | 0 <= i < |r| - 1
      ensures Step(r[i], path[i], path, coerce) == Success(r[i + 1])
    {
      assert segs[i] == path[i];
    }
  }

  /** Element i + 1 of `ancestors` is element i's child at segment i, and the last segment was stepped over too. */
  lemma {:induction false} AncestorsSteps(root: Value, path: Path, coerce: Coercion)
    requires AncestorsAlong(root, path, coerce).Success?
    ensures var r := AncestorsAlong(root, path, coerce).value;
      (forall i :: 0 <= i < |r| - 1 ==> Step(r[i], path[i], path, coerce) == Success(r[i + 1]))
      && (|path| > 0 ==> Step(r[|r| - 1], path[|path| - 1], path, coerce).Success?)
  {
    DescendSteps(root, path, path, coerce);
    var all := Descend(root, path, path, coerce).value;
    var vs := [root] + all;
    var r := AncestorsAlong(root, path, coerce).value;
    assert r == vs[..|path|];
    forall i | 0 <= i < |r| - 1
      ensures Step(r[i], path[i], path, coerce) == Success(r[i + 1])
    {
      assert r[i] == vs[i] && r[i + 1] == vs[i + 1];
    }
    if |path| > 0 {
      var j := |path| - 1;
      assert r[|r| - 1] == vs[j];
      assert Step(vs[j], path[j], path, coerce) == Success(vs[j + 1]);
    }
  }

  /** Where `ancestors` succeeds on a non-empty path, `getAncestor` returns the same list. */
  lemma {:induction false} AncestorsAgree(root: Value, path: Path, coerce: Coercion)
    requires |path| > 0 && AncestorsAlong(root, path, coerce).Success?
    ensures GetAncestor(root, path, coerce) == AncestorsAlong(root, path, coerce)
  {
    var all := Descend(root, path, path, coerce).value;
    DescendPrefix(root, path, |path| - 1, path, coerce);
    assert ([root] + all)[..|path|] == [root] + all[..|path| - 1];
  }

  /** Walking a prefix of the segments succeeds where walking all of them does, with a prefix of the values. */
  lemma {:induction false} DescendPrefix(ctx: Value, segs: Path, n: nat, path: Path, coerce: Coercion)
    requires n <= |segs| && Descend(ctx, segs, path, coerce).Success?
    ensures Descend(ctx, segs[..n], path, coerce) == Success(Descend(ctx, segs, path, coerce).value[..n])
    decreases n
  {
    if n > 0 {
      var c := Step(ctx, segs[0], path, coerce).value;
      DescendCons(ctx, segs, path, coerce);
      var all := Descend(ctx, segs, path, coerce).value;
      var rest := Descend(c, segs[1..], path, coerce).value;
      assert segs[..n][0] == segs[0];
      assert segs[..n][1..] == segs[1..][..n - 1];
      DescendPrefix(c, segs[1..], n - 1, path, coerce);
      DescendCons(ctx, segs[..n], path, coerce);
      assert all[..n] == [c] + rest[..n - 1];
    } else {
      assert segs[..0] == [];
    }
  }

  /** On a strict segment one step of the walk moves to the child. */
  lemma {:induction false} StepStrict(ctx: Value, seg: Seg, path: Path, coerce: Coercion)
    requires StrictSeg(ctx, seg) && Slot(ctx, seg).Some?
    ensures Step(ctx, seg, path, coerce) == Success(Child(ctx, Slot(ctx, seg).value))
  {
    if ctx.Arr? {
      assert ArrayIndex(Idx(seg.i)) == Some(seg.i as nat);
    }
  }

  /** A prefix of a strict path passes through the child at its first segment. */
  lemma {:induction false} AtPrefixStep(ctx: Value, segs: Path, i: nat)
    requires i < |segs| && StrictSeg(ctx, segs[0])
    ensures Slot(ctx, segs[0]).Some?
    ensures At(ctx, segs[..i + 1]) == At(Child(ctx, Slot(ctx, segs[0]).value), segs[1..][..i])
  {
    var q := segs[..i + 1];
    assert q[0] == segs[0] && q[1..] == segs[1..][..i];
    AtStepAny(ctx, q);
  }

  /** Along a strict path the walk never fails. */
  lemma {:induction false} DescendStrict(ctx: Value, segs: Path, path: Path, coerce: Coercion)
    requires At(ctx, segs).Some?
    ensures Descend(ctx, segs, path, coerce).Success?
    decreases |segs|
  {
    if |segs| > 0 {
      AtStep(ctx, segs);
      var c := Child(ctx, Slot(ctx, segs[0]).value);
      StepStrict(ctx, segs[0], path, coerce);
      DescendStrict(c, segs[1..], path, coerce);
      DescendCons(ctx, segs, path, coerce);
    }
  }

  /** Along a strict path the i-th value of the walk is the node at the first i + 1 segments. */
  lemma {:induction false} DescendAtIndex(ctx: Value, segs: Path, path: Path, coerce: Coercion, i: nat)
    requires At(ctx, segs).Some? && i < |segs|
    ensures Descend(ctx, segs, path, coerce).Success?
    ensures At(ctx, segs[..i + 1]) == Some(Descend(ctx, segs, path, coerce).value[i])
    decreases i
  {
    AtStep(ctx, segs);
    var c := Child(ctx, Slot(ctx, segs[0]).value);
    StepStrict(ctx, segs[0], path, coerce);
    DescendStrict(c, segs[1..], path, coerce);
    DescendCons(ctx, segs, path, coerce);
    AtPrefixStep(ctx, segs, i);
    if i == 0 {
      assert segs[1..][..0] == [];
    } else {
      DescendAtIndex(c, segs[1..], path, coerce, i - 1);
      assert segs[1..][..i] == segs[1..][..(i - 1) + 1];
    }
  }

  /** Along a strict path the walk never fails, and the i-th value is the node at the first i + 1 segments. */
  lemma {:induction false} DescendAt(ctx: Value, segs: Path, path: Path, coerce: Coercion)
    requires At(ctx, segs).Some?
    ensures Descend(ctx, segs, path, coerce).Success?
    ensures forall i :: 0 <= i < |segs| ==> At(ctx, segs[..i + 1]) == Some(Descend(ctx, segs, path, coerce).value[i])
  {
    DescendStrict(ctx, segs, path, coerce);
    forall i | 0 <= i < |segs|
      ensures At(ctx, segs[..i + 1]) == Some(Descend(ctx, segs, path, coerce).value[i])
    {
      DescendAtIndex(ctx, segs, path, coerce, i);
    }
  }

  /** On a strict path, `ancestors` lists the nodes at `path[..0]`, `path[..1]`, … , `path[..|path|-1]`. */
  lemma {:induction false} AncestorsAt(root: Value, path: Path, coerce: Coercion)
    requires At(root, path).Some?
    ensures AncestorsAlong(root, path, coerce).Success?
    ensures forall i :: 0 <= i < |path| ==> At(root, path[..i]) == Some(AncestorsAlong(root, path, coerce).value[i])
  {
    DescendAt(root, path, path, coerce);
    var all := Descend(root, path, path, coerce).value;
    forall i | 0 <= i < |path|
      ensures At(root, path[..i]) == Some(AncestorsAlong(root, path, coerce).value[i])
    {
      if i == 0 {
        assert path[..0] == [];
      } else {
        assert ([root] + all)[i] == all[i - 1];
        assert path[..i] == path[..(i - 1) + 1];
      }
    }
  }

  /** A failed walk raises a TypeError or a `PathError` naming one of the walked segments and the whole path. */
  lemma {:induction false} DescendPathError(ctx: Value, segs: Path, path: Path, coerce: Coercion)
    requires Descend(ctx, segs, path, coerce).Failure?
    ensures var e := Descend(ctx, segs, path, coerce).error;
      e == TypeError || exists i :: 0 <= i < |segs| && e == PathError(segs[i], path)
    decreases |segs|
  {
    var s := Step(ctx, segs[0], path, coerce);
    if s.Success? {
      DescendPathError(s.value, segs[1..], path, coerce);
      var e := Descend(ctx, segs, path, coerce).error;
      if e != TypeError {
        var i :| 0 <= i < |segs[1..]| && e == PathError(segs[1..][i], path);
        assert e == PathError(segs[i + 1], path);
      }
    }
  }
}
