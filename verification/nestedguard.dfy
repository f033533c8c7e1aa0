/**
  `nestedGuard(obj, discriminator, discriminatorValue)`: a type guard that
  walks the dot-separated `discriminator` path through `obj` and compares
  the value it reaches with `discriminatorValue` by `===`.

  The walk stops with `false` only when it meets `undefined` before a
  step; a `null` before a step is read from like any value and so throws
  a TypeError, modelled as `Failure(TypeError)`.
 */
module NestedGuard {
  import opened Wrappers
  import opened Seqs
  import opened Values
  import opened Access

  /** The property-key path written as the dot-separated string `s`. */
  function Segs(parts: seq<string>): (p: Path)
    ensures |p| == |parts|
    ensures forall i :: 0 <= i < |parts| ==> p[i] == Key(parts[i])
  {
    seq(|parts|, i requires 0 <= i < |parts| => Key(parts[i]))
  }

  /** The loop over the path pieces, from the value `current` reached so far. */
  function Guard(current: Value, parts: seq<string>, expected: Prim): Result<bool, Fault>
    decreases |parts|
  {
    if |parts| == 0 then Success(StrictEquals(current, expected))
    else if current == Undef then Success(false)
    else
      match JsGet(current, Key(parts[0]))
      case None => Failure(TypeError)
      case Some(c) => Guard(c, parts[1..], expected)
  }

  /** `nestedGuard` itself: split the discriminator on "." and walk. */
  function NestedGuard(obj: Value, discriminator: string, expected: Prim): Result<bool, Fault>
  {
    Guard(obj, Split(discriminator, '.'), expected)
  }

  /** Dropping the first piece drops the first segment. */
  lemma SegsTail(parts: seq<string>, n: nat)
    requires 0 < n <= |parts|
    ensures Segs(parts)[1..] == Segs(parts[1..])
    ensures Segs(parts)[..n][1..] == Segs(parts[1..])[..n - 1]
  {
  }

  /** A walk from `undefined` stays at `undefined`. */
  lemma {:induction false} WalkFromUndef(path: Path)
    ensures Walk(Undef, path) == Undef
  {
  }

  /**
    The guard throws exactly when the path, walked with JavaScript property
    reads, reaches `null` before one of its steps.
   */
  lemma {:induction false} GuardFaultIffNull(v: Value, parts: seq<string>, expected: Prim)
    ensures Guard(v, parts, expected).Failure? <==>
      exists i :: 0 <= i < |parts| && Walk(v, Segs(parts)[..i]) == Leaf(Null)
    ensures Guard(v, parts, expected).Failure? ==> Guard(v, parts, expected).error == TypeError
    decreases |parts|
  {
    if |parts| > 0 {
      var path := Segs(parts);
      assert Walk(v, path[..0]) == v;
      if v == Undef {
        forall i | 0 <= i < |parts|
          ensures Walk(v, path[..i]) == Undef
        {
          WalkFromUndef(path[..i]);
        }
      } else if v != Leaf(Null) {
        var c := JsGet(v, Key(parts[0])).value;
        GuardFaultIffNull(c, parts[1..], expected);
        forall i | 1 <= i <= |parts|
          ensures Walk(v, path[..i]) == Walk(c, Segs(parts[1..])[..i - 1])
        {
          SegsTail(parts, i);
        }
        if Guard(c, parts[1..], expected).Failure? {
          var k :| 0 <= k < |parts| - 1 && Walk(c, Segs(parts[1..])[..k]) == Leaf(Null);
          assert Walk(v, path[..k + 1]) == Leaf(Null);
        }
        if exists i :: 0 <= i < |parts| && Walk(v, path[..i]) == Leaf(Null) {
          var i :| 0 <= i < |parts| && Walk(v, path[..i]) == Leaf(Null);
          assert Walk(c, Segs(parts[1..])[..i - 1]) == Leaf(Null);
        }
      }
    }
  }

  /**
    When the guard does not throw and the compared value is not `undefined`,
    its answer is whether the value at the end of the path is `===` to it.
   */
  lemma {:induction false} GuardIsWalk(v: Value, parts: seq<string>, expected: Prim)
    requires expected != Undefined
    requires Guard(v, parts, expected).Success?
    ensures Guard(v, parts, expected).value == StrictEquals(Walk(v, Segs(parts)), expected)
    decreases |parts|
  {
    if |parts| > 0 {
      if v == Undef {
        WalkFromUndef(Segs(parts));
      } else {
        var c := JsGet(v, Key(parts[0])).value;
        SegsTail(parts, |parts|);
        GuardIsWalk(c, parts[1..], expected);
      }
    }
  }

  /**
    For any compared value, `undefined` included: when the guard does not
    throw, it answers `true` exactly when no step of the path starts from
    `undefined` and the value at the end is `===` to the compared value.
   */
  lemma {:induction false} GuardAnswer(v: Value, parts: seq<string>, expected: Prim)
    requires Guard(v, parts, expected).Success?
    ensures Guard(v, parts, expected).value <==>
      (forall i :: 0 <= i < |parts| ==> Walk(v, Segs(parts)[..i]) != Undef)
      && StrictEquals(Walk(v, Segs(parts)), expected)
    decreases |parts|
  {
    var path := Segs(parts);
    if |parts| > 0 {
      assert Walk(v, path[..0]) == v;
      if v != Undef {
        var c := JsGet(v, Key(parts[0])).value;
        var tail := Segs(parts[1..]);
        GuardAnswer(c, parts[1..], expected);
        SegsTail(parts, |parts|);
        assert path[..|parts|] == path;
        forall i | 1 <= i <= |parts|
          ensures Walk(v, path[..i]) == Walk(c, tail[..i - 1])
        {
          SegsTail(parts, i);
        }
        assert tail[..|parts| - 1] == tail;
        if forall i :: 0 <= i < |parts| - 1 ==> Walk(c, tail[..i]) != Undef {
          forall i | 0 <= i < |parts|
            ensures Walk(v, path[..i]) != Undef
          {
            if i > 0 {
              assert Walk(c, tail[..i - 1]) != Undef;
            }
          }
        } else {
          var i :| 0 <= i < |parts| - 1 && Walk(c, tail[..i]) == Undef;
          assert Walk(v, path[..i + 1]) == Undef;
        }
      }
    }
  }

  /** The property-key path a discriminator string names. */
  function DiscriminatorPath(discriminator: string): (p: Path)
    ensures |p| == |Split(discriminator, '.')|
  {
    Segs(Split(discriminator, '.'))
  }

  /**
    `nestedGuard` in terms of the path the discriminator names: for every
    compared value it throws exactly when that path meets `null` before a
    step; otherwise it answers `true` exactly when no step starts from
    `undefined` and the value at the end is `===` to the compared value,
    which for a defined compared value is just the `===` test.
   */
  lemma NestedGuardIsWalk(obj: Value, discriminator: string, expected: Prim)
    ensures NestedGuard(obj, discriminator, expected).Failure? <==>
      exists i :: 0 <= i < |DiscriminatorPath(discriminator)| &&
        Walk(obj, DiscriminatorPath(discriminator)[..i]) == Leaf(Null)
    ensures NestedGuard(obj, discriminator, expected).Success? ==>
      (NestedGuard(obj, discriminator, expected).value <==>
        (forall i :: 0 <= i < |DiscriminatorPath(discriminator)| ==>
           Walk(obj, DiscriminatorPath(discriminator)[..i]) != Undef)
        && StrictEquals(Walk(obj, DiscriminatorPath(discriminator)), expected))
    ensures NestedGuard(obj, discriminator, expected).Success? && expected != Undefined ==>
      NestedGuard(obj, discriminator, expected).value ==
        StrictEquals(Walk(obj, DiscriminatorPath(discriminator)), expected)
  {
    var parts := Split(discriminator, '.');
    assert NestedGuard(obj, discriminator, expected) == Guard(obj, parts, expected);
    assert DiscriminatorPath(discriminator) == Segs(parts);
    GuardFaultIffNull(obj, parts, expected);
    if Guard(obj, parts, expected).Success? {
      GuardAnswer(obj, parts, expected);
      if expected != Undefined {
        GuardIsWalk(obj, parts, expected);
      }
    }
  }

  /** The discriminator "prop1.type" names the two keys "prop1" and "type". */
  lemma SplitTwo(a: string, b: string)
    requires '.' !in a && '.' !in b
    ensures Split(a + "." + b, '.') == [a, b]
  {
    SplitNoSep(b, '.');
    SplitAtSep(a, b, '.');
  }

  /** Reading the first property of a record. */
  lemma RecGetFirst(k: string, v: Value)
    ensures JsGet(Rec([(k, v)]), Key(k)) == Some(v)
  {
    assert Slot(Rec([(k, v)]), Key(k)) == Some(0);
  }

  /** `{ prop1: { type: t } }`, the shape the guard discriminates. */
  function Tagged(t: string): Value
  {
    Rec([("prop1", Rec([("type", Leaf(Str(t)))]))])
  }

  /** Walking "prop1" then "type" reaches the tag. */
  lemma GuardTagged(t: string, expected: Prim)
    ensures Guard(Tagged(t), ["prop1", "type"], expected) == Success(StrictEquals(Leaf(Str(t)), expected))
  {
    RecGetFirst("prop1", Rec([("type", Leaf(Str(t)))]));
    RecGetFirst("type", Leaf(Str(t)));
    assert ["prop1", "type"][1..] == ["type"];
  }

  lemma SplitTagPath()
    ensures Split("prop1.type", '.') == ["prop1", "type"]
  {
    assert "prop1.type" == "prop1" + "." + "type";
    SplitTwo("prop1", "type");
  }

  /** A matching and a non-matching discriminator value on a nested tag. */
  lemma NestedTagExample()
    ensures NestedGuard(Tagged("a"), "prop1.type", Str("a")) == Success(true)
    ensures NestedGuard(Tagged("a"), "prop1.type", Str("b")) == Success(false)
  {
    SplitTagPath();
    GuardTagged("a", Str("a"));
    GuardTagged("a", Str("b"));
  }

  /**
    Comparing with `undefined`: a path whose first step already reaches
    `undefined` answers `false`, while one whose last step does answers
    `true`, although both paths lead to `undefined`.
   */
  lemma UndefinedExpectedExample()
    ensures Walk(Rec([]), [Key("a"), Key("b")]) == Undef
    ensures NestedGuard(Rec([]), "a.b", Undefined) == Success(false)
    ensures Walk(Rec([("a", Rec([]))]), [Key("a"), Key("b")]) == Undef
    ensures NestedGuard(Rec([("a", Rec([]))]), "a.b", Undefined) == Success(true)
  {
    assert "a.b" == "a" + "." + "b";
    SplitTwo("a", "b");
    assert ["a", "b"][1..] == ["b"];
    assert [Key("a"), Key("b")][1..] == [Key("b")];
    RecGetFirst("a", Rec([]));
    WalkFromUndef([Key("b")]);
  }

  /** A `null` in the middle of the path throws rather than answering. */
  lemma NullMidPathExample()
    ensures NestedGuard(Rec([("a", Leaf(Null))]), "a.b", Num(1)) == Failure(TypeError)
  {
    assert "a.b" == "a" + "." + "b";
    SplitTwo("a", "b");
    assert ["a", "b"][1..] == ["b"];
    RecGetFirst("a", Leaf(Null));
  }
}
