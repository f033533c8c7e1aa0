/**
  `Merger.merge(target, source, removeExisting)`: merging one container
  into another in place.

  The steps run in the order the code runs them: the optional clearing of
  the target, then one of three shape-specific steps (array + array pushes
  the source elements, array + record pushes one `[key, value]` pair per
  source entry, record + array assigns the elements under the keys "0",
  "1", …), and finally an unconditional `Object.assign(target, source)`
  for every shape. That last step is what makes the array-target cases
  differ from a plain append: it also writes the source's own index
  properties over the first positions of an array target.
 */
module Merger {
  import opened Wrappers
  import opened Seqs
  import opened Fields
  import opened Values
  import opened Numerals
  import opened Access

  /** `handleReplace`: `target.length = 0` for an array, `delete` of every key for a record. */
  function Cleared(target: Value): (r: Value)
    requires IsObjectOrArray(target)
    ensures IsObjectOrArray(r) && r.Arr? == target.Arr? && |Entries(r)| == 0
  {
    if target.Arr? then Arr([]) else Rec([])
  }

  /** The own enumerable string-keyed properties `Object.assign` copies from an array: its indices. */
  function IndexProps(items: seq<Value>, offset: nat): (ps: seq<(string, Value)>)
    ensures |ps| == |items|
    ensures forall i :: 0 <= i < |items| ==> ps[i] == (NatToString(offset + i), items[i])
  {
    seq(|items|, i requires 0 <= i < |items| => (NatToString(offset + i), items[i]))
  }

  /** The own enumerable properties of a container, in enumeration order. */
  function OwnProps(v: Value): seq<(string, Value)>
    requires IsObjectOrArray(v)
  {
    match v
    case Arr(items) => IndexProps(items, 0)
    case Rec(fields) => fields
  }

  /** An `Object.entries` element: the two-element array `[key, value]`. */
  function EntryPair(k: string, v: Value): Value
  {
    Arr([Leaf(Str(k)), v])
  }

  function EntryPairs(fields: seq<(string, Value)>): (ps: seq<Value>)
    ensures |ps| == |fields|
    ensures forall i :: 0 <= i < |fields| ==> ps[i] == EntryPair(fields[i].0, fields[i].1)
  {
    seq(|fields|, i requires 0 <= i < |fields| => EntryPair(fields[i].0, fields[i].1))
  }

  /** `mergeArray`, `mergeObjectIntoArray` and `mergeArrayIntoObject`; records into records do nothing here. */
  function ShapeStep(target: Value, source: Value): (r: Value)
    requires IsObjectOrArray(target) && IsObjectOrArray(source)
    ensures IsObjectOrArray(r) && r.Arr? == target.Arr?
  {
    match (target, source)
    case (Arr(t), Arr(s)) => Arr(t + s)
    case (Arr(t), Rec(fs)) => Arr(t + EntryPairs(fs))
    case (Rec(fs), Arr(s)) => Rec(AssignAll(fs, IndexProps(s, 0)))
    case (Rec(_), Rec(_)) => target
  }

  /** `Object.assign(target, props)` as a sequence of property writes. */
  function AssignInto(target: Value, props: seq<(string, Value)>): (r: Value)
    requires IsObjectOrArray(target)
    ensures IsObjectOrArray(r) && r.Arr? == target.Arr?
    decreases |props|
  {
    if |props| == 0 then target
    else AssignInto(JsPut(target, Key(props[0].0), props[0].1).value, props[1..])
  }

  /** `Merger.merge`, as written: clear, shape-specific step, then the unconditional shallow assign. */
  function MergeValues(target: Value, source: Value, removeExisting: bool): (r: Value)
    requires IsObjectOrArray(target) && IsObjectOrArray(source)
    ensures IsObjectOrArray(r) && r.Arr? == target.Arr? && r.Rec? == target.Rec?
  {
    var t := if removeExisting then Cleared(target) else target;
    AssignInto(ShapeStep(t, source), OwnProps(source))
  }

  /** With `removeExisting` the target is emptied before anything is merged. */
  lemma {:induction false} MergeClearsFirst(target: Value, source: Value)
    requires IsObjectOrArray(target) && IsObjectOrArray(source)
    ensures MergeValues(target, source, true) == MergeValues(Cleared(target), source, false)
    ensures |Entries(Cleared(target))| == 0 && Cleared(target).Arr? == target.Arr?
  {
  }

  /** On a record, `Object.assign` is `AssignAll` on the property list. */
  lemma {:induction false} AssignIntoRecord(fs: seq<(string, Value)>, props: seq<(string, Value)>)
    ensures AssignInto(Rec(fs), props) == Rec(AssignAll(fs, props))
    decreases |props|
  {
    if |props| > 0 {
      AssignIntoRecord(Assign(fs, props[0].0, props[0].1), props[1..]);
    }
  }

  /** Index properties from `offset` on overwrite the array positions from `offset` on. */
  lemma {:induction false} AssignIndexProps(xs: seq<Value>, s: seq<Value>, offset: nat)
    requires offset + |s| <= |xs|
    ensures AssignInto(Arr(xs), IndexProps(s, offset)) == Arr(xs[..offset] + s + xs[offset + |s|..])
    decreases |s|
  {
    if |s| == 0 {
      SpliceNothing(xs, offset);
    } else {
      var xs' := xs[offset := s[0]];
      IndexPropStep(xs, s, offset);
      AssignIndexProps(xs', s[1..], offset + 1);
      SpliceStep(xs, s, offset);
    }
  }

  /** Splicing nothing in leaves the array as it was. */
  lemma SpliceNothing(xs: seq<Value>, offset: nat)
    requires offset <= |xs|
    ensures xs[..offset] + [] + xs[offset..] == xs
  {
    assert xs[..offset] + xs[offset..] == xs;
  }

  /** The first index property writes its array position. */
  lemma {:induction false} IndexPropStep(xs: seq<Value>, s: seq<Value>, offset: nat)
    requires |s| > 0 && offset + |s| <= |xs|
    ensures AssignInto(Arr(xs), IndexProps(s, offset)) == AssignInto(Arr(xs[offset := s[0]]), IndexProps(s[1..], offset + 1))
  {
    var ps := IndexProps(s, offset);
    var k := NatToString(offset);
    assert ps[0] == (k, s[0]);
    CanonicalIndexOfNat(offset);
    assert ArrayIndex(Key(k)) == Some(offset);
    var xs' := xs[offset := s[0]];
    assert WriteIndex(xs, offset, s[0]) == xs';
    assert JsPut(Arr(xs), Key(k), s[0]) == Success(Arr(xs'));
    assert ps[1..] == IndexProps(s[1..], offset + 1);
  }

  lemma {:induction false} SpliceStep(xs: seq<Value>, s: seq<Value>, offset: nat)
    requires |s| > 0 && offset + |s| <= |xs|
    ensures xs[offset := s[0]][..offset + 1] + s[1..] + xs[offset := s[0]][offset + 1 + |s[1..]|..]
         == xs[..offset] + s + xs[offset + |s|..]
  {
    var xs' := xs[offset := s[0]];
    assert xs'[..offset + 1] == xs[..offset] + [s[0]];
    assert [s[0]] + s[1..] == s;
  }

  /**
    Array into array, as written: the result has |t| + |s| elements; the
    first |s| positions hold the source (the shallow assign overwrites
    them), the rest hold `(t + s)[i]`.
   */
  lemma {:induction false} MergeArrays(t: seq<Value>, s: seq<Value>)
    ensures var r := MergeValues(Arr(t), Arr(s), false);
      r.Arr? && |r.items| == |t| + |s|
      && (forall i :: 0 <= i < |s| ==> r.items[i] == s[i])
      && (forall i :: |s| <= i < |t| + |s| ==> r.items[i] == (t + s)[i])
  {
    AssignIndexProps(t + s, s, 0);
    SpliceFront(t + s, s);
  }

  /** Splicing `s` in at the front of `xs`, over as many elements. */
  lemma {:induction false} SpliceFront(xs: seq<Value>, s: seq<Value>)
    requires |s| <= |xs|
    ensures var r := xs[..0] + s + xs[|s|..];
      |r| == |xs| && (forall i :: 0 <= i < |s| ==> r[i] == s[i]) && (forall i :: |s| <= i < |xs| ==> r[i] == xs[i])
  {
    assert xs[..0] == [];
  }

  /** Array into array with `removeExisting`: the target ends up equal to the source. */
  lemma {:induction false} MergeArraysReplacing(t: seq<Value>, s: seq<Value>)
    ensures MergeValues(Arr(t), Arr(s), true) == Arr(s)
  {
    AssignIndexProps([] + s, s, 0);
    assert ([] + s)[..0] + s + ([] + s)[|s|..] == s;
  }

  /** A property list none of whose names is an array index leaves an array's entries alone. */
  lemma {:induction false} AssignNonIndexProps(xs: seq<Value>, props: seq<(string, Value)>)
    requires forall i :: 0 <= i < |props| ==> CanonicalIndex(props[i].0).None?
    ensures AssignInto(Arr(xs), props) == Arr(xs)
    decreases |props|
  {
    if |props| > 0 {
      AssignNonIndexProps(xs, props[1..]);
    }
  }

  /**
    Record into array, as written: one `[key, value]` pair is pushed per
    source entry, in entry order; the shallow assign then only adds named
    properties, which entry enumeration does not show, when no source key
    is an array index.
   */
  lemma {:induction false} MergeRecordIntoArray(t: seq<Value>, fs: seq<(string, Value)>, removeExisting: bool)
    requires forall i :: 0 <= i < |fs| ==> CanonicalIndex(fs[i].0).None?
    ensures MergeValues(Arr(t), Rec(fs), removeExisting) == Arr((if removeExisting then [] else t) + EntryPairs(fs))
  {
    AssignNonIndexProps((if removeExisting then [] else t) + EntryPairs(fs), fs);
  }

  /**
    The value of the last property in `props` whose name is array index
    `m`: what `Object.assign` of `props` leaves at position `m`, if anything.
   */
  function LastIndexWrite(props: seq<(string, Value)>, m: nat): Option<Value>
    decreases |props|
  {
    if |props| == 0 then None
    else
      var rest := LastIndexWrite(props[1..], m);
      if rest.Some? then rest
      else if CanonicalIndex(props[0].0) == Some(m) then Some(props[0].1)
      else None
  }

  /** `LastIndexWrite` picks the last property that names index `m`, and fails only when none does. */
  lemma {:induction false} LastIndexWriteSpec(props: seq<(string, Value)>, m: nat)
    ensures LastIndexWrite(props, m).None? <==> forall i :: 0 <= i < |props| ==> CanonicalIndex(props[i].0) != Some(m)
    ensures LastIndexWrite(props, m).Some? ==>
      exists i :: 0 <= i < |props| && CanonicalIndex(props[i].0) == Some(m) && props[i].1 == LastIndexWrite(props, m).value
        && forall j :: i < j < |props| ==> CanonicalIndex(props[j].0) != Some(m)
    decreases |props|
  {
    if |props| > 0 {
      LastIndexWriteSpec(props[1..], m);
      assert forall j :: 1 <= j < |props| ==> props[j] == props[1..][j - 1];
      if LastIndexWrite(props[1..], m).Some? {
        var i :| 0 <= i < |props[1..]| && CanonicalIndex(props[1..][i].0) == Some(m)
          && props[1..][i].1 == LastIndexWrite(props, m).value
          && forall j :: i < j < |props[1..]| ==> CanonicalIndex(props[1..][j].0) != Some(m);
        assert props[i + 1] == props[1..][i];
      }
    }
  }

  /** What position `m` of the array `xs` holds after `Object.assign` of `props`. */
  function Written(xs: seq<Value>, props: seq<(string, Value)>, m: nat): Value
  {
    match LastIndexWrite(props, m)
    case Some(v) => v
    case None => if m < |xs| then xs[m] else Undef
  }

  /** One property write on an array, read at position `m` after the rest of the writes. */
  lemma {:induction false} WrittenStep(xs: seq<Value>, props: seq<(string, Value)>, m: nat)
    requires |props| > 0
    ensures JsPut(Arr(xs), Key(props[0].0), props[0].1).Success?
    ensures var xs' := JsPut(Arr(xs), Key(props[0].0), props[0].1).value.items;
      |xs| <= |xs'|
      && (|xs| < |xs'| ==> CanonicalIndex(props[0].0) == Some(|xs'| - 1))
      && (CanonicalIndex(props[0].0) == Some(m) ==> m < |xs'|)
      && Written(xs, props, m) == Written(xs', props[1..], m)
  {
  }

  /**
    `Object.assign` of a property list onto an array: position `m` holds
    the last value written under index `m`, or else what it held before
    (`undefined` for a hole); the array grows exactly as far as the
    largest index written.
   */
  lemma {:induction false} AssignIntoArray(xs: seq<Value>, props: seq<(string, Value)>)
    ensures AssignInto(Arr(xs), props).Arr?
    ensures var ys := AssignInto(Arr(xs), props).items;
      |xs| <= |ys|
      && (|xs| < |ys| ==> LastIndexWrite(props, |ys| - 1).Some?)
      && (forall m: nat :: LastIndexWrite(props, m).Some? ==> m < |ys|)
      && (forall m :: 0 <= m < |ys| ==> ys[m] == Written(xs, props, m))
    decreases |props|
  {
    if |props| > 0 {
      var xs' := JsPut(Arr(xs), Key(props[0].0), props[0].1).value.items;
      AssignIntoArray(xs', props[1..]);
      var ys := AssignInto(Arr(xs), props).items;
      assert ys == AssignInto(Arr(xs'), props[1..]).items;
      forall m: nat
        ensures |xs| <= |xs'| && (|xs| < |xs'| ==> CanonicalIndex(props[0].0) == Some(|xs'| - 1))
        ensures CanonicalIndex(props[0].0) == Some(m) ==> m < |xs'|
        ensures Written(xs, props, m) == Written(xs', props[1..], m)
      {
        WrittenStep(xs, props, m);
      }
    }
  }

  /**
    Record into array, for any record: the `[key, value]` pairs are pushed,
    and then every source key that is an array index writes its value at
    that position, the last such key winning and holes reading `undefined`.
   */
  lemma {:induction false} MergeRecordIntoArrayIndexed(t: seq<Value>, fs: seq<(string, Value)>, removeExisting: bool)
    ensures var r := MergeValues(Arr(t), Rec(fs), removeExisting);
      var base := (if removeExisting then [] else t) + EntryPairs(fs);
      r.Arr? && |base| <= |r.items|
      && (|base| < |r.items| ==> LastIndexWrite(fs, |r.items| - 1).Some?)
      && (forall m :: 0 <= m < |r.items| ==> r.items[m] == Written(base, fs, m))
  {
    AssignIntoArray((if removeExisting then [] else t) + EntryPairs(fs), fs);
  }

  /** `[1]` merged with `{"0": "x"}` has its first element overwritten as well as the pair pushed. */
  lemma {:induction false} MergeIndexKeyExample()
    ensures MergeValues(Arr([Leaf(Num(1))]), Rec([("0", Leaf(Str("x")))]), false)
         == Arr([Leaf(Str("x")), Arr([Leaf(Str("0")), Leaf(Str("x"))])])
  {
    assert CanonicalIndex("0") == Some(0) by {
      assert NatToString(0) == "0";
      CanonicalIndexOfNat(0);
    }
  }

  /**
    Record into record: source keys take the source's value, the target's
    other keys keep theirs, and nothing else is added.
   */
  lemma {:induction false} MergeRecords(t: seq<(string, Value)>, s: seq<(string, Value)>, k: string)
    requires DistinctKeys(s)
    ensures MergeValues(Rec(t), Rec(s), false).Rec?
    ensures Lookup(MergeValues(Rec(t), Rec(s), false).fields, k)
         == if k in Keys(s) then Lookup(s, k) else Lookup(t, k)
    ensures k in Keys(MergeValues(Rec(t), Rec(s), false).fields) <==> k in Keys(t) || k in Keys(s)
  {
    AssignIntoRecord(t, s);
    AssignAllLookup(t, s, k);
    AssignAllKeys(t, s);
  }

  /** Record into record with `removeExisting`: the target ends up with exactly the source's entries. */
  lemma {:induction false} MergeRecordsReplacing(t: seq<(string, Value)>, s: seq<(string, Value)>)
    requires DistinctKeys(s)
    ensures MergeValues(Rec(t), Rec(s), true) == Rec(s)
  {
    AssignIntoRecord([], s);
    AssignAllIntoEmpty(s);
  }

  lemma {:induction false} IndexPropsDistinct(s: seq<Value>, offset: nat)
    ensures DistinctKeys(IndexProps(s, offset))
  {
    var ps := IndexProps(s, offset);
    forall i, j | 0 <= i < j < |ps|
      ensures ps[i].0 != ps[j].0
    {
      if ps[i].0 == ps[j].0 {
        NatToStringInjective(offset + i, offset + j);
      }
    }
  }

  /** `k` is the name of one of the first `n` array indices. */
  predicate IsIndexBelow(k: string, n: nat)
  {
    CanonicalIndex(k).Some? && CanonicalIndex(k).value < n
  }

  lemma {:induction false} IndexPropsKeys(s: seq<Value>, k: string)
    ensures k in Keys(IndexProps(s, 0)) <==> IsIndexBelow(k, |s|)
  {
    var ps := IndexProps(s, 0);
    if k in Keys(ps) {
      var i :| 0 <= i < |ps| && Keys(ps)[i] == k;
      CanonicalIndexOfNat(i);
    }
    if IsIndexBelow(k, |s|) {
      var i := CanonicalIndex(k).value;
      NatOfCanonicalIndex(k);
      assert Keys(ps)[i] == k;
    }
  }

  lemma {:induction false} IndexPropsLookup(s: seq<Value>, i: nat)
    requires i < |s|
    ensures Lookup(IndexProps(s, 0), NatToString(i)) == Some(s[i])
  {
    IndexPropsDistinct(s, 0);
    LookupAt(IndexProps(s, 0), i);
  }

  /**
    Array into record: key "i" holds `s[i]` for every index, overriding an
    existing "i"; every other key keeps the target's value.
   */
  lemma {:induction false} MergeArrayIntoRecord(t: seq<(string, Value)>, s: seq<Value>)
    ensures MergeValues(Rec(t), Arr(s), false).Rec?
    ensures forall i :: 0 <= i < |s| ==> Lookup(MergeValues(Rec(t), Arr(s), false).fields, NatToString(i)) == Some(s[i])
    ensures forall k :: !IsIndexBelow(k, |s|) ==> Lookup(MergeValues(Rec(t), Arr(s), false).fields, k) == Lookup(t, k)
  {
    var ps := IndexProps(s, 0);
    IndexPropsDistinct(s, 0);
    var once := AssignAll(t, ps);
    AssignIntoRecord(once, ps);
    var r := MergeValues(Rec(t), Arr(s), false);
    assert r == Rec(AssignAll(once, ps));
    forall i | 0 <= i < |s|
      ensures Lookup(r.fields, NatToString(i)) == Some(s[i])
    {
      IndexPropsKeys(s, NatToString(i));
      CanonicalIndexOfNat(i);
      AssignAllLookup(once, ps, NatToString(i));
      IndexPropsLookup(s, i);
    }
    forall k | !IsIndexBelow(k, |s|)
      ensures Lookup(r.fields, k) == Lookup(t, k)
    {
      IndexPropsKeys(s, k);
      AssignAllLookup(once, ps, k);
      AssignAllLookup(t, ps, k);
    }
  }

  /** `[2, 1, null, null]` merged with `["val1", "val2"]` gives `["val1", "val2", null, null, "val1", "val2"]`. */
  lemma {:induction false} MergeArraysExample()
    ensures MergeValues(
      Arr([Leaf(Num(2)), Leaf(Num(1)), Leaf(Null), Leaf(Null)]),
      Arr([Leaf(Str("val1")), Leaf(Str("val2"))]), false)
      == Arr([Leaf(Str("val1")), Leaf(Str("val2")), Leaf(Null), Leaf(Null), Leaf(Str("val1")), Leaf(Str("val2"))])
  {
    var t := [Leaf(Num(2)), Leaf(Num(1)), Leaf(Null), Leaf(Null)];
    var s := [Leaf(Str("val1")), Leaf(Str("val2"))];
    AssignIndexProps(t + s, s, 0);
    assert (t + s)[..0] + s + (t + s)[|s|..]
        == [Leaf(Str("val1")), Leaf(Str("val2")), Leaf(Null), Leaf(Null), Leaf(Str("val1")), Leaf(Str("val2"))];
  }

  /** `[2, 1, null, null]` merged with `{prop1: "prop1Value"}` gains the element `["prop1", "prop1Value"]`. */
  lemma {:induction false} MergeRecordIntoArrayExample()
    ensures MergeValues(
      Arr([Leaf(Num(2)), Leaf(Num(1)), Leaf(Null), Leaf(Null)]),
      Rec([("prop1", Leaf(Str("prop1Value")))]), false)
      == Arr([Leaf(Num(2)), Leaf(Num(1)), Leaf(Null), Leaf(Null),
              Arr([Leaf(Str("prop1")), Leaf(Str("prop1Value"))])])
  {
    var fs := [("prop1", Leaf(Str("prop1Value")))];
    assert CanonicalIndex(fs[0].0).None? by { assert !IsDigit(fs[0].0[0]); }
    MergeRecordIntoArray([Leaf(Num(2)), Leaf(Num(1)), Leaf(Null), Leaf(Null)], fs, false);
  }

  /**
    The merge the traversal tests expect: an array target gains the source
    after its own elements (its elements when the source is an array, the
    record itself as one element otherwise), and the shallow assign is
    applied to record targets only.
   */
  function MergeIntended(target: Value, source: Value, removeExisting: bool): (r: Value)
    requires IsObjectOrArray(target) && IsObjectOrArray(source)
    ensures IsObjectOrArray(r) && r.Arr? == target.Arr? && r.Rec? == target.Rec?
  {
    var t := if removeExisting then Cleared(target) else target;
    match (t, source)
    case (Arr(xs), Arr(s)) => Arr(xs + s)
    case (Arr(xs), Rec(_)) => Arr(xs + [source])
    case (Rec(_), _) => AssignInto(ShapeStep(t, source), OwnProps(source))
  }

  /** Intended, array into array: the target's elements stay in front and the source follows. */
  lemma {:induction false} MergeIntendedArrays(t: seq<Value>, s: seq<Value>, removeExisting: bool)
    ensures var kept := if removeExisting then [] else t;
      var r := MergeIntended(Arr(t), Arr(s), removeExisting);
      r.Arr? && |r.items| == |kept| + |s|
      && r.items[..|kept|] == kept && r.items[|kept|..] == s
  {
  }

  /** Intended, record into array: exactly one element more, the source record itself. */
  lemma {:induction false} MergeIntendedRecordIntoArray(t: seq<Value>, fs: seq<(string, Value)>, removeExisting: bool)
    ensures var kept := if removeExisting then [] else t;
      var r := MergeIntended(Arr(t), Rec(fs), removeExisting);
      r.Arr? && |r.items| == |kept| + 1
      && r.items[..|kept|] == kept && r.items[|kept|] == Rec(fs)
  {
  }

  /** The correction only concerns array targets: into a record, both merges agree. */
  lemma {:induction false} MergeIntendedRecordTargets(t: seq<(string, Value)>, source: Value, removeExisting: bool)
    requires IsObjectOrArray(source)
    ensures MergeIntended(Rec(t), source, removeExisting) == MergeValues(Rec(t), source, removeExisting)
  {
  }

  /**
    As written, array into array agrees with the intended merge exactly
    when overwriting the first `|s|` positions with the source changes
    nothing.
   */
  lemma {:induction false} MergeArraysIntendedIff(t: seq<Value>, s: seq<Value>)
    ensures MergeValues(Arr(t), Arr(s), false) == MergeIntended(Arr(t), Arr(s), false)
      <==> forall i :: 0 <= i < |s| ==> (t + s)[i] == s[i]
  {
    MergeArrays(t, s);
    var r := MergeValues(Arr(t), Arr(s), false).items;
    if forall i :: 0 <= i < |s| ==> (t + s)[i] == s[i] {
      assert r == t + s;
    } else {
      var i :| 0 <= i < |s| && (t + s)[i] != s[i];
      assert r[i] != (t + s)[i];
    }
  }

  /**
    As written, record into array never gives the intended result when no
    source key is an array index: pairs are pushed where the record was meant.
   */
  lemma {:induction false} MergeRecordIntoArrayNeverIntended(t: seq<Value>, fs: seq<(string, Value)>, removeExisting: bool)
    requires forall i :: 0 <= i < |fs| ==> CanonicalIndex(fs[i].0).None?
    ensures MergeValues(Arr(t), Rec(fs), removeExisting) != MergeIntended(Arr(t), Rec(fs), removeExisting)
  {
    var kept := if removeExisting then [] else t;
    MergeRecordIntoArray(t, fs, removeExisting);
    if |fs| == 1 {
      assert (kept + EntryPairs(fs))[|kept|] == EntryPair(fs[0].0, fs[0].1);
      assert (kept + [Rec(fs)])[|kept|] == Rec(fs);
    } else {
      assert |kept + EntryPairs(fs)| != |kept + [Rec(fs)]|;
    }
  }

  /**
    The intended merge gives the node values the traversal tests expect:
    `[2, 1, null, null, "val1", "val2"]` and
    `[2, 1, null, null, {prop1: "prop1Value"}]`.
   */
  lemma {:induction false} MergeIntendedTestTrees()
    ensures MergeIntended(
      Arr([Leaf(Num(2)), Leaf(Num(1)), Leaf(Null), Leaf(Null)]),
      Arr([Leaf(Str("val1")), Leaf(Str("val2"))]), false)
      == Arr([Leaf(Num(2)), Leaf(Num(1)), Leaf(Null), Leaf(Null), Leaf(Str("val1")), Leaf(Str("val2"))])
    ensures MergeIntended(
      Arr([Leaf(Num(2)), Leaf(Num(1)), Leaf(Null), Leaf(Null)]),
      Rec([("prop1", Leaf(Str("prop1Value")))]), false)
      == Arr([Leaf(Num(2)), Leaf(Num(1)), Leaf(Null), Leaf(Null), Rec([("prop1", Leaf(Str("prop1Value")))])])
  {
  }
}
