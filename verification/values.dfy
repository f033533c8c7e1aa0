/**
  The JavaScript values the tree walker sees, and its node classifier.

  A tree is a finite value without sharing: primitives, opaque built-ins
  (Date, RegExp, Error, Buffer, Set, Map, functions) that may carry their own
  enumerable properties but are never descended into, arrays and plain
  records. Records (and the properties of opaque objects) are ordered
  property lists in enumeration order.
 */
module Values {
  import opened Wrappers
  import opened Seqs
  import opened Fields

  datatype Prim = Undefined | Null | Bool(b: bool) | Num(n: int) | Str(s: string)

  /** The host classes whose instances are never matched as plain containers. */
  datatype OpaqueKind = Date | RegExp | Error | Buffer | SetObj | MapObj | FunctionObj

  datatype Value =
    | Leaf(p: Prim)
    | Opaque(kind: OpaqueKind, props: seq<(string, Value)>)
    | Arr(items: seq<Value>)
    | Rec(fields: seq<(string, Value)>)

  const Undef := Leaf(Undefined)

  /** A path segment: a property name or a numeric index. */
  datatype Seg = Key(k: string) | Idx(i: int)

  type Path = seq<Seg>

  /** JavaScript's `typeof`. */
  function TypeOf(v: Value): string
  {
    match v
    case Leaf(Undefined) => "undefined"
    case Leaf(Null) => "object"
    case Leaf(Bool(_)) => "boolean"
    case Leaf(Num(_)) => "number"
    case Leaf(Str(_)) => "string"
    case Opaque(FunctionObj, _) => "function"
    case _ => "object"
  }

  /** `value instanceof` one of Date, RegExp, Error, Buffer, Set, Map, Function. */
  predicate NotMatchable(v: Value)
  {
    v.Opaque?
  }

  /**
    `isObjectOrArray`: `typeof value === "object"`, not null, and not an
    instance of an opaque built-in. Exactly the arrays and plain records.
   */
  predicate IsObjectOrArray(v: Value)
    ensures IsObjectOrArray(v) <==> v.Arr? || v.Rec?
  {
    TypeOf(v) == "object" && v != Leaf(Null) && !NotMatchable(v)
  }

  /** `Array.isArray`. */
  predicate IsArray(v: Value)
  {
    v.Arr?
  }

  /**
    `getEntriesOfObjectOrArray`: `array.entries()` gives (index, element)
    pairs in index order, `Object.entries` gives (key, value) pairs in
    enumeration order.
   */
  function Entries(v: Value): (es: seq<(Seg, Value)>)
    requires IsObjectOrArray(v)
    ensures v.Arr? ==> |es| == |v.items|
    ensures v.Rec? ==> |es| == |v.fields|
  {
    match v
    case Arr(items) => seq(|items|, i requires 0 <= i < |items| => (Idx(i), items[i]))
    case Rec(fields) => seq(|fields|, i requires 0 <= i < |fields| => (Key(fields[i].0), fields[i].1))
  }

  /** `getValuesOfObjectOrArray`: the array itself, or `Object.values`. */
  function ValuesOf(v: Value): (vs: seq<Value>)
    requires IsObjectOrArray(v)
  {
    match v
    case Arr(items) => items
    case Rec(fields) => seq(|fields|, i requires 0 <= i < |fields| => fields[i].1)
  }

  /** The values of a container are the second components of its entries, in order. */
  lemma {:induction false} ValuesAreEntrySeconds(v: Value)
    requires IsObjectOrArray(v)
    ensures |ValuesOf(v)| == |Entries(v)|
    ensures forall i :: 0 <= i < |Entries(v)| ==> ValuesOf(v)[i] == Entries(v)[i].1
  {
  }

  /** Array entries are (Idx(i), items[i]); record entries are (Key(k), value) in property order. */
  lemma {:induction false} EntriesShape(v: Value)
    requires IsObjectOrArray(v)
    ensures v.Arr? ==> forall i :: 0 <= i < |v.items| ==> Entries(v)[i] == (Idx(i), v.items[i])
    ensures v.Rec? ==> forall i :: 0 <= i < |v.fields| ==> Entries(v)[i] == (Key(v.fields[i].0), v.fields[i].1)
  {
  }

  /** `children`: the composite values of a container, in entry order. */
  function CompositeChildren(v: Value): (cs: seq<Value>)
    requires IsObjectOrArray(v)
    ensures forall c :: c in cs ==> IsObjectOrArray(c) && c in ValuesOf(v)
    ensures forall c :: c in ValuesOf(v) && IsObjectOrArray(c) ==> c in cs
  {
    Filter(ValuesOf(v), IsObjectOrArray)
  }

  /** Every record and every opaque object has distinct property names, at every depth. */
  predicate WellFormed(v: Value)
  {
    match v
    case Leaf(_) => true
    case Opaque(_, props) => DistinctKeys(props) && forall i :: 0 <= i < |props| ==> WellFormed(props[i].1)
    case Arr(items) => forall i :: 0 <= i < |items| ==> WellFormed(items[i])
    case Rec(fields) => DistinctKeys(fields) && forall i :: 0 <= i < |fields| ==> WellFormed(fields[i].1)
  }

  /** Number of nodes; the termination measure of the traversals. */
  function Size(v: Value): (n: nat)
    ensures n >= 1
  {
    match v
    case Leaf(_) => 1
    case Opaque(_, _) => 1
    case Arr(items) => 1 + Sum(seq(|items|, i requires 0 <= i < |items| => Size(items[i])))
    case Rec(fields) => 1 + Sum(seq(|fields|, i requires 0 <= i < |fields| => Size(fields[i].1)))
  }

  /** Total size of the values of a list of entries. */
  function EntriesWeight(es: seq<(Seg, Value)>): nat
  {
    Sum(EntrySizes(es))
  }

  lemma {:induction false} SizeIsEntriesWeight(v: Value)
    requires IsObjectOrArray(v)
    ensures Size(v) == 1 + EntriesWeight(Entries(v))
  {
    var es := Entries(v);
    match v
    case Arr(items) =>
      assert EntrySizes(es) == seq(|items|, i requires 0 <= i < |items| => Size(items[i]));
    case Rec(fields) =>
      assert EntrySizes(es) == seq(|fields|, i requires 0 <= i < |fields| => Size(fields[i].1));
  }

  function EntrySizes(es: seq<(Seg, Value)>): (ns: seq<nat>)
    ensures |ns| == |es|
    ensures forall i :: 0 <= i < |es| ==> ns[i] == Size(es[i].1)
  {
    seq(|es|, i requires 0 <= i < |es| => Size(es[i].1))
  }

  lemma {:induction false} EntriesWeightAppend(a: seq<(Seg, Value)>, b: seq<(Seg, Value)>)
    ensures EntriesWeight(a + b) == EntriesWeight(a) + EntriesWeight(b)
  {
    assert EntrySizes(a + b) == EntrySizes(a) + EntrySizes(b);
    SumAppend(EntrySizes(a), EntrySizes(b));
  }

  lemma {:induction false} EntriesWeightCons(e: (Seg, Value), es: seq<(Seg, Value)>)
    ensures EntriesWeight([e] + es) == Size(e.1) + EntriesWeight(es)
  {
    assert EntrySizes([e] + es) == [Size(e.1)] + EntrySizes(es);
  }

  /** JavaScript's falsy values among the ones modelled: undefined, null, false, 0 and "". */
  predicate Falsy(v: Value)
  {
    v == Leaf(Undefined) || v == Leaf(Null) || v == Leaf(Bool(false)) || v == Leaf(Num(0)) || v == Leaf(Str(""))
  }

  /** Strict equality `===` on primitives; objects are never equal to a primitive. */
  predicate StrictEquals(v: Value, p: Prim)
  {
    v.Leaf? && v.p == p
  }
}
