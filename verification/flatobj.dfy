/**
  `flatObj(obj, key)` and its helper `pullDown(obj, key)`: the property
  `key` of a record is pulled down into the record. A nested object is
  spread over the rest of the record; a nested array gives one record per
  element; anything else leaves the record as it is. On an array of
  records the per-record results are concatenated one level deep.
 */
module FlatObj {
  import opened Wrappers
  import opened Seqs
  import opened Fields
  import opened Values
  import opened Numerals

  type Record = seq<(string, Value)>

  /** A single record or an array of records, as `flatObj` accepts and `pullDown` returns. */
  datatype Shape = One(rec: Record) | Many(recs: seq<Record>)

  /**
    The own enumerable properties object spread copies: a record's fields,
    an opaque object's own properties, an array's elements under their
    index names.
   */
  function OwnProps(v: Value): Record
  {
    match v
    case Rec(fields) => fields
    case Opaque(_, props) => props
    case Arr(items) => seq(|items|, i requires 0 <= i < |items| => (NatToString(i), items[i]))
    case Leaf(_) => []
  }

  /** `typeof v === "object" && v !== null`. */
  predicate IsObject(v: Value)
  {
    TypeOf(v) == "object" && v != Leaf(Null)
  }

  /** `{ ...rest, ...v }` where `rest` is `obj` without `key`. */
  function Spread(obj: Record, key: string, v: Value): Record
  {
    AssignAll(Remove(obj, key), OwnProps(v))
  }

  /** The record made from one element of the nested array. */
  function PullElement(obj: Record, key: string, item: Value): Record
  {
    if IsObject(item) then Spread(obj, key, item) else Assign(Remove(obj, key), key, item)
  }

  /** `pullDown(obj, key)`. */
  function PullDown(obj: Record, key: string): Shape
  {
    match Lookup(obj, key)
    case None => One(obj)
    case Some(c) =>
      if c.Arr? then Many(seq(|c.items|, i requires 0 <= i < |c.items| => PullElement(obj, key, c.items[i])))
      else if IsObject(c) then One(Spread(obj, key, c))
      else One(obj)
  }

  /** The records a `pullDown` result contributes to `.flat()`. */
  function Records(s: Shape): seq<Record>
  {
    match s
    case One(r) => [r]
    case Many(rs) => rs
  }

  /** `flatObj(obj, key)`: `pullDown` on a record, `map(pullDown).flat()` on an array of records. */
  function FlatObj(obj: Shape, key: string): Shape
  {
    match obj
    case One(r) => PullDown(r, key)
    case Many(rs) => Many(Flatten(Parts(rs, key)))
  }

  /** `rs.map(singleObj => pullDown(singleObj, key))`, each result as the records it contributes. */
  function Parts(rs: seq<Record>, key: string): (ps: seq<seq<Record>>)
    ensures |ps| == |rs|
  {
    seq(|rs|, i requires 0 <= i < |rs| => Records(PullDown(rs[i], key)))
  }

  lemma {:induction false} PartsAppend(a: seq<Record>, b: seq<Record>, key: string)
    ensures Parts(a + b, key) == Parts(a, key) + Parts(b, key)
  {
    forall i | 0 <= i < |a| + |b|
      ensures Parts(a + b, key)[i] == (Parts(a, key) + Parts(b, key))[i]
    {
      if i < |a| {
        assert (a + b)[i] == a[i];
      } else {
        assert (a + b)[i] == b[i - |a|];
      }
    }
  }

  /** Index names are distinct, and object properties are distinct in a well-formed value. */
  lemma {:induction false} OwnPropsDistinct(v: Value)
    requires WellFormed(v)
    ensures DistinctKeys(OwnProps(v))
  {
    if v.Arr? {
      forall i, j | 0 <= i < j < |v.items|
        ensures NatToString(i) != NatToString(j)
      {
        DigitsOfNat(i);
        DigitsOfNat(j);
      }
    }
  }

  /**
    Spreading a nested object over the rest of the record: its properties
    win, the pulled key is gone unless the nested object supplies it, and
    every other property of the record stays.
   */
  lemma {:induction false} SpreadLookup(obj: Record, key: string, v: Value, k: string)
    requires WellFormed(v)
    ensures Lookup(Spread(obj, key, v), k)
         == if k in Keys(OwnProps(v)) then Lookup(OwnProps(v), k) else if k == key then None else Lookup(obj, k)
  {
    OwnPropsDistinct(v);
    AssignAllLookup(Remove(obj, key), OwnProps(v), k);
    RemoveLookup(obj, key, k);
  }

  /** A record whose key holds no object (a primitive, `null`, a function or nothing) comes back unchanged. */
  lemma {:induction false} PullDownUnchanged(obj: Record, key: string)
    requires Lookup(obj, key).None? || !IsObject(Lookup(obj, key).value)
    ensures PullDown(obj, key) == One(obj)
  {
  }

  /** A record whose key holds a non-array object becomes one record: the nested object spread over the rest. */
  lemma {:induction false} PullDownObject(obj: Record, key: string, k: string)
    requires Lookup(obj, key).Some? && IsObject(Lookup(obj, key).value) && !Lookup(obj, key).value.Arr?
    requires WellFormed(Lookup(obj, key).value)
    ensures PullDown(obj, key).One?
    ensures Lookup(PullDown(obj, key).rec, k)
         == if k in Keys(OwnProps(Lookup(obj, key).value)) then Lookup(OwnProps(Lookup(obj, key).value), k)
            else if k == key then None else Lookup(obj, k)
  {
    SpreadLookup(obj, key, Lookup(obj, key).value, k);
  }

  /**
    A record whose key holds an array becomes one record per element, in
    order: an object element spread over the rest of the record, any other
    element stored back under the key.
   */
  lemma {:induction false} PullDownArray(obj: Record, key: string, i: nat, k: string)
    requires Lookup(obj, key).Some? && Lookup(obj, key).value.Arr?
    requires i < |Lookup(obj, key).value.items| && WellFormed(Lookup(obj, key).value.items[i])
    ensures PullDown(obj, key).Many? && |PullDown(obj, key).recs| == |Lookup(obj, key).value.items|
    ensures var item := Lookup(obj, key).value.items[i];
      Lookup(PullDown(obj, key).recs[i], k)
        == if IsObject(item) then (if k in Keys(OwnProps(item)) then Lookup(OwnProps(item), k) else if k == key then None else Lookup(obj, k))
           else if k == key then Some(item) else Lookup(obj, k)
  {
    var item := Lookup(obj, key).value.items[i];
    if IsObject(item) {
      SpreadLookup(obj, key, item, k);
    } else {
      RemoveLookup(obj, key, k);
    }
  }

  /** On arrays of records, `flatObj` distributes over concatenation. */
  lemma {:induction false} FlatObjAppend(a: seq<Record>, b: seq<Record>, key: string)
    ensures FlatObj(Many(a + b), key).recs == FlatObj(Many(a), key).recs + FlatObj(Many(b), key).recs
  {
    PartsAppend(a, b, key);
    FlattenAppend(Parts(a, key), Parts(b, key));
  }

  /** On a one-record array, `flatObj` gives that record's `pullDown` records. */
  lemma {:induction false} FlatObjSingle(r: Record, key: string)
    ensures FlatObj(Many([r]), key).recs == Records(PullDown(r, key))
  {
    var parts := Parts([r], key);
    assert parts == [Records(PullDown(r, key))];
    assert Flatten(parts) == Records(PullDown(r, key)) + Flatten(parts[1..]);
    assert parts[1..] == [];
  }
}
