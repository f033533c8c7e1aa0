/**
  `partitionObjByKey(obj, keys)`: splits an object's properties into the
  ones whose key is listed (`picked`) and the others (`remaining`),
  visiting properties in enumeration order; function-valued properties
  go to neither side.
 */
module PartitionObj {
  import opened Wrappers
  import opened Seqs
  import opened Fields
  import opened Values

  datatype Halves = Halves(picked: seq<(string, Value)>, remaining: seq<(string, Value)>)

  /** One iteration of the `for ... in` loop. */
  function Visit(h: Halves, keys: seq<string>, e: (string, Value)): Halves
  {
    if TypeOf(e.1) == "function" then h
    else if e.0 in keys then h.(picked := Assign(h.picked, e.0, e.1))
    else h.(remaining := Assign(h.remaining, e.0, e.1))
  }

  /** The two objects after the loop has visited the properties of `obj`, starting from two empty objects. */
  function PartitionObjByKey(obj: seq<(string, Value)>, keys: seq<string>): Halves
    decreases |obj|
  {
    if |obj| == 0 then Halves([], [])
    else Visit(PartitionObjByKey(obj[..|obj| - 1], keys), keys, obj[|obj| - 1])
  }

  /** A non-function property whose key is listed. */
  function IsPicked(keys: seq<string>): ((string, Value)) -> bool
  {
    (e: (string, Value)) => TypeOf(e.1) != "function" && e.0 in keys
  }

  /** A non-function property whose key is not listed. */
  function IsRemaining(keys: seq<string>): ((string, Value)) -> bool
  {
    (e: (string, Value)) => TypeOf(e.1) != "function" && e.0 !in keys
  }

  lemma {:induction false} PrefixDistinct(obj: seq<(string, Value)>)
    requires |obj| > 0 && DistinctKeys(obj)
    ensures DistinctKeys(obj[..|obj| - 1])
    ensures obj[|obj| - 1].0 !in Keys(obj[..|obj| - 1])
  {
  }

  /** Writing the last property onto one side of the filtered prefix appends it there. */
  lemma {:induction false} VisitLast(obj: seq<(string, Value)>, keys: seq<string>)
    requires |obj| > 0 && DistinctKeys(obj)
    ensures Visit(Halves(Filter(obj[..|obj| - 1], IsPicked(keys)), Filter(obj[..|obj| - 1], IsRemaining(keys))), keys, obj[|obj| - 1])
         == Halves(Filter(obj, IsPicked(keys)), Filter(obj, IsRemaining(keys)))
  {
    var init, e := obj[..|obj| - 1], obj[|obj| - 1];
    PrefixDistinct(obj);
    FilterDistinct(init, IsPicked(keys));
    FilterDistinct(init, IsRemaining(keys));
    InitLast(obj);
    FilterAppend(init, [e], IsPicked(keys));
    FilterAppend(init, [e], IsRemaining(keys));
    FilterSingle(e, IsPicked(keys));
    FilterSingle(e, IsRemaining(keys));
    if TypeOf(e.1) != "function" {
      if e.0 in keys {
        AssignNew(Filter(init, IsPicked(keys)), e.0, e.1);
      } else {
        AssignNew(Filter(init, IsRemaining(keys)), e.0, e.1);
      }
    }
  }

  /**
    The loop keeps properties in enumeration order: `picked` is the listed
    non-function properties of `obj`, `remaining` the unlisted ones.
   */
  lemma {:induction false} PartitionObjFilters(obj: seq<(string, Value)>, keys: seq<string>)
    requires DistinctKeys(obj)
    ensures PartitionObjByKey(obj, keys).picked == Filter(obj, IsPicked(keys))
    ensures PartitionObjByKey(obj, keys).remaining == Filter(obj, IsRemaining(keys))
    decreases |obj|
  {
    if |obj| > 0 {
      PrefixDistinct(obj);
      PartitionObjFilters(obj[..|obj| - 1], keys);
      VisitLast(obj, keys);
    }
  }

  /**
    Reading a key of either output: `picked` has exactly the listed
    non-function properties of `obj` and `remaining` exactly the unlisted
    ones, with their values unchanged; both are objects again.
   */
  lemma {:induction false} PartitionObjLookup(obj: seq<(string, Value)>, keys: seq<string>, k: string)
    requires DistinctKeys(obj)
    ensures Lookup(PartitionObjByKey(obj, keys).picked, k)
         == match Lookup(obj, k) case Some(v) => (if TypeOf(v) != "function" && k in keys then Some(v) else None) case None => None
    ensures Lookup(PartitionObjByKey(obj, keys).remaining, k)
         == match Lookup(obj, k) case Some(v) => (if TypeOf(v) != "function" && k !in keys then Some(v) else None) case None => None
    ensures DistinctKeys(PartitionObjByKey(obj, keys).picked) && DistinctKeys(PartitionObjByKey(obj, keys).remaining)
  {
    PartitionObjFilters(obj, keys);
    FilterLookup(obj, IsPicked(keys), k);
    FilterLookup(obj, IsRemaining(keys), k);
    FilterDistinct(obj, IsPicked(keys));
    FilterDistinct(obj, IsRemaining(keys));
  }

  /**
    The two outputs share no key, together hold every non-function
    property of `obj`, and a function-valued property is in neither.
   */
  lemma {:induction false} PartitionObjCovers(obj: seq<(string, Value)>, keys: seq<string>, k: string)
    requires DistinctKeys(obj)
    ensures !(k in Keys(PartitionObjByKey(obj, keys).picked) && k in Keys(PartitionObjByKey(obj, keys).remaining))
    ensures forall v :: Lookup(obj, k) == Some(v) && TypeOf(v) != "function" ==>
              Lookup(PartitionObjByKey(obj, keys).picked, k) == Some(v) || Lookup(PartitionObjByKey(obj, keys).remaining, k) == Some(v)
    ensures forall v :: Lookup(obj, k) == Some(v) && TypeOf(v) == "function" ==>
              k !in Keys(PartitionObjByKey(obj, keys).picked) && k !in Keys(PartitionObjByKey(obj, keys).remaining)
  {
    PartitionObjLookup(obj, keys, k);
  }

  /** With no keys listed nothing is picked, and `remaining` is `obj` without its function-valued properties. */
  lemma {:induction false} PartitionObjNoKeys(obj: seq<(string, Value)>)
    requires DistinctKeys(obj)
    ensures PartitionObjByKey(obj, []).picked == []
    ensures PartitionObjByKey(obj, []).remaining == Filter(obj, IsRemaining([]))
    ensures (forall i :: 0 <= i < |obj| ==> TypeOf(obj[i].1) != "function") ==> PartitionObjByKey(obj, []).remaining == obj
  {
    PartitionObjFilters(obj, []);
    FilterNone(obj, IsPicked([]));
    if forall i :: 0 <= i < |obj| ==> TypeOf(obj[i].1) != "function" {
      FilterAll(obj, IsRemaining([]));
    }
  }
}
