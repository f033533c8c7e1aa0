/** `pickToArray(obj, keys)`: the values of the named properties, in the order of `keys`. */
module PickToArray {
  import opened Wrappers
  import opened Fields

  function PickToArray<V>(obj: seq<(string, V)>, keys: seq<string>): (r: seq<Option<V>>)
    ensures |r| == |keys|
    ensures forall i :: 0 <= i < |keys| ==> (r[i].Some? <==> keys[i] in Keys(obj))
    ensures forall i, j :: 0 <= i < |keys| && 0 <= j < |keys| && keys[i] == keys[j] ==> r[i] == r[j]
  {
    seq(|keys|, i requires 0 <= i < |keys| => Lookup(obj, keys[i]))
  }

  /** Position `i` holds the value of the property named `keys[i]`, whatever the object's own key order. */
  lemma {:induction false} PickToArrayValues<V>(obj: seq<(string, V)>, keys: seq<string>)
    requires DistinctKeys(obj)
    ensures forall i, j :: 0 <= i < |keys| && 0 <= j < |obj| && obj[j].0 == keys[i] ==> PickToArray(obj, keys)[i] == Some(obj[j].1)
  {
    forall i, j | 0 <= i < |keys| && 0 <= j < |obj| && obj[j].0 == keys[i]
      ensures PickToArray(obj, keys)[i] == Some(obj[j].1)
    {
      LookupAt(obj, j);
    }
  }
}
