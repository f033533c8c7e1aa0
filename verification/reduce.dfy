/**
  `reduceToMultiObject` and `reduceToObject`: a callback maps each element
  (with its index and the whole collection) to a `[key, value]`
  assignment or to `undefined`, and the assignments are collected into an
  object, left to right.
 */
module Reduce {
  import opened Wrappers
  import opened Seqs
  import opened Fields
  import opened MapFilters

  /** Each element paired with its index. */
  function Indexed<T>(c: seq<T>): (r: seq<(T, nat)>)
    ensures |r| == |c|
    ensures forall i :: 0 <= i < |c| ==> r[i] == (c[i], i)
  {
    seq(|c|, i requires 0 <= i < |c| => (c[i], i))
  }

  /** The defined results of `fn(collection[i], i, collection)`, in index order. */
  function Assignments<T, V>(c: seq<T>, fn: (T, nat, seq<T>) -> Option<(string, V)>): (r: seq<(string, V)>)
    ensures forall a :: a in r ==> exists i :: 0 <= i < |c| && fn(c[i], i, c) == Some(a)
    ensures forall i :: 0 <= i < |c| && fn(c[i], i, c).Some? ==> fn(c[i], i, c).value in r
  {
    var ix := Indexed(c);
    var call := (e: (T, nat)) => fn(e.0, e.1, c);
    assert forall i :: 0 <= i < |c| ==> call(ix[i]) == fn(c[i], i, c);
    MapFilterMembers(ix, call);
    MapFilter(ix, call)
  }

  /** The values assigned to `k`, in order. */
  function ValuesFor<V>(asg: seq<(string, V)>, k: string): (r: seq<V>)
    ensures |r| > 0 <==> k in Keys(asg)
  {
    var pick := (a: (string, V)) => if a.0 == k then Some(a.1) else None;
    var r := MapFilter(asg, pick);
    MapFilterMembers(asg, pick);
    assert k in Keys(asg) ==> |r| > 0 by {
      if k in Keys(asg) {
        var i :| 0 <= i < |asg| && Keys(asg)[i] == k;
        assert pick(asg[i]).Some?;
      }
    }
    assert |r| > 0 ==> k in Keys(asg) by {
      if |r| > 0 {
        assert r[0] in r;
        var i :| 0 <= i < |asg| && pick(asg[i]) == Some(r[0]);
        assert Keys(asg)[i] == k;
      }
    }
    r
  }

  /** The values assigned to `k` by a non-empty list: the first assignment's, then the rest's. */
  lemma {:induction false} ValuesForHead<V>(asg: seq<(string, V)>, k: string)
    requires |asg| > 0
    ensures ValuesFor(asg, k) == (if asg[0].0 == k then [asg[0].1] else []) + ValuesFor(asg[1..], k)
  {
  }

  /** `arr = map[key] ?? []; arr.push(value); map[key] = arr`. */
  function Push<V>(m: seq<(string, seq<V>)>, a: (string, V)): seq<(string, seq<V>)>
  {
    Assign(m, a.0, Lookup(m, a.0).GetOr([]) + [a.1])
  }

  /** The loop of `reduceToMultiObject` over the assignments, from the object `m`. */
  function Gather<V>(m: seq<(string, seq<V>)>, asg: seq<(string, V)>): seq<(string, seq<V>)>
    decreases |asg|
  {
    if |asg| == 0 then m else Gather(Push(m, asg[0]), asg[1..])
  }

  /** `reduceToMultiObject(collection, fn)`. */
  function ReduceToMultiObject<T, V>(c: seq<T>, fn: (T, nat, seq<T>) -> Option<(string, V)>): seq<(string, seq<V>)>
  {
    Gather([], Assignments(c, fn))
  }

  /** `reduceToObject(collection, fn)`: `map[key] = value` for each assignment in turn. */
  function ReduceToObject<T, V>(c: seq<T>, fn: (T, nat, seq<T>) -> Option<(string, V)>): seq<(string, V)>
  {
    AssignAll([], Assignments(c, fn))
  }

  /** One push: only the array of the pushed key changes, by one value at its end. */
  lemma {:induction false} PushLookup<V>(m: seq<(string, seq<V>)>, a: (string, V), k: string)
    ensures Lookup(Push(m, a), k) == if a.0 == k then Some(Lookup(m, k).GetOr([]) + [a.1]) else Lookup(m, k)
  {
  }

  /** Each key's array is what it held before followed by the values assigned to it, in order. */
  lemma {:induction false} GatherLookup<V>(m: seq<(string, seq<V>)>, asg: seq<(string, V)>, k: string)
    ensures Lookup(Gather(m, asg), k) ==
      if Lookup(m, k).Some? || k in Keys(asg) then Some(Lookup(m, k).GetOr([]) + ValuesFor(asg, k)) else None
    decreases |asg|
  {
    if |asg| > 0 {
      KeysHead(asg);
      ValuesForHead(asg, k);
      PushLookup(m, asg[0], k);
      GatherLookup(Push(m, asg[0]), asg[1..], k);
      if asg[0].0 == k {
        AppendAssoc(Lookup(m, k).GetOr([]), [asg[0].1], ValuesFor(asg[1..], k));
      }
    } else {
      GatherEmpty(m, k);
    }
  }

  lemma {:induction false} GatherEmpty<V>(m: seq<(string, seq<V>)>, k: string)
    ensures Lookup(m, k) == if Lookup(m, k).Some? then Some(Lookup(m, k).GetOr([]) + ValuesFor([], k)) else None
  {
    assert ValuesFor<V>([], k) == [];
    if Lookup(m, k).Some? {
      assert Lookup(m, k).GetOr([]) + [] == Lookup(m, k).value;
    }
  }

  /** The arrays together hold one value per assignment. */
  lemma {:induction false} GatherTotal<V>(m: seq<(string, seq<V>)>, asg: seq<(string, V)>)
    ensures Sum(ValueLengths(Gather(m, asg))) == Sum(ValueLengths(m)) + |asg|
    decreases |asg|
  {
    if |asg| > 0 {
      PushTotal(m, asg[0]);
      GatherTotal(Push(m, asg[0]), asg[1..]);
    }
  }

  lemma {:induction false} PushTotal<V>(m: seq<(string, seq<V>)>, a: (string, V))
    ensures Sum(ValueLengths(Push(m, a))) == Sum(ValueLengths(m)) + 1
  {
    var ns := ValueLengths(m);
    match IndexOf(m, a.0)
    case Some(i) =>
      assert ValueLengths(Push(m, a)) == ns[i := ns[i] + 1];
      SumIncrement(ns, i);
    case None =>
      assert ValueLengths(Push(m, a)) == ns + [1];
      SumAppend(ns, [1]);
      assert Sum([1]) == 1;
  }

  /**
    `reduceToMultiObject`: a key is present exactly when some element was
    mapped to it, its array lists the values of those elements in index
    order, and the arrays together hold one value per defined result.
   */
  lemma {:induction false} ReduceToMultiObjectSpec<T, V>(c: seq<T>, fn: (T, nat, seq<T>) -> Option<(string, V)>)
    ensures forall k :: Lookup(ReduceToMultiObject(c, fn), k).Some? <==> k in Keys(Assignments(c, fn))
    ensures forall k :: k in Keys(Assignments(c, fn)) ==> Lookup(ReduceToMultiObject(c, fn), k) == Some(ValuesFor(Assignments(c, fn), k))
    ensures Sum(ValueLengths(ReduceToMultiObject(c, fn))) == |Assignments(c, fn)|
  {
    var asg := Assignments(c, fn);
    assert Keys<seq<V>>([]) == [];
    forall k ensures Lookup(Gather([], asg), k) == if k in Keys(asg) then Some(ValuesFor(asg, k)) else None {
      GatherLookup([], asg, k);
      assert Lookup<seq<V>>([], k) == None;
      assert [] + ValuesFor(asg, k) == ValuesFor(asg, k);
    }
    GatherTotal([], asg);
    assert Sum(ValueLengths<V>([])) == 0;
  }

  /** The last value assigned to `k`. */
  function LastFor<V>(asg: seq<(string, V)>, k: string): (r: Option<V>)
    ensures r.None? <==> k !in Keys(asg)
  {
    var vs := ValuesFor(asg, k);
    if |vs| == 0 then None else Some(vs[|vs| - 1])
  }

  /** The last value a non-empty list assigns to `k`: the rest's if it assigns `k`, else the first one's. */
  lemma {:induction false} LastForHead<V>(asg: seq<(string, V)>, k: string)
    requires |asg| > 0
    ensures LastFor(asg, k) ==
      if k in Keys(asg[1..]) then LastFor(asg[1..], k) else if asg[0].0 == k then Some(asg[0].1) else None
  {
    ValuesForHead(asg, k);
  }

  /** Assigning in turn: the last assignment to a key wins, untouched keys keep their value. */
  lemma {:induction false} AssignAllLast<V>(fs: seq<(string, V)>, asg: seq<(string, V)>, k: string)
    ensures Lookup(AssignAll(fs, asg), k) == if k in Keys(asg) then LastFor(asg, k) else Lookup(fs, k)
    decreases |asg|
  {
    if |asg| > 0 {
      KeysHead(asg);
      LastForHead(asg, k);
      AssignAllLast(Assign(fs, asg[0].0, asg[0].1), asg[1..], k);
    }
  }

  /** `reduceToObject`: a key is present exactly when some element was mapped to it, holding the last such value. */
  lemma {:induction false} ReduceToObjectSpec<T, V>(c: seq<T>, fn: (T, nat, seq<T>) -> Option<(string, V)>)
    ensures forall k :: Lookup(ReduceToObject(c, fn), k) == LastFor(Assignments(c, fn), k)
  {
    forall k ensures Lookup(ReduceToObject(c, fn), k) == LastFor(Assignments(c, fn), k) {
      AssignAllLast([], Assignments(c, fn), k);
    }
  }

  /** An empty collection gives `{}`. */
  lemma {:induction false} ReduceEmpty<T, V>(fn: (T, nat, seq<T>) -> Option<(string, V)>)
    ensures ReduceToMultiObject([], fn) == [] && ReduceToObject([], fn) == []
  {
    assert Assignments([], fn) == [];
  }
}
