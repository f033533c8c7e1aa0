/**
  Ordered property lists: the model of a plain JavaScript object's own
  enumerable string-keyed properties, in enumeration order.

  `Assign` is the property write `obj[k] = v` (an existing key keeps its
  position, a new key is appended), `Remove` is `delete obj[k]` or the
  rest pattern `const { [k]: _, ...rest } = obj`, and `AssignAll` is
  `Object.assign(obj, src)` or the spread `{ ...obj, ...src }`.
 */
module Fields {
  import opened Wrappers
  import opened Seqs

  /** The keys of `fs`, in order. */
  function Keys<V>(fs: seq<(string, V)>): (ks: seq<string>)
    ensures |ks| == |fs|
    ensures forall i :: 0 <= i < |fs| ==> ks[i] == fs[i].0
  {
    seq(|fs|, i requires 0 <= i < |fs| => fs[i].0)
  }

  /** Every key occurs once, as in any JavaScript object. */
  predicate DistinctKeys<V>(fs: seq<(string, V)>) {
    forall i, j :: 0 <= i < j < |fs| ==> fs[i].0 != fs[j].0
  }

  /** Position of the first property named `k`. */
  function IndexOf<V>(fs: seq<(string, V)>, k: string): (r: Option<nat>)
    ensures r.Some? ==> r.value < |fs| && fs[r.value].0 == k
    ensures r.Some? ==> forall i :: 0 <= i < r.value ==> fs[i].0 != k
    ensures r.None? <==> k !in Keys(fs)
  {
    if |fs| == 0 then None
    else if fs[0].0 == k then Some(0)
    else
      KeysHead(fs);
      match IndexOf(fs[1..], k)
      case None => None
      case Some(j) => Some(j + 1)
  }

  /** Property read `obj[k]`; `None` is `undefined` for a missing key. */
  function Lookup<V>(fs: seq<(string, V)>, k: string): (r: Option<V>)
    ensures r.Some? <==> k in Keys(fs)
  {
    match IndexOf(fs, k)
    case Some(i) => Some(fs[i].1)
    case None => None
  }

  lemma {:induction false} LookupAt<V>(fs: seq<(string, V)>, i: nat)
    requires DistinctKeys(fs) && i < |fs|
    ensures Lookup(fs, fs[i].0) == Some(fs[i].1)
  {
    var j := IndexOf(fs, fs[i].0);
    assert j.Some?;
  }

  /** Property write `obj[k] = v`. */
  function Assign<V>(fs: seq<(string, V)>, k: string, v: V): (r: seq<(string, V)>)
    ensures Lookup(r, k) == Some(v)
    ensures forall k' :: k' != k ==> Lookup(r, k') == Lookup(fs, k')
    ensures k in Keys(fs) ==> Keys(r) == Keys(fs)
    ensures k !in Keys(fs) ==> Keys(r) == Keys(fs) + [k]
    ensures DistinctKeys(fs) ==> DistinctKeys(r)
  {
    match IndexOf(fs, k)
    case Some(i) => OverwriteFacts(fs, i, k, v); fs[i := (k, v)]
    case None => AppendFacts(fs, k, v); fs + [(k, v)]
  }

  /** Overwriting the property named `k` in place. */
  lemma {:induction false} OverwriteFacts<V>(fs: seq<(string, V)>, i: nat, k: string, v: V)
    requires IndexOf(fs, k) == Some(i)
    ensures var r := fs[i := (k, v)];
      Lookup(r, k) == Some(v)
      && (forall k' :: k' != k ==> Lookup(r, k') == Lookup(fs, k'))
      && Keys(r) == Keys(fs)
      && (DistinctKeys(fs) ==> DistinctKeys(r))
  {
    var r := fs[i := (k, v)];
    assert Keys(r) == Keys(fs);
    forall k' ensures IndexOf(r, k') == IndexOf(fs, k') {
      IndexOfSameKeys(r, fs, k');
    }
  }

  /** Adding a property named `k` at the end, when there is none. */
  lemma {:induction false} AppendFacts<V>(fs: seq<(string, V)>, k: string, v: V)
    requires k !in Keys(fs)
    ensures var r := fs + [(k, v)];
      Lookup(r, k) == Some(v)
      && (forall k' :: k' != k ==> Lookup(r, k') == Lookup(fs, k'))
      && Keys(r) == Keys(fs) + [k]
      && (DistinctKeys(fs) ==> DistinctKeys(r))
  {
    var r := fs + [(k, v)];
    AppendKeys(fs, (k, v));
    forall k' | k' != k
      ensures Lookup(r, k') == Lookup(fs, k')
    {
      IndexOfAppend(fs, (k, v), k');
    }
    AppendIndex(fs, k, v);
  }

  lemma {:induction false} AppendKeys<V>(fs: seq<(string, V)>, e: (string, V))
    ensures Keys(fs + [e]) == Keys(fs) + [e.0]
    ensures DistinctKeys(fs) && e.0 !in Keys(fs) ==> DistinctKeys(fs + [e])
  {
    assert Keys(fs + [e]) == Keys(fs) + [e.0];
  }

  lemma {:induction false} AppendIndex<V>(fs: seq<(string, V)>, k: string, v: V)
    requires k !in Keys(fs)
    ensures IndexOf(fs + [(k, v)], k) == Some(|fs|)
  {
    AppendKeys(fs, (k, v));
    assert IndexOf(fs + [(k, v)], k).Some?;
  }

  lemma {:induction false} IndexOfAppend<V>(fs: seq<(string, V)>, e: (string, V), k': string)
    requires e.0 != k'
    ensures IndexOf(fs + [e], k') == IndexOf(fs, k')
  {
    if |fs| > 0 && fs[0].0 != k' {
      assert (fs + [e])[1..] == fs[1..] + [e];
      IndexOfAppend(fs[1..], e, k');
    }
  }

  /** The keys of an object with one more property in front. */
  lemma {:induction false} KeysCons<V>(e: (string, V), fs: seq<(string, V)>)
    ensures Keys([e] + fs) == [e.0] + Keys(fs)
  {
  }

  /** The keys of a non-empty object: the first one, then the rest. */
  lemma {:induction false} KeysHead<V>(fs: seq<(string, V)>)
    requires |fs| > 0
    ensures Keys(fs) == [fs[0].0] + Keys(fs[1..])
  {
  }

  /** `delete obj[k]`: every property named `k` is dropped, the rest keep their order. */
  function Remove<V>(fs: seq<(string, V)>, k: string): (r: seq<(string, V)>)
    ensures |r| <= |fs|
  {
    if |fs| == 0 then []
    else if fs[0].0 == k then Remove(fs[1..], k)
    else [fs[0]] + Remove(fs[1..], k)
  }

  lemma {:induction false} RemoveKeys<V>(fs: seq<(string, V)>, k: string)
    ensures forall k' :: k' in Keys(Remove(fs, k)) <==> k' in Keys(fs) && k' != k
    ensures DistinctKeys(fs) ==> DistinctKeys(Remove(fs, k))
  {
    if |fs| > 0 {
      var rest := Remove(fs[1..], k);
      RemoveKeys(fs[1..], k);
      KeysHead(fs);
      if DistinctKeys(fs) {
        DistinctTail(fs);
      }
      if fs[0].0 != k {
        KeysCons(fs[0], rest);
        if DistinctKeys(fs) {
          DistinctCons(fs[0], rest);
        }
      }
    }
  }

  lemma {:induction false} RemoveLookup<V>(fs: seq<(string, V)>, k: string, k': string)
    ensures Lookup(Remove(fs, k), k') == if k' == k then None else Lookup(fs, k')
  {
    if k' == k {
      RemoveKeys(fs, k);
    } else if |fs| > 0 {
      RemoveLookup(fs[1..], k, k');
      LookupHead(fs, k');
      if fs[0].0 != k {
        LookupCons(fs[0], Remove(fs[1..], k), k');
      }
    }
  }

  /** Reading a property of an object with one more property in front. */
  lemma {:induction false} LookupCons<V>(e: (string, V), fs: seq<(string, V)>, k: string)
    ensures Lookup([e] + fs, k) == if e.0 == k then Some(e.1) else Lookup(fs, k)
  {
    if e.0 != k {
      IndexOfCons(e, fs, k);
    }
  }

  /** A value read is the value of a property of that name. */
  lemma LookupFound<V>(fs: seq<(string, V)>, k: string)
    requires Lookup(fs, k).Some?
    ensures exists i :: 0 <= i < |fs| && fs[i] == (k, Lookup(fs, k).value)
  {
    var i := IndexOf(fs, k).value;
    assert fs[i] == (k, Lookup(fs, k).value);
  }

  lemma {:induction false} IndexOfCons<V>(e: (string, V), fs: seq<(string, V)>, k: string)
    requires e.0 != k
    ensures IndexOf([e] + fs, k) == (match IndexOf(fs, k) case None => None case Some(j) => Some(j + 1))
  {
    assert ([e] + fs)[1..] == fs;
  }

  lemma {:induction false} DistinctCons<V>(e: (string, V), fs: seq<(string, V)>)
    requires DistinctKeys(fs) && e.0 !in Keys(fs)
    ensures DistinctKeys([e] + fs)
  {
    var r := [e] + fs;
    forall i, j | 0 <= i < j < |r|
      ensures r[i].0 != r[j].0
    {
      if i == 0 {
        assert r[j].0 == Keys(fs)[j - 1];
      }
    }
  }

  /** `Object.assign(obj, src)`: the properties of `src` are written one by one, in order. */
  function AssignAll<V>(fs: seq<(string, V)>, src: seq<(string, V)>): (r: seq<(string, V)>)
    decreases |src|
  {
    if |src| == 0 then fs
    else AssignAll(Assign(fs, src[0].0, src[0].1), src[1..])
  }

  lemma {:induction false} AssignAllLookup<V>(fs: seq<(string, V)>, src: seq<(string, V)>, k: string)
    requires DistinctKeys(src)
    ensures Lookup(AssignAll(fs, src), k) == if k in Keys(src) then Lookup(src, k) else Lookup(fs, k)
    decreases |src|
  {
    if |src| > 0 {
      DistinctTail(src);
      LookupHead(src, k);
      AssignAllLookup(Assign(fs, src[0].0, src[0].1), src[1..], k);
    }
  }

  /** Reading a property of a non-empty object: the first property, or one of the rest. */
  lemma {:induction false} LookupHead<V>(fs: seq<(string, V)>, k: string)
    requires |fs| > 0
    ensures k in Keys(fs) <==> fs[0].0 == k || k in Keys(fs[1..])
    ensures Lookup(fs, k) == if fs[0].0 == k then Some(fs[0].1) else Lookup(fs[1..], k)
  {
    assert Keys(fs) == [fs[0].0] + Keys(fs[1..]);
  }

  /**
    Reading a property of the entries that pass `p`: the original value if
    its entry passes, otherwise missing.
   */
  lemma {:induction false} FilterLookup<V>(fs: seq<(string, V)>, p: ((string, V)) -> bool, k: string)
    requires DistinctKeys(fs)
    ensures Lookup(Filter(fs, p), k) == match Lookup(fs, k) case Some(v) => (if p((k, v)) then Some(v) else None) case None => None
  {
    if |fs| > 0 {
      DistinctTail(fs);
      FilterLookup(fs[1..], p, k);
      LookupHead(fs, k);
      var rest := Filter(fs[1..], p);
      if p(fs[0]) {
        LookupCons(fs[0], rest, k);
      } else {
        assert Filter(fs, p) == rest;
      }
    }
  }

  /** A filtered object is still an object: its keys stay distinct. */
  lemma {:induction false} FilterDistinct<V>(fs: seq<(string, V)>, p: ((string, V)) -> bool)
    requires DistinctKeys(fs)
    ensures DistinctKeys(Filter(fs, p))
    ensures forall k :: k in Keys(Filter(fs, p)) ==> k in Keys(fs)
  {
    if |fs| > 0 {
      DistinctTail(fs);
      FilterDistinct(fs[1..], p);
      var rest := Filter(fs[1..], p);
      KeysHead(fs);
      if p(fs[0]) {
        KeysCons(fs[0], rest);
        DistinctCons(fs[0], rest);
      } else {
        assert Filter(fs, p) == rest;
      }
    }
  }

  lemma {:induction false} DistinctTail<V>(fs: seq<(string, V)>)
    requires |fs| > 0 && DistinctKeys(fs)
    ensures DistinctKeys(fs[1..]) && fs[0].0 !in Keys(fs[1..])
  {
    assert forall j :: 0 <= j < |fs| - 1 ==> Keys(fs[1..])[j] == fs[j + 1].0;
  }

  lemma {:induction false} AssignAllKeys<V>(fs: seq<(string, V)>, src: seq<(string, V)>)
    ensures forall k :: k in Keys(AssignAll(fs, src)) <==> k in Keys(fs) || k in Keys(src)
    ensures DistinctKeys(fs) ==> DistinctKeys(AssignAll(fs, src))
    ensures IsKeyPrefix(fs, AssignAll(fs, src))
    decreases |src|
  {
    if |src| > 0 {
      assert Keys(src) == [src[0].0] + Keys(src[1..]);
      var step := Assign(fs, src[0].0, src[0].1);
      AssignAllKeys(step, src[1..]);
      assert IsKeyPrefix(fs, step);
      KeyPrefixTrans(fs, step, AssignAll(step, src[1..]));
    }
  }

  lemma {:induction false} KeyPrefixTrans<V>(a: seq<(string, V)>, b: seq<(string, V)>, c: seq<(string, V)>)
    requires IsKeyPrefix(a, b) && IsKeyPrefix(b, c)
    ensures IsKeyPrefix(a, c)
  {
    assert Keys(c)[..|a|] == Keys(c)[..|b|][..|a|];
  }

  /** Writing distinct-keyed properties into an empty object reproduces them. */
  lemma {:induction false} AssignAllIntoEmpty<V>(src: seq<(string, V)>)
    requires DistinctKeys(src)
    ensures AssignAll([], src) == src
  {
    AssignAllFresh([], src);
  }

  /** Writing properties whose keys are new and distinct appends them in order. */
  lemma {:induction false} AssignAllFresh<V>(fs: seq<(string, V)>, src: seq<(string, V)>)
    requires DistinctKeys(src) && forall i :: 0 <= i < |src| ==> src[i].0 !in Keys(fs)
    ensures AssignAll(fs, src) == fs + src
    decreases |src|
  {
    if |src| > 0 {
      var x := src[0];
      FreshTail(fs, src);
      AssignAllFreshStep(fs, src);
      AssignAllFresh(fs + [x], src[1..]);
      AppendAssoc(fs, [x], src[1..]);
      assert [x] + src[1..] == src;
    }
  }

  /** Writing one fresh property appends it. */
  lemma {:induction false} AssignAllFreshStep<V>(fs: seq<(string, V)>, src: seq<(string, V)>)
    requires |src| > 0 && src[0].0 !in Keys(fs)
    ensures AssignAll(fs, src) == AssignAll(fs + [src[0]], src[1..])
  {
    AssignNew(fs, src[0].0, src[0].1);
  }

  /** After the first fresh property is written, the others are still fresh and distinct. */
  lemma {:induction false} FreshTail<V>(fs: seq<(string, V)>, src: seq<(string, V)>)
    requires |src| > 0 && DistinctKeys(src) && forall i :: 0 <= i < |src| ==> src[i].0 !in Keys(fs)
    ensures DistinctKeys(src[1..])
    ensures forall i :: 0 <= i < |src| - 1 ==> src[1..][i].0 !in Keys(fs + [src[0]])
  {
    DistinctTail(src);
    assert Keys(fs + [src[0]]) == Keys(fs) + [src[0].0];
    forall i | 0 <= i < |src| - 1
      ensures src[1..][i].0 !in Keys(fs + [src[0]])
    {
      assert src[1..][i] == src[i + 1];
    }
  }

  /** Property positions depend on the keys alone. */
  lemma {:induction false} IndexOfSameKeys<V, W>(a: seq<(string, V)>, b: seq<(string, W)>, k: string)
    requires Keys(a) == Keys(b)
    ensures IndexOf(a, k) == IndexOf(b, k)
  {
    if |a| > 0 {
      assert a[0].0 == Keys(a)[0] == Keys(b)[0] == b[0].0;
      if a[0].0 != k {
        assert Keys(a[1..]) == Keys(a)[1..];
        assert Keys(b[1..]) == Keys(b)[1..];
        IndexOfSameKeys(a[1..], b[1..], k);
      }
    }
  }

  /** Writing a key the object does not have appends it. */
  lemma {:induction false} AssignNew<V>(fs: seq<(string, V)>, k: string, v: V)
    requires k !in Keys(fs)
    ensures Assign(fs, k, v) == fs + [(k, v)]
  {
  }

  /** lodash `mapValues(obj, f)`: the same keys in the same order, each value transformed. */
  function MapValues<V, W>(fs: seq<(string, V)>, f: V -> W): (r: seq<(string, W)>)
    ensures Keys(r) == Keys(fs)
    ensures forall k :: Lookup(r, k) == match Lookup(fs, k) case Some(v) => Some(f(v)) case None => None
    ensures DistinctKeys(fs) ==> DistinctKeys(r)
  {
    var r := seq(|fs|, i requires 0 <= i < |fs| => (fs[i].0, f(fs[i].1)));
    assert Keys(r) == Keys(fs);
    assert forall k :: IndexOf(r, k) == IndexOf(fs, k) by {
      forall k ensures IndexOf(r, k) == IndexOf(fs, k) {
        IndexOfSameKeys(r, fs, k);
      }
    }
    r
  }

  /** The lengths of the array values of a property list, in order. */
  function ValueLengths<R>(fs: seq<(string, seq<R>)>): (ns: seq<nat>)
    ensures |ns| == |fs|
    ensures forall i :: 0 <= i < |fs| ==> ns[i] == |fs[i].1|
  {
    seq(|fs|, i requires 0 <= i < |fs| => |fs[i].1|)
  }

  /** The keys of `fs`, in order, are the first keys of `r`. */
  predicate IsKeyPrefix<V>(fs: seq<(string, V)>, r: seq<(string, V)>) {
    |fs| <= |r| && Keys(r)[..|fs|] == Keys(fs)
  }
}
