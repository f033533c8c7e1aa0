/**
  `groupByOmit(data, omitKeys)`: groups records by a composite key, the
  concatenation of the string forms of their `omitKeys` values, and drops
  those keys from every grouped record.

  Grouping is lodash `groupBy`, which pushes each item onto the array of
  its key in input order: the `Gather` loop of the `Reduce` module. A
  record's own keys are distinct, as in any JavaScript object.
 */
module GroupByOmit {
  import opened Wrappers
  import opened Seqs
  import opened Fields
  import opened Values
  import opened Reduce
  import opened Numerals

  type Record = seq<(string, Value)>

  /**
    lodash `baseToString`: strings as they are, arrays as their elements'
    string forms joined by commas, other values as `value + ''`.
   */
  function BaseToString(v: Value): string
    decreases v
  {
    match v
    case Leaf(Undefined) => "undefined"
    case Leaf(Null) => "null"
    case Leaf(Bool(b)) => if b then "true" else "false"
    case Leaf(Num(n)) => IntToString(n)
    case Leaf(Str(s)) => s
    case Arr(items) => Join(seq(|items|, i requires 0 <= i < |items| => BaseToString(items[i])), ",")
    case _ => "[object Object]"
  }

  /** lodash `toString(item[key])`: the empty string for a missing key, `undefined` or `null`. */
  function Part(item: Record, key: string): (s: string)
    ensures Lookup(item, key).None? ==> s == ""
    ensures Lookup(item, key).Some? && Lookup(item, key).value.Leaf? && Lookup(item, key).value.p.Str? ==> s == Lookup(item, key).value.p.s
  {
    match Lookup(item, key)
    case None => ""
    case Some(v) => if v == Leaf(Undefined) || v == Leaf(Null) then "" else BaseToString(v)
  }

  /** `createKey(item)`: the parts for `omitKeys`, in order, joined with nothing between them. */
  function GroupKey(item: Record, omitKeys: seq<string>): string
    decreases |omitKeys|
  {
    if |omitKeys| == 0 then "" else Part(item, omitKeys[0]) + GroupKey(item, omitKeys[1..])
  }

  /** lodash `omit(item, omitKeys)`: the same record without the omitted keys. */
  function Omit(item: Record, omitKeys: seq<string>): Record
  {
    Filter(item, (e: (string, Value)) => e.0 !in omitKeys)
  }

  function OmitAll(group: seq<Record>, omitKeys: seq<string>): (r: seq<Record>)
    ensures |r| == |group|
  {
    seq(|group|, i requires 0 <= i < |group| => Omit(group[i], omitKeys))
  }

  /** Each record paired with its group key, in input order. */
  function Keyed(data: seq<Record>, omitKeys: seq<string>): seq<(string, Record)>
  {
    seq(|data|, i requires 0 <= i < |data| => (GroupKey(data[i], omitKeys), data[i]))
  }

  /** `groupByOmit(data, omitKeys)`. */
  function GroupByOmit(data: seq<Record>, omitKeys: seq<string>): seq<(string, seq<Record>)>
  {
    MapValues(Gather([], Keyed(data, omitKeys)), (g: seq<Record>) => OmitAll(g, omitKeys))
  }

  /** The records of `data` whose group key is `k`. */
  function InGroup(omitKeys: seq<string>, k: string): Record -> bool
  {
    item => GroupKey(item, omitKeys) == k
  }

  /** The group key of a longer key list is the concatenation of the keys of its parts. */
  lemma {:induction false} GroupKeyAppend(item: Record, a: seq<string>, b: seq<string>)
    ensures GroupKey(item, a + b) == GroupKey(item, a) + GroupKey(item, b)
    decreases |a|
  {
    if |a| == 0 {
      assert a + b == b;
    } else {
      ConcatHead(a, b);
      GroupKeyAppend(item, a[1..], b);
      AppendAssoc(Part(item, a[0]), GroupKey(item, a[1..]), GroupKey(item, b));
    }
  }

  lemma {:induction false} ValuesForKeyed(data: seq<Record>, omitKeys: seq<string>, k: string)
    ensures ValuesFor(Keyed(data, omitKeys), k) == Filter(data, InGroup(omitKeys, k))
    decreases |data|
  {
    if |data| > 0 {
      var ks := Keyed(data, omitKeys);
      ValuesForHead(ks, k);
      assert ks[1..] == Keyed(data[1..], omitKeys);
      ValuesForKeyed(data[1..], omitKeys, k);
    }
  }

  /**
    A group exists exactly for the keys some record has, and lists those
    records, in input order, with the omitted keys dropped.
   */
  lemma {:induction false} GroupByOmitLookup(data: seq<Record>, omitKeys: seq<string>, k: string)
    ensures Lookup(GroupByOmit(data, omitKeys), k)
         == if |Filter(data, InGroup(omitKeys, k))| > 0 then Some(OmitAll(Filter(data, InGroup(omitKeys, k)), omitKeys)) else None
  {
    var asg := Keyed(data, omitKeys);
    GatherLookup([], asg, k);
    assert Lookup<seq<Record>>([], k) == None;
    ValuesForKeyed(data, omitKeys, k);
    assert [] + ValuesFor(asg, k) == ValuesFor(asg, k);
  }

  /** Every record lands, without the omitted keys, in the group of its own key. */
  lemma {:induction false} GroupByOmitPlacement(data: seq<Record>, omitKeys: seq<string>, i: nat)
    requires i < |data|
    ensures Lookup(GroupByOmit(data, omitKeys), GroupKey(data[i], omitKeys)).Some?
    ensures Omit(data[i], omitKeys) in Lookup(GroupByOmit(data, omitKeys), GroupKey(data[i], omitKeys)).value
  {
    var k := GroupKey(data[i], omitKeys);
    GroupByOmitLookup(data, omitKeys, k);
    OwnGroup(data, omitKeys, i);
  }

  lemma {:induction false} OwnGroup(data: seq<Record>, omitKeys: seq<string>, i: nat)
    requires i < |data|
    ensures |Filter(data, InGroup(omitKeys, GroupKey(data[i], omitKeys)))| > 0
    ensures Omit(data[i], omitKeys) in OmitAll(Filter(data, InGroup(omitKeys, GroupKey(data[i], omitKeys))), omitKeys)
  {
    var members := Filter(data, InGroup(omitKeys, GroupKey(data[i], omitKeys)));
    assert data[i] in data;
    assert data[i] in members;
    var j :| 0 <= j < |members| && members[j] == data[i];
    assert OmitAll(members, omitKeys)[j] == Omit(data[i], omitKeys);
  }

  /** The groups together hold one record per input record. */
  lemma {:induction false} GroupByOmitTotal(data: seq<Record>, omitKeys: seq<string>)
    ensures Sum(ValueLengths(GroupByOmit(data, omitKeys))) == |data|
  {
    var m := Gather([], Keyed(data, omitKeys));
    GatherTotal([], Keyed(data, omitKeys));
    assert Sum(ValueLengths<Record>([])) == 0;
    assert ValueLengths(GroupByOmit(data, omitKeys)) == ValueLengths(m);
  }

  /** An omitted record lacks every omitted key and keeps every other property and its value. */
  lemma {:induction false} OmitLookup(item: Record, omitKeys: seq<string>, k: string)
    requires DistinctKeys(item)
    ensures Lookup(Omit(item, omitKeys), k) == if k in omitKeys then None else Lookup(item, k)
    ensures DistinctKeys(Omit(item, omitKeys))
  {
    FilterLookup(item, (e: (string, Value)) => e.0 !in omitKeys, k);
    FilterDistinct(item, (e: (string, Value)) => e.0 !in omitKeys);
  }

  /** Different parts that concatenate to the same string share a group: `x` + `yz` and `xy` + `z`. */
  lemma GroupKeyCollision()
    ensures GroupKey([("a", Leaf(Str("x"))), ("b", Leaf(Str("yz")))], ["a", "b"]) == "xyz"
    ensures GroupKey([("a", Leaf(Str("xy"))), ("b", Leaf(Str("z")))], ["a", "b"]) == "xyz"
  {
    var r1: Record := [("a", Leaf(Str("x"))), ("b", Leaf(Str("yz")))];
    var r2: Record := [("a", Leaf(Str("xy"))), ("b", Leaf(Str("z")))];
    LookupHead(r1, "b");
    LookupHead(r2, "b");
    assert ["a", "b"][1..] == ["b"];
    assert ["b"][1..] == [];
  }
}
