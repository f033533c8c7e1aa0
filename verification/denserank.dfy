/**
  `denseRank(items, iteratees, options)`: sorts the items by their
  criteria (lodash `orderBy`), then walks the sorted items giving each one
  a rank that starts at `startingRank` and rises by one whenever an item's
  criteria differ from the previous item's. Each output item is the sorted
  item with the rank written under `fieldName`.

  Criteria are integers; an iteratee is a function of the item.
 */
module DenseRank {
  import opened Wrappers
  import opened Seqs
  import opened Fields
  import opened Values

  type Record = seq<(string, Value)>

  /** One entry of `orders`; any entry other than `"desc"` sorts ascending. */
  datatype Order = Asc | Desc

  /** `valueFactory(item)`: the item's criteria, one per iteratee. */
  function Criteria<T>(item: T, iteratees: seq<T -> int>): (c: seq<int>)
    ensures |c| == |iteratees|
  {
    seq(|iteratees|, i requires 0 <= i < |iteratees| => iteratees[i](item))
  }

  /**
    lodash `compareMultiple` on two criteria lists: the first differing
    criterion decides, negated when its order is `Desc`; criteria beyond
    the end of `orders` sort ascending.
   */
  function Compare(a: seq<int>, b: seq<int>, orders: seq<Order>): (r: int)
    requires |a| == |b|
    ensures -1 <= r <= 1
    decreases |a|
  {
    if |a| == 0 then 0
    else if a[0] != b[0] then
      var asc := if a[0] < b[0] then -1 else 1;
      if |orders| > 0 && orders[0] == Desc then -asc else asc
    else Compare(a[1..], b[1..], if |orders| > 0 then orders[1..] else [])
  }

  /** Two criteria lists compare equal exactly when they are equal. */
  lemma {:induction false} CompareZero(a: seq<int>, b: seq<int>, orders: seq<Order>)
    requires |a| == |b|
    ensures Compare(a, b, orders) == 0 <==> a == b
    decreases |a|
  {
    if |a| > 0 && a[0] == b[0] {
      CompareZero(a[1..], b[1..], if |orders| > 0 then orders[1..] else []);
      assert a == [a[0]] + a[1..] && b == [b[0]] + b[1..];
    }
  }

  /** Swapping the operands negates the comparison. */
  lemma {:induction false} CompareAnti(a: seq<int>, b: seq<int>, orders: seq<Order>)
    requires |a| == |b|
    ensures Compare(a, b, orders) == -Compare(b, a, orders)
    decreases |a|
  {
    if |a| > 0 && a[0] == b[0] {
      CompareAnti(a[1..], b[1..], if |orders| > 0 then orders[1..] else []);
    }
  }

  /** "Sorts no later than" is transitive. */
  lemma {:induction false} CompareTrans(a: seq<int>, b: seq<int>, c: seq<int>, orders: seq<Order>)
    requires |a| == |b| == |c|
    requires Compare(a, b, orders) <= 0 && Compare(b, c, orders) <= 0
    ensures Compare(a, c, orders) <= 0
    decreases |a|
  {
    if |a| > 0 && a[0] == b[0] && b[0] == c[0] {
      CompareTrans(a[1..], b[1..], c[1..], if |orders| > 0 then orders[1..] else []);
    }
  }

  function ItemCompare<T>(x: T, y: T, iteratees: seq<T -> int>, orders: seq<Order>): int
  {
    Compare(Criteria(x, iteratees), Criteria(y, iteratees), orders)
  }

  /** `x` placed before the first item that sorts strictly after it, so that equal items keep input order. */
  function Insert<T>(x: T, s: seq<T>, iteratees: seq<T -> int>, orders: seq<Order>): (r: seq<T>)
    ensures |r| == |s| + 1
    ensures multiset(r) == multiset(s) + multiset{x}
    ensures |s| > 0 ==> r[0] == x || r[0] == s[0]
  {
    if |s| == 0 then [x]
    else if ItemCompare(x, s[0], iteratees, orders) < 0 then [x] + s
    else
      assert s == [s[0]] + s[1..];
      [s[0]] + Insert(x, s[1..], iteratees, orders)
  }

  /** lodash `orderBy(items, iteratees, orders)`, a stable sort. */
  function OrderBy<T>(items: seq<T>, iteratees: seq<T -> int>, orders: seq<Order>): (r: seq<T>)
    ensures |r| == |items|
    decreases |items|
  {
    if |items| == 0 then []
    else Insert(items[|items| - 1], OrderBy(items[..|items| - 1], iteratees, orders), iteratees, orders)
  }

  /** Each item sorts no later than the next one. */
  predicate Sorted<T>(s: seq<T>, iteratees: seq<T -> int>, orders: seq<Order>)
  {
    forall i :: 0 <= i && i + 1 < |s| ==> ItemCompare(s[i], s[i + 1], iteratees, orders) <= 0
  }

  lemma {:induction false} InsertSorted<T>(x: T, s: seq<T>, iteratees: seq<T -> int>, orders: seq<Order>)
    requires Sorted(s, iteratees, orders)
    ensures Sorted(Insert(x, s, iteratees, orders), iteratees, orders)
    decreases |s|
  {
    if |s| > 0 && ItemCompare(x, s[0], iteratees, orders) >= 0 {
      var rest := Insert(x, s[1..], iteratees, orders);
      InsertSorted(x, s[1..], iteratees, orders);
      CompareAnti(Criteria(x, iteratees), Criteria(s[0], iteratees), orders);
      assert Insert(x, s, iteratees, orders) == [s[0]] + rest;
      assert ItemCompare(s[0], rest[0], iteratees, orders) <= 0;
    }
  }

  /** The sorted items are a permutation of the input, each sorting no later than the next. */
  lemma {:induction false} OrderBySorted<T>(items: seq<T>, iteratees: seq<T -> int>, orders: seq<Order>)
    ensures Sorted(OrderBy(items, iteratees, orders), iteratees, orders)
    ensures multiset(OrderBy(items, iteratees, orders)) == multiset(items)
    decreases |items|
  {
    if |items| > 0 {
      var init := items[..|items| - 1];
      OrderBySorted(init, iteratees, orders);
      InsertSorted(items[|items| - 1], OrderBy(init, iteratees, orders), iteratees, orders);
      InitLast(items);
    }
  }

  /** The items whose criteria are `c`, in the order they appear. */
  function Ties<T>(s: seq<T>, iteratees: seq<T -> int>, c: seq<int>): (r: seq<T>)
    ensures |r| <= |s|
  {
    if |s| == 0 then []
    else (if Criteria(s[0], iteratees) == c then [s[0]] else []) + Ties(s[1..], iteratees, c)
  }

  /** No item with criteria `c`, no ties. */
  lemma {:induction false} TiesNone<T>(s: seq<T>, iteratees: seq<T -> int>, c: seq<int>)
    requires forall k :: 0 <= k < |s| ==> Criteria(s[k], iteratees) != c
    ensures Ties(s, iteratees, c) == []
  {
    if |s| > 0 {
      assert forall k :: 0 <= k < |s| - 1 ==> s[1..][k] == s[k + 1];
      TiesNone(s[1..], iteratees, c);
    }
  }

  /** Appending one item appends it to its own tie class only. */
  lemma {:induction false} TiesSnoc<T>(s: seq<T>, x: T, iteratees: seq<T -> int>, c: seq<int>)
    ensures Ties(s + [x], iteratees, c) == Ties(s, iteratees, c) + (if Criteria(x, iteratees) == c then [x] else [])
  {
    if |s| > 0 {
      assert (s + [x])[1..] == s[1..] + [x];
      TiesSnoc(s[1..], x, iteratees, c);
    } else {
      assert s + [x] == [x];
    }
  }

  /** An item that sorts strictly before the head of a sorted list ties with none of it. */
  lemma {:induction false} BeforeHeadNoTies<T>(x: T, s: seq<T>, iteratees: seq<T -> int>, orders: seq<Order>)
    requires Sorted(s, iteratees, orders) && |s| > 0 && ItemCompare(x, s[0], iteratees, orders) < 0
    ensures forall k :: 0 <= k < |s| ==> Criteria(s[k], iteratees) != Criteria(x, iteratees)
  {
    forall k | 0 <= k < |s|
      ensures Criteria(s[k], iteratees) != Criteria(x, iteratees)
    {
      SortedPairs(s, iteratees, orders, 0, k);
      if Criteria(s[k], iteratees) == Criteria(x, iteratees) {
        CompareZero(Criteria(s[k], iteratees), Criteria(x, iteratees), orders);
        CompareTrans(Criteria(s[0], iteratees), Criteria(s[k], iteratees), Criteria(x, iteratees), orders);
        CompareAnti(Criteria(x, iteratees), Criteria(s[0], iteratees), orders);
      }
    }
  }

  /** Inserting into a sorted list puts the item after every item it ties with. */
  lemma {:induction false} InsertTies<T>(x: T, s: seq<T>, iteratees: seq<T -> int>, orders: seq<Order>, c: seq<int>)
    requires Sorted(s, iteratees, orders)
    ensures Ties(Insert(x, s, iteratees, orders), iteratees, c)
         == Ties(s, iteratees, c) + (if Criteria(x, iteratees) == c then [x] else [])
    decreases |s|
  {
    if |s| == 0 {
    } else if ItemCompare(x, s[0], iteratees, orders) < 0 {
      assert ([x] + s)[1..] == s;
      if Criteria(x, iteratees) == c {
        BeforeHeadNoTies(x, s, iteratees, orders);
        TiesNone(s, iteratees, c);
      }
    } else {
      var rest := Insert(x, s[1..], iteratees, orders);
      InsertTies(x, s[1..], iteratees, orders, c);
      assert ([s[0]] + rest)[1..] == rest;
      AppendAssoc(if Criteria(s[0], iteratees) == c then [s[0]] else [], Ties(s[1..], iteratees, c),
                  if Criteria(x, iteratees) == c then [x] else []);
    }
  }

  /**
    `orderBy` is stable: the items sharing any one criteria list come out
    in the order they went in.
   */
  lemma {:induction false} OrderByStable<T>(items: seq<T>, iteratees: seq<T -> int>, orders: seq<Order>, c: seq<int>)
    ensures Ties(OrderBy(items, iteratees, orders), iteratees, c) == Ties(items, iteratees, c)
    decreases |items|
  {
    if |items| > 0 {
      var init, x := items[..|items| - 1], items[|items| - 1];
      OrderByStable(init, iteratees, orders, c);
      OrderBySorted(init, iteratees, orders);
      InsertTies(x, OrderBy(init, iteratees, orders), iteratees, orders, c);
      TiesSnoc(init, x, iteratees, c);
      InitLast(items);
    }
  }

  /** In a sorted list every item sorts no later than every later item. */
  lemma {:induction false} SortedPairs<T>(s: seq<T>, iteratees: seq<T -> int>, orders: seq<Order>, i: nat, j: nat)
    requires Sorted(s, iteratees, orders) && i <= j < |s|
    ensures ItemCompare(s[i], s[j], iteratees, orders) <= 0
    decreases j - i
  {
    if i == j {
      CompareZero(Criteria(s[i], iteratees), Criteria(s[i], iteratees), orders);
    } else {
      SortedPairs(s, iteratees, orders, i + 1, j);
      CompareTrans(Criteria(s[i], iteratees), Criteria(s[i + 1], iteratees), Criteria(s[j], iteratees), orders);
    }
  }

  /** The criteria of the item at `i` differ from those of the item before it. */
  predicate Changed<T>(s: seq<T>, iteratees: seq<T -> int>, i: nat)
    requires i < |s|
  {
    i > 0 && Criteria(s[i], iteratees) != Criteria(s[i - 1], iteratees)
  }

  /** How many times the criteria change between positions 0 and `i`. */
  function Changes<T>(s: seq<T>, iteratees: seq<T -> int>, i: nat): nat
    requires i < |s|
  {
    if i == 0 then 0 else Changes(s, iteratees, i - 1) + (if Changed(s, iteratees, i) then 1 else 0)
  }

  /**
    `{ ...item, [fieldName]: rank }`: a copy of the record with `fieldName`
    set to the rank. The ranking loop takes this setter as a parameter.
   */
  function SetField(fieldName: string): (Record, int) -> Record
  {
    (item: Record, rank: int) => Assign(item, fieldName, Leaf(Num(rank)))
  }

  /** The output item holds the rank under `fieldName` and every other property of the sorted item unchanged. */
  lemma {:induction false} SetFieldLookup(item: Record, fieldName: string, rank: int, k: string)
    ensures Lookup(SetField(fieldName)(item, rank), fieldName) == Some(Leaf(Num(rank)))
    ensures k != fieldName ==> Lookup(SetField(fieldName)(item, rank), k) == Lookup(item, k)
    ensures DistinctKeys(item) ==> DistinctKeys(SetField(fieldName)(item, rank))
  {
  }

  /** One iteration of the `map` callback computes the rank of item `index`. */
  lemma {:induction false} NextRank<T>(s: seq<T>, iteratees: seq<T -> int>, index: nat, startingRank: int, lastRank: int, lastValues: seq<int>)
    requires index < |s|
    requires index == 0 ==> lastRank == startingRank
    requires index > 0 ==> lastRank == startingRank + Changes(s, iteratees, index - 1) && lastValues == Criteria(s[index - 1], iteratees)
    ensures (if index > 0 && Criteria(s[index], iteratees) != lastValues then lastRank + 1 else lastRank) == startingRank + Changes(s, iteratees, index)
  {
  }

  /** The ranks of the first `n` sorted items: `startingRank` plus the changes up to each item. */
  function RankList<T>(s: seq<T>, iteratees: seq<T -> int>, startingRank: int, n: nat): (r: seq<int>)
    requires n <= |s|
    ensures |r| == n
  {
    if n == 0 then [] else RankList(s, iteratees, startingRank, n - 1) + [startingRank + Changes(s, iteratees, n - 1)]
  }

  lemma {:induction false} RankListAt<T>(s: seq<T>, iteratees: seq<T -> int>, startingRank: int, n: nat, i: nat)
    requires i < n <= |s|
    ensures RankList(s, iteratees, startingRank, n)[i] == startingRank + Changes(s, iteratees, i)
    decreases n
  {
    if i < n - 1 {
      RankListAt(s, iteratees, startingRank, n - 1, i);
    }
  }

  /** The first `n` sorted items, each given its rank by `setRank`. */
  function Stamped<T>(s: seq<T>, iteratees: seq<T -> int>, setRank: (T, int) -> T, startingRank: int, n: nat): (r: seq<T>)
    requires n <= |s|
    ensures |r| == n
  {
    if n == 0 then []
    else Stamped(s, iteratees, setRank, startingRank, n - 1) + [setRank(s[n - 1], startingRank + Changes(s, iteratees, n - 1))]
  }

  lemma {:induction false} StampedAt<T>(s: seq<T>, iteratees: seq<T -> int>, setRank: (T, int) -> T, startingRank: int, n: nat, i: nat)
    requires i < n <= |s|
    ensures Stamped(s, iteratees, setRank, startingRank, n)[i] == setRank(s[i], RankList(s, iteratees, startingRank, n)[i])
    decreases n
  {
    RankListAt(s, iteratees, startingRank, n, i);
    if i < n - 1 {
      StampedAt(s, iteratees, setRank, startingRank, n - 1, i);
      RankListAt(s, iteratees, startingRank, n - 1, i);
    }
  }

  /**
    The loop of `denseRank` over the already sorted items: it carries the
    last rank and the last criteria, and gives each item its rank.
   */
  method RankSorted<T>(sorted: seq<T>, iteratees: seq<T -> int>, setRank: (T, int) -> T, startingRank: int)
    returns (out: seq<T>)
    ensures out == Stamped(sorted, iteratees, setRank, startingRank, |sorted|)
  {
    var lastRank := startingRank;
    var lastValues: seq<int> := [];
    out := [];
    var index := 0;
    while index < |sorted|
      invariant 0 <= index <= |sorted|
      invariant out == Stamped(sorted, iteratees, setRank, startingRank, index)
      invariant index == 0 ==> lastRank == startingRank
      invariant index > 0 ==> lastRank == startingRank + Changes(sorted, iteratees, index - 1)
      invariant index > 0 ==> lastValues == Criteria(sorted[index - 1], iteratees)
    {
      var currentValues := Criteria(sorted[index], iteratees);
      NextRank(sorted, iteratees, index, startingRank, lastRank, lastValues);
      if index > 0 && currentValues != lastValues {
        lastRank := lastRank + 1;
      }
      lastValues := currentValues;
      out := out + [setRank(sorted[index], lastRank)];
      index := index + 1;
    }
  }

  /**
    `denseRank(items, iteratees, { orders, fieldName, startingRank })`,
    with `setRank` being `SetField(fieldName)` for records: the items are
    sorted by `OrderBy` and each sorted item gets its rank in `RankList`.
   */
  method DenseRank<T>(items: seq<T>, iteratees: seq<T -> int>, orders: seq<Order>, setRank: (T, int) -> T, startingRank: int)
    returns (out: seq<T>)
    ensures |out| == |items|
    ensures forall i :: 0 <= i < |out| ==>
      out[i] == setRank(OrderBy(items, iteratees, orders)[i], RankList(OrderBy(items, iteratees, orders), iteratees, startingRank, |items|)[i])
  {
    var sorted := OrderBy(items, iteratees, orders);
    out := RankSorted(sorted, iteratees, setRank, startingRank);
    forall i | 0 <= i < |out|
      ensures out[i] == setRank(sorted[i], RankList(sorted, iteratees, startingRank, |items|)[i])
    {
      StampedAt(sorted, iteratees, setRank, startingRank, |items|, i);
    }
  }

  /** Ranks never fall along the sorted list. */
  lemma {:induction false} ChangesMonotone<T>(s: seq<T>, iteratees: seq<T -> int>, i: nat, j: nat)
    requires i <= j < |s|
    ensures Changes(s, iteratees, i) <= Changes(s, iteratees, j)
    decreases j - i
  {
    if i < j {
      ChangesMonotone(s, iteratees, i, j - 1);
    }
  }

  /** Where the criteria stay the same from `i` to `j`, so does the rank; a change anywhere raises it. */
  lemma {:induction false} ChangesStable<T>(s: seq<T>, iteratees: seq<T -> int>, i: nat, j: nat)
    requires i <= j < |s|
    ensures Changes(s, iteratees, i) == Changes(s, iteratees, j) <==> forall k :: i < k <= j ==> !Changed(s, iteratees, k)
    decreases j - i
  {
    if i < j {
      ChangesStable(s, iteratees, i, j - 1);
      ChangesMonotone(s, iteratees, i, j - 1);
    }
  }

  /** In a sorted list, an item between two items with equal criteria has those criteria too. */
  lemma {:induction false} Sandwiched<T>(s: seq<T>, iteratees: seq<T -> int>, orders: seq<Order>, i: nat, k: nat, j: nat)
    requires Sorted(s, iteratees, orders) && i <= k <= j < |s|
    requires Criteria(s[i], iteratees) == Criteria(s[j], iteratees)
    ensures Criteria(s[k], iteratees) == Criteria(s[i], iteratees)
  {
    SortedPairs(s, iteratees, orders, i, k);
    SortedPairs(s, iteratees, orders, k, j);
    CompareAnti(Criteria(s[k], iteratees), Criteria(s[i], iteratees), orders);
    CompareZero(Criteria(s[i], iteratees), Criteria(s[k], iteratees), orders);
  }

  /** Without a change between `i` and `j`, the criteria at both ends agree. */
  lemma {:induction false} UnchangedEqual<T>(s: seq<T>, iteratees: seq<T -> int>, i: nat, j: nat)
    requires i <= j < |s|
    requires forall k :: i < k <= j ==> !Changed(s, iteratees, k)
    ensures Criteria(s[i], iteratees) == Criteria(s[j], iteratees)
    decreases j - i
  {
    if i < j {
      UnchangedEqual(s, iteratees, i, j - 1);
      assert !Changed(s, iteratees, j);
    }
  }

  /**
    Dense ranking: in the sorted list two items share a rank exactly when
    their criteria are equal, and the rank of a later item is never lower.
   */
  lemma {:induction false} DenseRankIff<T>(items: seq<T>, iteratees: seq<T -> int>, orders: seq<Order>, startingRank: int, i: nat, j: nat)
    requires i <= j < |items|
    ensures RankList(OrderBy(items, iteratees, orders), iteratees, startingRank, |items|)[i]
         <= RankList(OrderBy(items, iteratees, orders), iteratees, startingRank, |items|)[j]
    ensures RankList(OrderBy(items, iteratees, orders), iteratees, startingRank, |items|)[i]
         == RankList(OrderBy(items, iteratees, orders), iteratees, startingRank, |items|)[j]
        <==> Criteria(OrderBy(items, iteratees, orders)[i], iteratees) == Criteria(OrderBy(items, iteratees, orders)[j], iteratees)
  {
    var s := OrderBy(items, iteratees, orders);
    RankListAt(s, iteratees, startingRank, |items|, i);
    RankListAt(s, iteratees, startingRank, |items|, j);
    ChangesIff(items, iteratees, orders, i, j);
  }

  lemma {:induction false} ChangesIff<T>(items: seq<T>, iteratees: seq<T -> int>, orders: seq<Order>, i: nat, j: nat)
    requires i <= j < |items|
    ensures Changes(OrderBy(items, iteratees, orders), iteratees, i) <= Changes(OrderBy(items, iteratees, orders), iteratees, j)
    ensures Changes(OrderBy(items, iteratees, orders), iteratees, i) == Changes(OrderBy(items, iteratees, orders), iteratees, j)
        <==> Criteria(OrderBy(items, iteratees, orders)[i], iteratees) == Criteria(OrderBy(items, iteratees, orders)[j], iteratees)
  {
    var s := OrderBy(items, iteratees, orders);
    OrderBySorted(items, iteratees, orders);
    ChangesMonotone(s, iteratees, i, j);
    ChangesStable(s, iteratees, i, j);
    if Criteria(s[i], iteratees) == Criteria(s[j], iteratees) {
      forall k | i < k <= j
        ensures !Changed(s, iteratees, k)
      {
        Sandwiched(s, iteratees, orders, i, k, j);
        Sandwiched(s, iteratees, orders, i, k - 1, j);
      }
    } else if forall k :: i < k <= j ==> !Changed(s, iteratees, k) {
      UnchangedEqual(s, iteratees, i, j);
    }
  }

  /** The first sorted item gets `startingRank`; each later one adds one exactly when its criteria differ from the previous item's. */
  lemma {:induction false} RankListSteps<T>(s: seq<T>, iteratees: seq<T -> int>, startingRank: int, i: nat)
    requires i + 1 < |s|
    ensures RankList(s, iteratees, startingRank, |s|)[0] == startingRank
    ensures RankList(s, iteratees, startingRank, |s|)[i + 1]
         == RankList(s, iteratees, startingRank, |s|)[i] + (if Criteria(s[i + 1], iteratees) != Criteria(s[i], iteratees) then 1 else 0)
  {
    RankListAt(s, iteratees, startingRank, |s|, 0);
    RankListAt(s, iteratees, startingRank, |s|, i);
    RankListAt(s, iteratees, startingRank, |s|, i + 1);
  }
}
