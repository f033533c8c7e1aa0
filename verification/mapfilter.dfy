/**
  `mapFilter` and `mapFilterFirst` (also exported as `mapFilter` and
  `mapFind` from the mappers module): a callback that returns a value or
  `undefined`, applied left to right. `None` stands for `undefined`.
 */
module MapFilters {
  import opened Wrappers
  import opened Seqs

  /** `mapFilter(items, fn)`: the defined results of `fn`, in input order. */
  function MapFilter<T, R>(items: seq<T>, fn: T -> Option<R>): (r: seq<R>)
    ensures |r| <= |items|
  {
    if |items| == 0 then []
    else
      var rest := MapFilter(items[1..], fn);
      match fn(items[0])
      case Some(y) => [y] + rest
      case None => rest
  }

  /** Every result comes from some item, and every defined result is kept. */
  lemma {:induction false} MapFilterMembers<T, R>(items: seq<T>, fn: T -> Option<R>)
    ensures forall y :: y in MapFilter(items, fn) ==> exists i :: 0 <= i < |items| && fn(items[i]) == Some(y)
    ensures forall i :: 0 <= i < |items| && fn(items[i]).Some? ==> fn(items[i]).value in MapFilter(items, fn)
  {
    if |items| > 0 {
      var r := MapFilter(items, fn);
      var rest := MapFilter(items[1..], fn);
      MapFilterMembers(items[1..], fn);
      forall y | y in r
        ensures exists i :: 0 <= i < |items| && fn(items[i]) == Some(y)
      {
        if fn(items[0]) == Some(y) {
        } else {
          assert y in rest;
          var j :| 0 <= j < |items[1..]| && fn(items[1..][j]) == Some(y);
          assert fn(items[j + 1]) == Some(y);
        }
      }
      forall i | 0 <= i < |items| && fn(items[i]).Some?
        ensures fn(items[i]).value in r
      {
        if i > 0 {
          assert items[i] == items[1..][i - 1];
        }
      }
    }
  }

  /** The loop pushes one result at a time: mapping a concatenation concatenates the results. */
  lemma {:induction false} MapFilterAppend<T, R>(a: seq<T>, b: seq<T>, fn: T -> Option<R>)
    ensures MapFilter(a + b, fn) == MapFilter(a, fn) + MapFilter(b, fn)
  {
    if |a| == 0 {
      assert a + b == b;
    } else {
      assert (a + b)[1..] == a[1..] + b;
      MapFilterAppend(a[1..], b, fn);
    }
  }

  /** The loop of the source, one push per defined result. */
  method MapFilterLoop<T, R>(items: seq<T>, fn: T -> Option<R>) returns (result: seq<R>)
    ensures result == MapFilter(items, fn)
  {
    result := [];
    var i := 0;
    while i < |items|
      invariant 0 <= i <= |items|
      invariant result == MapFilter(items[..i], fn)
    {
      MapFilterAppend(items[..i], [items[i]], fn);
      assert items[..i + 1] == items[..i] + [items[i]];
      if fn(items[i]).Some? {
        result := result + [fn(items[i]).value];
      }
      i := i + 1;
    }
    assert items[..i] == items;
  }

  /** When the callback is defined everywhere nothing is dropped and the order is kept. */
  lemma {:induction false} MapFilterTotal<T, R>(items: seq<T>, fn: T -> Option<R>)
    requires forall i :: 0 <= i < |items| ==> fn(items[i]).Some?
    ensures |MapFilter(items, fn)| == |items|
    ensures forall i :: 0 <= i < |items| ==> MapFilter(items, fn)[i] == fn(items[i]).value
  {
    if |items| > 0 {
      assert forall i :: 1 <= i < |items| ==> items[i] == items[1..][i - 1];
      MapFilterTotal(items[1..], fn);
    }
  }

  /** The defined entries of a sequence of optional values, in order. */
  function Somes<R>(s: seq<Option<R>>): (r: seq<R>)
    ensures |r| <= |s|
  {
    MapFilter(s, x => x)
  }

  /** Every value kept is defined in the input, and every defined value is kept. */
  lemma {:induction false} SomesMembers<R>(s: seq<Option<R>>)
    ensures forall y :: y in Somes(s) ==> Some(y) in s
    ensures forall i :: 0 <= i < |s| && s[i].Some? ==> s[i].value in Somes(s)
  {
    MapFilterMembers(s, x => x);
    forall y | y in Somes(s)
      ensures Some(y) in s
    {
      var i :| 0 <= i < |s| && s[i] == Some(y);
    }
  }

  /** Appending one optional value appends its value when it is defined. */
  lemma {:induction false} SomesSnoc<R>(s: seq<Option<R>>, x: Option<R>)
    ensures Somes(s + [x]) == Somes(s) + (if x.Some? then [x.value] else [])
  {
    MapFilterAppend(s, [x], y => y);
  }

  /**
    Collecting the defined entries of the calls `fn(xs[0])`, `fn(xs[1])`, …
    is `mapFilter(xs, fn)`: same results, same order, same multiplicity.
   */
  lemma {:induction false} SomesOfCalls<T, R>(xs: seq<T>, fn: T -> Option<R>, m: seq<Option<R>>)
    requires |m| == |xs| && forall k :: 0 <= k < |xs| ==> m[k] == fn(xs[k])
    ensures Somes(m) == MapFilter(xs, fn)
  {
    if |xs| > 0 {
      assert forall k :: 0 <= k < |xs| - 1 ==> m[1..][k] == fn(xs[1..][k]);
      SomesOfCalls(xs[1..], fn, m[1..]);
    }
  }

  /** `mapFilterFirst(items, fn)` / `mapFind(items, fn)`: the first defined result. */
  function MapFilterFirst<T, R>(items: seq<T>, fn: T -> Option<R>): (r: Option<R>)
    ensures r.None? <==> forall i :: 0 <= i < |items| ==> fn(items[i]).None?
    ensures r.Some? ==> exists i :: 0 <= i < |items| && fn(items[i]) == r
                                    && forall j :: 0 <= j < i ==> fn(items[j]).None?
  {
    if |items| == 0 then None
    else
      match fn(items[0])
      case Some(y) => Some(y)
      case None =>
        var r := MapFilterFirst(items[1..], fn);
        assert forall i :: 1 <= i < |items| ==> items[i] == items[1..][i - 1];
        r
  }

  /** `mapFilterFirst` is the head of `mapFilter`, and undefined exactly when that is empty. */
  lemma {:induction false} MapFilterFirstIsHead<T, R>(items: seq<T>, fn: T -> Option<R>)
    ensures MapFilterFirst(items, fn) == if |MapFilter(items, fn)| == 0 then None else Some(MapFilter(items, fn)[0])
  {
    if |items| > 0 && fn(items[0]).None? {
      MapFilterFirstIsHead(items[1..], fn);
    }
  }
}
