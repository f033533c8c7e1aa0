/**
  `slidingWindowEach`, `slidingWindowMap`, `slidingWindowFilter` and
  `slidingWindowMapFilter`: the callback sees each window
  `items[i .. i + windowSize)` with its start `i`, for
  `i = start, start + increments, …` while `i <= |items| - windowSize`.
 */
module SlidingWindow {
  import opened Wrappers
  import opened Seqs
  import opened MapFilters

  /**
    The starts the loop visits from `i` on, over `n` items: the `k`-th is
    `i + k * increments`, every one leaves room for a whole window, and the
    first start not taken does not. A zero increment is admitted only when
    the loop does not run at all; otherwise it never ends.
   */
  function Starts(n: nat, i: nat, size: nat, inc: nat): (r: seq<nat>)
    requires inc > 0 || i + size > n
    ensures forall k :: 0 <= k < |r| ==> r[k] == i + k * inc
    ensures forall k :: 0 <= k < |r| ==> r[k] + size <= n
    ensures (if |r| == 0 then i else r[|r| - 1] + inc) + size > n
    decreases n - i
  {
    if i + size > n then [] else [i] + Starts(n, i + inc, size, inc)
  }

  /** The calls the loop makes, each a window and its start; `slidingWindowEach` makes exactly these. */
  function Windows<T>(items: seq<T>, start: nat, size: nat, inc: nat): (r: seq<(seq<T>, nat)>)
    requires inc > 0 || start + size > |items|
    ensures |r| == |Starts(|items|, start, size, inc)|
    ensures forall k :: 0 <= k < |r| ==> r[k].1 == Starts(|items|, start, size, inc)[k]
    ensures forall k :: 0 <= k < |r| ==> r[k].1 + size <= |items| && r[k].0 == items[r[k].1..r[k].1 + size]
  {
    var ss := Starts(|items|, start, size, inc);
    seq(|ss|, k requires 0 <= k < |ss| => (items[ss[k]..ss[k] + size], ss[k]))
  }

  /** `slidingWindowMap`: one result per window, in start order. */
  function SlidingWindowMap<T, R>(items: seq<T>, fn: (seq<T>, nat, seq<T>) -> R, start: nat, size: nat, inc: nat): (r: seq<R>)
    requires inc > 0 || start + size > |items|
    ensures |r| == |Windows(items, start, size, inc)|
    ensures forall k :: 0 <= k < |r| ==> var s := Windows(items, start, size, inc)[k].1;
      r[k] == fn(items[s..s + size], s, items)
  {
    var ws := Windows(items, start, size, inc);
    seq(|ws|, k requires 0 <= k < |ws| => fn(ws[k].0, ws[k].1, items))
  }

  /** The windows of the calls `ws` that the predicate accepts, in order. */
  function Accepted<T>(ws: seq<(seq<T>, nat)>, fn: (seq<T>, nat, seq<T>) -> bool, items: seq<T>): (r: seq<seq<T>>)
    ensures forall w :: w in r ==> exists k :: 0 <= k < |ws| && ws[k].0 == w && fn(w, ws[k].1, items)
    ensures forall k :: 0 <= k < |ws| && fn(ws[k].0, ws[k].1, items) ==> ws[k].0 in r
  {
    if |ws| == 0 then []
    else
      assert forall k :: 1 <= k < |ws| ==> ws[k] == ws[1..][k - 1];
      (if fn(ws[0].0, ws[0].1, items) then [ws[0].0] else []) + Accepted(ws[1..], fn, items)
  }

  /** The predicate as a `mapFilter` callback on calls: an accepted window maps to itself. */
  function WindowTest<T>(fn: (seq<T>, nat, seq<T>) -> bool, items: seq<T>): ((seq<T>, nat)) -> Option<seq<T>>
  {
    (w: (seq<T>, nat)) => if fn(w.0, w.1, items) then Some(w.0) else None
  }

  /** The mapping callback as a `mapFilter` callback on calls. */
  function WindowCall<T, R>(fn: (seq<T>, nat, seq<T>) -> Option<R>, items: seq<T>): ((seq<T>, nat)) -> Option<R>
  {
    (w: (seq<T>, nat)) => fn(w.0, w.1, items)
  }

  /** Keeping the accepted windows is `mapFilter` with the predicate as its callback. */
  lemma {:induction false} AcceptedIsMapFilter<T>(ws: seq<(seq<T>, nat)>, fn: (seq<T>, nat, seq<T>) -> bool, items: seq<T>)
    ensures Accepted(ws, fn, items) == MapFilter(ws, WindowTest(fn, items))
  {
    if |ws| > 0 {
      AcceptedIsMapFilter(ws[1..], fn, items);
    }
  }

  /**
    `slidingWindowFilter`: the windows the predicate accepts, one per
    accepted call, in start order.
   */
  function SlidingWindowFilter<T>(items: seq<T>, fn: (seq<T>, nat, seq<T>) -> bool, start: nat, size: nat, inc: nat): (r: seq<seq<T>>)
    requires inc > 0 || start + size > |items|
    ensures r == MapFilter(Windows(items, start, size, inc), WindowTest(fn, items))
    ensures var ws := Windows(items, start, size, inc);
      forall w :: w in r ==> exists k :: 0 <= k < |ws| && ws[k].0 == w && fn(w, ws[k].1, items)
    ensures var ws := Windows(items, start, size, inc);
      forall k :: 0 <= k < |ws| && fn(ws[k].0, ws[k].1, items) ==> ws[k].0 in r
  {
    var ws := Windows(items, start, size, inc);
    AcceptedIsMapFilter(ws, fn, items);
    Accepted(ws, fn, items)
  }

  /** Equal windows at different starts are each kept: `[1, 1, 1]` gives `[1, 1]` twice. */
  lemma RepeatedWindowsKept()
    ensures SlidingWindowFilter([1, 1, 1], (w: seq<int>, i: nat, s: seq<int>) => true, 0, 2, 1) == [[1, 1], [1, 1]]
  {
    assert Starts(3, 2, 2, 1) == [];
    assert Starts(3, 1, 2, 1) == [1];
    assert Starts(3, 0, 2, 1) == [0, 1];
    var items := [1, 1, 1];
    assert items[0..2] == [1, 1] && items[1..3] == [1, 1];
    var ws := Windows(items, 0, 2, 1);
    assert ws == [([1, 1], 0), ([1, 1], 1)];
  }

  /** `slidingWindowMapFilter`: one result per defined call, in start order. */
  function SlidingWindowMapFilter<T, R>(items: seq<T>, fn: (seq<T>, nat, seq<T>) -> Option<R>, start: nat, size: nat, inc: nat): (r: seq<R>)
    requires inc > 0 || start + size > |items|
    ensures r == MapFilter(Windows(items, start, size, inc), WindowCall(fn, items))
    ensures |r| <= |Windows(items, start, size, inc)|
    ensures forall y :: y in r ==> exists k :: 0 <= k < |Windows(items, start, size, inc)|
                                     && fn(Windows(items, start, size, inc)[k].0, Windows(items, start, size, inc)[k].1, items) == Some(y)
    ensures forall k :: 0 <= k < |Windows(items, start, size, inc)|
                      && fn(Windows(items, start, size, inc)[k].0, Windows(items, start, size, inc)[k].1, items).Some?
                      ==> fn(Windows(items, start, size, inc)[k].0, Windows(items, start, size, inc)[k].1, items).value in r
  {
    var ws := Windows(items, start, size, inc);
    var m := SlidingWindowMap(items, fn, start, size, inc);
    assert forall k :: 0 <= k < |ws| ==> m[k] == fn(ws[k].0, ws[k].1, items);
    SomesMembers(m);
    SomesOfCalls(ws, WindowCall(fn, items), m);
    Somes(m)
  }

  /** With the defaults `[1, 2, 3, 4, 5]` gives four pairs; an empty array gives none. */
  lemma {:induction false} DefaultWindows()
    ensures Windows([1, 2, 3, 4, 5], 0, 2, 1) == [([1, 2], 0), ([2, 3], 1), ([3, 4], 2), ([4, 5], 3)]
    ensures Windows<int>([], 0, 2, 1) == []
  {
    DefaultStarts();
    var items := [1, 2, 3, 4, 5];
    assert items[0..2] == [1, 2] && items[1..3] == [2, 3] && items[2..4] == [3, 4] && items[3..5] == [4, 5];
    var ws := Windows(items, 0, 2, 1);
    assert ws[0] == ([1, 2], 0) && ws[1] == ([2, 3], 1) && ws[2] == ([3, 4], 2) && ws[3] == ([4, 5], 3);
  }

  /** Windows of two over five items start at 0, 1, 2 and 3. */
  lemma {:induction false} DefaultStarts()
    ensures Starts(5, 0, 2, 1) == [0, 1, 2, 3]
  {
    assert Starts(5, 4, 2, 1) == [];
    assert Starts(5, 3, 2, 1) == [3];
    assert Starts(5, 2, 2, 1) == [2, 3];
    assert Starts(5, 1, 2, 1) == [1, 2, 3];
  }
}
