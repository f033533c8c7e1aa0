/**
  `product(a, b)`: the Cartesian product of two arrays, as the nested
  loops build it — every element of `a`, in order, paired with every
  element of `b`, in order.
 */
module Product {
  import opened Seqs

  /** `itemA` paired with each element of `b`, in order. */
  function Pairing<T, U>(x: T, b: seq<U>): (r: seq<(T, U)>)
    ensures |r| == |b|
    ensures forall j :: 0 <= j < |b| ==> r[j] == (x, b[j])
  {
    seq(|b|, j requires 0 <= j < |b| => (x, b[j]))
  }

  /** The rows of the product, one per element of `a`; the last row was pushed last. */
  function Product<T, U>(a: seq<T>, b: seq<U>): (r: seq<(T, U)>)
    decreases |a|
  {
    if |a| == 0 then [] else Product(a[..|a| - 1], b) + Pairing(a[|a| - 1], b)
  }

  /** The nested loops: `result.push([itemA, itemB])` for each `itemA` of `a`, each `itemB` of `b`. */
  method ProductLoop<T, U>(a: seq<T>, b: seq<U>) returns (result: seq<(T, U)>)
    ensures result == Product(a, b)
  {
    result := [];
    var i := 0;
    while i < |a|
      invariant 0 <= i <= |a|
      invariant result == Product(a[..i], b)
    {
      var j := 0;
      while j < |b|
        invariant 0 <= j <= |b|
        invariant result == Product(a[..i], b) + Pairing(a[i], b[..j])
      {
        PairingSnoc(a[i], b, j);
        AppendAssoc(Product(a[..i], b), Pairing(a[i], b[..j]), [(a[i], b[j])]);
        result := result + [(a[i], b[j])];
        j := j + 1;
      }
      ProductRowDone(a, b, i);
      i := i + 1;
    }
    assert a[..i] == a;
  }

  lemma {:induction false} PairingSnoc<T, U>(x: T, b: seq<U>, j: nat)
    requires j < |b|
    ensures Pairing(x, b[..j + 1]) == Pairing(x, b[..j]) + [(x, b[j])]
  {
  }

  lemma {:induction false} ProductRowDone<T, U>(a: seq<T>, b: seq<U>, i: nat)
    requires i < |a|
    ensures Product(a[..i + 1], b) == Product(a[..i], b) + Pairing(a[i], b[..|b|])
  {
    assert a[..i + 1][..i] == a[..i];
    assert b[..|b|] == b;
  }

  lemma {:induction false} MulStep(x: nat, m: nat)
    ensures (x + 1) * m == x * m + m
  {
  }

  lemma {:induction false} MulBelow(i: nat, n: nat, m: nat, j: nat)
    requires i < n && j < m
    ensures i * m + j < n * m
    decreases n
  {
    MulStep(n - 1, m);
    if i < n - 1 {
      MulBelow(i, n - 1, m, j);
    }
  }

  /** `product(a, b)` has `|a| * |b|` tuples. */
  lemma {:induction false} ProductLength<T, U>(a: seq<T>, b: seq<U>)
    ensures |Product(a, b)| == |a| * |b|
    decreases |a|
  {
    if |a| > 0 {
      ProductLength(a[..|a| - 1], b);
      MulStep(|a| - 1, |b|);
    }
  }

  /**
    In `product(a, b)`, the tuple at `i * |b| + j` is
    `[a[i], b[j]]`, so the pairs come row by row in the order of `a` and,
    within a row, in the order of `b`.
   */
  lemma {:induction false} ProductAt<T, U>(a: seq<T>, b: seq<U>, i: nat, j: nat)
    requires i < |a| && j < |b|
    ensures i * |b| + j < |Product(a, b)| && Product(a, b)[i * |b| + j] == (a[i], b[j])
    decreases |a|
  {
    var init := a[..|a| - 1];
    ProductLength(a, b);
    ProductLength(init, b);
    MulBelow(i, |a|, |b|, j);
    if i < |a| - 1 {
      MulBelow(i, |a| - 1, |b|, j);
      ProductAt(init, b, i, j);
    }
  }

  /** Every tuple of the product pairs an element of `a` with an element of `b`. */
  lemma {:induction false} ProductSound<T, U>(a: seq<T>, b: seq<U>)
    ensures forall p :: p in Product(a, b) ==> p.0 in a && p.1 in b
    decreases |a|
  {
    if |a| > 0 {
      var init := a[..|a| - 1];
      ProductSound(init, b);
      forall p | p in Product(a, b)
        ensures p.0 in a && p.1 in b
      {
        if p in Product(init, b) {
          var k :| 0 <= k < |init| && init[k] == p.0;
          assert a[k] == p.0;
        } else {
          assert p in Pairing(a[|a| - 1], b);
        }
      }
    }
  }

  /** Every element of `a` paired with every element of `b` is in the product. */
  lemma {:induction false} ProductComplete<T, U>(a: seq<T>, b: seq<U>)
    ensures forall x, y :: x in a && y in b ==> (x, y) in Product(a, b)
  {
    forall x, y | x in a && y in b
      ensures (x, y) in Product(a, b)
    {
      var i :| 0 <= i < |a| && a[i] == x;
      var j :| 0 <= j < |b| && b[j] == y;
      ProductAt(a, b, i, j);
    }
  }

  /** The product is empty exactly when one of the arrays is. */
  lemma {:induction false} ProductEmpty<T, U>(a: seq<T>, b: seq<U>)
    ensures |Product(a, b)| == 0 <==> |a| == 0 || |b| == 0
  {
    ProductLength(a, b);
    if |a| > 0 && |b| > 0 {
      MulBelow(0, |a|, |b|, 0);
    }
  }
}
