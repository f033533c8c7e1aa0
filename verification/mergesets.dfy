/**
  `mergeSets(sets)`: the union of a list of sets, folded left to right
  with `reduce` and no initial value, so an empty list is handled before
  the fold.
 */
module MergeSets {

  /** `acc` merged with each set of `rest`, in order: `new Set([...acc, ...curr])`. */
  function Fold<T>(acc: set<T>, rest: seq<set<T>>): (r: set<T>)
    decreases |rest|
  {
    if |rest| == 0 then acc else Fold(acc + rest[0], rest[1..])
  }

  /** `mergeSets(sets)`: a new empty set for no sets, otherwise the fold from the first set. */
  function MergeSets<T>(sets: seq<set<T>>): (r: set<T>)
    ensures |sets| == 0 ==> r == {}
    ensures |sets| == 1 ==> r == sets[0]
  {
    if |sets| == 0 then {} else Fold(sets[0], sets[1..])
  }

  /** Every element of any of the sets, as an independent reference. */
  function UnionAll<T>(sets: seq<set<T>>): set<T>
  {
    set i, x | 0 <= i < |sets| && x in sets[i] :: x
  }

  /** Folding from `acc` gives `acc` together with everything in the remaining sets. */
  lemma {:induction false} FoldUnion<T>(acc: set<T>, rest: seq<set<T>>)
    ensures Fold(acc, rest) == acc + UnionAll(rest)
    decreases |rest|
  {
    if |rest| > 0 {
      FoldUnion(acc + rest[0], rest[1..]);
      UnionAllHead(rest);
    }
  }

  lemma {:induction false} UnionAllHead<T>(sets: seq<set<T>>)
    requires |sets| > 0
    ensures UnionAll(sets) == sets[0] + UnionAll(sets[1..])
  {
    forall x | x in UnionAll(sets)
      ensures x in sets[0] + UnionAll(sets[1..])
    {
      var i :| 0 <= i < |sets| && x in sets[i];
      if i > 0 {
        assert x in sets[1..][i - 1];
      }
    }
    forall x | x in UnionAll(sets[1..])
      ensures x in UnionAll(sets)
    {
      var i :| 0 <= i < |sets[1..]| && x in sets[1..][i];
      assert x in sets[i + 1];
    }
  }

  /** The merged set holds exactly the elements that occur in some input set. */
  lemma {:induction false} MergeSetsIsUnion<T>(sets: seq<set<T>>)
    ensures MergeSets(sets) == UnionAll(sets)
    ensures forall i, x :: 0 <= i < |sets| && x in sets[i] ==> x in MergeSets(sets)
    ensures forall x :: x in MergeSets(sets) ==> exists i :: 0 <= i < |sets| && x in sets[i]
  {
    if |sets| > 0 {
      FoldUnion(sets[0], sets[1..]);
      UnionAllHead(sets);
    }
  }

  /** Merging is insensitive to the order of the sets: swapping two of them gives the same set. */
  lemma {:induction false} MergeSetsSwap<T>(sets: seq<set<T>>, i: nat, j: nat)
    requires i < |sets| && j < |sets|
    ensures MergeSets(sets[i := sets[j]][j := sets[i]]) == MergeSets(sets)
  {
    var swapped := sets[i := sets[j]][j := sets[i]];
    MergeSetsIsUnion(sets);
    MergeSetsIsUnion(swapped);
    forall x | x in UnionAll(sets)
      ensures x in UnionAll(swapped)
    {
      var k :| 0 <= k < |sets| && x in sets[k];
      var k' := if k == i then j else if k == j then i else k;
      assert x in swapped[k'];
    }
    forall x | x in UnionAll(swapped)
      ensures x in UnionAll(sets)
    {
      var k :| 0 <= k < |swapped| && x in swapped[k];
      var k' := if k == i then j else if k == j then i else k;
      assert x in sets[k'];
    }
  }
}
