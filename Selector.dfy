/**
 * `argmax_i8`: reduces the engine's class scores to one class index.
 * The scan goes left to right and replaces the best only on a strictly
 * greater score, so among equal maxima the lowest index wins.
 */
module Selector {
  import opened Types

  /** `k` holds a maximum of `v`, and every index before it holds a smaller value. */
  predicate IsLowestMax(v: seq<int>, k: int) {
    && 0 <= k < |v|
    && (forall j :: 0 <= j < |v| ==> v[j] <= v[k])
    && (forall j :: 0 <= j < k ==> v[j] < v[k])
  }

  /** The class the left-to-right scan settles on, as a function of the scores it has seen. */
  function ArgMax(v: seq<int>): (r: nat)
    requires |v| >= 1
    ensures IsLowestMax(v, r)
    decreases |v|
  {
    if |v| == 1 then 0
    else
      var b := ArgMax(v[..|v| - 1]);
      if v[|v| - 1] > v[b] then |v| - 1 else b
  }

  /** The lowest maximal index is unique, so `ArgMax` is fully determined by its postcondition. */
  lemma LowestMaxUnique(v: seq<int>, a: int, b: int)
    requires IsLowestMax(v, a) && IsLowestMax(v, b)
    ensures a == b
  {
    // both are maxima, so they hold equal scores; neither can then lie strictly before the other
    assert v[a] == v[b];
  }

  /** The loop of `argmax_i8` over the first `n` cells of `v`. */
  method ArgMaxI8(v: array<i8>, n: int) returns (best: int)
    requires v.Length >= 1 && n <= v.Length
    ensures n <= 1 ==> best == 0
    ensures n >= 1 ==> best == ArgMax(v[..n]) && IsLowestMax(v[..n], best)
  {
    best := 0;
    var bestv := v[0];
    var i := 1;
    while i < n
      invariant 1 <= i <= v.Length && (n >= 1 ==> i <= n)
      invariant n <= 1 ==> best == 0
      invariant best == ArgMax(v[..i]) && bestv == v[best]
    {
      assert v[..i + 1][..i] == v[..i];
      if v[i] > bestv {
        bestv := v[i];
        best := i;
      }
      i := i + 1;
    }
    if n >= 1 {
      assert i == n;
    }
  }

  /** Two classes tied at the top resolve to the smaller label. */
  lemma TieGoesToLowestIndex()
    ensures ArgMax([5, 5, 3, 0, 0, 0, 0, 0, 0, 0]) == 0
  {
    LowestMaxUnique([5, 5, 3, 0, 0, 0, 0, 0, 0, 0], ArgMax([5, 5, 3, 0, 0, 0, 0, 0, 0, 0]), 0);
  }

  /** A single larger score in the last cell is found. */
  lemma LastIndexWins()
    ensures ArgMax([-128, -128, -128, -128, -128, -128, -128, -128, -128, -127]) == 9
  {
    var v := [-128, -128, -128, -128, -128, -128, -128, -128, -128, -127];
    LowestMaxUnique(v, ArgMax(v), 9);
  }
}
