/** Sequence helpers shared by the visualizers: index ranges, sortedness and swapping. */
module Sequences {

  /** The indices `0, 1, ..., n - 1`, as `[...Array(n).keys()]` produces them. */
  function Range(n: nat): (r: seq<int>)
    ensures |r| == n
    ensures forall k :: 0 <= k < n ==> r[k] == k
  {
    seq(n, k => k)
  }

  /** Non-decreasing order. */
  predicate Sorted(a: seq<int>) {
    forall p, q :: 0 <= p < q < |a| ==> a[p] <= a[q]
  }

  /** The destructuring swap `[a[i], a[j]] = [a[j], a[i]]`. */
  function Swap(a: seq<int>, i: int, j: int): (r: seq<int>)
    requires 0 <= i < |a| && 0 <= j < |a|
    ensures |r| == |a|
    ensures r[i] == a[j] && r[j] == a[i]
    ensures forall k :: 0 <= k < |a| && k != i && k != j ==> r[k] == a[k]
  {
    a[i := a[j]][j := a[i]]
  }

  /** A swap only exchanges values. */
  lemma SwapPermutes(a: seq<int>, i: int, j: int)
    requires 0 <= i < |a| && 0 <= j < |a|
    ensures multiset(Swap(a, i, j)) == multiset(a)
  {
  }

  /** Two sorted sequences with the same elements are equal. */
  lemma {:induction false} SortedPermutationUnique(x: seq<int>, y: seq<int>)
    requires Sorted(x) && Sorted(y)
    requires multiset(x) == multiset(y)
    ensures x == y
    decreases |x|
  {
    if |x| > 0 {
      assert |y| == |multiset(y)| == |x|;
      assert x[0] in multiset(y) by { assert x[0] in multiset(x); }
      assert y[0] in multiset(x) by { assert y[0] in multiset(y); }
      var p :| 0 <= p < |y| && y[p] == x[0];
      var q :| 0 <= q < |x| && x[q] == y[0];
      assert x[0] == y[0];
      assert x == [x[0]] + x[1..];
      assert y == [y[0]] + y[1..];
      assert multiset(x[1..]) == multiset(y[1..]) by {
        assert multiset(x) == multiset([x[0]] + x[1..]) == multiset{x[0]} + multiset(x[1..]);
        assert multiset(y) == multiset([y[0]] + y[1..]) == multiset{y[0]} + multiset(y[1..]);
        assert multiset(x[1..]) == multiset(x) - multiset{x[0]};
        assert multiset(y[1..]) == multiset(y) - multiset{y[0]};
      }
      SortedPermutationUnique(x[1..], y[1..]);
    }
  }
}
