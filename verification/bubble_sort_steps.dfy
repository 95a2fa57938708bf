/** The step trace behind the bubble sort visualizer: bubble sort run to completion,
    recording a snapshot before every comparison and after every swap, then one
    final "all sorted" snapshot. */
module BubbleSortSteps {
  import opened Sequences

  /** One snapshot: the working array, the pair under comparison (empty in the final
      step), whether this snapshot shows a swap just made, and the indices already
      fixed, in the order the outer passes fixed them. */
  datatype SortStep = SortStep(values: seq<int>, comparing: seq<int>, swapping: bool, sortedIndices: seq<int>)

  /** The indices the first `i` outer passes fix, in the order they are added:
      `n - 1, n - 2, ..., n - i`. */
  function Placed(n: int, i: nat): (r: seq<int>)
    ensures |r| == i
    ensures forall m :: 0 <= m < i ==> r[m] == n - 1 - m
  {
    seq(i, m => n - 1 - m)
  }

  /** One inner-loop iteration on the array: exchange `a[j]` and `a[j + 1]` when the
      left value is strictly greater. */
  function CompareSwap(a: seq<int>, j: nat): (r: seq<int>)
    requires j + 1 < |a|
    ensures |r| == |a|
    ensures r[j] <= r[j + 1]
    ensures r[j + 1] == if a[j] > a[j + 1] then a[j] else a[j + 1]
  {
    if a[j] > a[j + 1] then Swap(a, j, j + 1) else a
  }

  /** The working array after the inner loop compares `(j, j + 1)` for `j` from `j`
      up to `bound - 1`, swapping whenever the left value is strictly greater. */
  function SweepValues(a: seq<int>, j: nat, bound: nat): (r: seq<int>)
    requires j <= bound < |a|
    ensures |r| == |a|
    decreases bound - j
  {
    if j == bound then a
    else SweepValues(CompareSwap(a, j), j + 1, bound)
  }

  /** What one inner-loop iteration records: the comparison snapshot, then a swap
      snapshot when the pair was exchanged. */
  function SweepHead(a: seq<int>, j: nat, sorted: seq<int>): seq<SortStep>
    requires j + 1 < |a|
  {
    var compare := SortStep(a, [j, j + 1], false, sorted);
    if a[j] > a[j + 1] then [compare, SortStep(Swap(a, j, j + 1), [j, j + 1], true, sorted)]
    else [compare]
  }

  /** The snapshots that inner loop records: one before each comparison and one after
      each swap, all carrying the current sorted-index list `sorted`. */
  function SweepSteps(a: seq<int>, j: nat, bound: nat, sorted: seq<int>): seq<SortStep>
    requires j <= bound < |a|
    decreases bound - j
  {
    if j == bound then []
    else SweepHead(a, j, sorted) + SweepSteps(CompareSwap(a, j), j + 1, bound, sorted)
  }

  /** The working array after outer passes `i, i + 1, ..., |a| - 2`; pass `i` sweeps
      up to `|a| - 1 - i`. */
  function PassesValues(a: seq<int>, i: nat): (r: seq<int>)
    ensures |r| == |a|
    decreases |a| - i
  {
    if i + 1 >= |a| then a
    else PassesValues(SweepValues(a, 0, |a| - 1 - i), i + 1)
  }

  /** The snapshots of outer passes `i, i + 1, ..., |a| - 2`; after pass `i` the index
      `|a| - 1 - i` joins the sorted list. */
  function PassesSteps(a: seq<int>, i: nat): seq<SortStep>
    decreases |a| - i
  {
    if i + 1 >= |a| then []
    else SweepSteps(a, 0, |a| - 1 - i, Placed(|a|, i)) + PassesSteps(SweepValues(a, 0, |a| - 1 - i), i + 1)
  }

  /** `generateSortingSteps`: the passes followed by the final step with every index sorted. */
  function SortingSteps(a: seq<int>): (t: seq<SortStep>)
    ensures |t| >= 1
    ensures t[0].values == a
    ensures t[|t| - 1].comparing == [] && !t[|t| - 1].swapping
    ensures t[|t| - 1].sortedIndices == Range(|a|)
  {
    PassesSteps(a, 0) + [SortStep(PassesValues(a, 0), [], false, Range(|a|))]
  }

  /** The last snapshot of a trace. */
  function Final(t: seq<SortStep>): SortStep
    requires |t| > 0
  {
    t[|t| - 1]
  }

  // ---------------------------------------------------------------------------
  // Which indices a sweep touches

  /** A sweep up to `bound` leaves every index above `bound` alone. */
  lemma {:induction false} SweepFixesAbove(a: seq<int>, j: nat, bound: nat)
    requires j <= bound < |a|
    ensures forall p :: bound < p < |a| ==> SweepValues(a, j, bound)[p] == a[p]
    decreases bound - j
  {
    if j < bound {
      var b := CompareSwap(a, j);
      SweepFixesAbove(b, j + 1, bound);
    }
  }

  /** A sweep only exchanges values. */
  lemma {:induction false} SweepPermutes(a: seq<int>, j: nat, bound: nat)
    requires j <= bound < |a|
    ensures multiset(SweepValues(a, j, bound)) == multiset(a)
    decreases bound - j
  {
    if j < bound {
      var b := CompareSwap(a, j);
      if a[j] > a[j + 1] {
        SwapPermutes(a, j, j + 1);
      }
      SweepPermutes(b, j + 1, bound);
    }
  }

  /** So do the outer passes. */
  lemma {:induction false} PassesPermute(a: seq<int>, i: nat)
    ensures multiset(PassesValues(a, i)) == multiset(a)
    decreases |a| - i
  {
    if i + 1 < |a| {
      var b := SweepValues(a, 0, |a| - 1 - i);
      assert PassesValues(a, i) == PassesValues(b, i + 1);
      SweepPermutes(a, 0, |a| - 1 - i);
      PassesPermute(b, i + 1);
    }
  }

  /** Passes from `i` on leave the indices fixed by the first `i` passes alone. */
  lemma {:induction false} PassesFixPlaced(a: seq<int>, i: nat)
    ensures forall p :: |a| - i <= p < |a| && 0 <= p ==> PassesValues(a, i)[p] == a[p]
    decreases |a| - i
  {
    if i + 1 < |a| {
      var b := SweepValues(a, 0, |a| - 1 - i);
      SweepFixesAbove(a, 0, |a| - 1 - i);
      PassesFixPlaced(b, i + 1);
    }
  }

  // ---------------------------------------------------------------------------
  // Counting steps

  /** The number of swapping snapshots. */
  function CountSwaps(t: seq<SortStep>): nat {
    if |t| == 0 then 0 else (if t[0].swapping then 1 else 0) + CountSwaps(t[1..])
  }

  lemma {:induction false} CountSwapsAppend(x: seq<SortStep>, y: seq<SortStep>)
    ensures CountSwaps(x + y) == CountSwaps(x) + CountSwaps(y)
    decreases |x|
  {
    if |x| > 0 {
      assert (x + y)[1..] == x[1..] + y;
      CountSwapsAppend(x[1..], y);
    } else {
      assert x + y == y;
    }
  }

  /** `1 + 2 + ... + m`. */
  function Triangle(m: int): nat {
    if m <= 0 then 0 else m + Triangle(m - 1)
  }

  lemma {:induction false} TriangleClosedForm(m: nat)
    ensures 2 * Triangle(m) == m * (m + 1)
  {
    if m > 0 {
      TriangleClosedForm(m - 1);
    }
  }

  /** `1 + 2 + ... + (n - 1)` is the number of pairs among `n` indices. */
  lemma TriangleHalf(n: nat)
    requires n >= 1
    ensures Triangle(n - 1) == n * (n - 1) / 2
  {
    var m := n - 1;
    TriangleClosedForm(m);
    assert m * (m + 1) == n * (n - 1);
  }

  /** Number of elements of `s` strictly below `v`. */
  function Below(v: int, s: seq<int>): nat {
    if |s| == 0 then 0 else (if s[0] < v then 1 else 0) + Below(v, s[1..])
  }

  /** Number of pairs `p < q` with `a[p] > a[q]`. */
  function Inversions(a: seq<int>): nat {
    if |a| == 0 then 0 else Below(a[0], a[1..]) + Inversions(a[1..])
  }

  lemma {:induction false} BelowSwap(v: int, s: seq<int>, i: nat)
    requires i + 1 < |s|
    ensures Below(v, Swap(s, i, i + 1)) == Below(v, s)
    decreases i
  {
    var t := Swap(s, i, i + 1);
    if i == 0 {
      assert t[1..][1..] == s[1..][1..];
    } else {
      assert t[1..] == Swap(s[1..], i - 1, i);
      BelowSwap(v, s[1..], i - 1);
    }
  }

  /** Swapping an inverted adjacent pair removes exactly one inversion. */
  lemma {:induction false} SwapRemovesOneInversion(a: seq<int>, j: nat)
    requires j + 1 < |a| && a[j] > a[j + 1]
    ensures Inversions(Swap(a, j, j + 1)) + 1 == Inversions(a)
    decreases j
  {
    var b := Swap(a, j, j + 1);
    if j == 0 {
      var c := a[2..];
      assert a[1..][1..] == c && b[1..][1..] == c;
      assert a[1..][0] == a[1] && b[1..][0] == a[0];
    } else {
      assert b[1..] == Swap(a[1..], j - 1, j);
      BelowSwap(a[0], a[1..], j - 1);
      SwapRemovesOneInversion(a[1..], j - 1);
    }
  }

  lemma {:induction false} BelowNone(v: int, s: seq<int>)
    requires forall k :: 0 <= k < |s| ==> v <= s[k]
    ensures Below(v, s) == 0
    decreases |s|
  {
    if |s| > 0 {
      BelowNone(v, s[1..]);
    }
  }

  /** A sorted sequence has no inversions. */
  lemma {:induction false} SortedHasNoInversions(a: seq<int>)
    requires Sorted(a)
    ensures Inversions(a) == 0
    decreases |a|
  {
    if |a| > 0 {
      BelowNone(a[0], a[1..]);
      SortedHasNoInversions(a[1..]);
    }
  }

  /** One iteration records one comparison, plus one swap when it removes an inversion. */
  lemma SweepHeadCounts(a: seq<int>, j: nat, sorted: seq<int>)
    requires j + 1 < |a|
    ensures |SweepHead(a, j, sorted)| == 1 + CountSwaps(SweepHead(a, j, sorted))
    ensures CountSwaps(SweepHead(a, j, sorted)) + Inversions(CompareSwap(a, j)) == Inversions(a)
  {
    var head := SweepHead(a, j, sorted);
    if a[j] > a[j + 1] {
      assert head[1..] == [head[1]] && [head[1]][1..] == [];
      assert CountSwaps([head[1]]) == 1;
      SwapRemovesOneInversion(a, j);
    } else {
      assert head[1..] == [];
    }
  }

  /** A sweep records one comparison per pair it visits and one swap per inversion it removes. */
  lemma {:induction false} SweepCounts(a: seq<int>, j: nat, bound: nat, sorted: seq<int>)
    requires j <= bound < |a|
    ensures |SweepSteps(a, j, bound, sorted)| == bound - j + CountSwaps(SweepSteps(a, j, bound, sorted))
    ensures CountSwaps(SweepSteps(a, j, bound, sorted)) + Inversions(SweepValues(a, j, bound)) == Inversions(a)
    decreases bound - j
  {
    if j < bound {
      var head := SweepHead(a, j, sorted);
      var b := CompareSwap(a, j);
      var rest := SweepSteps(b, j + 1, bound, sorted);
      assert SweepSteps(a, j, bound, sorted) == head + rest;
      SweepHeadCounts(a, j, sorted);
      SweepCounts(b, j + 1, bound, sorted);
      CountSwapsAppend(head, rest);
    }
  }

  lemma {:induction false} PassesComparisons(a: seq<int>, i: nat)
    ensures |PassesSteps(a, i)| == Triangle(|a| - 1 - i) + CountSwaps(PassesSteps(a, i))
    decreases |a| - i
  {
    if i + 1 < |a| {
      var bound := |a| - 1 - i;
      var head := SweepSteps(a, 0, bound, Placed(|a|, i));
      var b := SweepValues(a, 0, bound);
      var rest := PassesSteps(b, i + 1);
      assert PassesSteps(a, i) == head + rest;
      SweepCounts(a, 0, bound, Placed(|a|, i));
      PassesComparisons(b, i + 1);
      assert |rest| == Triangle(bound - 1) + CountSwaps(rest);
      CountSwapsAppend(head, rest);
      assert Triangle(bound) == bound + Triangle(bound - 1);
    }
  }

  lemma {:induction false} PassesSwapCount(a: seq<int>, i: nat)
    ensures CountSwaps(PassesSteps(a, i)) + Inversions(PassesValues(a, i)) == Inversions(a)
    decreases |a| - i
  {
    if i + 1 < |a| {
      var bound := |a| - 1 - i;
      var head := SweepSteps(a, 0, bound, Placed(|a|, i));
      var b := SweepValues(a, 0, bound);
      var rest := PassesSteps(b, i + 1);
      assert PassesSteps(a, i) == head + rest;
      assert PassesValues(a, i) == PassesValues(b, i + 1);
      SweepCounts(a, 0, bound, Placed(|a|, i));
      PassesSwapCount(b, i + 1);
      CountSwapsAppend(head, rest);
    }
  }

  // ---------------------------------------------------------------------------
  // The final array is sorted

  /** After a sweep up to `bound`, the largest of the first `bound + 1` values sits at `bound`. */
  lemma {:induction false} SweepBubblesMax(a: seq<int>, j: nat, bound: nat)
    requires j <= bound < |a|
    requires forall k :: 0 <= k < j ==> a[k] <= a[j]
    ensures forall k :: 0 <= k <= bound ==> SweepValues(a, j, bound)[k] <= SweepValues(a, j, bound)[bound]
    decreases bound - j
  {
    if j < bound {
      var b := CompareSwap(a, j);
      SweepBubblesMax(b, j + 1, bound);
    }
  }

  /** A sweep keeps every value of its range below any common upper bound `m`. */
  lemma {:induction false} SweepKeepsBound(a: seq<int>, j: nat, bound: nat, m: int)
    requires j <= bound < |a|
    requires forall k :: 0 <= k <= bound ==> a[k] <= m
    ensures forall k :: 0 <= k <= bound ==> SweepValues(a, j, bound)[k] <= m
    decreases bound - j
  {
    if j < bound {
      var b := CompareSwap(a, j);
      SweepKeepsBound(b, j + 1, bound, m);
    }
  }

  /** The suffix from `m` is sorted. */
  predicate SortedFrom(a: seq<int>, m: int) {
    forall p, q :: m <= p < q < |a| && 0 <= p ==> a[p] <= a[q]
  }

  /** Every value before `m` is at most every value from `m` on. */
  predicate Dominated(a: seq<int>, m: int) {
    forall p, q :: 0 <= p < m <= q < |a| ==> a[p] <= a[q]
  }

  lemma {:induction false} PassesSort(a: seq<int>, i: nat)
    requires SortedFrom(a, |a| - i) && Dominated(a, |a| - i)
    ensures Sorted(PassesValues(a, i))
    decreases |a| - i
  {
    var n := |a|;
    if i + 1 < n {
      var bound := n - 1 - i;
      var b := SweepValues(a, 0, bound);
      SweepBubblesMax(a, 0, bound);
      SweepFixesAbove(a, 0, bound);
      forall q | n - i <= q < n
        ensures forall k :: 0 <= k <= bound ==> b[k] <= b[q]
      {
        SweepKeepsBound(a, 0, bound, a[q]);
      }
      assert SortedFrom(b, bound);
      assert Dominated(b, bound);
      PassesSort(b, i + 1);
    }
  }

  // ---------------------------------------------------------------------------
  // Where swaps occur

  /** A comparison snapshot whose pair is strictly out of order. */
  predicate OutOfOrder(s: SortStep) {
    && !s.swapping
    && |s.comparing| == 2
    && 0 <= s.comparing[0]
    && s.comparing[1] == s.comparing[0] + 1
    && s.comparing[1] < |s.values|
    && s.values[s.comparing[0]] > s.values[s.comparing[1]]
  }

  /** The swap snapshot that follows an out-of-order comparison. */
  function Swapped(s: SortStep): SortStep
    requires OutOfOrder(s)
  {
    SortStep(Swap(s.values, s.comparing[0], s.comparing[1]), s.comparing, true, s.sortedIndices)
  }

  /** A swap snapshot appears exactly after each out-of-order comparison, and shows
      that comparison's pair exchanged; the trace starts and ends outside a swap. */
  predicate SwapsWellPlaced(t: seq<SortStep>) {
    && (|t| > 0 ==> !t[0].swapping && !OutOfOrder(t[|t| - 1]))
    && forall k :: 0 <= k < |t| - 1 ==>
         && (t[k + 1].swapping <==> OutOfOrder(t[k]))
         && (t[k + 1].swapping ==> t[k + 1] == Swapped(t[k]))
  }

  lemma {:induction false} SwapsWellPlacedAppend(x: seq<SortStep>, y: seq<SortStep>)
    requires SwapsWellPlaced(x) && SwapsWellPlaced(y)
    ensures SwapsWellPlaced(x + y)
  {
    if |x| > 0 && |y| > 0 {
      var t := x + y;
      forall k | 0 <= k < |t| - 1
        ensures (t[k + 1].swapping <==> OutOfOrder(t[k]))
        ensures (t[k + 1].swapping ==> t[k + 1] == Swapped(t[k]))
      {
        if k < |x| - 1 {
          assert t[k] == x[k] && t[k + 1] == x[k + 1];
        } else if k == |x| - 1 {
          assert t[k] == x[|x| - 1] && t[k + 1] == y[0];
        } else {
          assert t[k] == y[k - |x|] && t[k + 1] == y[k - |x| + 1];
        }
      }
    } else if |x| == 0 {
      assert x + y == y;
    } else {
      assert x + y == x;
    }
  }

  lemma {:induction false} SweepSwapsWellPlaced(a: seq<int>, j: nat, bound: nat, sorted: seq<int>)
    requires j <= bound < |a|
    ensures SwapsWellPlaced(SweepSteps(a, j, bound, sorted))
    decreases bound - j
  {
    if j < bound {
      var head := SweepHead(a, j, sorted);
      var b := CompareSwap(a, j);
      var rest := SweepSteps(b, j + 1, bound, sorted);
      assert SweepSteps(a, j, bound, sorted) == head + rest;
      assert a[j] > a[j + 1] ==> head[1] == Swapped(head[0]);
      assert SwapsWellPlaced(head);
      SweepSwapsWellPlaced(b, j + 1, bound, sorted);
      SwapsWellPlacedAppend(head, rest);
    }
  }

  lemma {:induction false} PassesSwapsWellPlaced(a: seq<int>, i: nat)
    ensures SwapsWellPlaced(PassesSteps(a, i))
    decreases |a| - i
  {
    if i + 1 < |a| {
      var bound := |a| - 1 - i;
      var b := SweepValues(a, 0, bound);
      var head := SweepSteps(a, 0, bound, Placed(|a|, i));
      var rest := PassesSteps(b, i + 1);
      assert PassesSteps(a, i) == head + rest;
      SweepSwapsWellPlaced(a, 0, bound, Placed(|a|, i));
      PassesSwapsWellPlaced(b, i + 1);
      SwapsWellPlacedAppend(head, rest);
    }
  }

  // ---------------------------------------------------------------------------
  // What every snapshot holds

  /** A snapshot recorded inside a sweep up to `bound` over input `a`. */
  ghost predicate SweepStep(st: SortStep, a: seq<int>, bound: int, sorted: seq<int>) {
    && st.sortedIndices == sorted
    && |st.comparing| == 2 && 0 <= st.comparing[0] && st.comparing[1] == st.comparing[0] + 1
    && st.comparing[1] <= bound
    && |st.values| == |a| && multiset(st.values) == multiset(a)
    && forall p :: bound < p < |a| ==> st.values[p] == a[p]
  }

  /** Every snapshot of `t` is a snapshot of that sweep. */
  ghost predicate AllSweepSteps(t: seq<SortStep>, a: seq<int>, bound: int, sorted: seq<int>) {
    forall k :: 0 <= k < |t| ==> SweepStep(t[k], a, bound, sorted)
  }

  lemma {:induction false} SweepStepsShape(a: seq<int>, j: nat, bound: nat, sorted: seq<int>)
    requires j <= bound < |a|
    ensures AllSweepSteps(SweepSteps(a, j, bound, sorted), a, bound, sorted)
    decreases bound - j
  {
    if j < bound {
      var head := SweepHead(a, j, sorted);
      var b := CompareSwap(a, j);
      var rest := SweepSteps(b, j + 1, bound, sorted);
      assert SweepSteps(a, j, bound, sorted) == head + rest;
      SweepFixesAbove(a, j, bound);
      if a[j] > a[j + 1] {
        SwapPermutes(a, j, j + 1);
      }
      SweepStepsShape(b, j + 1, bound, sorted);
      var t := head + rest;
      forall k | 0 <= k < |t| ensures SweepStep(t[k], a, bound, sorted) {
        if k < |head| {
          assert t[k] == head[k];
        } else {
          assert t[k] == rest[k - |head|];
          assert SweepStep(rest[k - |head|], b, bound, sorted);
        }
      }
    }
  }

  /** A snapshot recorded by the outer passes from pass `i` on, over input `a`, whose
      sort ends in `final`. */
  ghost predicate PassesStep(st: SortStep, a: seq<int>, final: seq<int>, i: nat) {
    var m := |st.sortedIndices|;
    && i <= m
    && st.sortedIndices == Placed(|a|, m)
    && |st.comparing| == 2 && 0 <= st.comparing[0] && st.comparing[1] == st.comparing[0] + 1
    && st.comparing[1] <= |a| - 1 - m
    && |st.values| == |a| && multiset(st.values) == multiset(a)
    && |final| == |a|
    && forall p :: |a| - m <= p < |a| ==> st.values[p] == final[p]
  }

  /** Every snapshot of `t` is a snapshot of those passes. */
  ghost predicate AllPassesSteps(t: seq<SortStep>, a: seq<int>, final: seq<int>, i: nat) {
    forall k :: 0 <= k < |t| ==> PassesStep(t[k], a, final, i)
  }

  /** The sorted-index list never shrinks from one snapshot to the next. */
  ghost predicate Growing(t: seq<SortStep>) {
    forall k :: 0 <= k < |t| - 1 ==> |t[k].sortedIndices| <= |t[k + 1].sortedIndices|
  }

  /** A snapshot of pass `i` is a snapshot of the passes from `i`. */
  lemma SweepStepInPasses(st: SortStep, a: seq<int>, final: seq<int>, i: nat)
    requires i + 1 < |a| && |final| == |a|
    requires SweepStep(st, a, |a| - 1 - i, Placed(|a|, i))
    requires forall p :: |a| - 1 - i < p < |a| ==> final[p] == a[p]
    ensures PassesStep(st, a, final, i)
  {
  }

  /** A snapshot of the passes from `i + 1`, run on the result `b` of pass `i` over `a`,
      is a snapshot of the passes from `i` over `a`. */
  lemma LaterStepInPasses(st: SortStep, a: seq<int>, b: seq<int>, final: seq<int>, i: nat)
    requires |b| == |a| && multiset(b) == multiset(a)
    requires PassesStep(st, b, final, i + 1)
    ensures PassesStep(st, a, final, i)
  {
  }

  /** Pass `i`'s snapshots followed by those of the later passes. */
  lemma JoinPasses(head: seq<SortStep>, rest: seq<SortStep>, a: seq<int>, b: seq<int>, final: seq<int>, i: nat)
    requires i + 1 < |a| && |b| == |a| && multiset(b) == multiset(a) && |final| == |a|
    requires forall p :: |a| - 1 - i < p < |a| ==> final[p] == a[p]
    requires AllSweepSteps(head, a, |a| - 1 - i, Placed(|a|, i))
    requires AllPassesSteps(rest, b, final, i + 1) && Growing(rest)
    ensures AllPassesSteps(head + rest, a, final, i)
    ensures Growing(head + rest)
  {
    var t := head + rest;
    forall k | 0 <= k < |t| ensures PassesStep(t[k], a, final, i) {
      if k < |head| {
        assert t[k] == head[k];
        SweepStepInPasses(head[k], a, final, i);
      } else {
        assert t[k] == rest[k - |head|];
        LaterStepInPasses(rest[k - |head|], a, b, final, i);
      }
    }
    forall k | 0 <= k < |t| - 1
      ensures |t[k].sortedIndices| <= |t[k + 1].sortedIndices|
    {
      if k < |head| - 1 {
        assert t[k] == head[k] && t[k + 1] == head[k + 1];
        assert SweepStep(head[k], a, |a| - 1 - i, Placed(|a|, i));
        assert SweepStep(head[k + 1], a, |a| - 1 - i, Placed(|a|, i));
      } else if k == |head| - 1 {
        assert t[k] == head[k] && t[k + 1] == rest[0];
        assert SweepStep(head[k], a, |a| - 1 - i, Placed(|a|, i));
        assert PassesStep(rest[0], b, final, i + 1);
      } else {
        assert t[k] == rest[k - |head|] && t[k + 1] == rest[k - |head| + 1];
      }
    }
  }

  /** Every snapshot of the passes is a permutation of the input, compares a pair below
      the sorted region, and agrees with the final array on that region; and the
      sorted region only grows. */
  lemma {:induction false} PassesStepsShape(a: seq<int>, i: nat)
    ensures AllPassesSteps(PassesSteps(a, i), a, PassesValues(a, i), i)
    ensures Growing(PassesSteps(a, i))
    decreases |a| - i
  {
    var n := |a|;
    if i + 1 < n {
      var bound := n - 1 - i;
      var head := SweepSteps(a, 0, bound, Placed(n, i));
      var b := SweepValues(a, 0, bound);
      var rest := PassesSteps(b, i + 1);
      var final := PassesValues(a, i);
      assert PassesSteps(a, i) == head + rest;
      assert final == PassesValues(b, i + 1);
      SweepStepsShape(a, 0, bound, Placed(n, i));
      SweepPermutes(a, 0, bound);
      PassesFixPlaced(a, i);
      PassesStepsShape(b, i + 1);
      JoinPasses(head, rest, a, b, final, i);
    }
  }

  // ---------------------------------------------------------------------------
  // Properties of the whole trace

  /** The final snapshot holds the input sorted non-decreasingly, compares nothing and
      marks every index sorted. */
  lemma SortingStepsEndSorted(a: seq<int>)
    ensures Sorted(Final(SortingSteps(a)).values)
    ensures multiset(Final(SortingSteps(a)).values) == multiset(a)
    ensures Final(SortingSteps(a)).comparing == []
    ensures Final(SortingSteps(a)).sortedIndices == Range(|a|)
  {
    PassesSort(a, 0);
    PassesPermute(a, 0);
  }

  /** The trace ends on the one sorted arrangement of the input's values. */
  lemma SortingStepsSortsTo(a: seq<int>, b: seq<int>)
    requires Sorted(b) && multiset(b) == multiset(a)
    ensures Final(SortingSteps(a)).values == b
  {
    SortingStepsEndSorted(a);
    SortedPermutationUnique(Final(SortingSteps(a)).values, b);
  }

  /** The trace has one swap step per inversion of the input. */
  lemma SortingStepsSwapCount(a: seq<int>)
    ensures CountSwaps(SortingSteps(a)) == Inversions(a)
  {
    var steps := PassesSteps(a, 0);
    var last := SortStep(PassesValues(a, 0), [], false, Range(|a|));
    assert SortingSteps(a) == steps + [last];
    PassesSwapCount(a, 0);
    PassesSort(a, 0);
    SortedHasNoInversions(PassesValues(a, 0));
    CountSwapsAppend(steps, [last]);
    assert CountSwaps([last]) == 0;
  }

  /** The trace has one comparison step per pair the passes visit, `n(n-1)/2` in all,
      one step per swap, and the final step; an input of at most one value yields the
      final step alone. */
  lemma SortingStepsLength(a: seq<int>)
    ensures |SortingSteps(a)| == |a| * (|a| - 1) / 2 + CountSwaps(SortingSteps(a)) + 1
    ensures |a| <= 1 ==> |SortingSteps(a)| == 1
  {
    var n := |a|;
    var steps := PassesSteps(a, 0);
    var last := SortStep(PassesValues(a, 0), [], false, Range(n));
    assert SortingSteps(a) == steps + [last];
    PassesComparisons(a, 0);
    CountSwapsAppend(steps, [last]);
    assert CountSwaps([last]) == 0;
    if n >= 1 {
      TriangleHalf(n);
    }
  }

  /** Every snapshot is a permutation of the input. */
  lemma SortingStepsPermute(a: seq<int>)
    ensures forall k :: 0 <= k < |SortingSteps(a)| ==>
              |SortingSteps(a)[k].values| == |a| && multiset(SortingSteps(a)[k].values) == multiset(a)
  {
    var steps := PassesSteps(a, 0);
    var t := SortingSteps(a);
    PassesStepsShape(a, 0);
    PassesPermute(a, 0);
    forall k | 0 <= k < |t|
      ensures |t[k].values| == |a| && multiset(t[k].values) == multiset(a)
    {
      if k < |steps| {
        assert t[k] == steps[k];
        assert PassesStep(steps[k], a, PassesValues(a, 0), 0);
      }
    }
  }

  /** A swap step directly follows the comparison of the same pair, that pair was
      strictly out of order, and after the swap it is strictly in order: equal values
      are never exchanged. */
  lemma SortingStepsSwaps(a: seq<int>)
    ensures SwapsWellPlaced(SortingSteps(a))
    ensures forall k :: 0 < k < |SortingSteps(a)| && SortingSteps(a)[k].swapping ==>
              var c := SortingSteps(a)[k - 1];
              var s := SortingSteps(a)[k];
              && !c.swapping && c.comparing == s.comparing && |s.comparing| == 2
              && 0 <= s.comparing[0] && s.comparing[1] == s.comparing[0] + 1 && s.comparing[1] < |s.values| == |c.values|
              && c.values[c.comparing[0]] > c.values[c.comparing[1]]
              && s.values[s.comparing[0]] < s.values[s.comparing[1]]
  {
    PassesSwapsWellPlaced(a, 0);
    SwapsWellPlacedAppend(PassesSteps(a, 0), [SortStep(PassesValues(a, 0), [], false, Range(|a|))]);
    var t := SortingSteps(a);
    forall k | 0 < k < |t| && t[k].swapping
      ensures OutOfOrder(t[k - 1]) && t[k] == Swapped(t[k - 1])
    {
      assert 0 <= k - 1 < |t| - 1;
    }
  }

  /** Every step but the last compares an adjacent pair `[j, j + 1]` lying strictly
      below every index already sorted, so `j + 1 <= n - 1 - i` in pass `i`. */
  lemma SortingStepsCompareUnsorted(a: seq<int>)
    ensures forall k :: 0 <= k < |SortingSteps(a)| - 1 ==>
              var s := SortingSteps(a)[k];
              && |s.comparing| == 2 && 0 <= s.comparing[0] && s.comparing[1] == s.comparing[0] + 1
              && s.comparing[1] + |s.sortedIndices| < |a|
              && (forall m :: 0 <= m < |s.sortedIndices| ==> s.comparing[1] < s.sortedIndices[m])
  {
    var steps := PassesSteps(a, 0);
    var t := SortingSteps(a);
    PassesStepsShape(a, 0);
    forall k | 0 <= k < |t| - 1
      ensures var s := t[k];
              && |s.comparing| == 2 && 0 <= s.comparing[0] && s.comparing[1] == s.comparing[0] + 1
              && s.comparing[1] + |s.sortedIndices| < |a|
              && (forall m :: 0 <= m < |s.sortedIndices| ==> s.comparing[1] < s.sortedIndices[m])
    {
      assert t[k] == steps[k];
      assert PassesStep(steps[k], a, PassesValues(a, 0), 0);
    }
  }

  /** The sorted-index set never shrinks from one step to the next, and every index in
      it already holds the value it has at the end. */
  lemma SortingStepsSortedGrow(a: seq<int>)
    ensures forall k, x :: 0 <= k < |SortingSteps(a)| - 1 && x in SortingSteps(a)[k].sortedIndices ==>
              x in SortingSteps(a)[k + 1].sortedIndices
    ensures forall k, m :: 0 <= k < |SortingSteps(a)| && 0 <= m < |SortingSteps(a)[k].sortedIndices| ==>
              0 <= SortingSteps(a)[k].sortedIndices[m] < |a| == |SortingSteps(a)[k].values| &&
              SortingSteps(a)[k].values[SortingSteps(a)[k].sortedIndices[m]]
                == Final(SortingSteps(a)).values[SortingSteps(a)[k].sortedIndices[m]]
  {
    var n := |a|;
    var steps := PassesSteps(a, 0);
    var t := SortingSteps(a);
    PassesStepsShape(a, 0);
    forall k, x | 0 <= k < |t| - 1 && x in t[k].sortedIndices
      ensures x in t[k + 1].sortedIndices
    {
      assert t[k] == steps[k];
      assert PassesStep(steps[k], a, PassesValues(a, 0), 0);
      var m :| 0 <= m < |t[k].sortedIndices| && t[k].sortedIndices[m] == x;
      if k < |steps| - 1 {
        assert t[k + 1] == steps[k + 1];
        assert PassesStep(steps[k + 1], a, PassesValues(a, 0), 0);
        assert t[k + 1].sortedIndices[m] == x;
      } else {
        assert t[k + 1].sortedIndices == Range(n);
        assert t[k + 1].sortedIndices[x] == x;
      }
    }
    forall k, m | 0 <= k < |t| && 0 <= m < |t[k].sortedIndices|
      ensures 0 <= t[k].sortedIndices[m] < n == |t[k].values|
      ensures t[k].values[t[k].sortedIndices[m]] == Final(t).values[t[k].sortedIndices[m]]
    {
      if k < |steps| {
        assert t[k] == steps[k];
        assert PassesStep(steps[k], a, PassesValues(a, 0), 0);
      }
    }
  }
}
