/** The step trace behind the linear search visualizer: one snapshot per probed index,
    stopping at the first match, plus a past-the-end snapshot when nothing matched. */
module LinearSearchSteps {
  import opened Wrappers
  import opened Sequences

  /** One snapshot: the array, the probed index, whether it matched, the matching index
      (`None` for `null`), the indices visited so far in visiting order, and whether the
      search is still going. */
  datatype SearchStep = SearchStep(
    values: seq<int>,
    currentIndex: int,
    isFound: bool,
    foundIndex: Option<int>,
    visited: seq<int>,
    searching: bool)

  /** `array[i] === target`: a `NaN` target (`None`) equals nothing. */
  predicate Matches(x: int, target: Option<int>) {
    target == Some(x)
  }

  /** The snapshot for probing index `i`. */
  function Probe(a: seq<int>, target: Option<int>, i: nat): SearchStep
    requires i < |a|
  {
    var found := Matches(a[i], target);
    SearchStep(a, i, found, if found then Some(i) else None, Range(i + 1), !found)
  }

  /** The snapshot pushed when no probe matched: the cursor is one past the end and
      `array.length - 1` is appended to the visited list once more (so an empty array
      yields `[-1]`). */
  function Sentinel(a: seq<int>): SearchStep {
    SearchStep(a, |a|, false, None, Range(|a|) + [|a| - 1], false)
  }

  /** The probes from index `i` on, up to and including the first match, else ending
      in the sentinel. */
  function ProbesFrom(a: seq<int>, target: Option<int>, i: nat): (t: seq<SearchStep>)
    requires i <= |a|
    ensures 1 <= |t| <= |a| - i + 1
    ensures forall k :: 0 <= k < |t| ==> t[k].values == a
    decreases |a| - i
  {
    if i == |a| then [Sentinel(a)]
    else if Matches(a[i], target) then [Probe(a, target, i)]
    else [Probe(a, target, i)] + ProbesFrom(a, target, i + 1)
  }

  /** `generateSearchSteps(array, target)`: every snapshot holds the input array. */
  function SearchSteps(a: seq<int>, target: Option<int>): (t: seq<SearchStep>)
    ensures 1 <= |t| <= |a| + 1
    ensures forall k :: 0 <= k < |t| ==> t[k].values == a
  {
    ProbesFrom(a, target, 0)
  }

  /** Reference definition: the first index holding the target, as `indexOf` finds it. */
  function IndexOf(a: seq<int>, target: Option<int>, from: nat): (r: Option<int>)
    requires from <= |a|
    ensures r.Some? ==> from <= r.value < |a| && Matches(a[r.value], target)
    ensures r.Some? ==> forall k :: from <= k < r.value ==> !Matches(a[k], target)
    ensures r.None? ==> forall k :: from <= k < |a| ==> !Matches(a[k], target)
    decreases |a| - from
  {
    if from == |a| then None
    else if Matches(a[from], target) then Some(from)
    else IndexOf(a, target, from + 1)
  }

  /** Snapshot `k` of the probes from `i` probes index `i + k`, with the visited list
      `0..i+k`, and has not matched unless it is the last. */
  lemma {:induction false} ProbesShape(a: seq<int>, target: Option<int>, i: nat, k: nat)
    requires i <= |a| && k < |ProbesFrom(a, target, i)|
    ensures i + k < |a| ==> ProbesFrom(a, target, i)[k] == Probe(a, target, i + k)
    ensures i + k == |a| ==> ProbesFrom(a, target, i)[k] == Sentinel(a)
    ensures k < |ProbesFrom(a, target, i)| - 1 ==> i + k < |a| && !Matches(a[i + k], target)
    decreases k
  {
    if k > 0 {
      assert i < |a| && !Matches(a[i], target);
      ProbesShape(a, target, i + 1, k - 1);
    } else if i < |a| && !Matches(a[i], target) {
      assert |ProbesFrom(a, target, i + 1)| >= 1;
    }
  }

  /** The probes stop exactly at the first match, or run to the sentinel. */
  lemma {:induction false} ProbesLength(a: seq<int>, target: Option<int>, i: nat)
    requires i <= |a|
    ensures IndexOf(a, target, i).Some? ==> |ProbesFrom(a, target, i)| == IndexOf(a, target, i).value - i + 1
    ensures IndexOf(a, target, i).None? ==> |ProbesFrom(a, target, i)| == |a| - i + 1
    decreases |a| - i
  {
    if i < |a| && !Matches(a[i], target) {
      ProbesLength(a, target, i + 1);
    }
  }

  /** When the target first occurs at `k`, the trace has `k + 1` snapshots; snapshot `i`
      probes `i` with visited list `0..i`, and only the last one is a match, reporting `k`. */
  lemma SearchStepsFound(a: seq<int>, target: Option<int>, k: nat)
    requires k < |a| && Matches(a[k], target)
    requires forall m :: 0 <= m < k ==> !Matches(a[m], target)
    ensures |SearchSteps(a, target)| == k + 1
    ensures forall i :: 0 <= i <= k ==>
              && SearchSteps(a, target)[i].currentIndex == i
              && SearchSteps(a, target)[i].visited == Range(i + 1)
              && (SearchSteps(a, target)[i].isFound <==> i == k)
              && SearchSteps(a, target)[i].searching == (i != k)
    ensures SearchSteps(a, target)[k].foundIndex == Some(k)
  {
    var t := SearchSteps(a, target);
    assert IndexOf(a, target, 0) == Some(k);
    ProbesLength(a, target, 0);
    forall i | 0 <= i <= k
      ensures t[i].currentIndex == i && t[i].visited == Range(i + 1)
      ensures (t[i].isFound <==> i == k) && t[i].searching == (i != k)
    {
      ProbesShape(a, target, 0, i);
    }
    ProbesShape(a, target, 0, k);
  }

  /** When the target is absent (or is `NaN`), the trace has `n + 1` snapshots: the `n`
      probes, none matching, then the sentinel one past the end whose visited list is
      `0..n-1` followed by `n - 1` again. */
  lemma SearchStepsMissing(a: seq<int>, target: Option<int>)
    requires forall m :: 0 <= m < |a| ==> !Matches(a[m], target)
    ensures |SearchSteps(a, target)| == |a| + 1
    ensures forall i :: 0 <= i < |a| ==>
              && SearchSteps(a, target)[i].currentIndex == i
              && SearchSteps(a, target)[i].visited == Range(i + 1)
              && !SearchSteps(a, target)[i].isFound
              && SearchSteps(a, target)[i].foundIndex == None
              && SearchSteps(a, target)[i].searching
    ensures SearchSteps(a, target)[|a|] == SearchStep(a, |a|, false, None, Range(|a|) + [|a| - 1], false)
    ensures |a| == 0 ==> SearchSteps(a, target)[0].visited == [-1]
  {
    var t := SearchSteps(a, target);
    assert IndexOf(a, target, 0).None?;
    ProbesLength(a, target, 0);
    forall i | 0 <= i < |a|
      ensures t[i].currentIndex == i && t[i].visited == Range(i + 1)
      ensures !t[i].isFound && t[i].foundIndex == None && t[i].searching
    {
      ProbesShape(a, target, 0, i);
    }
    ProbesShape(a, target, 0, |a|);
    if |a| == 0 {
      assert Range(0) + [-1] == [-1];
    }
  }

  /** Against the reference: the last snapshot reports a match exactly when the target
      occurs, at its first occurrence; every earlier snapshot is an unmatched probe. */
  lemma SearchStepsAgreeWithIndexOf(a: seq<int>, target: Option<int>)
    ensures var t := SearchSteps(a, target);
            && t[|t| - 1].isFound == IndexOf(a, target, 0).Some?
            && t[|t| - 1].foundIndex == IndexOf(a, target, 0)
            && (forall i :: 0 <= i < |t| - 1 ==> !t[i].isFound && t[i].currentIndex == i < |a|)
  {
    var t := SearchSteps(a, target);
    ProbesLength(a, target, 0);
    ProbesShape(a, target, 0, |t| - 1);
    forall i | 0 <= i < |t| - 1
      ensures !t[i].isFound && t[i].currentIndex == i < |a|
    {
      ProbesShape(a, target, 0, i);
    }
  }

  /** Only the last snapshot can be a match, and only the sentinel has its cursor at or
      past the end of the array. */
  lemma SearchStepsLastOnly(a: seq<int>, target: Option<int>, i: nat)
    requires i < |SearchSteps(a, target)|
    ensures SearchSteps(a, target)[i].isFound ==> i == |SearchSteps(a, target)| - 1
    ensures SearchSteps(a, target)[i].currentIndex >= |a| ==> i == |SearchSteps(a, target)| - 1
    ensures SearchSteps(a, target)[i].currentIndex == i
  {
    ProbesShape(a, target, 0, i);
  }
}
