/** The bubble sort visualizer's store: the array on screen, the precomputed step
    trace, a playback cursor over it and a few playback settings. Every reducer is a
    pure map from state to state. */
module BubbleSortSlice {
  import opened Sequences
  import opened Random
  import opened BubbleSortSteps

  /** The slice state. `currentStep` is whatever number was last stored, so it is an
      `int` rather than an index. */
  datatype BubbleState = BubbleState(
    values: seq<int>,
    sortingSteps: seq<SortStep>,
    currentStep: int,
    isPlaying: bool,
    animationSpeed: int,
    isPaused: bool,
    arraySize: int)

  /** The state before any action. */
  function Initial(): (s: BubbleState)
    ensures s.values == [] && s.sortingSteps == [] && s.currentStep == 0
    ensures !s.isPlaying && !s.isPaused
    ensures s.animationSpeed == 5 && s.arraySize == 20
  {
    BubbleState([], [], 0, false, 5, false, 20)
  }

  /** The cursor points at a step and the array shown is that step's snapshot. */
  predicate Synced(s: BubbleState) {
    0 <= s.currentStep < |s.sortingSteps| && s.values == s.sortingSteps[s.currentStep].values
  }

  /** `setArray`: show `a` and regenerate the trace from it; the cursor is left where it
      was, so the state is synced again only when the cursor was at step 0. */
  function SetArray(s: BubbleState, a: seq<int>): (r: BubbleState)
    ensures r.values == a && |r.sortingSteps| > 0 && r.sortingSteps[0].values == a
    ensures Sorted(Final(r.sortingSteps).values) && multiset(Final(r.sortingSteps).values) == multiset(a)
    ensures r.currentStep == s.currentStep
    ensures r.(values := s.values, sortingSteps := s.sortingSteps) == s
    ensures s.currentStep == 0 ==> Synced(r)
  {
    SortingStepsEndSorted(a);
    s.(values := a, sortingSteps := SortingSteps(a))
  }

  /** `setCurrentStep`: the cursor takes the payload unconditionally; the array follows
      only when a step exists at that index. */
  function SetCurrentStep(s: BubbleState, k: int): (r: BubbleState)
    ensures r.currentStep == k
    ensures r.sortingSteps == s.sortingSteps
    ensures Synced(r) <==> 0 <= k < |s.sortingSteps|
    ensures !(0 <= k < |s.sortingSteps|) ==> r.values == s.values
    ensures r.(values := s.values, currentStep := s.currentStep) == s
  {
    if 0 <= k < |s.sortingSteps| then s.(currentStep := k, values := s.sortingSteps[k].values)
    else s.(currentStep := k)
  }

  /** `setIsPlaying`. */
  function SetIsPlaying(s: BubbleState, b: bool): (r: BubbleState)
    ensures r.isPlaying == b && r.(isPlaying := s.isPlaying) == s
  {
    s.(isPlaying := b)
  }

  /** `setAnimationSpeed`. */
  function SetAnimationSpeed(s: BubbleState, v: int): (r: BubbleState)
    ensures r.animationSpeed == v && r.(animationSpeed := s.animationSpeed) == s
  {
    s.(animationSpeed := v)
  }

  /** `setPaused`. */
  function SetPaused(s: BubbleState, b: bool): (r: BubbleState)
    ensures r.isPaused == b && r.(isPaused := s.isPaused) == s
  {
    s.(isPaused := b)
  }

  /** `setArraySize`: only records the size the next `generateNewArray` is asked for. */
  function SetArraySize(s: BubbleState, v: int): (r: BubbleState)
    ensures r.arraySize == v && r.(arraySize := s.arraySize) == s
  {
    s.(arraySize := v)
  }

  /** `stepForward`: advance while a later step exists. A cursor below `-1` would make
      the reducer read a missing step and throw, which leaves the store as it was. */
  function StepForward(s: BubbleState): (r: BubbleState)
    ensures r.currentStep == s.currentStep || r.currentStep == s.currentStep + 1
    ensures r.currentStep == s.currentStep + 1 <==> -1 <= s.currentStep < |s.sortingSteps| - 1
    ensures r.currentStep == s.currentStep ==> r == s
    ensures r.currentStep != s.currentStep ==> Synced(r)
    ensures r.(values := s.values, currentStep := s.currentStep) == s
  {
    if s.currentStep < |s.sortingSteps| - 1 then
      var k := s.currentStep + 1;
      if 0 <= k then s.(currentStep := k, values := s.sortingSteps[k].values)
      else s
    else s
  }

  /** `stepBackward`: step back while an earlier step exists. A cursor beyond the trace
      by more than one would make the reducer read a missing step and throw. */
  function StepBackward(s: BubbleState): (r: BubbleState)
    ensures r.currentStep == s.currentStep || r.currentStep == s.currentStep - 1
    ensures r.currentStep == s.currentStep - 1 <==> 0 < s.currentStep <= |s.sortingSteps|
    ensures r.currentStep == s.currentStep ==> r == s
    ensures r.currentStep != s.currentStep ==> Synced(r)
    ensures r.(values := s.values, currentStep := s.currentStep) == s
  {
    if s.currentStep > 0 then
      var k := s.currentStep - 1;
      if k < |s.sortingSteps| then s.(currentStep := k, values := s.sortingSteps[k].values)
      else s
    else s
  }

  /** `reset`: rewind to the first step and stop playback; the array goes back to the
      first snapshot when there is a trace. */
  function Reset(s: BubbleState): (r: BubbleState)
    ensures r.currentStep == 0 && !r.isPlaying && !r.isPaused
    ensures |s.sortingSteps| > 0 ==> Synced(r)
    ensures |s.sortingSteps| == 0 ==> r.values == s.values
    ensures r.(values := s.values, currentStep := s.currentStep, isPlaying := s.isPlaying, isPaused := s.isPaused) == s
  {
    var t := s.(currentStep := 0, isPlaying := false, isPaused := false);
    if |s.sortingSteps| > 0 then t.(values := s.sortingSteps[0].values) else t
  }

  /** `generateNewArray(size)`: `max(0, size)` values, each `floor(draw * 100) + 1`, a
      fresh trace over them and the cursor at its start. */
  function GenerateNewArray(s: BubbleState, size: int, draws: Draws): (r: BubbleState)
    requires Uniform(draws)
    ensures |r.values| == if size < 0 then 0 else size
    ensures forall k :: 0 <= k < |r.values| ==> 1 <= r.values[k] <= 100
    ensures r.sortingSteps == SortingSteps(r.values)
    ensures Synced(r)
    ensures r.(values := s.values, sortingSteps := s.sortingSteps, currentStep := s.currentStep) == s
  {
    var a := Fill(draws, 0, if size < 0 then 0 else size, 100, 1);
    s.(values := a, sortingSteps := SortingSteps(a), currentStep := 0)
  }

  // ---------------------------------------------------------------------------
  // Playback properties

  /** Stepping keeps a synced cursor synced, so it never leaves `[0, |trace| - 1]`. */
  lemma StepsKeepSynced(s: BubbleState)
    requires Synced(s)
    ensures Synced(StepForward(s)) && Synced(StepBackward(s))
    ensures Synced(SetCurrentStep(s, s.currentStep))
  {
  }

  /** At the last step `stepForward` is a no-op, at the first `stepBackward` is. */
  lemma StepsStopAtEnds(s: BubbleState)
    requires Synced(s)
    ensures s.currentStep == |s.sortingSteps| - 1 ==> StepForward(s) == s
    ensures s.currentStep == 0 ==> StepBackward(s) == s
  {
  }

  /** From a synced state that is not at the last step, stepping forward then back
      returns exactly the starting state; symmetrically from any step but the first. */
  lemma StepForwardThenBack(s: BubbleState)
    requires Synced(s)
    ensures s.currentStep < |s.sortingSteps| - 1 ==> StepBackward(StepForward(s)) == s
    ensures s.currentStep > 0 ==> StepForward(StepBackward(s)) == s
  {
  }

  /** `reset` is idempotent. */
  lemma ResetIdempotent(s: BubbleState)
    ensures Reset(Reset(s)) == Reset(s)
  {
  }

  /** After `setArray(a)`, `reset` shows `a` again whatever steps were taken, because the
      first snapshot is the input itself. */
  lemma ResetRestoresInput(s: BubbleState, a: seq<int>, k: int)
    ensures Reset(SetArray(s, a)).values == a
    ensures Reset(SetCurrentStep(SetArray(s, a), k)).values == a
    ensures Reset(StepForward(SetArray(s, a))).values == a
  {
  }

  /** Playing a synced state forward to the end shows the sorted input. */
  lemma LastStepShowsSorted(s: BubbleState, a: seq<int>)
    ensures var r := SetCurrentStep(SetArray(s, a), |SortingSteps(a)| - 1);
            Sorted(r.values) && multiset(r.values) == multiset(a) && Synced(r)
  {
    SortingStepsEndSorted(a);
  }
}
