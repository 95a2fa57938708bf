/** The linear search visualizer's store: the array, the target, the precomputed
    trace, a playback cursor and the fields derived from the step under it (visited
    indices, probed index, match, completion). Every reducer is a pure map from state
    to state. */
module LinearSearchSlice {
  import opened Wrappers
  import opened Random
  import opened LinearSearchSteps

  /** The slice state. The target is `None` when `parseInt` produced `NaN`. */
  datatype SearchState = SearchState(
    values: seq<int>,
    searchTarget: Option<int>,
    searchSteps: seq<SearchStep>,
    currentStep: nat,
    isPlaying: bool,
    isPaused: bool,
    animationSpeed: int,
    arraySize: int,
    visitedIndices: seq<int>,
    currentIndex: int,
    searchComplete: bool,
    foundIndex: Option<int>)

  /** The state before any action. */
  function Initial(): (s: SearchState)
    ensures s.values == [] && s.searchTarget == Some(0) && s.searchSteps == []
    ensures AtRest(s) && s.animationSpeed == 5 && s.arraySize == 20
  {
    SearchState([], Some(0), [], 0, false, false, 5, 20, [], -1, false, None)
  }

  /** The cursor fields as `reset` leaves them: step 0, nothing visited, no probe, not
      playing, not paused, not complete, no match. */
  predicate AtRest(s: SearchState) {
    && s.currentStep == 0 && s.visitedIndices == [] && s.currentIndex == -1
    && !s.isPlaying && !s.isPaused && !s.searchComplete && s.foundIndex == None
  }

  /** The trace is the one generated from the current array and target, and the cursor
      points into it; or, before anything was generated, both are empty. */
  predicate WellFormed(s: SearchState) {
    || (s.searchSteps == [] && s.currentStep == 0)
    || (s.searchSteps == SearchSteps(s.values, s.searchTarget) && s.currentStep < |s.searchSteps|)
  }

  /** The derived fields show the step under the cursor. */
  predicate Showing(s: SearchState) {
    && s.currentStep < |s.searchSteps|
    && var st := s.searchSteps[s.currentStep];
       && s.visitedIndices == st.visited
       && s.currentIndex == st.currentIndex
       && s.foundIndex == st.foundIndex
       && s.searchComplete == (st.isFound || st.currentIndex >= |s.values|)
  }

  /** The cursor-field writes that `reset` and the regenerating reducers share. */
  function Rewind(s: SearchState): (r: SearchState)
    ensures AtRest(r)
    ensures r.(currentStep := s.currentStep, visitedIndices := s.visitedIndices, currentIndex := s.currentIndex,
               isPlaying := s.isPlaying, isPaused := s.isPaused, searchComplete := s.searchComplete,
               foundIndex := s.foundIndex) == s
  {
    s.(currentStep := 0, visitedIndices := [], currentIndex := -1, isPlaying := false, isPaused := false,
       searchComplete := false, foundIndex := None)
  }

  /** `setArray`: a new array, a trace regenerated against the current target, and the
      cursor at rest. */
  function SetArray(s: SearchState, a: seq<int>): (r: SearchState)
    ensures r.values == a && r.searchTarget == s.searchTarget
    ensures r.searchSteps == SearchSteps(a, s.searchTarget)
    ensures AtRest(r) && WellFormed(r)
    ensures r.animationSpeed == s.animationSpeed && r.arraySize == s.arraySize
  {
    Rewind(s).(values := a, searchSteps := SearchSteps(a, s.searchTarget))
  }

  /** `setSearchTarget`: a new target, a trace regenerated over the current array, and
      the cursor at rest. */
  function SetSearchTarget(s: SearchState, target: Option<int>): (r: SearchState)
    ensures r.searchTarget == target && r.values == s.values
    ensures r.searchSteps == SearchSteps(s.values, target)
    ensures AtRest(r) && WellFormed(r)
    ensures r.animationSpeed == s.animationSpeed && r.arraySize == s.arraySize
  {
    Rewind(s).(searchTarget := target, searchSteps := SearchSteps(s.values, target))
  }

  /** `setCurrentStep(k)`: ignored while paused, once the search is complete, or when
      there is no step `k`; otherwise jump there and show that step. */
  function SetCurrentStep(s: SearchState, k: int): (r: SearchState)
    ensures r == s <== s.isPaused || s.searchComplete || !(0 <= k < |s.searchSteps|)
    ensures !s.isPaused && !s.searchComplete && 0 <= k < |s.searchSteps| ==> r.currentStep == k && Showing(r)
    ensures r.(currentStep := s.currentStep, visitedIndices := s.visitedIndices, currentIndex := s.currentIndex,
               foundIndex := s.foundIndex, searchComplete := s.searchComplete) == s
  {
    if !s.isPaused && !s.searchComplete && 0 <= k < |s.searchSteps| then
      var st := s.searchSteps[k];
      s.(currentStep := k, visitedIndices := st.visited, currentIndex := st.currentIndex,
         foundIndex := st.foundIndex, searchComplete := st.isFound || st.currentIndex >= |s.values|)
    else s
  }

  /** `searchTarget === array[foundIndex]`: the target sits at the reported index (a
      `null` or out-of-range index reads `undefined`, which equals no number). */
  predicate TargetAtFound(s: SearchState) {
    s.foundIndex.Some? && 0 <= s.foundIndex.value < |s.values| && Matches(s.values[s.foundIndex.value], s.searchTarget)
  }

  /** `setIsPlaying(b)`: playback can only start on a search that is neither complete nor
      already showing its match; starting playback lifts the pause. */
  function SetIsPlaying(s: SearchState, b: bool): (r: SearchState)
    ensures r.isPlaying <==> b && !TargetAtFound(s) && !s.searchComplete
    ensures TargetAtFound(s) || s.searchComplete ==> !r.isPaused
    ensures !TargetAtFound(s) && !s.searchComplete ==> r.isPaused == (s.isPaused && !b)
    ensures r.(isPlaying := s.isPlaying, isPaused := s.isPaused) == s
  {
    if TargetAtFound(s) || s.searchComplete then s.(isPlaying := false, isPaused := false)
    else if b then s.(isPlaying := true, isPaused := false)
    else s.(isPlaying := false)
  }

  /** `setPaused(b)`: pausing stops playback and re-reads the visited list and probed
      index from the current step (the match and completion flags are not re-read). */
  function SetPaused(s: SearchState, b: bool): (r: SearchState)
    ensures r.isPaused == b
    ensures b ==> !r.isPlaying
    ensures b && s.currentStep < |s.searchSteps| ==>
              r.visitedIndices == s.searchSteps[s.currentStep].visited
              && r.currentIndex == s.searchSteps[s.currentStep].currentIndex
    ensures !b ==> r == s.(isPaused := false)
    ensures r.(isPaused := s.isPaused, isPlaying := s.isPlaying, visitedIndices := s.visitedIndices,
               currentIndex := s.currentIndex) == s
  {
    if b then
      var t := s.(isPaused := true, isPlaying := false);
      if s.currentStep < |s.searchSteps| then
        var st := s.searchSteps[s.currentStep];
        t.(visitedIndices := st.visited, currentIndex := st.currentIndex)
      else t
    else s.(isPaused := false)
  }

  /** `resumeSearch`: play and unpause unconditionally. */
  function ResumeSearch(s: SearchState): (r: SearchState)
    ensures r.isPlaying && !r.isPaused
    ensures r.(isPlaying := s.isPlaying, isPaused := s.isPaused) == s
  {
    s.(isPlaying := true, isPaused := false)
  }

  /** `setAnimationSpeed`. */
  function SetAnimationSpeed(s: SearchState, v: int): (r: SearchState)
    ensures r.animationSpeed == v && r.(animationSpeed := s.animationSpeed) == s
  {
    s.(animationSpeed := v)
  }

  /** `setArraySize`: only records the length the next `generateNewArray` uses. */
  function SetArraySize(s: SearchState, v: int): (r: SearchState)
    ensures r.arraySize == v && r.(arraySize := s.arraySize) == s
  {
    s.(arraySize := v)
  }

  /** Whether `stepForward` advances: not paused, not complete, and a later step exists. */
  predicate CanAdvance(s: SearchState) {
    !s.isPaused && !s.searchComplete && s.currentStep + 1 < |s.searchSteps|
  }

  /** `stepForward`: advance one step and show it; otherwise just stop playback. */
  function StepForward(s: SearchState): (r: SearchState)
    ensures CanAdvance(s) ==> r.currentStep == s.currentStep + 1 && Showing(r)
    ensures CanAdvance(s) ==> r.isPlaying == s.isPlaying && r.isPaused == s.isPaused
    ensures !CanAdvance(s) ==> r == if s.isPlaying then s.(isPlaying := false, isPaused := false) else s
    ensures r.values == s.values && r.searchTarget == s.searchTarget && r.searchSteps == s.searchSteps
    ensures r.animationSpeed == s.animationSpeed && r.arraySize == s.arraySize
  {
    if CanAdvance(s) then
      var st := s.searchSteps[s.currentStep + 1];
      s.(currentStep := s.currentStep + 1, visitedIndices := st.visited, currentIndex := st.currentIndex,
         foundIndex := st.foundIndex, searchComplete := st.isFound || st.currentIndex >= |s.values|)
    else if s.isPlaying then s.(isPlaying := false, isPaused := false)
    else s
  }

  /** `stepBackward`: when not paused and not at step 0, go back one step and show it,
      taking completion from that step's match flag alone. Reading a step that does not
      exist would throw, which leaves the store as it was. */
  function StepBackward(s: SearchState): (r: SearchState)
    ensures r.currentStep == s.currentStep || r.currentStep + 1 == s.currentStep
    ensures r.currentStep + 1 == s.currentStep <==> !s.isPaused && 0 < s.currentStep <= |s.searchSteps|
    ensures r.currentStep + 1 == s.currentStep ==> r.searchComplete == s.searchSteps[r.currentStep].isFound
    ensures r.currentStep == s.currentStep ==> r == s
    ensures r.(currentStep := s.currentStep, visitedIndices := s.visitedIndices, currentIndex := s.currentIndex,
               foundIndex := s.foundIndex, searchComplete := s.searchComplete) == s
  {
    if !s.isPaused && s.currentStep > 0 && s.currentStep - 1 < |s.searchSteps| then
      var st := s.searchSteps[s.currentStep - 1];
      s.(currentStep := s.currentStep - 1, visitedIndices := st.visited, currentIndex := st.currentIndex,
         foundIndex := st.foundIndex, searchComplete := st.isFound)
    else s
  }

  /** `reset`: the cursor fields return to rest; array, target, trace and settings stay. */
  function Reset(s: SearchState): (r: SearchState)
    ensures AtRest(r)
    ensures r.values == s.values && r.searchTarget == s.searchTarget && r.searchSteps == s.searchSteps
    ensures r.animationSpeed == s.animationSpeed && r.arraySize == s.arraySize
  {
    Rewind(s)
  }

  /** `generateNewArray`: `max(0, arraySize)` values, each `floor(draw * 100)`, a trace
      regenerated against the current target, and the cursor at rest. */
  function GenerateNewArray(s: SearchState, draws: Draws): (r: SearchState)
    requires Uniform(draws)
    ensures |r.values| == if s.arraySize < 0 then 0 else s.arraySize
    ensures forall k :: 0 <= k < |r.values| ==> 0 <= r.values[k] <= 99
    ensures r.searchSteps == SearchSteps(r.values, s.searchTarget) && r.searchTarget == s.searchTarget
    ensures AtRest(r) && WellFormed(r)
    ensures r.animationSpeed == s.animationSpeed && r.arraySize == s.arraySize
  {
    var a := Fill(draws, 0, if s.arraySize < 0 then 0 else s.arraySize, 100, 0);
    Rewind(s).(values := a, searchSteps := SearchSteps(a, s.searchTarget))
  }

  // ---------------------------------------------------------------------------
  // Properties of the reducers together

  /** Every reducer keeps the trace matched to the array and target and the cursor
      inside it, so `currentStep` never exceeds the last step. */
  lemma ReducersKeepWellFormed(s: SearchState, a: seq<int>, target: Option<int>, k: int, b: bool, v: int, draws: Draws)
    requires WellFormed(s) && Uniform(draws)
    ensures WellFormed(SetArray(s, a)) && WellFormed(SetSearchTarget(s, target))
    ensures WellFormed(SetCurrentStep(s, k)) && WellFormed(SetIsPlaying(s, b)) && WellFormed(SetPaused(s, b))
    ensures WellFormed(ResumeSearch(s)) && WellFormed(SetAnimationSpeed(s, v)) && WellFormed(SetArraySize(s, v))
    ensures WellFormed(StepForward(s)) && WellFormed(StepBackward(s)) && WellFormed(Reset(s))
    ensures WellFormed(GenerateNewArray(s, draws))
  {
  }

  /** On a well-formed trace, going back one step shows that step exactly as going
      forward to it would: only the last step can match or sit past the end, so the
      match flag alone decides completion there. */
  lemma StepBackwardShows(s: SearchState)
    requires WellFormed(s) && !s.isPaused && s.currentStep > 0
    ensures Showing(StepBackward(s)) && !StepBackward(s).searchComplete
  {
    var r := StepBackward(s);
    SearchStepsLastOnly(s.values, s.searchTarget, r.currentStep);
  }

  /** Forward then back returns to the same state, and back then forward too, while the
      derived fields show the current step. */
  lemma StepForwardThenBack(s: SearchState)
    requires WellFormed(s) && Showing(s) && !s.isPaused
    ensures CanAdvance(s) ==> StepBackward(StepForward(s)) == s
    ensures s.currentStep > 0 ==> StepForward(StepBackward(s)) == s
  {
    if CanAdvance(s) {
      SearchStepsLastOnly(s.values, s.searchTarget, s.currentStep);
    }
    if s.currentStep > 0 {
      StepBackwardShows(s);
    }
  }

  /** Once the search is complete, `stepForward` and `setCurrentStep` cannot move the
      cursor, and a further `setIsPlaying(true)` cannot start playback. */
  lemma CompleteIsFinal(s: SearchState, k: int)
    requires s.searchComplete
    ensures StepForward(s).currentStep == s.currentStep
    ensures SetCurrentStep(s, k) == s
    ensures !SetIsPlaying(s, true).isPlaying
  {
  }

  /** Stepping forward from rest through a trace whose target first occurs at `k`
      reaches a complete state showing the match at `k`. */
  lemma ForwardReachesMatch(s: SearchState, k: nat)
    requires WellFormed(s) && Showing(s) && s.searchSteps != []
    requires k < |s.values| && Matches(s.values[k], s.searchTarget)
    requires forall m :: 0 <= m < k ==> !Matches(s.values[m], s.searchTarget)
    requires s.currentStep == k
    ensures s.searchComplete && s.foundIndex == Some(k) && TargetAtFound(s)
  {
    SearchStepsFound(s.values, s.searchTarget, k);
  }

  /** `reset` is idempotent and undoes any cursor movement. */
  lemma ResetIdempotent(s: SearchState)
    ensures Reset(Reset(s)) == Reset(s)
    ensures Reset(StepForward(s)) == Reset(s)
    ensures Reset(StepBackward(s)) == Reset(s)
  {
  }
}
