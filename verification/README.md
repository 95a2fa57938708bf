# DS Algo Deck core, modelled in Dafny

DS Algo Deck is a browser application that teaches data structures and algorithms by
animating them. This project models the logic under the animations as pure Dafny
functions and proves what that logic promises. The Redux stores, the array operations
and the keyboard shortcuts are modelled as they are written. Rendering and timers are not.

- **Bubble sort visualizer.** `generateSortingSteps` precomputes a trace of snapshots
  (`BubbleSortSteps`). A store replays it with a cursor (`BubbleSortSlice`).
- **Linear search visualizer.** `generateSearchSteps` produces one snapshot per probed
  index, with a past-the-end sentinel when nothing matches (`LinearSearchSteps`). Its
  store adds pause, resume and completion logic (`LinearSearchSlice`).
- **Array visualizer.** A fifteen-field store written only by plain setters
  (`ArrayVisualizerSlice`).
  - The array operations insert, delete, update, search, clear, shuffle and randomize
    validate their inputs and dispatch to that store (`ArrayOperations`).
  - Their alert texts are `Messages`, rendered through `Text`.
  - The keyboard hook turns key presses into those operations (`ArrayKeyboard`).
- **Landing-page search tree.** A recursive insert into a binary search tree
  (`SearchTreeCard`).
- **Playground layout.** A store of view toggles (`PlaygroundLayout`).
- **Shared helpers.** `Wrappers` (`Option`), `Sequences` (ranges, sortedness, swap) and
  `Random` (`Math.random` as an oracle of draws in `[0, 1)`).
- **Worked examples.** `Scenarios` states them as lemmas.

Each array operation returns an `Outcome`:
- the store after the synchronous dispatches, then the store after each `setTimeout`
  batch has run;
- whether the component's input boxes were cleared.

A `NaN` from `parseInt` is `None`. `null` fields are `None`. The caller supplies the
randomness as a sequence of draws.

## Behaviour of the code worth knowing

- **Delete validation order.** `handleDelete` checks for `NaN` before it checks for an
  empty array. The `NaN` rejection also lowers `isOperationInProgress`
  (`ArrayOperations.DeleteRejects`).
- **Search misses.** A search that finds nothing sets `isError` to true and shows the
  not-found message as an error (`ArrayOperations.SearchReports`).
- **Bubble sort cursor.** The bubble sort step reducers do not look at `isPlaying`.
  `setCurrentStep` stores any number it is given. `setArray` regenerates the trace but
  keeps `currentStep` (`BubbleSortSlice.SetArray`).
- **Sorted indices.** `sortedIndices` is a list kept in order of insertion:
  `n-1, n-2, …`, then `0..n-1` in the final snapshot.
- **Empty-array search trace.** When nothing matches, the sentinel snapshot pushes
  `array.length - 1` onto the visited list. For an empty array that list is `[-1]`
  (`LinearSearchSteps.SearchStepsMissing`).
- **Linear search playback.** Linear search steps check `isPaused` and `searchComplete`;
  they do not look at `isPlaying`. `stepBackward` sets `searchComplete` from the step's
  `isFound` alone.

## Model

| member | source | states |
|---|---|---|
| Sequences.Range | src/features/visualizer/algorithms/sorting/bubbleSortVisualizerSlice.js:55 | `[...Array(n).keys()]` has length n and holds k at position k |
| Sequences.Swap | src/features/visualizer/algorithms/sorting/bubbleSortVisualizerSlice.js:37 | the destructuring swap exchanges positions i and j and keeps every other position |
| Sequences.SwapPermutes | src/features/visualizer/algorithms/sorting/bubbleSortVisualizerSlice.js:37 | a swap keeps the multiset of values |
| Sequences.SortedPermutationUnique | src/features/visualizer/algorithms/sorting/bubbleSortVisualizerSlice.js:21-59 | two sorted sequences with the same values are equal, so the sorted result is determined by the input's values |
| Random.Scaled | src/utils/data_structure/arrays/basic_array_operations.js:420 | `Math.floor(r * k)` for a draw in [0, 1) lies in [0, k) |
| Random.Fill | src/features/visualizer/algorithms/searching/linearSearchVisualizerSlice.js:212-214 | `Array.from({length: n}, () => floor(random * span) + base)` has n elements, each in [base, base + span) |
| Random.FillUsesDraw | src/features/visualizer/algorithms/sorting/bubbleSortVisualizerSlice.js:108-111 | element k of a fill comes from the k-th draw, scaled and offset |
| BubbleSortSteps.Placed | src/features/visualizer/algorithms/sorting/bubbleSortVisualizerSlice.js:47 | after i passes the sorted list is n-1, n-2, …, n-i in that order |
| BubbleSortSteps.CompareSwap | src/features/visualizer/algorithms/sorting/bubbleSortVisualizerSlice.js:36-37 | one inner iteration leaves the pair in order, with the larger value at j + 1 |
| BubbleSortSteps.SortingSteps | src/features/visualizer/algorithms/sorting/bubbleSortVisualizerSlice.js:21-59 | the trace is non-empty, starts on the input, and ends with nothing compared, no swap, and every index sorted |
| BubbleSortSteps.SweepFixesAbove | src/features/visualizer/algorithms/sorting/bubbleSortVisualizerSlice.js:28 | the inner loop of pass i never touches indices above n - 1 - i |
| BubbleSortSteps.SweepPermutes | src/features/visualizer/algorithms/sorting/bubbleSortVisualizerSlice.js:28-45 | the inner loop only rearranges values |
| BubbleSortSteps.PassesPermute | src/features/visualizer/algorithms/sorting/bubbleSortVisualizerSlice.js:27-48 | the outer passes only rearrange values |
| BubbleSortSteps.PassesFixPlaced | src/features/visualizer/algorithms/sorting/bubbleSortVisualizerSlice.js:27-48 | later passes leave the indices fixed by earlier passes alone |
| BubbleSortSteps.SwapRemovesOneInversion | src/features/visualizer/algorithms/sorting/bubbleSortVisualizerSlice.js:36-37 | swapping an inverted adjacent pair removes exactly one inversion |
| BubbleSortSteps.SortedHasNoInversions | src/features/visualizer/algorithms/sorting/bubbleSortVisualizerSlice.js:51-56 | a sorted array has no inversions |
| BubbleSortSteps.SweepHeadCounts | src/features/visualizer/algorithms/sorting/bubbleSortVisualizerSlice.js:29-44 | one iteration records one comparison snapshot plus a swap snapshot exactly when it removes an inversion |
| BubbleSortSteps.SweepCounts | src/features/visualizer/algorithms/sorting/bubbleSortVisualizerSlice.js:28-45 | a sweep records one comparison per pair and one swap per inversion removed |
| BubbleSortSteps.PassesComparisons | src/features/visualizer/algorithms/sorting/bubbleSortVisualizerSlice.js:27-48 | the passes from i record a triangular number of comparisons plus their swaps |
| BubbleSortSteps.PassesSwapCount | src/features/visualizer/algorithms/sorting/bubbleSortVisualizerSlice.js:27-48 | swaps recorded plus inversions left equal the input's inversions |
| BubbleSortSteps.SweepBubblesMax | src/features/visualizer/algorithms/sorting/bubbleSortVisualizerSlice.js:28-45 | after the inner loop of a pass the largest value of its range sits at its top |
| BubbleSortSteps.PassesSort | src/features/visualizer/algorithms/sorting/bubbleSortVisualizerSlice.js:27-48 | the passes leave the array sorted |
| BubbleSortSteps.SweepSwapsWellPlaced | src/features/visualizer/algorithms/sorting/bubbleSortVisualizerSlice.js:29-44 | in a sweep a swap snapshot follows exactly the out-of-order comparisons |
| BubbleSortSteps.PassesStepsShape | src/features/visualizer/algorithms/sorting/bubbleSortVisualizerSlice.js:27-48 | every pass snapshot is a permutation of the input comparing a pair below the sorted indices, and the sorted list never shrinks |
| BubbleSortSteps.SortingStepsEndSorted | src/features/visualizer/algorithms/sorting/bubbleSortVisualizerSlice.js:51-56 | the final snapshot holds the input's values sorted, compares nothing and marks 0..n-1 sorted |
| BubbleSortSteps.SortingStepsSortsTo | src/features/visualizer/algorithms/sorting/bubbleSortVisualizerSlice.js:21-59 | the final snapshot is the unique sorted arrangement of the input's values |
| BubbleSortSteps.SortingStepsSwapCount | src/features/visualizer/algorithms/sorting/bubbleSortVisualizerSlice.js:36-44 | the trace has exactly one swap snapshot per inversion of the input |
| BubbleSortSteps.SortingStepsLength | src/features/visualizer/algorithms/sorting/bubbleSortVisualizerSlice.js:27-56 | the trace length is n(n-1)/2 comparisons plus the swaps plus one final snapshot, and is 1 when n <= 1 |
| BubbleSortSteps.SortingStepsPermute | src/features/visualizer/algorithms/sorting/bubbleSortVisualizerSlice.js:30 | every snapshot has the input's length and values |
| BubbleSortSteps.SortingStepsSwaps | src/features/visualizer/algorithms/sorting/bubbleSortVisualizerSlice.js:36-44 | a swap snapshot follows the comparison of the same strictly inverted pair and leaves it strictly ordered, so equal values never swap |
| BubbleSortSteps.SortingStepsCompareUnsorted | src/features/visualizer/algorithms/sorting/bubbleSortVisualizerSlice.js:28-34 | every non-final snapshot compares an adjacent pair strictly below every sorted index |
| BubbleSortSteps.SortingStepsSortedGrow | src/features/visualizer/algorithms/sorting/bubbleSortVisualizerSlice.js:47 | the sorted list never loses an index, and a sorted index already holds its final value |
| BubbleSortSlice.Initial | src/features/visualizer/algorithms/sorting/bubbleSortVisualizerSlice.js:5-13 | empty array and trace, step 0, not playing or paused, speed 5, size 20 |
| BubbleSortSlice.SetArray | src/features/visualizer/algorithms/sorting/bubbleSortVisualizerSlice.js:65-69 | the new array's trace starts on it and ends on it sorted, the cursor is kept, nothing else changes |
| BubbleSortSlice.SetCurrentStep | src/features/visualizer/algorithms/sorting/bubbleSortVisualizerSlice.js:70-76 | the cursor takes any payload, and the array follows only when that step exists |
| BubbleSortSlice.SetIsPlaying | src/features/visualizer/algorithms/sorting/bubbleSortVisualizerSlice.js:77-79 | writes only `isPlaying` |
| BubbleSortSlice.SetAnimationSpeed | src/features/visualizer/algorithms/sorting/bubbleSortVisualizerSlice.js:80-82 | writes only `animationSpeed` |
| BubbleSortSlice.SetPaused | src/features/visualizer/algorithms/sorting/bubbleSortVisualizerSlice.js:83-85 | writes only `isPaused` |
| BubbleSortSlice.SetArraySize | src/features/visualizer/algorithms/sorting/bubbleSortVisualizerSlice.js:116-118 | writes only `arraySize` |
| BubbleSortSlice.StepForward | src/features/visualizer/algorithms/sorting/bubbleSortVisualizerSlice.js:86-91 | advances by one exactly when a later step exists and then shows it, otherwise changes nothing |
| BubbleSortSlice.StepBackward | src/features/visualizer/algorithms/sorting/bubbleSortVisualizerSlice.js:92-97 | goes back by one exactly when an earlier step exists and then shows it, otherwise changes nothing |
| BubbleSortSlice.Reset | src/features/visualizer/algorithms/sorting/bubbleSortVisualizerSlice.js:98-105 | step 0, stopped, unpaused, showing the first snapshot when there is one |
| BubbleSortSlice.GenerateNewArray | src/features/visualizer/algorithms/sorting/bubbleSortVisualizerSlice.js:106-115 | max(0, size) values in [1, 100], the trace regenerated from them, the cursor on its first step |
| BubbleSortSlice.StepsKeepSynced | src/features/visualizer/algorithms/sorting/bubbleSortVisualizerSlice.js:86-97 | stepping never takes a synced cursor out of the trace |
| BubbleSortSlice.StepsStopAtEnds | src/features/visualizer/algorithms/sorting/bubbleSortVisualizerSlice.js:87 | forward at the last step and back at the first are no-ops |
| BubbleSortSlice.StepForwardThenBack | src/features/visualizer/algorithms/sorting/bubbleSortVisualizerSlice.js:86-97 | forward then back, and back then forward, return to the same state |
| BubbleSortSlice.ResetIdempotent | src/features/visualizer/algorithms/sorting/bubbleSortVisualizerSlice.js:98-105 | resetting twice is resetting once |
| BubbleSortSlice.ResetRestoresInput | src/features/visualizer/algorithms/sorting/bubbleSortVisualizerSlice.js:98-105 | after `setArray(a)`, a reset shows `a` again whatever step was taken |
| BubbleSortSlice.LastStepShowsSorted | src/features/visualizer/algorithms/sorting/bubbleSortVisualizerSlice.js:70-76 | moving the cursor to the last step shows the input's values sorted |
| LinearSearchSteps.ProbesFrom | src/features/visualizer/algorithms/searching/linearSearchVisualizerSlice.js:40-66 | the probes from i number between 1 and n - i + 1 and all hold the input array |
| LinearSearchSteps.SearchSteps | src/features/visualizer/algorithms/searching/linearSearchVisualizerSlice.js:36-69 | the trace has between 1 and n + 1 snapshots, each holding the input array |
| LinearSearchSteps.IndexOf | src/features/visualizer/algorithms/searching/linearSearchVisualizerSlice.js:42 | reference definition: the first index holding the target, or none when no index does |
| LinearSearchSteps.ProbesShape | src/features/visualizer/algorithms/searching/linearSearchVisualizerSlice.js:40-66 | snapshot k probes index i + k, or is the sentinel, and every snapshot before the last is a miss |
| LinearSearchSteps.ProbesLength | src/features/visualizer/algorithms/searching/linearSearchVisualizerSlice.js:53-66 | the probes stop at the first match, or run to the sentinel |
| LinearSearchSteps.SearchStepsFound | src/features/visualizer/algorithms/searching/linearSearchVisualizerSlice.js:40-54 | with the first match at k there are k + 1 snapshots, snapshot i has visited 0..i, and only the last is found, at k |
| LinearSearchSteps.SearchStepsMissing | src/features/visualizer/algorithms/searching/linearSearchVisualizerSlice.js:56-66 | with no match there are n + 1 snapshots ending on the sentinel at index n, whose visited list ends in n - 1 |
| LinearSearchSteps.SearchStepsAgreeWithIndexOf | src/features/visualizer/algorithms/searching/linearSearchVisualizerSlice.js:36-69 | the last snapshot reports found exactly when the reference finds the target, at the same index |
| LinearSearchSteps.SearchStepsLastOnly | src/features/visualizer/algorithms/searching/linearSearchVisualizerSlice.js:53 | at most the last snapshot is a match or the sentinel, and snapshot i probes i |
| LinearSearchSlice.Initial | src/features/visualizer/algorithms/searching/linearSearchVisualizerSlice.js:16-29 | empty array, target 0, no trace, at rest, speed 5, size 20 |
| LinearSearchSlice.Rewind | src/features/visualizer/algorithms/searching/linearSearchVisualizerSlice.js:199-207 | puts the cursor fields at rest and keeps the rest |
| LinearSearchSlice.SetArray | src/features/visualizer/algorithms/searching/linearSearchVisualizerSlice.js:80-93 | new array, trace regenerated against the current target, cursor at rest |
| LinearSearchSlice.SetSearchTarget | src/features/visualizer/algorithms/searching/linearSearchVisualizerSlice.js:94-104 | new target, trace regenerated over the current array, cursor at rest |
| LinearSearchSlice.SetCurrentStep | src/features/visualizer/algorithms/searching/linearSearchVisualizerSlice.js:105-119 | ignored while paused, complete or out of range; otherwise shows step k |
| LinearSearchSlice.SetIsPlaying | src/features/visualizer/algorithms/searching/linearSearchVisualizerSlice.js:120-141 | playback starts only if the target is not at the found index and the search is not complete, and starting unpauses |
| LinearSearchSlice.SetPaused | src/features/visualizer/algorithms/searching/linearSearchVisualizerSlice.js:142-155 | pausing stops playback and re-reads the visited list and probe from the current step; unpausing only clears the flag |
| LinearSearchSlice.ResumeSearch | src/features/visualizer/algorithms/searching/linearSearchVisualizerSlice.js:156-163 | plays and unpauses unconditionally, changing nothing else |
| LinearSearchSlice.SetAnimationSpeed | src/features/visualizer/algorithms/searching/linearSearchVisualizerSlice.js:164-166 | writes only `animationSpeed` |
| LinearSearchSlice.SetArraySize | src/features/visualizer/algorithms/searching/linearSearchVisualizerSlice.js:208-210 | writes only `arraySize` |
| LinearSearchSlice.StepForward | src/features/visualizer/algorithms/searching/linearSearchVisualizerSlice.js:167-186 | advances and shows the next step when allowed, otherwise only stops playback |
| LinearSearchSlice.StepBackward | src/features/visualizer/algorithms/searching/linearSearchVisualizerSlice.js:187-198 | goes back one step exactly when not paused and not at 0; completion is then that step's `isFound` |
| LinearSearchSlice.Reset | src/features/visualizer/algorithms/searching/linearSearchVisualizerSlice.js:199-207 | cursor fields at rest; array, target, trace and settings kept |
| LinearSearchSlice.GenerateNewArray | src/features/visualizer/algorithms/searching/linearSearchVisualizerSlice.js:211-224 | max(0, arraySize) values in [0, 99], trace regenerated, cursor at rest |
| LinearSearchSlice.ReducersKeepWellFormed | src/features/visualizer/algorithms/searching/linearSearchVisualizerSlice.js:79-225 | every reducer keeps the trace generated from the current array and target |
| LinearSearchSlice.StepBackwardShows | src/features/visualizer/algorithms/searching/linearSearchVisualizerSlice.js:187-198 | going back shows the previous step exactly, and that step is not complete |
| LinearSearchSlice.StepForwardThenBack | src/features/visualizer/algorithms/searching/linearSearchVisualizerSlice.js:167-198 | forward then back, and back then forward, return to the same state |
| LinearSearchSlice.CompleteIsFinal | src/features/visualizer/algorithms/searching/linearSearchVisualizerSlice.js:106 | once complete, neither stepping forward nor setting the step moves the cursor, and playback cannot start |
| LinearSearchSlice.ForwardReachesMatch | src/features/visualizer/algorithms/searching/linearSearchVisualizerSlice.js:178-181 | showing the first match marks the search complete with the target at the found index |
| LinearSearchSlice.ResetIdempotent | src/features/visualizer/algorithms/searching/linearSearchVisualizerSlice.js:199-207 | reset is idempotent and forgets any step taken |
| ArrayVisualizerSlice.Initial | src/features/visualizer/arrays/arrayVisualizerSlice.js:6-36 | empty array, index and element 0, no message, every flag down, every nullable field null |
| ArrayVisualizerSlice.ReduceWrites | src/features/visualizer/arrays/arrayVisualizerSlice.js:46-152 | each setter stores its payload verbatim in its own field |
| ArrayVisualizerSlice.ReduceFrame | src/features/visualizer/arrays/arrayVisualizerSlice.js:46-152 | each setter leaves every other field as it was |
| ArrayVisualizerSlice.LastWriteWins | src/features/visualizer/arrays/arrayVisualizerSlice.js:46-152 | a later write to a field overrides an earlier one |
| ArrayVisualizerSlice.DistinctSettersCommute | src/features/visualizer/arrays/arrayVisualizerSlice.js:46-152 | setters of different fields can be dispatched in either order |
| ArrayVisualizerSlice.TargetsExactly | src/features/visualizer/arrays/arrayVisualizerSlice.js:46-152 | the fields a batch of setter dispatches writes are exactly the targets of its actions |
| ArrayVisualizerSlice.DispatchAllFrame | src/features/visualizer/arrays/arrayVisualizerSlice.js:46-152 | a field no action of a batch writes keeps its content |
| ArrayVisualizerSlice.DispatchAllLastWrite | src/features/visualizer/arrays/arrayVisualizerSlice.js:46-152 | after a batch each written field holds the payload of its last write |
| Text.NatText | src/utils/data_structure/arrays/basic_array_operations.js:98 | a natural number renders as a non-empty run of digits without a leading zero |
| Text.DecimalText | src/utils/data_structure/arrays/basic_array_operations.js:69 | for an integer below 10^21 in magnitude, the interpolated text starts with `-` exactly when negative, and is base-ten digits otherwise |
| Text.ParseDecimal | src/utils/data_structure/arrays/basic_array_operations.js:69 | reads back an optional `-` followed by digits |
| Text.NatTextRoundTrip | src/utils/data_structure/arrays/basic_array_operations.js:98 | the digits of a natural number read back as that number |
| Text.DecimalRoundTrip | src/utils/data_structure/arrays/basic_array_operations.js:69 | rendering then parsing returns the integer, so different numbers render differently in the messages |
| Text.JoinDecimal | src/utils/data_structure/arrays/basic_array_operations.js:363 | `join(", ")` is empty exactly for no indices and is the single index alone for one |
| ArrayOperations.InsertAt | src/utils/data_structure/arrays/basic_array_operations.js:84-85 | `splice(i, 0, v)` puts v at i, keeps the prefix and shifts the tail right |
| ArrayOperations.RemoveAt | src/utils/data_structure/arrays/basic_array_operations.js:195-196 | `splice(i, 1)` keeps the prefix and shifts the tail left |
| ArrayOperations.InsertRemoveInverse | src/utils/data_structure/arrays/basic_array_operations.js:84-85 | removing at the index just inserted at restores the array, and re-inserting a removed element does too |
| ArrayOperations.SpliceCounts | src/utils/data_structure/arrays/basic_array_operations.js:84-85 | insertion adds exactly one occurrence of the value, and removal takes exactly one away |
| ArrayOperations.Report | src/utils/data_structure/arrays/basic_array_operations.js:96-102 | the closing dispatches show the message as a success and change nothing else |
| ArrayOperations.Fail | src/utils/data_structure/arrays/basic_array_operations.js:55-62 | a rejection is one state that shows the message as an error and changes nothing else |
| ArrayOperations.HandleInsert | src/utils/data_structure/arrays/basic_array_operations.js:45-104 | the inputs are cleared exactly when both parse and 0 <= index <= length; a valid call has two states, a rejected one has one |
| ArrayOperations.InsertRejects | src/utils/data_structure/arrays/basic_array_operations.js:54-75 | a `NaN` input or an index outside [0, length] is reported with the matching error and the array is untouched |
| ArrayOperations.InsertShows | src/utils/data_structure/arrays/basic_array_operations.js:78-86 | during the animation the spliced array is shown with the insert flags up |
| ArrayOperations.InsertSettles | src/utils/data_structure/arrays/basic_array_operations.js:93-103 | once settled, both flags are down and the success message names the value and index |
| ArrayOperations.InsertRunsBatches | src/utils/data_structure/arrays/basic_array_operations.js:78-103 | a valid insert is its five synchronous dispatches as one batch, then the five dispatches of its timer as a second batch |
| ArrayOperations.InsertBatchFrame | src/utils/data_structure/arrays/basic_array_operations.js:78-86 | the synchronous batch leaves every field other than index, element, the two flags and the array as it was |
| ArrayOperations.InsertTimerBatchFrame | src/utils/data_structure/arrays/basic_array_operations.js:93-103 | the timer batch leaves every field other than the two flags, the message, the error flag and the alert as it was |
| ArrayOperations.HandleDelete | src/utils/data_structure/arrays/basic_array_operations.js:129-211 | the input is cleared exactly when the index parses and is in [0, length - 1]; a valid call has three states, a rejected one has one |
| ArrayOperations.DeleteRejects | src/utils/data_structure/arrays/basic_array_operations.js:141-175 | `NaN` is rejected first, and also lowers the in-progress flag; then an empty array; then an index out of bounds; the array is untouched |
| ArrayOperations.DeleteShows | src/utils/data_structure/arrays/basic_array_operations.js:187-189 | a valid delete first raises `isDeleting` over the unchanged array |
| ArrayOperations.DeleteShrinks | src/utils/data_structure/arrays/basic_array_operations.js:194-198 | after the first timer the element is gone while the operation is still in progress |
| ArrayOperations.DeleteSettles | src/utils/data_structure/arrays/basic_array_operations.js:200-209 | after the second timer the operation is over and the message names the removed value and its index |
| ArrayOperations.HandleUpdate | src/utils/data_structure/arrays/basic_array_operations.js:237-297 | the inputs are cleared exactly when both parse and the index is in [0, length - 1]; a valid call has two states, a rejected one has one |
| ArrayOperations.UpdateRejects | src/utils/data_structure/arrays/basic_array_operations.js:245-267 | a `NaN` input or an index outside [0, length - 1] is reported with the matching error and the array is untouched |
| ArrayOperations.UpdateShows | src/utils/data_structure/arrays/basic_array_operations.js:272-280 | during the animation the new value is already in place with the update flags up |
| ArrayOperations.UpdateSettles | src/utils/data_structure/arrays/basic_array_operations.js:286-296 | once settled only position i changed, the length is the same, and the message reports the old and new values |
| ArrayOperations.IndicesOf | src/utils/data_structure/arrays/basic_array_operations.js:343-348 | the collected indices are ascending, in range, hold the value, and include every position that holds it |
| ArrayOperations.Matching | src/utils/data_structure/arrays/basic_array_operations.js:343-348 | an index is reported exactly when its element equals the parsed value, and a `NaN` value matches nothing |
| ArrayOperations.HandleSearch | src/utils/data_structure/arrays/basic_array_operations.js:310-370 | a search is one state and never clears the input |
| ArrayOperations.SearchRejects | src/utils/data_structure/arrays/basic_array_operations.js:311-330 | non-numeric or empty text, and then an empty array, are rejected with their errors |
| ArrayOperations.SearchOnlyReports | src/utils/data_structure/arrays/basic_array_operations.js:310-370 | a search changes nothing but the message, the error flag and the alert |
| ArrayOperations.SearchReports | src/utils/data_structure/arrays/basic_array_operations.js:350-369 | a miss is an error naming the typed text; a hit lists every matching index and the array's length as the step count |
| ArrayOperations.SearchFindsExactly | src/utils/data_structure/arrays/basic_array_operations.js:343-368 | searching for a number's decimal text reports exactly the positions holding it, and is an error exactly when none does |
| ArrayOperations.HandleClear | src/utils/data_structure/arrays/basic_array_operations.js:378-398 | an empty array is rejected untouched; otherwise the array becomes empty with the success message |
| ArrayOperations.ShuffleDown | src/utils/data_structure/arrays/basic_array_operations.js:419-422 | the Fisher–Yates loop keeps the length |
| ArrayOperations.ShuffleDownPermutes | src/utils/data_structure/arrays/basic_array_operations.js:419-422 | the Fisher–Yates loop only rearranges values |
| ArrayOperations.ShuffleDownKeepsAbove | src/utils/data_structure/arrays/basic_array_operations.js:419-422 | positions already visited by the downward loop are not touched again |
| ArrayOperations.HandleShuffle | src/utils/data_structure/arrays/basic_array_operations.js:406-432 | a shuffle is one state and never clears the input |
| ArrayOperations.ShuffleRejects | src/utils/data_structure/arrays/basic_array_operations.js:407-416 | fewer than two elements are rejected untouched |
| ArrayOperations.ShuffleRearranges | src/utils/data_structure/arrays/basic_array_operations.js:418-431 | two or more elements keep their length and multiset, with the success message and nothing else changed |
| ArrayOperations.Randomize | src/utils/data_structure/arrays/basic_array_operations.js:440-454 | the new array has 5 to 10 values, each in [0, 99], and the message states its length |
| ArrayOperations.InsertThenDelete | src/utils/data_structure/arrays/basic_array_operations.js:45-211 | deleting at the index just inserted at restores the array, and re-inserting a deleted value restores it too |
| ArrayOperations.UpdateThenRestore | src/utils/data_structure/arrays/basic_array_operations.js:237-297 | updating a position back to its old value restores the array |
| ArrayOperations.ClearTwice | src/utils/data_structure/arrays/basic_array_operations.js:378-398 | a second clear in a row is rejected as already empty |
| ArrayKeyboard.Initial | src/utils/data_structure/arrays/arrayKeyboardBindings.js:84-86 | no mode and both pending inputs empty |
| ArrayKeyboard.HandleKeyDown | src/utils/data_structure/arrays/arrayKeyboardBindings.js:89-173 | an active mode only ever returns to no mode, and an operation runs only for Alt with c/s/r or for Enter in an active mode |
| ArrayKeyboard.EnterMode | src/utils/data_structure/arrays/arrayKeyboardBindings.js:91-106 | with no mode and no Alt, i/d/u/f in either case select insert/delete/update/search, and nothing else does |
| ArrayKeyboard.ModeSticks | src/utils/data_structure/arrays/arrayKeyboardBindings.js:91 | while a mode is active, keys other than Enter and Escape change neither the mode nor the inputs |
| ArrayKeyboard.AltRunsDirect | src/utils/data_structure/arrays/arrayKeyboardBindings.js:109-121 | Alt with c/s/r in either case runs clear/shuffle/randomize and leaves the mode alone |
| ArrayKeyboard.EnterConfirms | src/utils/data_structure/arrays/arrayKeyboardBindings.js:124-165 | Enter runs the active mode's operation on the pending inputs and clears mode and inputs; with no mode it does nothing |
| ArrayKeyboard.EscapeCancels | src/utils/data_structure/arrays/arrayKeyboardBindings.js:168-172 | Escape returns to no mode with both inputs cleared and runs nothing |
| SearchTreeCard.InitialTree | src/pages/Explore/partials/DataStructureCard.jsx:49-67 | the starting tree has seven nodes |
| SearchTreeCard.Insert | src/pages/Explore/partials/DataStructureCard.jsx:70-84 | an empty subtree becomes one node; a node on the path keeps its value and the child it did not walk into |
| SearchTreeCard.InsertNode | src/pages/Explore/partials/DataStructureCard.jsx:86-89 | a `NaN` entry leaves the tree and the input alone; a number is inserted and the input cleared |
| SearchTreeCard.BelowMeansValues | src/pages/Explore/partials/DataStructureCard.jsx:73 | the left-subtree bound holds exactly when every stored value is below the node |
| SearchTreeCard.AtLeastMeansValues | src/pages/Explore/partials/DataStructureCard.jsx:78 | the right-subtree bound holds exactly when every stored value is at least the node |
| SearchTreeCard.InsertCounts | src/pages/Explore/partials/DataStructureCard.jsx:69-84 | insertion adds exactly one node, and the value multiset gains exactly the inserted value |
| SearchTreeCard.InitialIsBst | src/pages/Explore/partials/DataStructureCard.jsx:108-128 | the starting and reset tree is in search-tree order |
| SearchTreeCard.InsertKeepsBounds | src/pages/Explore/partials/DataStructureCard.jsx:73-83 | inserting a value within a bound keeps the bound |
| SearchTreeCard.InsertKeepsBst | src/pages/Explore/partials/DataStructureCard.jsx:73-83 | insertion keeps the order: left smaller, right at least as large |
| SearchTreeCard.FindExactly | src/pages/Explore/partials/DataStructureCard.jsx:73 | in a search tree the left/right lookup finds exactly the stored values |
| SearchTreeCard.InsertThenFind | src/pages/Explore/partials/DataStructureCard.jsx:69-84 | after insertion the lookup finds the new value and everything it found before |
| SearchTreeCard.InsertNodeKeepsBst | src/pages/Explore/partials/DataStructureCard.jsx:86-89 | entering values keeps the card's tree ordered, growing by one per accepted entry |
| PlaygroundLayout.Initial | src/features/playground/playgroundLayoutSlice.js:17-24 | editor closed, list open, list view, filter off, category search, empty query |
| PlaygroundLayout.Changed | src/features/playground/playgroundLayoutSlice.js:17-24 | no field differs exactly when the states are equal |
| PlaygroundLayout.Toggled | src/features/playground/playgroundLayoutSlice.js:56-58 | the toggle gives grid exactly from list, and list from any other value |
| PlaygroundLayout.OneFieldChanges | src/features/playground/playgroundLayoutSlice.js:40-98 | every reducer changes at most its own field, and a toggle always changes it |
| PlaygroundLayout.ToggleTwice | src/features/playground/playgroundLayoutSlice.js:40-66 | toggling the editor, the list or the filter twice is the identity |
| PlaygroundLayout.ViewToggleTwice | src/features/playground/playgroundLayoutSlice.js:56-58 | toggling the view twice restores it exactly when it was list or grid |
| PlaygroundLayout.ViewStaysKnown | src/features/playground/playgroundLayoutSlice.js:17-98 | the view starts as list and no reducer moves it outside list and grid |
| PlaygroundLayout.SetOverrides | src/features/playground/playgroundLayoutSlice.js:72-98 | a setter overrides any earlier write to its field |
| PlaygroundLayout.DistinctCommute | src/features/playground/playgroundLayoutSlice.js:40-98 | reducers of different fields commute |
| Scenarios.FindEight | src/features/visualizer/algorithms/searching/linearSearchVisualizerSlice.js:36-69 | searching [5, 3, 8, 1] for 8 ends on the third snapshot, found at 2, with 0, 1, 2 visited |
| Scenarios.InsertNinetyNine | src/utils/data_structure/arrays/basic_array_operations.js:45-104 | inserting 99 at 1 into [1, 2, 3] gives [1, 99, 2, 3] and reports 99 at index 1 |
| Scenarios.DeleteOutOfBounds | src/utils/data_structure/arrays/basic_array_operations.js:164-175 | deleting at 5 from [1, 2, 3] is a bounds error and leaves the array alone |

## Left out

- **Timers.** `setTimeout` delays, the self-rescheduling animation loops of the visualizer
  components, and any interleaving between them are left out. An operation's timer
  batches are modelled as later states in a fixed order.
- **Rendering.** JSX rendering, element positions, tree drawing (`renderTree`), alerts
  and their timeouts, and the `console.log` calls are left out.
- **Persistence.** `redux-persist` wrappers only store and restore state.
- **Number parsing.** `parseInt` and `isNaN` on the typed text are supplied by the caller
  as `Option<int>`, or as `SearchQuery.numeric` and `SearchQuery.parsed`. The text they
  parse is not modelled. `ArrayKeyboard` hands the raw pending texts to the operation it
  names and does not call the handlers itself.
- **Key lowering.** `ArrayKeyboard.LowerChar` lower-cases ASCII letters only. No
  non-ASCII character lower-cases to one of the shortcut letters, so the decisions are
  the same.
- **Randomness.** `Math.random` is an oracle of draws in [0, 1). No probability is
  modelled.
- ArrayOperations.ShuffleRearranges: states a permutation, but not that every
  permutation is equally likely.
- **Second `isNaN` check in search.** `handleSearch` repeats its `isNaN` check after the
  empty-array check. That check can never fire, so it is not modelled.
- **Message objects.** The source sets the message to a template-literal string. The
  model keeps it as a structured `Messages.AlertMessage` whose `Text()` gives that
  string for every number below 10^21 in magnitude (see the next line).
- Text.DecimalText: matches `${n}` only for |n| < 10^21. The source's numbers are
  JavaScript doubles, which interpolate in exponent form from 10^21 on (`1e+21`) and
  cannot hold every integer that large; the model's numbers are unbounded integers
  rendered in plain base-ten digits, so messages naming such a number (insert, delete
  and update bounds errors, inserted or updated elements) differ from the source's.
- **Input clearing.** Clearing the component's input boxes is modelled only as the
  `clearsInputs` flag of an `Outcome`. Typing into the keyboard hook's pending inputs is
  left out: those inputs are plain state setters.
- **Enter key on the landing-page card.** `handleOnEnter` only forwards to `insertNode`,
  which `SearchTreeCard.InsertNode` models.
- **Throwing reducers.** A bubble or linear search reducer that would read a missing
  step throws in the source. Redux then keeps the old state, and the model leaves the
  state unchanged.
- **Payload types.** Payloads are typed: the source's setters accept any value, and only
  integers, booleans and strings of the expected shape are modelled.
- **Default sort array.** The bubble-sort visualizer's default array
  `[64, 34, 25, 12, 22, 11, 90]` (src/components/visualizer/algorithms/sorting/BubbleSortVisualizer.jsx:93)
  is covered only by the general `BubbleSortSteps.SortingStepsSortsTo`. Checking the
  literal sorted array is too costly for the solver.
