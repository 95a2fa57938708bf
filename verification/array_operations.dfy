/** The array operations behind the array visualizer: insert, delete, update, search,
    clear, shuffle and randomize. Each validates its input, then drives the visualizer
    store through a fixed sequence of setter dispatches, some of them delayed by a timer.
    A call is modelled as the list of store states it passes through. */
module ArrayOperations {
  import opened Wrappers
  import opened Sequences
  import opened Random
  import opened Text
  import opened Messages
  import opened ArrayVisualizerSlice

  /** One call: the store after the synchronous dispatches, then after each timer fires,
      in order, with no other action in between; and whether the form's inputs are
      cleared. A number input that `parseInt` turns into `NaN` is `None`. */
  datatype Outcome = Outcome(phases: seq<ArrayState>, clearsInputs: bool)
  {
    /** The store once every timer has fired. */
    function Settled(): ArrayState
      requires |phases| > 0
    {
      phases[|phases| - 1]
    }
  }

  // ---------------------------------------------------------------------------
  // Splicing

  /** `splice(i, 0, v)` on a copy: `v` enters at `i` and the tail shifts right. */
  function InsertAt(a: seq<int>, i: int, v: int): (r: seq<int>)
    requires 0 <= i <= |a|
    ensures |r| == |a| + 1 && r[i] == v
    ensures forall k :: 0 <= k < i ==> r[k] == a[k]
    ensures forall k :: i < k < |r| ==> r[k] == a[k - 1]
  {
    a[..i] + [v] + a[i..]
  }

  /** `splice(i, 1)` on a copy: `a[i]` leaves and the tail shifts left. */
  function RemoveAt(a: seq<int>, i: int): (r: seq<int>)
    requires 0 <= i < |a|
    ensures |r| == |a| - 1
    ensures forall k :: 0 <= k < i ==> r[k] == a[k]
    ensures forall k :: i <= k < |r| ==> r[k] == a[k + 1]
  {
    a[..i] + a[i + 1..]
  }

  /** Removing what was just inserted gives the array back, and so does re-inserting
      what was just removed. */
  lemma InsertRemoveInverse(a: seq<int>, i: int, v: int)
    requires 0 <= i <= |a|
    ensures RemoveAt(InsertAt(a, i, v), i) == a
    ensures i < |a| ==> InsertAt(RemoveAt(a, i), i, a[i]) == a
  {
    assert RemoveAt(InsertAt(a, i, v), i) == a;
    if i < |a| {
      assert InsertAt(RemoveAt(a, i), i, a[i]) == a;
    }
  }

  /** Insertion adds exactly one occurrence of the value; removal takes one away. */
  lemma SpliceCounts(a: seq<int>, i: int, v: int)
    requires 0 <= i <= |a|
    ensures multiset(InsertAt(a, i, v)) == multiset(a) + multiset{v}
    ensures i < |a| ==> multiset(RemoveAt(a, i)) == multiset(a) - multiset{a[i]}
  {
    assert a == a[..i] + a[i..];
    assert InsertAt(a, i, v) == a[..i] + [v] + a[i..];
    if i < |a| {
      assert a[i..] == [a[i]] + a[i + 1..];
      assert a == a[..i] + [a[i]] + a[i + 1..];
    }
  }

  // ---------------------------------------------------------------------------
  // Reporting

  /** A rejected call changes nothing but the message, the error flag and the alert. */
  predicate Rejected(s: ArrayState, r: ArrayState, msg: AlertMessage) {
    r == s.(message := Some(msg), isError := true, alertVisible := true)
  }

  /** The message, error flag and alert a call leaves on screen. */
  predicate Reported(r: ArrayState, msg: AlertMessage, isError: bool) {
    r.message == Some(msg) && r.isError == isError && r.alertVisible
  }

  /** The closing dispatches of a successful call: the message is shown as a success. */
  function Report(s: ArrayState, msg: AlertMessage): (r: ArrayState)
    ensures r == s.(message := Some(msg), isError := false, alertVisible := true)
  {
    s.Dispatch(SetMessage(msg)).Dispatch(SetIsError(false)).Dispatch(SetAlertVisible(true))
  }

  /** The dispatches of a rejected call. */
  function Fail(s: ArrayState, msg: AlertMessage): (o: Outcome)
    ensures |o.phases| == 1 && !o.clearsInputs
    ensures Rejected(s, o.Settled(), msg)
  {
    Outcome([s.Dispatch(SetMessage(msg)).Dispatch(SetIsError(true)).Dispatch(SetAlertVisible(true))], false)
  }

  // ---------------------------------------------------------------------------
  // Insert, delete, update

  /** `handleInsert` on the store's array: a valid call passes through two states and
      clears the inputs; a rejected one passes through one. */
  function HandleInsert(s: ArrayState, index: Option<int>, element: Option<int>): (o: Outcome)
    ensures o.clearsInputs <==> index.Some? && element.Some? && 0 <= index.value <= |s.values|
    ensures |o.phases| == if o.clearsInputs then 2 else 1
  {
    var a := s.values;
    if element.None? || index.None? then Fail(s, InsertInputError)
    else if index.value < 0 || index.value > |a| then Fail(s, InsertBoundsError(index.value, |a|))
    else
      var i, v := index.value, element.value;
      var during := s.Dispatch(SetIndex(i)).Dispatch(SetElement(v)).Dispatch(SetIsInserting(true))
                     .Dispatch(SetIsOperationInProgress(true)).Dispatch(SetArray(InsertAt(a, i, v)));
      var settled := Report(during.Dispatch(SetIsInserting(false)).Dispatch(SetIsOperationInProgress(false)), Inserted(v, i));
      Outcome([during, settled], true)
  }

  /** A `NaN` input, or an index outside `[0, |a|]`, is reported as an error and changes
      nothing else: the array stays as it was. */
  lemma InsertRejects(s: ArrayState, index: Option<int>, element: Option<int>)
    requires !(index.Some? && element.Some? && 0 <= index.value <= |s.values|)
    ensures Rejected(s, HandleInsert(s, index, element).Settled(),
                     if index.None? || element.None? then InsertInputError
                     else InsertBoundsError(index.value, |s.values|))
  {
  }

  /** While a valid insert animates, the spliced array is shown with `isInserting` and
      `isOperationInProgress` up. */
  lemma InsertShows(s: ArrayState, i: int, v: int)
    requires 0 <= i <= |s.values|
    ensures HandleInsert(s, Some(i), Some(v)).phases[0]
            == s.(index := i, element := v, isInserting := true, isOperationInProgress := true,
                  values := InsertAt(s.values, i, v))
  {
  }

  /** Once settled, a valid insert has lowered both flags and reports what it inserted
      where. */
  lemma InsertSettles(s: ArrayState, i: int, v: int)
    requires 0 <= i <= |s.values|
    ensures HandleInsert(s, Some(i), Some(v)).Settled()
            == s.(index := i, element := v, isInserting := false, isOperationInProgress := false,
                  values := InsertAt(s.values, i, v),
                  message := Some(Inserted(v, i)), isError := false, alertVisible := true)
  {
    var during := HandleInsert(s, Some(i), Some(v)).phases[0];
    InsertShows(s, i, v);
  }

  /** The dispatches a valid insert makes at once. */
  function InsertBatch(a: seq<int>, i: int, v: int): seq<Action>
    requires 0 <= i <= |a|
  {
    [SetIndex(i), SetElement(v), SetIsInserting(true), SetIsOperationInProgress(true),
     SetArray(InsertAt(a, i, v))]
  }

  /** The dispatches its timer makes. */
  function InsertTimerBatch(i: int, v: int): seq<Action> {
    [SetIsInserting(false), SetIsOperationInProgress(false), SetMessage(Inserted(v, i)),
     SetIsError(false), SetAlertVisible(true)]
  }

  /** A valid insert is two batches of setter dispatches, the second run by the timer. */
  lemma InsertRunsBatches(s: ArrayState, i: int, v: int)
    requires 0 <= i <= |s.values|
    ensures var o := HandleInsert(s, Some(i), Some(v));
            && o.phases[0] == DispatchAll(s, InsertBatch(s.values, i, v))
            && o.Settled() == DispatchAll(o.phases[0], InsertTimerBatch(i, v))
  {
    var o := HandleInsert(s, Some(i), Some(v));
    var first, timer := InsertBatch(s.values, i, v), InsertTimerBatch(i, v);
    DispatchFive(s, first[0], first[1], first[2], first[3], first[4]);
    DispatchFive(o.phases[0], timer[0], timer[1], timer[2], timer[3], timer[4]);
  }

  /** The insert's first batch writes only the index, the element, the two flags and the
      array: every other field of the store is carried through. */
  lemma InsertBatchFrame(s: ArrayState, i: int, v: int, f: Field)
    requires 0 <= i <= |s.values|
    ensures f !in {Index, Element, IsInserting, IsOperationInProgress, Field.Values} ==>
              Get(DispatchAll(s, InsertBatch(s.values, i, v)), f) == Get(s, f)
  {
    var first := InsertBatch(s.values, i, v);
    TargetsFive(first[0], first[1], first[2], first[3], first[4], f);
    if f !in Targets(first) {
      DispatchAllFrame(s, first, f);
    }
  }

  /** The insert's timer batch writes only the two flags, the message, the error flag and
      the alert: every other field of the store is carried through. */
  lemma InsertTimerBatchFrame(s: ArrayState, i: int, v: int, f: Field)
    ensures f !in {IsInserting, IsOperationInProgress, Message, IsError, AlertVisible} ==>
              Get(DispatchAll(s, InsertTimerBatch(i, v)), f) == Get(s, f)
  {
    var timer := InsertTimerBatch(i, v);
    TargetsFive(timer[0], timer[1], timer[2], timer[3], timer[4], f);
    if f !in Targets(timer) {
      DispatchAllFrame(s, timer, f);
    }
  }

  /** `handleDelete` on the store's array: a valid call passes through three states and
      clears the input; a rejected one passes through one. */
  function HandleDelete(s: ArrayState, index: Option<int>): (o: Outcome)
    ensures o.clearsInputs <==> index.Some? && 0 <= index.value < |s.values|
    ensures |o.phases| == if o.clearsInputs then 3 else 1
  {
    var a := s.values;
    if index.None? then
      Outcome([s.Dispatch(SetMessage(DeleteInputError)).Dispatch(SetIsOperationInProgress(false))
                .Dispatch(SetIsError(true)).Dispatch(SetAlertVisible(true))], false)
    else if |a| == 0 then Fail(s, DeleteEmptyError)
    else if index.value < 0 || index.value >= |a| then Fail(s, DeleteBoundsError(index.value, |a|))
    else
      var i := index.value;
      var during := s.Dispatch(SetIndex(i)).Dispatch(SetIsDeleting(true)).Dispatch(SetIsOperationInProgress(true));
      var shrunk := during.Dispatch(SetIsDeleting(false)).Dispatch(SetArray(RemoveAt(a, i)));
      var settled := Report(shrunk.Dispatch(SetIsOperationInProgress(false)), Deleted(a[i], i));
      Outcome([during, shrunk, settled], true)
  }

  /** The `NaN` check comes first (its rejection also lowers `isOperationInProgress`),
      then the empty-array check, then the bounds `[0, |a| - 1]`; a rejected delete
      leaves the array as it was. */
  lemma DeleteRejects(s: ArrayState, index: Option<int>)
    requires !(index.Some? && 0 <= index.value < |s.values|)
    ensures index.None? ==>
              Rejected(s.(isOperationInProgress := false), HandleDelete(s, index).Settled(), DeleteInputError)
    ensures index.Some? ==>
              Rejected(s, HandleDelete(s, index).Settled(),
                       if |s.values| == 0 then DeleteEmptyError else DeleteBoundsError(index.value, |s.values|))
  {
  }

  /** A valid delete first raises `isDeleting` over the unchanged array. */
  lemma DeleteShows(s: ArrayState, i: int)
    requires 0 <= i < |s.values|
    ensures HandleDelete(s, Some(i)).phases[0] == s.(index := i, isDeleting := true, isOperationInProgress := true)
  {
  }

  /** After the first timer the element is gone and `isDeleting` is down, while the
      operation is still in progress. */
  lemma DeleteShrinks(s: ArrayState, i: int)
    requires 0 <= i < |s.values|
    ensures HandleDelete(s, Some(i)).phases[1]
            == s.(index := i, isDeleting := false, isOperationInProgress := true, values := RemoveAt(s.values, i))
  {
    DeleteShows(s, i);
  }

  /** After the second timer the operation is over and the message names the removed
      value and its index. */
  lemma DeleteSettles(s: ArrayState, i: int)
    requires 0 <= i < |s.values|
    ensures HandleDelete(s, Some(i)).Settled()
            == s.(index := i, isDeleting := false, isOperationInProgress := false,
                  values := RemoveAt(s.values, i),
                  message := Some(Deleted(s.values[i], i)), isError := false, alertVisible := true)
  {
    DeleteShrinks(s, i);
  }

  /** `handleUpdate` on the store's array: a valid call passes through two states and
      clears the inputs; a rejected one passes through one. */
  function HandleUpdate(s: ArrayState, index: Option<int>, element: Option<int>): (o: Outcome)
    ensures o.clearsInputs <==> index.Some? && element.Some? && 0 <= index.value < |s.values|
    ensures |o.phases| == if o.clearsInputs then 2 else 1
  {
    var a := s.values;
    if element.None? || index.None? then Fail(s, UpdateInputError)
    else if index.value < 0 || index.value >= |a| then Fail(s, UpdateBoundsError(index.value, |a|))
    else
      var i, v := index.value, element.value;
      var during := s.Dispatch(SetIndex(i)).Dispatch(SetElement(v)).Dispatch(SetIsUpdating(true))
                     .Dispatch(SetIsOperationInProgress(true)).Dispatch(SetArray(a[i := v]));
      var settled := Report(during.Dispatch(SetIsUpdating(false)).Dispatch(SetIsOperationInProgress(false)), Updated(i, a[i], v));
      Outcome([during, settled], true)
  }

  /** A `NaN` input, or an index outside `[0, |a| - 1]`, is reported as an error and the
      array stays as it was. */
  lemma UpdateRejects(s: ArrayState, index: Option<int>, element: Option<int>)
    requires !(index.Some? && element.Some? && 0 <= index.value < |s.values|)
    ensures Rejected(s, HandleUpdate(s, index, element).Settled(),
                     if index.None? || element.None? then UpdateInputError
                     else UpdateBoundsError(index.value, |s.values|))
  {
  }

  /** While a valid update animates, the new value is already in place and
      `isUpdating` is up. */
  lemma UpdateShows(s: ArrayState, i: int, v: int)
    requires 0 <= i < |s.values|
    ensures HandleUpdate(s, Some(i), Some(v)).phases[0]
            == s.(index := i, element := v, isUpdating := true, isOperationInProgress := true,
                  values := s.values[i := v])
  {
  }

  /** Once settled, only position `i` has changed, the length is the same, and the
      message reports the old and the new value. */
  lemma UpdateSettles(s: ArrayState, i: int, v: int)
    requires 0 <= i < |s.values|
    ensures var r := HandleUpdate(s, Some(i), Some(v)).Settled();
            && r == s.(index := i, element := v, isUpdating := false, isOperationInProgress := false,
                       values := s.values[i := v],
                       message := Some(Updated(i, s.values[i], v)), isError := false, alertVisible := true)
            && |r.values| == |s.values| && r.values[i] == v
            && (forall k :: 0 <= k < |s.values| && k != i ==> r.values[k] == s.values[k])
  {
    UpdateShows(s, i, v);
  }

  // ---------------------------------------------------------------------------
  // Search

  /** The search box: its raw text, whether `isNaN(text)` is false (the text reads as a
      number), and what `parseInt(text)` returns. Both observations of the text are
      supplied by the caller. */
  datatype SearchQuery = SearchQuery(text: string, numeric: bool, parsed: Option<int>)

  /** The indices `i >= from` with `a[i] == x`, ascending, as the `forEach` collects them. */
  function IndicesOf(a: seq<int>, x: int, from: nat): (r: seq<int>)
    requires from <= |a|
    ensures forall k :: 0 <= k < |r| ==> from <= r[k] < |a| && a[r[k]] == x
    ensures forall k, m :: 0 <= k < m < |r| ==> r[k] < r[m]
    ensures forall i :: from <= i < |a| && a[i] == x ==> i in r
    decreases |a| - from
  {
    if from == |a| then []
    else
      var rest := IndicesOf(a, x, from + 1);
      if a[from] == x then [from] + rest else rest
  }

  /** The indices the search reports: `element === parseInt(text)` never holds for `NaN`. */
  function Matching(a: seq<int>, target: Option<int>): (r: seq<int>)
    ensures forall k :: 0 <= k < |r| ==> 0 <= r[k] < |a| && target == Some(a[r[k]])
    ensures forall i :: 0 <= i < |a| ==> (i in r <==> target == Some(a[i]))
    ensures forall k, m :: 0 <= k < m < |r| ==> r[k] < r[m]
    ensures |r| == 0 <==> forall i :: 0 <= i < |a| ==> target != Some(a[i])
  {
    if target.None? then []
    else
      var r := IndicesOf(a, target.value, 0);
      assert |r| > 0 ==> r[0] in r && target == Some(a[r[0]]);
      r
  }

  /** `handleSearch`: one state, and the inputs are not cleared. The source repeats the
      `isNaN` check after the empty-array check; that second check can never fire and
      is not modelled. */
  function HandleSearch(s: ArrayState, q: SearchQuery): (o: Outcome)
    ensures |o.phases| == 1 && !o.clearsInputs
  {
    var a := s.values;
    if !q.numeric || q.text == "" then Fail(s, SearchInputError)
    else if |a| == 0 then Fail(s, SearchEmptyError)
    else
      var found := Matching(a, q.parsed);
      if |found| == 0 then
        Outcome([s.Dispatch(SetMessage(NotFound(q.text))).Dispatch(SetIsError(true)).Dispatch(SetAlertVisible(true))], false)
      else
        Outcome([Report(s, Found(q.text, found, |a|))], false)
  }

  /** Text that does not read as a number (or is empty) is rejected before the array is
      looked at; otherwise an empty array is rejected. */
  lemma SearchRejects(s: ArrayState, q: SearchQuery)
    requires !q.numeric || q.text == "" || |s.values| == 0
    ensures Rejected(s, HandleSearch(s, q).Settled(),
                     if !q.numeric || q.text == "" then SearchInputError else SearchEmptyError)
  {
  }

  /** A search never touches the array or any flag but the error flag and the alert. */
  lemma SearchOnlyReports(s: ArrayState, q: SearchQuery)
    ensures var r := HandleSearch(s, q).Settled();
            r == s.(message := r.message, isError := r.isError, alertVisible := true)
  {
    if !q.numeric || q.text == "" || |s.values| == 0 {
      SearchRejects(s, q);
    }
  }

  /** A search of a non-empty array reports every position holding the parsed value,
      ascending, and a count of `|a|` steps; a miss is reported as an error naming the
      text as typed. */
  lemma SearchReports(s: ArrayState, q: SearchQuery)
    requires q.numeric && q.text != "" && |s.values| > 0
    ensures var found := Matching(s.values, q.parsed);
            var r := HandleSearch(s, q).Settled();
            && (|found| == 0 ==> Reported(r, NotFound(q.text), true))
            && (|found| > 0 ==> Reported(r, Found(q.text, found, |s.values|), false))
  {
  }

  /** Searching for a value typed as its decimal text reports exactly the positions that
      hold it. */
  lemma SearchFindsExactly(s: ArrayState, x: int)
    requires |s.values| > 0
    ensures var r := HandleSearch(s, SearchQuery(DecimalText(x), true, Some(x))).Settled();
            (exists i :: 0 <= i < |s.values| && s.values[i] == x) ==>
              && r.message.Some? && r.message.value.Found?
              && forall i :: 0 <= i < |s.values| ==> (i in r.message.value.indices <==> s.values[i] == x)
    ensures var r := HandleSearch(s, SearchQuery(DecimalText(x), true, Some(x))).Settled();
            r.isError <==> forall i :: 0 <= i < |s.values| ==> s.values[i] != x
  {
    var q := SearchQuery(DecimalText(x), true, Some(x));
    SearchReports(s, q);
  }

  // ---------------------------------------------------------------------------
  // Clear, shuffle, randomize

  /** `handleClear`. */
  function HandleClear(s: ArrayState): (o: Outcome)
    ensures |o.phases| == 1 && !o.clearsInputs
    ensures |s.values| == 0 ==> Rejected(s, o.Settled(), ClearEmptyError)
    ensures |s.values| > 0 ==>
              o.Settled() == s.(values := [], message := Some(Cleared), isError := false, alertVisible := true)
  {
    if |s.values| == 0 then Fail(s, ClearEmptyError)
    else Outcome([Report(s.Dispatch(SetArray([])), Cleared)], false)
  }

  /** Fisher–Yates from position `i` down to 1: swap `a[i]` with `a[j]`,
      `j = floor(draw * (i + 1))`, consuming draws `k, k + 1, ...`. */
  function ShuffleDown(a: seq<int>, i: int, draws: Draws, k: nat): (r: seq<int>)
    requires Uniform(draws)
    requires -1 <= i < |a|
    ensures |r| == |a|
    decreases i
  {
    if i <= 0 then a
    else
      assert 0.0 <= draws(k) < 1.0;
      var j := Scaled(draws(k), i + 1);
      ShuffleDown(Swap(a, i, j), i - 1, draws, k + 1)
  }

  /** Fisher–Yates only moves values around. */
  lemma {:induction false} ShuffleDownPermutes(a: seq<int>, i: int, draws: Draws, k: nat)
    requires Uniform(draws)
    requires -1 <= i < |a|
    ensures multiset(ShuffleDown(a, i, draws, k)) == multiset(a)
    decreases i
  {
    if i > 0 {
      assert 0.0 <= draws(k) < 1.0;
      var j := Scaled(draws(k), i + 1);
      SwapPermutes(a, i, j);
      ShuffleDownPermutes(Swap(a, i, j), i - 1, draws, k + 1);
    }
  }

  /** The positions above `i` are never touched by the rest of the sweep. */
  lemma {:induction false} ShuffleDownKeepsAbove(a: seq<int>, i: int, draws: Draws, k: nat, p: int)
    requires Uniform(draws)
    requires -1 <= i < p < |a|
    ensures ShuffleDown(a, i, draws, k)[p] == a[p]
    decreases i
  {
    if i > 0 {
      assert 0.0 <= draws(k) < 1.0;
      var j := Scaled(draws(k), i + 1);
      ShuffleDownKeepsAbove(Swap(a, i, j), i - 1, draws, k + 1, p);
    }
  }

  /** `handleShuffle`: one state, and the inputs are not cleared. */
  function HandleShuffle(s: ArrayState, draws: Draws): (o: Outcome)
    requires Uniform(draws)
    ensures |o.phases| == 1 && !o.clearsInputs
  {
    var a := s.values;
    if |a| <= 1 then Fail(s, ShuffleTooShort)
    else Outcome([Report(s.Dispatch(SetArray(ShuffleDown(a, |a| - 1, draws, 0))), Shuffled)], false)
  }

  /** Fewer than two elements cannot be shuffled. */
  lemma ShuffleRejects(s: ArrayState, draws: Draws)
    requires Uniform(draws)
    requires |s.values| <= 1
    ensures Rejected(s, HandleShuffle(s, draws).Settled(), ShuffleTooShort)
  {
  }

  /** Two or more elements are rearranged, with the same length and the same values,
      and the shuffle is reported as a success. */
  lemma ShuffleRearranges(s: ArrayState, draws: Draws)
    requires Uniform(draws)
    requires |s.values| > 1
    ensures var r := HandleShuffle(s, draws).Settled();
            && r == s.(values := r.values, message := Some(Shuffled), isError := false, alertVisible := true)
            && |r.values| == |s.values|
            && multiset(r.values) == multiset(s.values)
  {
    ShuffleDownPermutes(s.values, |s.values| - 1, draws, 0);
  }

  /** `randomizeArray`: the first draw picks a length in `[5, 10]`, the next ones the
      values, each in `[0, 99]`. It never fails. */
  function Randomize(s: ArrayState, draws: Draws): (o: Outcome)
    requires Uniform(draws)
    ensures |o.phases| == 1 && !o.clearsInputs
    ensures var r := o.Settled();
            && 5 <= |r.values| <= 10
            && (forall k :: 0 <= k < |r.values| ==> 0 <= r.values[k] <= 99)
            && r == s.(values := r.values, message := Some(Randomized(|r.values|)), isError := false, alertVisible := true)
  {
    assert 0.0 <= draws(0) < 1.0;
    var n := Scaled(draws(0), 6) + 5;
    var b := Fill(draws, 1, n, 100, 0);
    Outcome([Report(s.Dispatch(SetArray(b)), Randomized(n))], false)
  }

  // ---------------------------------------------------------------------------
  // Operations against each other

  /** Deleting at the index just inserted at restores the array, and inserting the
      just-deleted value back at its index does too. */
  lemma InsertThenDelete(s: ArrayState, i: int, v: int)
    requires 0 <= i <= |s.values|
    ensures HandleDelete(HandleInsert(s, Some(i), Some(v)).Settled(), Some(i)).Settled().values == s.values
    ensures i < |s.values| ==>
              HandleInsert(HandleDelete(s, Some(i)).Settled(), Some(i), Some(s.values[i])).Settled().values == s.values
  {
    InsertSettles(s, i, v);
    var t := HandleInsert(s, Some(i), Some(v)).Settled();
    DeleteSettles(t, i);
    InsertRemoveInverse(s.values, i, v);
    if i < |s.values| {
      DeleteSettles(s, i);
      var u := HandleDelete(s, Some(i)).Settled();
      InsertSettles(u, i, s.values[i]);
    }
  }

  /** Updating a position and then updating it back to its old value restores the array. */
  lemma UpdateThenRestore(s: ArrayState, i: int, v: int)
    requires 0 <= i < |s.values|
    ensures HandleUpdate(HandleUpdate(s, Some(i), Some(v)).Settled(), Some(i), Some(s.values[i])).Settled().values == s.values
  {
    UpdateSettles(s, i, v);
    var t := HandleUpdate(s, Some(i), Some(v)).Settled();
    UpdateSettles(t, i, s.values[i]);
  }

  /** A second clear in a row is always rejected, and leaves the array empty. */
  lemma ClearTwice(s: ArrayState)
    requires |s.values| > 0
    ensures var t := HandleClear(HandleClear(s).Settled()).Settled();
            t.values == [] && Reported(t, ClearEmptyError, true)
  {
  }
}
