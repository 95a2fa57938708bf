/** Worked examples, each derived from the general lemmas: finding a value by linear
    search, inserting in the middle, and deleting out of bounds. */
module Scenarios {
  import opened Wrappers
  import opened Sequences
  import opened LinearSearchSteps
  import opened Messages
  import opened ArrayVisualizerSlice
  import opened ArrayOperations

  /** Searching `[5, 3, 8, 1]` for 8 stops at the third snapshot, which reports index 2
      with indices 0, 1 and 2 visited. */
  lemma FindEight()
    ensures var t := SearchSteps([5, 3, 8, 1], Some(8));
            && |t| == 3 && t[2].isFound && t[2].foundIndex == Some(2) && t[2].visited == [0, 1, 2]
  {
    var a := [5, 3, 8, 1];
    SearchStepsFound(a, Some(8), 2);
    assert Range(3) == [0, 1, 2];
  }

  /** Inserting 99 at index 1 of `[1, 2, 3]` gives `[1, 99, 2, 3]` and reports 99 at 1. */
  lemma InsertNinetyNine(s: ArrayState)
    requires s.values == [1, 2, 3]
    ensures var r := HandleInsert(s, Some(1), Some(99)).Settled();
            r.values == [1, 99, 2, 3] && r.message == Some(Inserted(99, 1)) && !r.isError
  {
    InsertSettles(s, 1, 99);
    var b := InsertAt([1, 2, 3], 1, 99);
    assert b[0] == 1 && b[1] == 99 && b[2] == 2 && b[3] == 3;
  }

  /** Deleting at index 5 of `[1, 2, 3]` is a bounds error and leaves the array alone. */
  lemma DeleteOutOfBounds(s: ArrayState)
    requires s.values == [1, 2, 3]
    ensures var r := HandleDelete(s, Some(5)).Settled();
            r.values == [1, 2, 3] && r.message == Some(DeleteBoundsError(5, 3)) && r.isError
  {
    DeleteRejects(s, Some(5));
  }
}
