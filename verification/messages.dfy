/** The alert messages of the array operations. A message is kept as the data it
    reports; `Text()` renders it as the operation's template literal does whenever every
    number in it is below 10^21 in magnitude (larger JavaScript numbers interpolate in
    exponent form). */
module Messages {
  import opened Text

  datatype AlertMessage =
    | InsertInputError
    | InsertBoundsError(index: int, length: int)
    | Inserted(element: int, index: int)
    | DeleteInputError
    | DeleteEmptyError
    | DeleteBoundsError(index: int, length: int)
    | Deleted(element: int, index: int)
    | UpdateInputError
    | UpdateBoundsError(index: int, length: int)
    | Updated(index: int, was: int, element: int)
    | SearchInputError
    | SearchEmptyError
    | NotFound(query: string)
    | Found(query: string, indices: seq<int>, length: int)
    | ClearEmptyError
    | Cleared
    | ShuffleTooShort
    | Shuffled
    | Randomized(length: int)
  {
    /** The message as shown in the alert. */
    function Text(): string {
      match this
      case InsertInputError =>
        "Input Error: Both element and index must be valid numbers. For example, to insert 5 at position 2, enter: Element = 5, Index = 2"
      case InsertBoundsError(i, n) =>
        "Array Bounds Error: Index " + DecimalText(i) + " is invalid. Valid indices for insertion are between 0 and "
        + DecimalText(n) + ". Remember: You can insert at position " + DecimalText(n) + " to add at the end."
      case Inserted(v, i) =>
        "Success🎉! Inserted " + DecimalText(v) + " at index " + DecimalText(i)
        + ". The array shifted right to make space for the new element."
      case DeleteInputError =>
        "Input Error: Please enter a valid index to delete an element. For example, to delete the 5th element, enter: Delete Index = 4"
      case DeleteEmptyError =>
        "Empty Array: Cannot delete from an empty array. Try inserting some elements first!"
      case DeleteBoundsError(i, n) =>
        "Array Bounds Error: Index " + DecimalText(i) + " is invalid. Valid indices for deletion are between 0 and "
        + DecimalText(n - 1) + ". Remember: Array indices start at 0."
      case Deleted(x, i) =>
        "Success🎉! Deleted element " + DecimalText(x) + " from index " + DecimalText(i)
        + ". The array shifted left to fill the gap."
      case UpdateInputError =>
        "Input Error: Both element and index must be valid numbers. For example, to update position 2 to value 5, enter: Element = 5, Index = 2"
      case UpdateBoundsError(i, n) =>
        "Array Bounds Error: Index " + DecimalText(i) + " is invalid. Valid indices for updating are between 0 and "
        + DecimalText(n - 1) + ". Remember: You can only update existing elements."
      case Updated(i, was, v) =>
        "Success🎉! Updated index " + DecimalText(i) + " from " + DecimalText(was) + " to " + DecimalText(v)
        + ". Notice that other elements remained in their positions."
      case SearchInputError =>
        "Input Error: Search value must be a number. For example, to search for 5, enter: Search = 5"
      case SearchEmptyError =>
        "Empty Array: There are no elements to search. Try adding some elements first!"
      case NotFound(q) =>
        "Element Not Found: " + q + " is not in the array. Try searching for a value that exists in the array."
      case Found(q, found, n) =>
        "Success🔍! Found " + q + " at "
        + (if |found| == 1 then "index " + DecimalText(found[0]) else "indices " + JoinDecimal(found))
        + ". Linear search completed in " + DecimalText(n) + " steps."
      case ClearEmptyError =>
        "Array Already Empty: The array has no elements to clear. Try adding some elements first!"
      case Cleared =>
        "Success🧹! Array cleared. All elements have been removed. Start fresh by adding new elements!"
      case ShuffleTooShort =>
        "Cannot Shuffle: Array needs at least 2 elements to shuffle. Try adding more elements!"
      case Shuffled =>
        "Success🎲! Array shuffled using the Fisher-Yates algorithm. Each element is now in a random position!"
      case Randomized(n) =>
        "Success🎯! Created a new array with " + DecimalText(n)
        + " random numbers between 0 and 99. Try performing operations on these elements!"
    }
  }
}
