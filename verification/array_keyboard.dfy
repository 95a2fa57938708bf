/** Keyboard control of the array visualizer: a letter enters an input mode, Enter
    confirms the operation of the active mode, Escape cancels, and Alt with a letter runs
    one of the operations that need no input. */
module ArrayKeyboard {
  import opened Wrappers

  /** The hook's `mode` state; `NoMode` is the empty string. */
  datatype Mode = NoMode | InsertMode | DeleteMode | UpdateMode | SearchMode

  /** The hook's state: the mode and the two pending inputs as typed. */
  datatype KeyState = KeyState(mode: Mode, tempValue: string, tempIndex: string)

  /** An operation a key press runs, with the raw input texts it is handed. */
  datatype Command =
    | Insert(indexText: string, valueText: string)
    | Delete(indexText: string)
    | Update(indexText: string, valueText: string)
    | Search(valueText: string)
    | Clear
    | Shuffle
    | Randomize

  /** What one `keydown` does: the hook state afterwards and the operation it ran, if any. */
  datatype Reaction = Reaction(next: KeyState, command: Option<Command>)

  /** The hook's initial state. */
  function Initial(): (st: KeyState)
    ensures st.mode == NoMode && st.tempValue == "" && st.tempIndex == ""
  {
    KeyState(NoMode, "", "")
  }

  /** `toLowerCase` on ASCII letters; every other character is kept. Characters outside
      ASCII never lower-case to one of the shortcut letters, so this decides the same
      comparisons. */
  function LowerChar(c: char): (d: char)
    ensures 'A' <= c <= 'Z' ==> d as int == c as int + 32
    ensures !('A' <= c <= 'Z') ==> d == c
  {
    if 'A' <= c <= 'Z' then (c as int + 32) as char else c
  }

  function Lower(key: string): (r: string)
    ensures |r| == |key|
    ensures forall k :: 0 <= k < |key| ==> r[k] == LowerChar(key[k])
  {
    seq(|key|, k requires 0 <= k < |key| => LowerChar(key[k]))
  }

  /** The mode a plain letter selects: i, d, u, f. */
  function ModeKey(lower: string): Mode {
    if lower == "i" then InsertMode
    else if lower == "d" then DeleteMode
    else if lower == "u" then UpdateMode
    else if lower == "f" then SearchMode
    else NoMode
  }

  /** The operation Alt with a letter runs: c, s, r. */
  function AltKey(lower: string): Option<Command> {
    if lower == "c" then Some(Clear)
    else if lower == "s" then Some(Shuffle)
    else if lower == "r" then Some(Randomize)
    else None
  }

  /** The operation Enter confirms in an active mode, handed the pending inputs. */
  function Confirm(st: KeyState): Option<Command> {
    match st.mode
    case NoMode => None
    case InsertMode => Some(Insert(st.tempIndex, st.tempValue))
    case DeleteMode => Some(Delete(st.tempIndex))
    case UpdateMode => Some(Update(st.tempIndex, st.tempValue))
    case SearchMode => Some(Search(st.tempValue))
  }

  /** `handleKeyDown`: the three blocks run in order against the mode read when the
      event arrives, and a later state write wins over an earlier one. */
  function HandleKeyDown(st: KeyState, key: string, alt: bool): (r: Reaction)
    ensures r.next.mode == NoMode || r.next.mode == st.mode || st.mode == NoMode
    ensures r.command.Some? ==> (alt && AltKey(Lower(key)).Some?) || (key == "Enter" && st.mode != NoMode)
  {
    var lower := Lower(key);
    // mode switching
    var st1 := if !alt && st.mode == NoMode && ModeKey(lower) != NoMode then st.(mode := ModeKey(lower)) else st;
    // direct operations
    var direct := if alt then AltKey(lower) else None;
    // confirmation
    var confirming := key == "Enter" && st.mode != NoMode;
    var st2 := if confirming then KeyState(NoMode, "", "") else st1;
    var command := if confirming then Confirm(st) else direct;
    // cancellation
    var st3 := if key == "Escape" then KeyState(NoMode, "", "") else st2;
    Reaction(st3, command)
  }

  // ---------------------------------------------------------------------------
  // Properties

  /** Without Alt and with no mode active, i/d/u/f in either case enter insert, delete,
      update or search mode; any other key leaves the mode empty. No key runs an
      operation and the pending inputs stay as they were, except that Escape clears them. */
  lemma EnterMode(st: KeyState, key: string)
    requires st.mode == NoMode
    ensures var r := HandleKeyDown(st, key, false);
            && r.command == None
            && (key == "i" || key == "I" <==> r.next.mode == InsertMode)
            && (key == "d" || key == "D" <==> r.next.mode == DeleteMode)
            && (key == "u" || key == "U" <==> r.next.mode == UpdateMode)
            && (key == "f" || key == "F" <==> r.next.mode == SearchMode)
            && (key != "Escape" ==> r.next.tempValue == st.tempValue && r.next.tempIndex == st.tempIndex)
  {
    LowerSingle(key, 'i');
    LowerSingle(key, 'd');
    LowerSingle(key, 'u');
    LowerSingle(key, 'f');
    assert Lower("Enter") != "i";
  }

  /** A one-character key lower-cases to a lower-case letter exactly when it is that
      letter in either case. */
  lemma LowerSingle(key: string, c: char)
    requires 'a' <= c <= 'z'
    ensures Lower(key) == [c] <==> key == [c] || key == [(c as int - 32) as char]
  {
    if |key| == 1 {
      if Lower(key) == [c] {
        assert LowerChar(key[0]) == c;
        assert key == [key[0]];
      }
    }
  }

  /** While a mode is active, only Enter and Escape change it: letters, with or without
      Alt, leave the mode and the pending inputs alone. */
  lemma ModeSticks(st: KeyState, key: string, alt: bool)
    requires st.mode != NoMode && key != "Enter" && key != "Escape"
    ensures HandleKeyDown(st, key, alt).next == st
  {
  }

  /** Alt with c, s or r (either case) runs clear, shuffle or randomize and changes
      neither the mode nor the pending inputs. */
  lemma AltRunsDirect(st: KeyState, key: string)
    ensures var r := HandleKeyDown(st, key, true);
            && (key == "c" || key == "C" ==> r.command == Some(Clear))
            && (key == "s" || key == "S" ==> r.command == Some(Shuffle))
            && (key == "r" || key == "R" ==> r.command == Some(Randomize))
            && (key != "Enter" && key != "Escape" ==> r.next == st)
  {
    LowerSingle(key, 'c');
    LowerSingle(key, 's');
    LowerSingle(key, 'r');
  }

  /** Enter in an active mode runs exactly that mode's operation on the pending inputs
      and returns to no mode with both inputs cleared; with no mode active it runs
      nothing and changes nothing. */
  lemma EnterConfirms(st: KeyState, alt: bool)
    ensures var r := HandleKeyDown(st, "Enter", alt);
            && (st.mode != NoMode ==> r.next == Initial() && r.command == Confirm(st) && r.command.Some?)
            && (st.mode == InsertMode ==> r.command == Some(Insert(st.tempIndex, st.tempValue)))
            && (st.mode == DeleteMode ==> r.command == Some(Delete(st.tempIndex)))
            && (st.mode == UpdateMode ==> r.command == Some(Update(st.tempIndex, st.tempValue)))
            && (st.mode == SearchMode ==> r.command == Some(Search(st.tempValue)))
            && (st.mode == NoMode ==> r.command == None && r.next == st)
  {
    assert Lower("Enter") == "enter";
  }

  /** Escape, with or without Alt and whatever the mode, returns to no mode with both
      inputs cleared and runs nothing. */
  lemma EscapeCancels(st: KeyState, alt: bool)
    ensures HandleKeyDown(st, "Escape", alt) == Reaction(Initial(), None)
  {
    assert Lower("Escape") == "escape";
  }
}
