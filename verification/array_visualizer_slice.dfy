/** The array visualizer's store: a plain record of fifteen fields, each written by
    exactly one setter action. The array operations drive the visualizer only by
    dispatching these actions. */
module ArrayVisualizerSlice {
  import opened Wrappers
  import opened Messages

  /** Where the visualizer drew one element. */
  datatype ElementPosition = ElementPosition(index: int, x: real, y: real)

  /** The slice state. `None` stands for `null` (and, for the message, the initial
      `undefined`). */
  datatype ArrayState = ArrayState(
    values: seq<int>,
    index: int,
    element: int,
    message: Option<AlertMessage>,
    elementPositions: seq<ElementPosition>,
    animatingIndex: Option<int>,
    isInserting: bool,
    isDeleting: bool,
    isUpdating: bool,
    isError: bool,
    animationStage: Option<string>,
    isTransitioning: bool,
    isOperationInProgress: bool,
    insertLastIndex: Option<int>,
    alertVisible: bool)
  {
    /** `dispatch(act)` against this store. */
    function Dispatch(act: Action): ArrayState {
      Reduce(this, act)
    }
  }

  /** The state fields, one per setter. */
  datatype Field =
    | Values | Index | Element | Message | ElementPositions | AnimatingIndex
    | IsInserting | IsDeleting | IsUpdating | IsError | AnimationStage
    | IsTransitioning | IsOperationInProgress | InsertLastIndex | AlertVisible

  /** The setter actions and their payloads. */
  datatype Action =
    | SetArray(a: seq<int>)
    | SetIndex(i: int)
    | SetElement(e: int)
    | SetMessage(m: AlertMessage)
    | SetElementPositions(p: seq<ElementPosition>)
    | SetAnimatingIndex(ai: Option<int>)
    | SetIsInserting(b: bool)
    | SetIsDeleting(b: bool)
    | SetIsUpdating(b: bool)
    | SetIsError(b: bool)
    | SetAnimationStage(st: Option<string>)
    | SetIsTransitioning(b: bool)
    | SetIsOperationInProgress(b: bool)
    | SetInsertLastIndex(li: Option<int>)
    | SetAlertVisible(b: bool)

  /** The state the store starts from: an empty array, index and element 0, no
      message, and every phase, error and alert flag off. */
  function Initial(): (s: ArrayState)
    ensures s.values == [] && s.index == 0 && s.element == 0 && s.message == None
    ensures s.elementPositions == [] && s.animatingIndex == None && s.animationStage == None
    ensures s.insertLastIndex == None
    ensures !s.isInserting && !s.isDeleting && !s.isUpdating && !s.isError
    ensures !s.isTransitioning && !s.isOperationInProgress && !s.alertVisible
  {
    ArrayState([], 0, 0, None, [], None, false, false, false, false, None, false, false, None, false)
  }

  /** The field an action writes. */
  function Target(act: Action): Field {
    match act
    case SetArray(_) => Values
    case SetIndex(_) => Index
    case SetElement(_) => Element
    case SetMessage(_) => Message
    case SetElementPositions(_) => ElementPositions
    case SetAnimatingIndex(_) => AnimatingIndex
    case SetIsInserting(_) => IsInserting
    case SetIsDeleting(_) => IsDeleting
    case SetIsUpdating(_) => IsUpdating
    case SetIsError(_) => IsError
    case SetAnimationStage(_) => AnimationStage
    case SetIsTransitioning(_) => IsTransitioning
    case SetIsOperationInProgress(_) => IsOperationInProgress
    case SetInsertLastIndex(_) => InsertLastIndex
    case SetAlertVisible(_) => AlertVisible
  }

  /** A field's content, whatever its type. */
  datatype FieldValue =
    | Ints(ints: seq<int>)
    | Number(number: int)
    | Note(note: Option<AlertMessage>)
    | Stage(stage: Option<string>)
    | Positions(positions: seq<ElementPosition>)
    | MaybeInt(maybe: Option<int>)
    | Flag(flag: bool)

  /** Reads field `f`. */
  function Get(s: ArrayState, f: Field): FieldValue {
    match f
    case Values => Ints(s.values)
    case Index => Number(s.index)
    case Element => Number(s.element)
    case Message => Note(s.message)
    case ElementPositions => Positions(s.elementPositions)
    case AnimatingIndex => MaybeInt(s.animatingIndex)
    case IsInserting => Flag(s.isInserting)
    case IsDeleting => Flag(s.isDeleting)
    case IsUpdating => Flag(s.isUpdating)
    case IsError => Flag(s.isError)
    case AnimationStage => Stage(s.animationStage)
    case IsTransitioning => Flag(s.isTransitioning)
    case IsOperationInProgress => Flag(s.isOperationInProgress)
    case InsertLastIndex => MaybeInt(s.insertLastIndex)
    case AlertVisible => Flag(s.alertVisible)
  }

  /** What an action stores in its field. */
  function Payload(act: Action): FieldValue {
    match act
    case SetArray(a) => Ints(a)
    case SetIndex(i) => Number(i)
    case SetElement(e) => Number(e)
    case SetMessage(m) => Note(Some(m))
    case SetElementPositions(p) => Positions(p)
    case SetAnimatingIndex(ai) => MaybeInt(ai)
    case SetIsInserting(b) => Flag(b)
    case SetIsDeleting(b) => Flag(b)
    case SetIsUpdating(b) => Flag(b)
    case SetIsError(b) => Flag(b)
    case SetAnimationStage(st) => Stage(st)
    case SetIsTransitioning(b) => Flag(b)
    case SetIsOperationInProgress(b) => Flag(b)
    case SetInsertLastIndex(li) => MaybeInt(li)
    case SetAlertVisible(b) => Flag(b)
  }

  /** The slice reducer, one case per setter. */
  function Reduce(s: ArrayState, act: Action): (r: ArrayState)
  {
    match act
    case SetArray(a) => s.(values := a)
    case SetIndex(i) => s.(index := i)
    case SetElement(e) => s.(element := e)
    case SetMessage(m) => s.(message := Some(m))
    case SetElementPositions(p) => s.(elementPositions := p)
    case SetAnimatingIndex(ai) => s.(animatingIndex := ai)
    case SetIsInserting(b) => s.(isInserting := b)
    case SetIsDeleting(b) => s.(isDeleting := b)
    case SetIsUpdating(b) => s.(isUpdating := b)
    case SetIsError(b) => s.(isError := b)
    case SetAnimationStage(st) => s.(animationStage := st)
    case SetIsTransitioning(b) => s.(isTransitioning := b)
    case SetIsOperationInProgress(b) => s.(isOperationInProgress := b)
    case SetInsertLastIndex(li) => s.(insertLastIndex := li)
    case SetAlertVisible(b) => s.(alertVisible := b)
  }

  /** Each setter stores its payload verbatim in its own field. */
  lemma ReduceWrites(s: ArrayState, act: Action)
    ensures Get(Reduce(s, act), Target(act)) == Payload(act)
  {
    match act {
      case SetArray(a) =>
      case SetIndex(i) =>
      case SetElement(e) =>
      case SetMessage(m) =>
      case SetElementPositions(p) =>
      case SetAnimatingIndex(ai) =>
      case SetIsInserting(b) =>
      case SetIsDeleting(b) =>
      case SetIsUpdating(b) =>
      case SetIsError(b) =>
      case SetAnimationStage(st) =>
      case SetIsTransitioning(b) =>
      case SetIsOperationInProgress(b) =>
      case SetInsertLastIndex(li) =>
      case SetAlertVisible(b) =>
    }
  }

  /** Each setter leaves every field but its own as it was. */
  lemma ReduceFrame(s: ArrayState, act: Action, f: Field)
    requires f != Target(act)
    ensures Get(Reduce(s, act), f) == Get(s, f)
  {
    match act {
      case SetArray(a) =>
      case SetIndex(i) =>
      case SetElement(e) =>
      case SetMessage(m) =>
      case SetElementPositions(p) =>
      case SetAnimatingIndex(ai) =>
      case SetIsInserting(b) =>
      case SetIsDeleting(b) =>
      case SetIsUpdating(b) =>
      case SetIsError(b) =>
      case SetAnimationStage(st) =>
      case SetIsTransitioning(b) =>
      case SetIsOperationInProgress(b) =>
      case SetInsertLastIndex(li) =>
      case SetAlertVisible(b) =>
    }
  }

  /** Agreeing on every field is equality. */
  lemma SameEverywhere(s: ArrayState, t: ArrayState)
    requires forall f :: Get(s, f) == Get(t, f)
    ensures s == t
  {
    assert Get(s, Values) == Get(t, Values);
    assert Get(s, Index) == Get(t, Index);
    assert Get(s, Element) == Get(t, Element);
    assert Get(s, Message) == Get(t, Message);
    assert Get(s, ElementPositions) == Get(t, ElementPositions);
    assert Get(s, AnimatingIndex) == Get(t, AnimatingIndex);
    assert Get(s, IsInserting) == Get(t, IsInserting);
    assert Get(s, IsDeleting) == Get(t, IsDeleting);
    assert Get(s, IsUpdating) == Get(t, IsUpdating);
    assert Get(s, IsError) == Get(t, IsError);
    assert Get(s, AnimationStage) == Get(t, AnimationStage);
    assert Get(s, IsTransitioning) == Get(t, IsTransitioning);
    assert Get(s, IsOperationInProgress) == Get(t, IsOperationInProgress);
    assert Get(s, InsertLastIndex) == Get(t, InsertLastIndex);
    assert Get(s, AlertVisible) == Get(t, AlertVisible);
  }

  /** One field of `LastWriteWins`. */
  lemma LastWriteWinsAt(s: ArrayState, first: Action, second: Action, f: Field)
    requires Target(first) == Target(second)
    ensures Get(Reduce(Reduce(s, first), second), f) == Get(Reduce(s, second), f)
  {
    if f == Target(second) {
      ReduceWrites(Reduce(s, first), second);
      ReduceWrites(s, second);
    } else {
      ReduceFrame(Reduce(s, first), second, f);
      ReduceFrame(s, first, f);
      ReduceFrame(s, second, f);
    }
  }

  /** A later write to a field overrides an earlier one, so in particular dispatching
      the same action twice is the same as dispatching it once. */
  lemma LastWriteWins(s: ArrayState, first: Action, second: Action)
    requires Target(first) == Target(second)
    ensures Reduce(Reduce(s, first), second) == Reduce(s, second)
  {
    forall f ensures Get(Reduce(Reduce(s, first), second), f) == Get(Reduce(s, second), f) {
      LastWriteWinsAt(s, first, second, f);
    }
    SameEverywhere(Reduce(Reduce(s, first), second), Reduce(s, second));
  }

  /** One field of `DistinctSettersCommute`. */
  lemma CommuteAt(s: ArrayState, x: Action, y: Action, f: Field)
    requires Target(x) != Target(y)
    ensures Get(Reduce(Reduce(s, x), y), f) == Get(Reduce(Reduce(s, y), x), f)
  {
    var sx := Reduce(s, x);
    var sy := Reduce(s, y);
    if f == Target(x) {
      ReduceFrame(sx, y, f);
      ReduceWrites(s, x);
      ReduceWrites(sy, x);
    } else if f == Target(y) {
      ReduceFrame(sy, x, f);
      ReduceWrites(s, y);
      ReduceWrites(sx, y);
    } else {
      ReduceFrame(sx, y, f);
      ReduceFrame(s, x, f);
      ReduceFrame(sy, x, f);
      ReduceFrame(s, y, f);
    }
  }

  /** Setters of different fields commute; in particular raising one phase flag
      (`isInserting`, `isDeleting`, `isUpdating`) never clears another. */
  lemma DistinctSettersCommute(s: ArrayState, x: Action, y: Action)
    requires Target(x) != Target(y)
    ensures Reduce(Reduce(s, x), y) == Reduce(Reduce(s, y), x)
  {
    forall f ensures Get(Reduce(Reduce(s, x), y), f) == Get(Reduce(Reduce(s, y), x), f) {
      CommuteAt(s, x, y, f);
    }
    SameEverywhere(Reduce(Reduce(s, x), y), Reduce(Reduce(s, y), x));
  }

  /** The fields a batch of actions writes. */
  function Targets(acts: seq<Action>): set<Field>
    decreases |acts|
  {
    if |acts| == 0 then {} else {Target(acts[0])} + Targets(acts[1..])
  }

  /** A batch writes exactly the targets of its actions. */
  lemma {:induction false} TargetsExactly(acts: seq<Action>)
    ensures forall k :: 0 <= k < |acts| ==> Target(acts[k]) in Targets(acts)
    ensures forall f :: f in Targets(acts) ==> exists k :: 0 <= k < |acts| && Target(acts[k]) == f
    decreases |acts|
  {
    if |acts| > 0 {
      TargetsExactly(acts[1..]);
      forall k | 0 < k < |acts| ensures Target(acts[k]) in Targets(acts) {
        assert acts[k] == acts[1..][k - 1];
      }
      forall f | f in Targets(acts) ensures exists k :: 0 <= k < |acts| && Target(acts[k]) == f {
        if f != Target(acts[0]) {
          var k :| 0 <= k < |acts[1..]| && Target(acts[1..][k]) == f;
          assert Target(acts[k + 1]) == f;
        }
      }
    }
  }

  /** The store after dispatching `acts` in order. */
  function DispatchAll(s: ArrayState, acts: seq<Action>): ArrayState
    decreases |acts|
  {
    if |acts| == 0 then s else DispatchAll(Reduce(s, acts[0]), acts[1..])
  }

  /** Dispatching a batch is dispatching its first action, then the rest. */
  lemma DispatchCons(s: ArrayState, act: Action, rest: seq<Action>)
    ensures DispatchAll(s, [act] + rest) == DispatchAll(s.Dispatch(act), rest)
  {
    assert ([act] + rest)[1..] == rest;
  }

  /** A batch of five dispatches is the five dispatches in order. */
  lemma DispatchFive(s: ArrayState, a: Action, b: Action, c: Action, d: Action, e: Action)
    ensures DispatchAll(s, [a, b, c, d, e])
            == s.Dispatch(a).Dispatch(b).Dispatch(c).Dispatch(d).Dispatch(e)
  {
    var s1 := s.Dispatch(a);
    var s2 := s1.Dispatch(b);
    var s3 := s2.Dispatch(c);
    var s4 := s3.Dispatch(d);
    var s5 := s4.Dispatch(e);
    calc {
      DispatchAll(s, [a, b, c, d, e]);
      { DispatchCons(s, a, [b, c, d, e]); assert [a] + [b, c, d, e] == [a, b, c, d, e]; }
      DispatchAll(s1, [b, c, d, e]);
      { DispatchCons(s1, b, [c, d, e]); assert [b] + [c, d, e] == [b, c, d, e]; }
      DispatchAll(s2, [c, d, e]);
      { DispatchCons(s2, c, [d, e]); assert [c] + [d, e] == [c, d, e]; }
      DispatchAll(s3, [d, e]);
      { DispatchCons(s3, d, [e]); assert [d] + [e] == [d, e]; }
      DispatchAll(s4, [e]);
      { DispatchCons(s4, e, []); assert [e] + [] == [e]; }
      DispatchAll(s5, []);
    }
  }

  /** A batch of five actions writes exactly the targets of the five. */
  lemma TargetsFive(a: Action, b: Action, c: Action, d: Action, e: Action, f: Field)
    ensures f in Targets([a, b, c, d, e])
            <==> f == Target(a) || f == Target(b) || f == Target(c) || f == Target(d) || f == Target(e)
  {
    var acts := [a, b, c, d, e];
    TargetsExactly(acts);
    if f in Targets(acts) {
      var k :| 0 <= k < 5 && Target(acts[k]) == f;
      assert acts[k] in {a, b, c, d, e};
    } else {
      assert Target(acts[0]) != f && Target(acts[1]) != f && Target(acts[2]) != f;
      assert Target(acts[3]) != f && Target(acts[4]) != f;
    }
  }

  /** A field no action of the batch writes keeps its content. */
  lemma {:induction false} DispatchAllFrame(s: ArrayState, acts: seq<Action>, f: Field)
    requires f !in Targets(acts)
    ensures Get(DispatchAll(s, acts), f) == Get(s, f)
    decreases |acts|
  {
    if |acts| > 0 {
      ReduceFrame(s, acts[0], f);
      assert f !in Targets(acts[1..]);
      DispatchAllFrame(Reduce(s, acts[0]), acts[1..], f);
    }
  }

  /** After a batch, each field the batch writes holds the payload of its last write. */
  lemma {:induction false} DispatchAllLastWrite(s: ArrayState, acts: seq<Action>, k: nat)
    requires k < |acts|
    requires forall m :: k < m < |acts| ==> Target(acts[m]) != Target(acts[k])
    ensures Get(DispatchAll(s, acts), Target(acts[k])) == Payload(acts[k])
    decreases |acts|
  {
    var t := Reduce(s, acts[0]);
    if k == 0 {
      ReduceWrites(s, acts[0]);
      TargetsExactly(acts[1..]);
      assert Target(acts[0]) !in Targets(acts[1..]);
      DispatchAllFrame(t, acts[1..], Target(acts[0]));
    } else {
      DispatchAllLastWrite(t, acts[1..], k - 1);
    }
  }
}
