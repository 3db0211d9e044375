/** The table of the iterative parser, and what recursive descent would still do from any of its
    configurations. */
module JsonStates {
  import opened JsonText
  import opened JsonDescent

  datatype State =
    | FinishState | ErrorState | StartState
    | ObjectInitialState | MemberKeyState | MemberValueState | ObjectFinishState
    | ArrayInitialState | ElementState | ArrayFinishState
    | ValueState
    | ElementDelimiterState | MemberDelimiterState | KeyValueDelimiterState

  predicate IsComplete(st: State) { st.FinishState? || st.ErrorState? }

  predicate IsDelimiter(st: State) {
    st.ElementDelimiterState? || st.MemberDelimiterState? || st.KeyValueDelimiterState?
  }

  datatype Token =
    | LeftBracket | RightBracket | LeftCurly | RightCurly | Comma | Colon
    | StringTok | FalseTok | TrueTok | NullTok | NumberTok

  function Tokenize(c: char): Token {
    match c
    case '[' => LeftBracket
    case ']' => RightBracket
    case '{' => LeftCurly
    case '}' => RightCurly
    case ',' => Comma
    case ':' => Colon
    case '"' => StringTok
    case 'f' => FalseTok
    case 't' => TrueTok
    case 'n' => NullTok
    case _ => NumberTok
  }

  /** Where a value may start: the state it leads to, given the state after a scalar. */
  function PredictValue(scalar: State, t: Token): State {
    match t
    case LeftBracket => ArrayInitialState
    case LeftCurly => ObjectInitialState
    case RightBracket | RightCurly | Comma | Colon => ErrorState
    case _ => scalar
  }

  function Predict(st: State, t: Token): State {
    match st
    case StartState => PredictValue(ValueState, t)
    case ObjectInitialState | MemberDelimiterState =>
      if t == RightCurly then ObjectFinishState else if t == StringTok then MemberKeyState else ErrorState
    case MemberKeyState => if t == Colon then KeyValueDelimiterState else ErrorState
    case MemberValueState =>
      if t == RightCurly then ObjectFinishState else if t == Comma then MemberDelimiterState else ErrorState
    case ArrayInitialState | ElementDelimiterState =>
      if t == RightBracket then ArrayFinishState else PredictValue(ElementState, t)
    case ElementState =>
      if t == RightBracket then ArrayFinishState else if t == Comma then ElementDelimiterState else ErrorState
    case KeyValueDelimiterState => PredictValue(MemberValueState, t)
    case _ => ErrorState
  }

  /** The error that the table-driven parsers report in a state, unless one is set already. */
  function ErrorOf(st: State): ErrorCode {
    match st
    case StartState => DocumentEmpty
    case FinishState => DocumentRootNotSingular
    case ObjectInitialState | MemberDelimiterState => ObjectMissName
    case MemberKeyState => ObjectMissColon
    case MemberValueState => ObjectMissCommaOrCurlyBracket
    case KeyValueDelimiterState | ArrayInitialState | ElementDelimiterState => ValueInvalid
    case _ => ArrayMissCommaOrSquareBracket
  }

  predicate IsScalar(dst: State) { dst.ValueState? || dst.ElementState? || dst.MemberValueState? }

  /** What the parser's stack holds: per open object or array, the state to return to and the
      number of members or elements before the current one. */
  datatype Slot = StateSlot(state: State) | CountSlot(count: nat)

  predicate InArray(st: State) { st.ArrayInitialState? || st.ElementState? || st.ElementDelimiterState? }

  predicate InObject(st: State) {
    || st.ObjectInitialState? || st.MemberKeyState? || st.MemberValueState?
    || st.MemberDelimiterState? || st.KeyValueDelimiterState?
  }

  function Count(stack: seq<Slot>): nat
    requires |stack| >= 2 && stack[|stack| - 1].CountSlot?
  {
    stack[|stack| - 1].count
  }

  function Return(stack: seq<Slot>): State
    requires |stack| >= 2 && stack[|stack| - 2].StateSlot?
  {
    stack[|stack| - 2].state
  }

  function Outer(stack: seq<Slot>): seq<Slot>
    requires |stack| >= 2
  {
    stack[..|stack| - 2]
  }

  /** The stack after an object or array has been opened, with the state to return to. */
  function Push(stack: seq<Slot>, st: State): seq<Slot> {
    stack + [StateSlot(st)] + [CountSlot(0)]
  }

  lemma PushedOnTop(stack: seq<Slot>, st: State)
    ensures var t := Push(stack, st);
            |t| >= 2 && t[|t| - 1] == CountSlot(0) && t[|t| - 2] == StateSlot(st) && Outer(t) == stack
  {
  }

  /** The stack fits the state: it has two slots for each open object or array.  Below them there
      may be slots that an earlier parse has left. */
  ghost predicate Fits(st: State, stack: seq<Slot>)
    decreases |stack|
  {
    if st.StartState? || st.FinishState? then true
    else
      && (InArray(st) || InObject(st))
      && |stack| >= 2 && stack[|stack| - 1].CountSlot? && stack[|stack| - 2].StateSlot?
      && (st.ArrayInitialState? || st.ObjectInitialState? ==> Count(stack) == 0)
      && Return(stack) in {StartState, ElementState, MemberValueState}
      && Fits(Return(stack), Outer(stack))
  }

  /** The rest of the innermost array or object. */
  ghost function Innermost(f: Flags, s: string, st: State, n: nat, i: nat, log: seq<Event>): (r: Run)
    requires i <= |s| && (InArray(st) || InObject(st))
    ensures r.end.Ok? ==> i < r.end.value <= |s|
  {
    match st
    case ArrayInitialState => AfterOpenBracket(f, s, i, log)
    case ElementState => AfterElement(f, s, i, n, log)
    case ElementDelimiterState => AfterElementComma(f, s, i, n, log)
    case ObjectInitialState => AfterOpenBrace(f, s, i, log)
    case MemberKeyState => AfterKey(f, s, i, n, log)
    case KeyValueDelimiterState => AfterColon(f, s, i, n, log)
    case MemberValueState => AfterMember(f, s, i, n, log)
    case MemberDelimiterState => AfterMemberComma(f, s, i, n, log)
  }

  /** What recursive descent would do from this configuration up to the end of the root, at a token. */
  ghost function Resume(f: Flags, s: string, st: State, stack: seq<Slot>, i: nat, log: seq<Event>): (r: Run)
    requires i <= |s| && Fits(st, stack)
    ensures r.end.Ok? ==> i <= r.end.value <= |s|
    decreases |stack|, 1
  {
    if st.StartState? then Root(f, s, i, log)
    else if st.FinishState? then Run(log, Ok(i))
    else
      var r := Innermost(f, s, st, Count(stack), i, log);
      match r.end
      case Err(_) => r
      case Ok(j) => Closed(f, s, stack, j, r.log)
  }

  /** The same just after the token that closed the innermost array or object. */
  ghost function Closed(f: Flags, s: string, stack: seq<Slot>, i: nat, log: seq<Event>): (r: Run)
    requires i <= |s|
    requires |stack| >= 2 && stack[|stack| - 2].StateSlot?
    requires Return(stack) in {StartState, ElementState, MemberValueState} && Fits(Return(stack), Outer(stack))
    ensures r.end.Ok? ==> i <= r.end.value <= |s|
    decreases |stack|, 0
  {
    if Return(stack).StartState? then Run(log, Ok(i))
    else
      match SkipBlank(f, s, i)
      case Err(e) => Run(log, Err(e))
      case Ok(j) => Resume(f, s, Return(stack), Outer(stack), j, log)
  }

  /** The same just after any token, before the blanks that may follow it. */
  ghost function Continue(f: Flags, s: string, st: State, stack: seq<Slot>, i: nat, log: seq<Event>): (r: Run)
    requires i <= |s| && Fits(st, stack)
    ensures r.end.Ok? ==> i <= r.end.value <= |s|
  {
    if st.FinishState? then Run(log, Ok(i))
    else
      match SkipBlank(f, s, i)
      case Err(e) => Run(log, Err(e))
      case Ok(j) => Resume(f, s, st, stack, j, log)
  }
}
