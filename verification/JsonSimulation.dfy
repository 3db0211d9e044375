/** Each transition of the iterative parser keeps what recursive descent would still do. */
module JsonSimulation {
  import opened JsonText
  import opened JsonDescent
  import opened JsonStates

  predicate ExpectsValue(st: State, c: char) {
    || (st.StartState? && c != '\0')
    || ((st.ArrayInitialState? || st.ElementDelimiterState?) && c != ']')
    || st.KeyValueDelimiterState?
  }

  /** The state once the expected value has been read. */
  function AfterValue(st: State): State {
    match st
    case StartState => FinishState
    case KeyValueDelimiterState => MemberValueState
    case _ => ElementState
  }

  /** The state that is pushed when the expected value is an object or an array. */
  function ReturnTo(st: State): State {
    match st
    case StartState => StartState
    case KeyValueDelimiterState => MemberValueState
    case _ => ElementState
  }

  lemma ValueStep(f: Flags, s: string, st: State, stack: seq<Slot>, i: nat, log: seq<Event>)
    requires i <= |s| && Fits(st, stack) && ExpectsValue(st, Peek(s, i))
    ensures var v := Value(f, s, i, log);
            && Fits(AfterValue(st), stack)
            && Resume(f, s, st, stack, i, log) ==
               match v.end
               case Err(e) => v
               case Ok(j) => Continue(f, s, AfterValue(st), stack, j, v.log)
  {
    hide SkipBlank, ScalarToken, StringRest;
    var v := Value(f, s, i, log);
    if !st.StartState? {
      var n, after := Count(stack), AfterValue(st);
      var r := Innermost(f, s, st, n, i, log);
      assert r == if st.KeyValueDelimiterState? then AfterColon(f, s, i, n, log) else Elements(f, s, i, n, log);
      if v.end.Ok? {
        match SkipBlank(f, s, v.end.value) {
          case Err(e) => assert r == Run(v.log, Err(e));
          case Ok(k) => assert r == Innermost(f, s, after, n, k, v.log);
        }
      }
    }
  }

  lemma OpenStep(f: Flags, s: string, st: State, stack: seq<Slot>, i: nat, log: seq<Event>, open: State)
    requires i <= |s| && Fits(st, stack) && ExpectsValue(st, Peek(s, i))
    requires (Peek(s, i) == '[' && open.ArrayInitialState?) || (Peek(s, i) == '{' && open.ObjectInitialState?)
    ensures Fits(open, Push(stack, ReturnTo(st)))
    ensures Resume(f, s, st, stack, i, log)
            == Continue(f, s, open, Push(stack, ReturnTo(st)), i + 1,
                        log + [if open.ArrayInitialState? then StartArray else StartObject])
  {
    hide SkipBlank, ScalarToken, Push;
    PushedOnTop(stack, ReturnTo(st));
    ValueStep(f, s, st, stack, i, log);
    var v := Value(f, s, i, log);
    assert v == if open.ArrayInitialState? then Array(f, s, i, log) else Object(f, s, i, log);
    if v.end.Ok? {
      assert Closed(f, s, Push(stack, ReturnTo(st)), v.end.value, v.log)
             == Continue(f, s, AfterValue(st), stack, v.end.value, v.log);
    }
  }

  lemma KeyStep(f: Flags, s: string, st: State, stack: seq<Slot>, i: nat, log: seq<Event>)
    requires i <= |s| && Fits(st, stack) && Peek(s, i) == '"'
    requires st.ObjectInitialState? || st.MemberDelimiterState?
    ensures Fits(MemberKeyState, stack)
    ensures Resume(f, s, st, stack, i, log) ==
            match StringRest(f, s, i + 1, "")
            case Err(e) => Run(log, Err(e))
            case Ok(name) => Continue(f, s, MemberKeyState, stack, name.end, log + [Key(name.token)])
  {
    hide SkipBlank, ScalarToken, StringRest;
    assert Innermost(f, s, st, Count(stack), i, log) == Members(f, s, i, Count(stack), log);
  }

  lemma ColonStep(f: Flags, s: string, stack: seq<Slot>, i: nat, log: seq<Event>)
    requires i <= |s| && Fits(MemberKeyState, stack) && Peek(s, i) == ':'
    ensures Fits(KeyValueDelimiterState, stack)
    ensures Resume(f, s, MemberKeyState, stack, i, log) == Continue(f, s, KeyValueDelimiterState, stack, i + 1, log)
  {
    hide SkipBlank, ScalarToken, StringRest;
    assert Innermost(f, s, MemberKeyState, Count(stack), i, log) == AfterKey(f, s, i, Count(stack), log);
  }

  lemma CommaStep(f: Flags, s: string, st: State, stack: seq<Slot>, i: nat, log: seq<Event>, next: State)
    requires i <= |s| && Fits(st, stack) && Peek(s, i) == ','
    requires (st.ElementState? && next.ElementDelimiterState?) || (st.MemberValueState? && next.MemberDelimiterState?)
    ensures var stack' := stack[|stack| - 1 := CountSlot(Increment(Count(stack)))];
            && Fits(next, stack')
            && Resume(f, s, st, stack, i, log) == Continue(f, s, next, stack', i + 1, log)
  {
    hide SkipBlank, ScalarToken, StringRest;
    var stack' := stack[|stack| - 1 := CountSlot(Increment(Count(stack)))];
    assert Outer(stack') == Outer(stack);
    var n := Count(stack);
    if st.ElementState? {
      assert Innermost(f, s, st, n, i, log) == AfterElement(f, s, i, n, log);
    } else {
      assert Innermost(f, s, st, n, i, log) == AfterMember(f, s, i, n, log);
    }
    var r := Innermost(f, s, st, n, i, log);
    if r.end.Ok? {
      assert Closed(f, s, stack, r.end.value, r.log) == Closed(f, s, stack', r.end.value, r.log);
    }
  }

  /** May the state be left by the closing bracket c? */
  predicate MayClose(f: Flags, st: State, c: char) {
    if c == ']' then st.ArrayInitialState? || st.ElementState? || (st.ElementDelimiterState? && f.trailingCommas)
    else c == '}' && (st.ObjectInitialState? || st.MemberValueState? || (st.MemberDelimiterState? && f.trailingCommas))
  }

  function FinalCount(st: State, stack: seq<Slot>): nat
    requires |stack| >= 2 && stack[|stack| - 1].CountSlot?
  {
    if st.ElementState? || st.MemberValueState? then Increment(Count(stack)) else Count(stack)
  }

  lemma CloseStep(f: Flags, s: string, st: State, stack: seq<Slot>, i: nat, log: seq<Event>)
    requires i <= |s| && Fits(st, stack) && MayClose(f, st, Peek(s, i))
    ensures var c := FinalCount(st, stack);
            var event := if Peek(s, i) == ']' then EndArray(c) else EndObject(c);
            var next := if Return(stack).StartState? then FinishState else Return(stack);
            && Fits(next, Outer(stack))
            && Resume(f, s, st, stack, i, log) == Continue(f, s, next, Outer(stack), i + 1, log + [event])
  {
    hide SkipBlank, ScalarToken, StringRest;
    var c := FinalCount(st, stack);
    var event := if Peek(s, i) == ']' then EndArray(c) else EndObject(c);
    assert Innermost(f, s, st, Count(stack), i, log) == Run(log + [event], Ok(i + 1));
  }

  predicate Punctuation(c: char) { c == ']' || c == '}' || c == ',' || c == ':' }

  lemma NoValue(f: Flags, s: string, i: nat, log: seq<Event>)
    requires i <= |s| && Punctuation(Peek(s, i))
    ensures Value(f, s, i, log).end.Err? && Value(f, s, i, log).log == log
  {
    assert IntegerPart(f, s, i).Err?;
    assert NumberToken(f, s, i).Err?;
  }

  /** Where the table says error before the end, recursive descent fails too, and logs nothing more. */
  lemma RejectStep(f: Flags, s: string, st: State, stack: seq<Slot>, i: nat, log: seq<Event>)
    requires i <= |s| && Fits(st, stack) && !st.FinishState?
    requires var p := Predict(st, Tokenize(Peek(s, i)));
             p.ErrorState? || ((p.ObjectFinishState? || p.ArrayFinishState?) && !MayClose(f, st, Peek(s, i)))
    ensures Resume(f, s, st, stack, i, log).end.Err? && Resume(f, s, st, stack, i, log).log == log
  {
    hide SkipBlank, ScalarToken, StringRest;
    if st.StartState? {
      NoValue(f, s, i, log);
    } else if InArray(st) {
      RejectArray(f, s, st, Count(stack), i, log);
    } else if InObject(st) {
      RejectObject(f, s, st, Count(stack), i, log);
    }
  }

  lemma RejectArray(f: Flags, s: string, st: State, n: nat, i: nat, log: seq<Event>)
    requires i <= |s| && InArray(st) && (st.ArrayInitialState? ==> n == 0)
    requires var p := Predict(st, Tokenize(Peek(s, i)));
             p.ErrorState? || (p.ArrayFinishState? && !MayClose(f, st, Peek(s, i)))
    ensures Innermost(f, s, st, n, i, log).end.Err? && Innermost(f, s, st, n, i, log).log == log
  {
    hide SkipBlank, ScalarToken, StringRest;
    if !st.ElementState? {
      NoValue(f, s, i, log);
      assert Innermost(f, s, st, n, i, log) == Elements(f, s, i, n, log);
    }
  }

  lemma RejectObject(f: Flags, s: string, st: State, n: nat, i: nat, log: seq<Event>)
    requires i <= |s| && InObject(st) && (st.ObjectInitialState? ==> n == 0)
    requires var p := Predict(st, Tokenize(Peek(s, i)));
             p.ErrorState? || (p.ObjectFinishState? && !MayClose(f, st, Peek(s, i)))
    ensures Innermost(f, s, st, n, i, log).end.Err? && Innermost(f, s, st, n, i, log).log == log
  {
    hide SkipBlank, ScalarToken, StringRest;
    if st.KeyValueDelimiterState? {
      NoValue(f, s, i, log);
      assert Innermost(f, s, st, n, i, log) == AfterColon(f, s, i, n, log);
    } else if st.ObjectInitialState? || st.MemberDelimiterState? {
      assert Innermost(f, s, st, n, i, log) == Members(f, s, i, n, log);
    }
  }

  /** Without comments skipping cannot fail. */
  lemma SpacesAreGood(f: Flags, s: string, i: nat)
    requires i <= |s| && !f.comments
    ensures SkipBlank(f, s, i).Ok?
  {
  }

  lemma NothingToSkip(f: Flags, s: string, i: nat)
    requires i <= |s| && !IsSpace(Peek(s, i)) && !(f.comments && Peek(s, i) == '/')
    ensures SkipBlank(f, s, i) == Ok(i)
  {
  }

  lemma NothingFollows(t: Token)
    ensures Predict(FinishState, t) == ErrorState
  {
  }

  /** No blank is left where the text ends. */
  lemma BlankAtEnd(f: Flags, s: string, i: nat)
    requires i <= |s| && Peek(s, i) == '\0'
    ensures SkipBlank(f, s, i) == Ok(i)
  {
  }

  lemma EndIsNoValue(f: Flags, s: string, i: nat, log: seq<Event>)
    requires i <= |s| && Peek(s, i) == '\0'
    ensures Value(f, s, i, log).end.Err? && Value(f, s, i, log).log == log
  {
    assert IntegerPart(f, s, i).Err?;
    assert NumberToken(f, s, i).Err?;
  }

  /** At the end of the text only the finished parser accepts. */
  lemma EndRejects(f: Flags, s: string, st: State, stack: seq<Slot>, i: nat, log: seq<Event>)
    requires i <= |s| && Fits(st, stack) && !st.FinishState? && Peek(s, i) == '\0'
    ensures Resume(f, s, st, stack, i, log).end.Err? && Resume(f, s, st, stack, i, log).log == log
  {
    hide SkipBlank, ScalarToken, StringRest;
    EndIsNoValue(f, s, i, log);
    if !st.StartState? {
      var n := Count(stack);
      var r := Innermost(f, s, st, n, i, log);
      assert r.end.Err? && r.log == log by {
        if InArray(st) && !st.ElementState? {
          assert r == Elements(f, s, i, n, log);
        } else if st.KeyValueDelimiterState? {
          assert r == AfterColon(f, s, i, n, log);
        } else if st.ObjectInitialState? || st.MemberDelimiterState? {
          assert r == Members(f, s, i, n, log);
        }
      }
    }
  }
}
