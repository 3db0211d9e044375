/** Recursive descent as a function: what a parse starting at a position adds to the handler's
    log and where it ends.  One function per point between two tokens, so that a parser which
    keeps its own stack can be compared with it at every token. */
module JsonDescent {
  import opened JsonText

  /** The handler's log after a parse, and the end position or the error. */
  datatype Run = Run(log: seq<Event>, end: Try<nat>)

  function Value(f: Flags, s: string, i: nat, log: seq<Event>): (r: Run)
    requires i <= |s|
    ensures r.end.Ok? ==> i < r.end.value <= |s|
    decreases |s| - i, 2
  {
    if Peek(s, i) == '{' then Object(f, s, i, log)
    else if Peek(s, i) == '[' then Array(f, s, i, log)
    else Scalar(f, s, i, log)
  }

  function Scalar(f: Flags, s: string, i: nat, log: seq<Event>): (r: Run)
    requires i <= |s|
    ensures r.end.Ok? ==> i < r.end.value <= |s|
  {
    match ScalarToken(f, s, i)
    case Err(e) => Run(log, Err(e))
    case Ok(t) => Run(log + [t.token], Ok(t.end))
  }

  // ---- arrays

  function Array(f: Flags, s: string, i: nat, log: seq<Event>): (r: Run)
    requires i < |s|
    ensures r.end.Ok? ==> i < r.end.value <= |s|
    decreases |s| - i, 1
  {
    match SkipBlank(f, s, i + 1)
    case Err(e) => Run(log + [StartArray], Err(e))
    case Ok(j) => AfterOpenBracket(f, s, j, log + [StartArray])
  }

  function AfterOpenBracket(f: Flags, s: string, i: nat, log: seq<Event>): (r: Run)
    requires i <= |s|
    ensures r.end.Ok? ==> i < r.end.value <= |s|
    decreases |s| - i, 4
  {
    if Peek(s, i) == ']' then Run(log + [EndArray(0)], Ok(i + 1))
    else Elements(f, s, i, 0, log)
  }

  /** At the start of an element; n elements came before it. */
  function Elements(f: Flags, s: string, i: nat, n: nat, log: seq<Event>): (r: Run)
    requires i <= |s|
    ensures r.end.Ok? ==> i < r.end.value <= |s|
    decreases |s| - i, 3
  {
    var v := Value(f, s, i, log);
    match v.end
    case Err(_) => v
    case Ok(j) =>
      match SkipBlank(f, s, j)
      case Err(e) => Run(v.log, Err(e))
      case Ok(k) => AfterElement(f, s, k, n, v.log)
  }

  function AfterElement(f: Flags, s: string, i: nat, n: nat, log: seq<Event>): (r: Run)
    requires i <= |s|
    ensures r.end.Ok? ==> i < r.end.value <= |s|
    decreases |s| - i, 0
  {
    if Peek(s, i) == ',' then
      match SkipBlank(f, s, i + 1)
      case Err(e) => Run(log, Err(e))
      case Ok(j) => AfterElementComma(f, s, j, Increment(n), log)
    else if Peek(s, i) == ']' then Run(log + [EndArray(Increment(n))], Ok(i + 1))
    else Run(log, Err(ParseError(ArrayMissCommaOrSquareBracket, i)))
  }

  function AfterElementComma(f: Flags, s: string, i: nat, n: nat, log: seq<Event>): (r: Run)
    requires i <= |s|
    ensures r.end.Ok? ==> i < r.end.value <= |s|
    decreases |s| - i, 4
  {
    if f.trailingCommas && Peek(s, i) == ']' then Run(log + [EndArray(n)], Ok(i + 1))
    else Elements(f, s, i, n, log)
  }

  // ---- objects

  function Object(f: Flags, s: string, i: nat, log: seq<Event>): (r: Run)
    requires i < |s|
    ensures r.end.Ok? ==> i < r.end.value <= |s|
    decreases |s| - i, 1
  {
    match SkipBlank(f, s, i + 1)
    case Err(e) => Run(log + [StartObject], Err(e))
    case Ok(j) => AfterOpenBrace(f, s, j, log + [StartObject])
  }

  function AfterOpenBrace(f: Flags, s: string, i: nat, log: seq<Event>): (r: Run)
    requires i <= |s|
    ensures r.end.Ok? ==> i < r.end.value <= |s|
    decreases |s| - i, 4
  {
    if Peek(s, i) == '}' then Run(log + [EndObject(0)], Ok(i + 1))
    else Members(f, s, i, 0, log)
  }

  /** At the start of a member; n members came before it. */
  function Members(f: Flags, s: string, i: nat, n: nat, log: seq<Event>): (r: Run)
    requires i <= |s|
    ensures r.end.Ok? ==> i < r.end.value <= |s|
    decreases |s| - i, 3
  {
    if Peek(s, i) != '"' then Run(log, Err(ParseError(ObjectMissName, i)))
    else
      match StringRest(f, s, i + 1, "")
      case Err(e) => Run(log, Err(e))
      case Ok(name) =>
        match SkipBlank(f, s, name.end)
        case Err(e) => Run(log + [Key(name.token)], Err(e))
        case Ok(j) => AfterKey(f, s, j, n, log + [Key(name.token)])
  }

  function AfterKey(f: Flags, s: string, i: nat, n: nat, log: seq<Event>): (r: Run)
    requires i <= |s|
    ensures r.end.Ok? ==> i < r.end.value <= |s|
    decreases |s| - i, 0
  {
    if Peek(s, i) != ':' then Run(log, Err(ParseError(ObjectMissColon, i)))
    else
      match SkipBlank(f, s, i + 1)
      case Err(e) => Run(log, Err(e))
      case Ok(j) => AfterColon(f, s, j, n, log)
  }

  function AfterColon(f: Flags, s: string, i: nat, n: nat, log: seq<Event>): (r: Run)
    requires i <= |s|
    ensures r.end.Ok? ==> i < r.end.value <= |s|
    decreases |s| - i, 3
  {
    var v := Value(f, s, i, log);
    match v.end
    case Err(_) => v
    case Ok(j) =>
      match SkipBlank(f, s, j)
      case Err(e) => Run(v.log, Err(e))
      case Ok(k) => AfterMember(f, s, k, n, v.log)
  }

  function AfterMember(f: Flags, s: string, i: nat, n: nat, log: seq<Event>): (r: Run)
    requires i <= |s|
    ensures r.end.Ok? ==> i < r.end.value <= |s|
    decreases |s| - i, 0
  {
    if Peek(s, i) == ',' then
      match SkipBlank(f, s, i + 1)
      case Err(e) => Run(log, Err(e))
      case Ok(j) => AfterMemberComma(f, s, j, Increment(n), log)
    else if Peek(s, i) == '}' then Run(log + [EndObject(Increment(n))], Ok(i + 1))
    else Run(log, Err(ParseError(ObjectMissCommaOrCurlyBracket, i)))
  }

  function AfterMemberComma(f: Flags, s: string, i: nat, n: nat, log: seq<Event>): (r: Run)
    requires i <= |s|
    ensures r.end.Ok? ==> i < r.end.value <= |s|
    decreases |s| - i, 4
  {
    if f.trailingCommas && Peek(s, i) == '}' then Run(log + [EndObject(n)], Ok(i + 1))
    else Members(f, s, i, n, log)
  }

  // ---- the whole text

  function Document(f: Flags, s: string, i: nat, log: seq<Event>): (r: Run)
    requires i <= |s|
    ensures r.end.Ok? ==> i < r.end.value <= |s|
  {
    Whole(f, s, FirstValue(f, s, i, log))
  }

  /** The parse up to the end of the root value, whatever may follow it. */
  function FirstValue(f: Flags, s: string, i: nat, log: seq<Event>): (r: Run)
    requires i <= |s|
    ensures r.end.Ok? ==> i < r.end.value <= |s|
  {
    match SkipBlank(f, s, i)
    case Err(e) => Run(log, Err(e))
    case Ok(j) => Root(f, s, j, log)
  }

  function Root(f: Flags, s: string, i: nat, log: seq<Event>): (r: Run)
    requires i <= |s|
    ensures r.end.Ok? ==> i < r.end.value <= |s|
  {
    if Peek(s, i) == '\0' then Run(log, Err(ParseError(DocumentEmpty, i)))
    else Value(f, s, i, log)
  }

  /** The whole parse, given how it goes up to the end of the root value. */
  function Whole(f: Flags, s: string, root: Run): (r: Run)
    requires root.end.Ok? ==> root.end.value <= |s|
    ensures r.end.Ok? ==> root.end.Ok? && root.end.value <= r.end.value <= |s|
  {
    match root.end
    case Err(_) => root
    case Ok(j) => AfterRoot(f, s, j, root.log)
  }

  function AfterRoot(f: Flags, s: string, i: nat, log: seq<Event>): (r: Run)
    requires i <= |s|
    ensures r.end.Ok? ==> i <= r.end.value <= |s|
  {
    if f.stopWhenDone then Run(log, Ok(i))
    else
      match SkipBlank(f, s, i)
      case Err(e) => Run(log, Err(e))
      case Ok(j) => AtEnd(s, j, log)
  }

  function AtEnd(s: string, i: nat, log: seq<Event>): Run {
    if Peek(s, i) == '\0' then Run(log, Ok(i))
    else Run(log, Err(ParseError(DocumentRootNotSingular, i)))
  }

  // ---- stop-when-done

  /** The flags differ at most in stop-when-done. */
  ghost predicate Alike(f: Flags, g: Flags) { g == f.(stopWhenDone := g.stopWhenDone) }

  lemma {:induction false} StringAlike(f: Flags, g: Flags, s: string, i: nat, sofar: string)
    requires i <= |s| && Alike(f, g)
    ensures StringRest(f, s, i, sofar) == StringRest(g, s, i, sofar)
    decreases |s| - i
  {
    hide UnicodeEscape, Utf8;
    if Peek(s, i) != '"' && StringStep(f, s, i).Ok? {
      var step := StringStep(f, s, i).value;
      StringAlike(f, g, s, step.end, sofar + step.token);
    }
  }

  lemma ScalarAlike(f: Flags, g: Flags, s: string, i: nat)
    requires i <= |s| && Alike(f, g)
    ensures ScalarToken(f, s, i) == ScalarToken(g, s, i)
  {
    hide StringRest, FractionPart, ExponentPart, Word;
    if Peek(s, i) == '"' { StringAlike(f, g, s, i + 1, ""); }
  }

  lemma {:induction false} ValueAlike(f: Flags, g: Flags, s: string, i: nat, log: seq<Event>)
    requires i <= |s| && Alike(f, g)
    ensures Value(f, s, i, log) == Value(g, s, i, log)
    decreases |s| - i, 0
  {
    hide StringRest, ScalarToken, SkipComments, SkipSpaces;
    ScalarAlike(f, g, s, i);
    if Peek(s, i) == '[' || Peek(s, i) == '{' {
      match SkipBlank(f, s, i + 1) {
        case Err(_) =>
        case Ok(j) =>
          ElementsAlike(f, g, s, j, 0, log + [StartArray]);
          MembersAlike(f, g, s, j, 0, log + [StartObject]);
          assert AfterOpenBracket(f, s, j, log + [StartArray]) == AfterOpenBracket(g, s, j, log + [StartArray]);
          assert AfterOpenBrace(f, s, j, log + [StartObject]) == AfterOpenBrace(g, s, j, log + [StartObject]);
      }
    }
  }

  lemma {:induction false} ElementsAlike(f: Flags, g: Flags, s: string, i: nat, n: nat, log: seq<Event>)
    requires i <= |s| && Alike(f, g)
    ensures Elements(f, s, i, n, log) == Elements(g, s, i, n, log)
    decreases |s| - i, 1
  {
    hide StringRest, ScalarToken, SkipComments, SkipSpaces;
    ValueAlike(f, g, s, i, log);
    var v := Value(f, s, i, log);
    if v.end.Ok? && SkipBlank(f, s, v.end.value).Ok? {
      var k := SkipBlank(f, s, v.end.value).value;
      if Peek(s, k) == ',' && SkipBlank(f, s, k + 1).Ok? {
        var j := SkipBlank(f, s, k + 1).value;
        ElementsAlike(f, g, s, j, Increment(n), v.log);
        assert AfterElementComma(f, s, j, Increment(n), v.log) == AfterElementComma(g, s, j, Increment(n), v.log);
      }
      assert AfterElement(f, s, k, n, v.log) == AfterElement(g, s, k, n, v.log);
    }
  }

  lemma {:induction false} MembersAlike(f: Flags, g: Flags, s: string, i: nat, n: nat, log: seq<Event>)
    requires i <= |s| && Alike(f, g)
    ensures Members(f, s, i, n, log) == Members(g, s, i, n, log)
    decreases |s| - i, 1
  {
    hide StringRest, ScalarToken, SkipComments, SkipSpaces;
    if Peek(s, i) == '"' {
      StringAlike(f, g, s, i + 1, "");
      var name := StringRest(f, s, i + 1, "");
      if name.Ok? && SkipBlank(f, s, name.value.end).Ok? {
        AfterKeyAlike(f, g, s, SkipBlank(f, s, name.value.end).value, n, log + [Key(name.value.token)]);
      }
    }
  }

  lemma {:induction false} AfterKeyAlike(f: Flags, g: Flags, s: string, i: nat, n: nat, log: seq<Event>)
    requires i <= |s| && Alike(f, g)
    ensures AfterKey(f, s, i, n, log) == AfterKey(g, s, i, n, log)
    decreases |s| - i, 0
  {
    hide StringRest, ScalarToken, SkipComments, SkipSpaces;
    if Peek(s, i) == ':' && SkipBlank(f, s, i + 1).Ok? {
      var j := SkipBlank(f, s, i + 1).value;
      ValueAlike(f, g, s, j, log);
      var v := Value(f, s, j, log);
      if v.end.Ok? && SkipBlank(f, s, v.end.value).Ok? {
        var k := SkipBlank(f, s, v.end.value).value;
        if Peek(s, k) == ',' && SkipBlank(f, s, k + 1).Ok? {
          var m := SkipBlank(f, s, k + 1).value;
          MembersAlike(f, g, s, m, Increment(n), v.log);
          assert AfterMemberComma(f, s, m, Increment(n), v.log) == AfterMemberComma(g, s, m, Increment(n), v.log);
        }
        assert AfterMember(f, s, k, n, v.log) == AfterMember(g, s, k, n, v.log);
      }
    }
  }

  /** Stop-when-done changes nothing before the end of the root. */
  lemma FirstValueStops(f: Flags, s: string, i: nat, log: seq<Event>)
    requires i <= |s|
    ensures FirstValue(f, s, i, log) == Document(f.(stopWhenDone := true), s, i, log)
  {
    hide ScalarToken, SkipComments, SkipSpaces, Value;
    if SkipBlank(f, s, i).Ok? {
      ValueAlike(f, f.(stopWhenDone := true), s, SkipBlank(f, s, i).value, log);
    }
  }
}
