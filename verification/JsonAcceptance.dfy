/** Recursive descent accepts exactly the texts of the grammar, and its handler hears exactly what
    the tree of the text means. */
module JsonAcceptance {
  import opened JsonText
  import opened JsonDescent
  import G = JsonGrammar
  import opened JsonLexing
  import opened JsonNumbers

  // ---- completeness

  /** A character with which a value may start. */
  predicate ValueStart(c: char) { !IsSpace(c) && c != '/' && c != ',' && c != ']' && c != '}' && c != '\0' }

  lemma WordComplete(s: string, i: nat, word: string, event: Event)
    requires Holds(s, i, word) && word != ""
    ensures i < |s| && Peek(s, i) == word[0] && Word(s, i, word, event) == Ok(Lexed(event, i + |word|))
  {
    MatchedHolds(s, i, word);
    HoldsChar(s, i, word, 0);
  }

  lemma NumericComplete(f: Flags, s: string, i: nat, n: G.Number)
    requires G.NumberOk(f, n) && Holds(s, i, G.NumberText(n)) && Stops(Peek(s, i + |G.NumberText(n)|))
    ensures i < |s| && ValueStart(Peek(s, i)) && Peek(s, i) != '[' && Peek(s, i) != '{'
    ensures ScalarToken(f, s, i) == Ok(Lexed(G.NumberEvent(f, n), i + |G.NumberText(n)|))
  {
    hide NumberToken, G.NumberText, G.NumberEvent, Holds, Stops;
    NumberComplete(f, s, i, n);
    hide G.IsDouble, G.Scale, G.Big, Decimal;
    NumberParts(f, s, i, n);
    if !n.minus { WholeFirst(f, s, i, n); }
  }

  lemma WholeFirst(f: Flags, s: string, p: nat, n: G.Number)
    requires G.NumberWellFormed(f, n) && Holds(s, p, G.WholeText(n.whole))
    ensures IsDigit(Peek(s, p)) || Peek(s, p) == 'N' || Peek(s, p) == 'I'
  {
    HoldsChar(s, p, G.WholeText(n.whole), 0);
  }

  lemma LiteralComplete(f: Flags, s: string, i: nat, l: G.Literal, log: seq<Event>)
    requires G.LiteralOk(f, l) && Holds(s, i, G.LiteralText(l)) && Stops(Peek(s, i + |G.LiteralText(l)|))
    ensures i < |s| && ValueStart(Peek(s, i))
    ensures Value(f, s, i, log) == Run(log + [G.LiteralEvent(f, l)], Ok(i + |G.LiteralText(l)|))
  {
    hide NumberToken, G.NumberText, G.NumberOk, G.NumberEvent, StringRest, Holds, Word, Stops;
    match l
    case NullWord => WordComplete(s, i, "null", Null);
    case TrueWord => WordComplete(s, i, "true", Bool(true));
    case FalseWord => WordComplete(s, i, "false", Bool(false));
    case Quoted(ps) => QuotedComplete(f, s, i, ps);
    case Numeric(n) => NumericComplete(f, s, i, n);
  }

  /** What stands behind a value does not prolong it: blanks, or the punctuation behind them. */
  lemma GapsStart(f: Flags, s: string, i: nat, gs: G.Gaps)
    requires G.GapsOk(f, gs, false) && Holds(s, i, G.GapsText(gs))
    requires Stops(Peek(s, i + |G.GapsText(gs)|))
    ensures Stops(Peek(s, i))
  {
    if gs != [] {
      HoldsSplit(s, i, G.GapText(gs[0]), G.GapsText(gs[1..]));
      HoldsChar(s, i, G.GapText(gs[0]), 0);
    }
  }

  lemma AddModulo(n: nat, k: nat)
    ensures (Increment(n) + k) % SIZE_TYPE_RANGE == (n + 1 + k) % SIZE_TYPE_RANGE
  {
  }

  lemma Bracketed(log: seq<Event>, start: Event, body: seq<Event>, end: Event)
    ensures log + [start] + body + [end] == log + ([start] + body + [end])
    ensures log + [start] + [end] == log + ([start] + [] + [end])
  {
  }

  lemma {:induction false} ValueComplete(f: Flags, s: string, i: nat, t: G.Tree, log: seq<Event>)
    requires G.TreeOk(f, t) && Holds(s, i, G.Text(t)) && Stops(Peek(s, i + |G.Text(t)|))
    ensures i < |s| && ValueStart(Peek(s, i))
    ensures Value(f, s, i, log) == Run(log + G.Events(f, t), Ok(i + |G.Text(t)|))
    decreases t, 1
  {
    hide Holds, Stops, ScalarToken, SkipBlank, G.LiteralText, G.LiteralEvent, G.LiteralOk, G.GapsOk, G.GapsText;
    match t
    case Scalar(l) => LiteralComplete(f, s, i, l, log);
    case Array(lead, es) => ArrayComplete(f, s, i, lead, es, log);
    case Object(lead, ms) => ObjectComplete(f, s, i, lead, ms, log);
  }

  lemma {:induction false} ArrayComplete(f: Flags, s: string, i: nat, lead: G.Gaps, es: G.Elems, log: seq<Event>)
    requires G.TreeOk(f, G.Array(lead, es)) && Holds(s, i, G.Text(G.Array(lead, es)))
    ensures i < |s| && Peek(s, i) == '['
    ensures Array(f, s, i, log) ==
            Run(log + G.Events(f, G.Array(lead, es)), Ok(i + |G.Text(G.Array(lead, es))|))
    decreases es, 7
  {
    hide Stops, SkipBlank, G.GapsOk, G.GapsText, G.ElemsOk, G.ElemsText, G.ElemsEvents, Holds, AfterOpenBracket,
         ValueStart;
    HoldsSplit(s, i, "[", G.GapsText(lead) + G.ElemsText(es));
    HoldsChar(s, i, "[", 0);
    HoldsSplit(s, i + 1, G.GapsText(lead), G.ElemsText(es));
    var j := i + 1 + |G.GapsText(lead)|;
    OpenBracketComplete(f, s, j, es, log + [StartArray]);
    GapsComplete(f, s, i + 1, lead, false);
    Bracketed(log, StartArray, G.ElemsEvents(f, es), EndArray(G.ElemCount(es) % SIZE_TYPE_RANGE));
  }

  lemma {:induction false} OpenBracketComplete(f: Flags, s: string, j: nat, es: G.Elems, log: seq<Event>)
    requires G.ElemsOk(f, es) && Holds(s, j, G.ElemsText(es))
    ensures j < |s| && NoBlank(f, Peek(s, j))
    ensures AfterOpenBracket(f, s, j, log) ==
            Run(log + G.ElemsEvents(f, es) + [EndArray(G.ElemCount(es) % SIZE_TYPE_RANGE)], Ok(j + |G.ElemsText(es)|))
    decreases es, 6
  {
    hide Stops, ScalarToken, SkipBlank, G.GapsOk, G.GapsText, Value, Holds;
    if es.NoElem? {
      HoldsChar(s, j, "]", 0);
      assert log + [] == log;
    } else {
      ElemsComplete(f, s, j, es, 0, log);
    }
  }

  lemma {:induction false} ElemsComplete(f: Flags, s: string, i: nat, es: G.Elems, n: nat, log: seq<Event>)
    requires G.ElemsOk(f, es) && es.Elem? && Holds(s, i, G.ElemsText(es))
    ensures i < |s| && ValueStart(Peek(s, i))
    ensures Elements(f, s, i, n, log) ==
            Run(log + G.ElemsEvents(f, es) + [EndArray((n + G.ElemCount(es)) % SIZE_TYPE_RANGE)],
                Ok(i + |G.ElemsText(es)|))
    decreases es, 3
  {
    hide ScalarToken, SkipBlank, G.GapsOk, G.GapsText, Value, Holds, Stops, ValueStart, G.Text;
    HoldsSplit(s, i, G.Text(es.v), G.GapsText(es.after) + G.ElemTail(es));
    var j := i + |G.Text(es.v)|;
    HoldsSplit(s, j, G.GapsText(es.after), G.ElemTail(es));
    var k := j + |G.GapsText(es.after)|;
    ElemTailStart(f, s, k, es);
    GapsStart(f, s, j, es.after);
    ValueComplete(f, s, i, es.v, log);
    GapsComplete(f, s, j, es.after, false);
    AfterElemComplete(f, s, k, es, n, log + G.Events(f, es.v));
    ConcatAssociative(log, G.Events(f, es.v), G.ElemsEvents(f, es.rest));
  }

  /** The same from behind the first element and its blanks. */
  lemma {:induction false} AfterElemComplete(f: Flags, s: string, i: nat, es: G.Elems, n: nat, log: seq<Event>)
    requires G.ElemsOk(f, es) && es.Elem?
    requires Holds(s, i, G.ElemTail(es))
    ensures i < |s|
    ensures AfterElement(f, s, i, n, log) ==
            Run(log + G.ElemsEvents(f, es.rest) + [EndArray((n + G.ElemCount(es)) % SIZE_TYPE_RANGE)],
                Ok(i + |G.ElemTail(es)|))
    decreases es, 2
  {
    hide ScalarToken, SkipBlank, G.GapsOk, G.GapsText, Value, Holds, G.Events;
    if !es.more {
      HoldsChar(s, i, "]", 0);
      assert log + [] == log;
    } else {
      HoldsSplit(s, i, ",", G.GapsText(es.gap) + G.ElemsText(es.rest));
      HoldsChar(s, i, ",", 0);
      HoldsSplit(s, i + 1, G.GapsText(es.gap), G.ElemsText(es.rest));
      var j := i + 1 + |G.GapsText(es.gap)|;
      if es.rest.NoElem? {
        HoldsChar(s, j, "]", 0);
        GapsComplete(f, s, i + 1, es.gap, false);
        assert log + [] == log;
      } else {
        ElemsComplete(f, s, j, es.rest, Increment(n), log);
        GapsComplete(f, s, i + 1, es.gap, false);
        AddModulo(n, G.ElemCount(es.rest));
      }
    }
  }

  lemma {:induction false} ObjectComplete(f: Flags, s: string, i: nat, lead: G.Gaps, ms: G.Membs, log: seq<Event>)
    requires G.TreeOk(f, G.Object(lead, ms)) && Holds(s, i, G.Text(G.Object(lead, ms)))
    ensures i < |s| && Peek(s, i) == '{'
    ensures Object(f, s, i, log) ==
            Run(log + G.Events(f, G.Object(lead, ms)), Ok(i + |G.Text(G.Object(lead, ms))|))
    decreases ms, 7
  {
    hide Stops, SkipBlank, G.GapsOk, G.GapsText, G.MembsOk, G.MembsText, G.MembsEvents, Holds, AfterOpenBrace,
         ValueStart;
    HoldsSplit(s, i, "{", G.GapsText(lead) + G.MembsText(ms));
    HoldsChar(s, i, "{", 0);
    HoldsSplit(s, i + 1, G.GapsText(lead), G.MembsText(ms));
    var j := i + 1 + |G.GapsText(lead)|;
    OpenBraceComplete(f, s, j, ms, log + [StartObject]);
    GapsComplete(f, s, i + 1, lead, false);
    Bracketed(log, StartObject, G.MembsEvents(f, ms), EndObject(G.MembCount(ms) % SIZE_TYPE_RANGE));
  }

  lemma {:induction false} OpenBraceComplete(f: Flags, s: string, j: nat, ms: G.Membs, log: seq<Event>)
    requires G.MembsOk(f, ms) && Holds(s, j, G.MembsText(ms))
    ensures j < |s| && NoBlank(f, Peek(s, j))
    ensures AfterOpenBrace(f, s, j, log) ==
            Run(log + G.MembsEvents(f, ms) + [EndObject(G.MembCount(ms) % SIZE_TYPE_RANGE)], Ok(j + |G.MembsText(ms)|))
    decreases ms, 6
  {
    hide Stops, ScalarToken, SkipBlank, G.GapsOk, G.GapsText, Value, Holds;
    if ms.NoMemb? {
      HoldsChar(s, j, "}", 0);
      assert log + [] == log;
    } else {
      MembsComplete(f, s, j, ms, 0, log);
    }
  }

  lemma {:induction false} MembsComplete(f: Flags, s: string, i: nat, ms: G.Membs, n: nat, log: seq<Event>)
    requires G.MembsOk(f, ms) && ms.Memb? && Holds(s, i, G.MembsText(ms))
    ensures i < |s| && Peek(s, i) == '"'
    ensures Members(f, s, i, n, log) ==
            Run(log + G.MembsEvents(f, ms) + [EndObject((n + G.MembCount(ms)) % SIZE_TYPE_RANGE)],
                Ok(i + |G.MembsText(ms)|))
    decreases ms, 5
  {
    hide ScalarToken, SkipBlank, G.GapsOk, G.GapsText, G.PiecesOk, G.PiecesUnits, Value, StringRest, Stops;
    var t3 := G.Text(ms.v) + (G.GapsText(ms.after) + G.MembTail(ms));
    var t2 := ":" + (G.GapsText(ms.afterColon) + t3);
    HoldsSplit(s, i, G.QuotedText(ms.name), G.GapsText(ms.beforeColon) + t2);
    var j := i + |G.QuotedText(ms.name)|;
    HoldsSplit(s, j, G.GapsText(ms.beforeColon), t2);
    var k := j + |G.GapsText(ms.beforeColon)|;
    HoldsChar(s, k, t2, 0);
    hide Holds;
    QuotedComplete(f, s, i, ms.name);
    GapsComplete(f, s, j, ms.beforeColon, false);
    var key := [Key(G.PiecesUnits(f, ms.name))];
    AfterKeyComplete(f, s, k, ms, n, log + key);
    ConcatAssociative(log, key, G.Events(f, ms.v));
    ConcatAssociative(log, key + G.Events(f, ms.v), G.MembsEvents(f, ms.rest));
  }

  lemma {:induction false} AfterKeyComplete(f: Flags, s: string, i: nat, ms: G.Membs, n: nat, log: seq<Event>)
    requires G.MembsOk(f, ms) && ms.Memb?
    requires Holds(s, i, ":" + (G.GapsText(ms.afterColon) + (G.Text(ms.v) + (G.GapsText(ms.after) + G.MembTail(ms)))))
    ensures i < |s|
    ensures AfterKey(f, s, i, n, log) ==
            Run(log + G.Events(f, ms.v) + G.MembsEvents(f, ms.rest)
                  + [EndObject((n + G.MembCount(ms)) % SIZE_TYPE_RANGE)],
                Ok(i + 1 + |G.GapsText(ms.afterColon)| + |G.Text(ms.v)| + |G.GapsText(ms.after)| + |G.MembTail(ms)|))
    decreases ms, 4
  {
    hide ScalarToken, SkipBlank, G.GapsOk, G.GapsText, G.PiecesOk, G.PiecesUnits, Value, Stops, Holds, G.Text, G.Events;
    var t3 := G.Text(ms.v) + (G.GapsText(ms.after) + G.MembTail(ms));
    HoldsSplit(s, i, ":", G.GapsText(ms.afterColon) + t3);
    HoldsChar(s, i, ":", 0);
    HoldsSplit(s, i + 1, G.GapsText(ms.afterColon), t3);
    hide G.MembTail;
    AfterColonComplete(f, s, i + 1 + |G.GapsText(ms.afterColon)|, ms, n, log);
    GapsComplete(f, s, i + 1, ms.afterColon, false);
  }

  lemma {:induction false} AfterColonComplete(f: Flags, s: string, i: nat, ms: G.Membs, n: nat, log: seq<Event>)
    requires G.MembsOk(f, ms) && ms.Memb?
    requires Holds(s, i, G.Text(ms.v) + (G.GapsText(ms.after) + G.MembTail(ms)))
    ensures i < |s| && ValueStart(Peek(s, i))
    ensures AfterColon(f, s, i, n, log) ==
            Run(log + G.Events(f, ms.v) + G.MembsEvents(f, ms.rest)
                  + [EndObject((n + G.MembCount(ms)) % SIZE_TYPE_RANGE)],
                Ok(i + |G.Text(ms.v)| + |G.GapsText(ms.after)| + |G.MembTail(ms)|))
    decreases ms, 3
  {
    hide ScalarToken, SkipBlank, G.GapsOk, G.GapsText, G.PiecesOk, G.PiecesUnits, Value, Holds, Stops, ValueStart,
         G.Text;
    HoldsSplit(s, i, G.Text(ms.v), G.GapsText(ms.after) + G.MembTail(ms));
    var j := i + |G.Text(ms.v)|;
    HoldsSplit(s, j, G.GapsText(ms.after), G.MembTail(ms));
    var k := j + |G.GapsText(ms.after)|;
    MembTailStart(f, s, k, ms);
    GapsStart(f, s, j, ms.after);
    ValueComplete(f, s, i, ms.v, log);
    GapsComplete(f, s, j, ms.after, false);
    AfterMembComplete(f, s, k, ms, n, log + G.Events(f, ms.v));
  }

  lemma MembTailStart(f: Flags, s: string, k: nat, ms: G.Membs)
    requires ms.Memb? && Holds(s, k, G.MembTail(ms))
    ensures k < |s| && Stops(Peek(s, k)) && NoBlank(f, Peek(s, k))
  {
    HoldsChar(s, k, G.MembTail(ms), 0);
  }

  lemma ElemTailStart(f: Flags, s: string, k: nat, es: G.Elems)
    requires es.Elem? && Holds(s, k, G.ElemTail(es))
    ensures k < |s| && Stops(Peek(s, k)) && NoBlank(f, Peek(s, k))
  {
    HoldsChar(s, k, G.ElemTail(es), 0);
  }

  lemma {:induction false} AfterMembComplete(f: Flags, s: string, i: nat, ms: G.Membs, n: nat, log: seq<Event>)
    requires G.MembsOk(f, ms) && ms.Memb?
    requires Holds(s, i, G.MembTail(ms))
    ensures i < |s|
    ensures AfterMember(f, s, i, n, log) ==
            Run(log + G.MembsEvents(f, ms.rest) + [EndObject((n + G.MembCount(ms)) % SIZE_TYPE_RANGE)],
                Ok(i + |G.MembTail(ms)|))
    decreases ms, 2
  {
    hide ScalarToken, SkipBlank, G.GapsOk, G.GapsText, G.PiecesOk, G.PiecesUnits, Value, Holds, StringRest,
         G.Events, G.QuotedText;
    if !ms.more {
      HoldsChar(s, i, "}", 0);
      assert log + [] == log;
    } else {
      HoldsSplit(s, i, ",", G.GapsText(ms.gap) + G.MembsText(ms.rest));
      HoldsChar(s, i, ",", 0);
      HoldsSplit(s, i + 1, G.GapsText(ms.gap), G.MembsText(ms.rest));
      var j := i + 1 + |G.GapsText(ms.gap)|;
      if ms.rest.NoMemb? {
        HoldsChar(s, j, "}", 0);
        GapsComplete(f, s, i + 1, ms.gap, false);
        assert log + [] == log;
      } else {
        MembsComplete(f, s, j, ms.rest, Increment(n), log);
        GapsComplete(f, s, i + 1, ms.gap, false);
        AddModulo(n, G.MembCount(ms.rest));
      }
    }
  }

  // ---- soundness

  lemma WordSound(s: string, i: nat, word: string, event: Event)
    requires word != "" && '\0' !in word && Word(s, i, word, event).Ok?
    ensures Holds(s, i, word) && Word(s, i, word, event) == Ok(Lexed(event, i + |word|))
  {
    MatchedHolds(s, i, word);
  }

  lemma LiteralSound(f: Flags, s: string, i: nat) returns (l: G.Literal)
    requires i <= |s| && ScalarToken(f, s, i).Ok?
    ensures G.LiteralOk(f, l) && Holds(s, i, G.LiteralText(l))
    ensures ScalarToken(f, s, i) == Ok(Lexed(G.LiteralEvent(f, l), i + |G.LiteralText(l)|))
  {
    hide NumberToken, G.NumberText, G.NumberOk, G.NumberEvent, StringRest, Holds, Word;
    match Peek(s, i)
    case 'n' => l := G.NullWord; WordSound(s, i, "null", Null);
    case 't' => l := G.TrueWord; WordSound(s, i, "true", Bool(true));
    case 'f' => l := G.FalseWord; WordSound(s, i, "false", Bool(false));
    case '"' =>
      var ps := QuotedSound(f, s, i);
      l := G.Quoted(ps);
    case _ =>
      var n := NumberSound(f, s, i);
      l := G.Numeric(n);
  }

  lemma {:induction false} ValueSound(f: Flags, s: string, i: nat, log: seq<Event>) returns (t: G.Tree)
    requires i <= |s| && Value(f, s, i, log).end.Ok?
    ensures G.TreeOk(f, t) && Holds(s, i, G.Text(t))
    ensures Value(f, s, i, log) == Run(log + G.Events(f, t), Ok(i + |G.Text(t)|))
    decreases |s| - i, 2
  {
    hide ScalarToken, SkipBlank, Holds, G.GapsOk, G.GapsText, G.LiteralOk, G.LiteralText, G.LiteralEvent;
    if Peek(s, i) == '[' {
      t := ArraySound(f, s, i, log);
    } else if Peek(s, i) == '{' {
      t := ObjectSound(f, s, i, log);
    } else {
      var l := LiteralSound(f, s, i);
      t := G.Scalar(l);
    }
  }

  lemma {:induction false} ArraySound(f: Flags, s: string, i: nat, log: seq<Event>) returns (t: G.Tree)
    requires i < |s| && s[i] == '[' && Array(f, s, i, log).end.Ok?
    ensures G.TreeOk(f, t) && Holds(s, i, G.Text(t))
    ensures Array(f, s, i, log) == Run(log + G.Events(f, t), Ok(i + |G.Text(t)|))
    decreases |s| - i, 1
  {
    hide AfterOpenBracket, SkipBlank, G.GapsOk, G.GapsText, G.ElemsOk, G.ElemsText, G.ElemsEvents, Holds;
    HoldsOne(s, i, '[');
    var j := SkipBlank(f, s, i + 1).value;
    var lead := GapsSound(f, s, i + 1);
    var es := OpenBracketSound(f, s, j, log + [StartArray]);
    Bracketed(log, StartArray, G.ElemsEvents(f, es), EndArray(G.ElemCount(es) % SIZE_TYPE_RANGE));
    HoldsSplit(s, i + 1, G.GapsText(lead), G.ElemsText(es));
    HoldsSplit(s, i, "[", G.GapsText(lead) + G.ElemsText(es));
    t := G.Array(lead, es);
  }

  lemma {:induction false} OpenBracketSound(f: Flags, s: string, j: nat, log: seq<Event>) returns (es: G.Elems)
    requires j <= |s| && AfterOpenBracket(f, s, j, log).end.Ok?
    ensures G.ElemsOk(f, es) && Holds(s, j, G.ElemsText(es)) && Peek(s, j) != '\0'
    ensures AfterOpenBracket(f, s, j, log) ==
            Run(log + G.ElemsEvents(f, es) + [EndArray(G.ElemCount(es) % SIZE_TYPE_RANGE)], Ok(j + |G.ElemsText(es)|))
    decreases |s| - j, 7
  {
    hide ScalarToken, SkipBlank, Value, Holds;
    if Peek(s, j) == ']' {
      HoldsOne(s, j, ']');
      assert log + [] == log;
      return G.NoElem;
    }
    es := ElemsSound(f, s, j, 0, log);
    if Peek(s, j) == '\0' { NotAtEnd(f, s, j, log); }
  }

  lemma {:induction false} ElemsSound(f: Flags, s: string, i: nat, n: nat, log: seq<Event>) returns (es: G.Elems)
    requires i <= |s| && Elements(f, s, i, n, log).end.Ok?
    ensures i < |s| && es.Elem? && G.ElemsOk(f, es) && Holds(s, i, G.ElemsText(es))
    ensures Elements(f, s, i, n, log) ==
            Run(log + G.ElemsEvents(f, es) + [EndArray((n + G.ElemCount(es)) % SIZE_TYPE_RANGE)],
                Ok(i + |G.ElemsText(es)|))
    decreases |s| - i, 3
  {
    hide ScalarToken, SkipBlank, Holds, G.GapsOk, G.GapsText;
    var v := ValueSound(f, s, i, log);
    hide Value;
    var j := i + |G.Text(v)|;
    var after := GapsSound(f, s, j);
    var k := j + |G.GapsText(after)|;
    es := AfterElemSound(f, s, k, n, log + G.Events(f, v), v, after);
    HoldsSplit(s, j, G.GapsText(after), G.ElemTail(es));
    HoldsSplit(s, i, G.Text(v), G.GapsText(after) + G.ElemTail(es));
    ConcatAssociative(log, G.Events(f, v), G.ElemsEvents(f, es.rest));
  }

  lemma {:induction false} AfterElemSound(
    f: Flags, s: string, i: nat, n: nat, log: seq<Event>, v: G.Tree, after: G.Gaps) returns (es: G.Elems)
    requires i <= |s| && AfterElement(f, s, i, n, log).end.Ok?
    requires G.TreeOk(f, v) && G.GapsOk(f, after, Peek(s, i) == '\0')
    ensures es.Elem? && es.v == v && es.after == after && G.ElemsOk(f, es) && Holds(s, i, G.ElemTail(es))
    ensures AfterElement(f, s, i, n, log) ==
            Run(log + G.ElemsEvents(f, es.rest) + [EndArray((n + G.ElemCount(es)) % SIZE_TYPE_RANGE)],
                Ok(i + |G.ElemTail(es)|))
    decreases |s| - i, 2
  {
    hide ScalarToken, SkipBlank, Value, G.GapsOk, G.GapsText, Holds;
    if Peek(s, i) == ']' {
      es := G.Elem(v, after, false, [], G.NoElem);
      HoldsOne(s, i, ']');
      assert log + [] == log;
    } else {
      HoldsOne(s, i, ',');
      var gap := GapsSound(f, s, i + 1);
      var j := i + 1 + |G.GapsText(gap)|;
      var rest := G.NoElem;
      if Peek(s, j) == ']' && f.trailingCommas {
        HoldsOne(s, j, ']');
        assert log + [] == log;
      } else {
        rest := ElemsSound(f, s, j, Increment(n), log);
        if Peek(s, j) == '\0' { NotAtEnd(f, s, j, log); }
        AddModulo(n, G.ElemCount(rest));
      }
      es := G.Elem(v, after, true, gap, rest);
      HoldsSplit(s, i + 1, G.GapsText(gap), G.ElemsText(rest));
      HoldsSplit(s, i, ",", G.GapsText(gap) + G.ElemsText(rest));
    }
  }

  lemma {:induction false} ObjectSound(f: Flags, s: string, i: nat, log: seq<Event>) returns (t: G.Tree)
    requires i < |s| && s[i] == '{' && Object(f, s, i, log).end.Ok?
    ensures G.TreeOk(f, t) && Holds(s, i, G.Text(t))
    ensures Object(f, s, i, log) == Run(log + G.Events(f, t), Ok(i + |G.Text(t)|))
    decreases |s| - i, 1
  {
    hide AfterOpenBrace, SkipBlank, G.GapsOk, G.GapsText, G.MembsOk, G.MembsText, G.MembsEvents, Holds;
    HoldsOne(s, i, '{');
    var j := SkipBlank(f, s, i + 1).value;
    var lead := GapsSound(f, s, i + 1);
    var ms := OpenBraceSound(f, s, j, log + [StartObject]);
    Bracketed(log, StartObject, G.MembsEvents(f, ms), EndObject(G.MembCount(ms) % SIZE_TYPE_RANGE));
    HoldsSplit(s, i + 1, G.GapsText(lead), G.MembsText(ms));
    HoldsSplit(s, i, "{", G.GapsText(lead) + G.MembsText(ms));
    t := G.Object(lead, ms);
  }

  lemma {:induction false} OpenBraceSound(f: Flags, s: string, j: nat, log: seq<Event>) returns (ms: G.Membs)
    requires j <= |s| && AfterOpenBrace(f, s, j, log).end.Ok?
    ensures G.MembsOk(f, ms) && Holds(s, j, G.MembsText(ms)) && Peek(s, j) != '\0'
    ensures AfterOpenBrace(f, s, j, log) ==
            Run(log + G.MembsEvents(f, ms) + [EndObject(G.MembCount(ms) % SIZE_TYPE_RANGE)], Ok(j + |G.MembsText(ms)|))
    decreases |s| - j, 7
  {
    hide ScalarToken, SkipBlank, Value, Holds, StringRest;
    if Peek(s, j) == '}' {
      HoldsOne(s, j, '}');
      assert log + [] == log;
      return G.NoMemb;
    }
    ms := MembsSound(f, s, j, 0, log);
  }

  lemma {:induction false} MembsSound(f: Flags, s: string, i: nat, n: nat, log: seq<Event>) returns (ms: G.Membs)
    requires i <= |s| && Members(f, s, i, n, log).end.Ok?
    ensures i < |s| && ms.Memb? && G.MembsOk(f, ms) && Holds(s, i, G.MembsText(ms))
    ensures Members(f, s, i, n, log) ==
            Run(log + G.MembsEvents(f, ms) + [EndObject((n + G.MembCount(ms)) % SIZE_TYPE_RANGE)],
                Ok(i + |G.MembsText(ms)|))
    decreases |s| - i, 6
  {
    hide ScalarToken, SkipBlank, Holds, G.GapsOk, G.GapsText, Value, StringRest, G.PiecesOk, G.PiecesUnits,
         G.QuotedText;
    var name := QuotedSound(f, s, i);
    var j := i + |G.QuotedText(name)|;
    var gap := GapsSound(f, s, j);
    var k := j + |G.GapsText(gap)|;
    var key := [Key(G.PiecesUnits(f, name))];
    ms := AfterKeySound(f, s, k, n, log + key, name, gap);
    var rest := G.GapsText(ms.afterColon) + (G.Text(ms.v) + (G.GapsText(ms.after) + G.MembTail(ms)));
    HoldsSplit(s, j, G.GapsText(gap), ":" + rest);
    HoldsSplit(s, i, G.QuotedText(name), G.GapsText(gap) + (":" + rest));
    ConcatAssociative(log, key, G.Events(f, ms.v));
    ConcatAssociative(log, key + G.Events(f, ms.v), G.MembsEvents(f, ms.rest));
  }

  lemma {:induction false} AfterKeySound(
    f: Flags, s: string, i: nat, n: nat, log: seq<Event>, name: seq<G.Piece>, gap: G.Gaps) returns (ms: G.Membs)
    requires i <= |s| && AfterKey(f, s, i, n, log).end.Ok?
    requires G.PiecesOk(f, name) && G.GapsOk(f, gap, Peek(s, i) == '\0')
    ensures ms.Memb? && ms.name == name && ms.beforeColon == gap && G.MembsOk(f, ms)
    ensures Holds(s, i, ":" + (G.GapsText(ms.afterColon) + (G.Text(ms.v) + (G.GapsText(ms.after) + G.MembTail(ms)))))
    ensures AfterKey(f, s, i, n, log) ==
            Run(log + G.Events(f, ms.v) + G.MembsEvents(f, ms.rest)
                  + [EndObject((n + G.MembCount(ms)) % SIZE_TYPE_RANGE)],
                Ok(i + 1 + |G.GapsText(ms.afterColon)| + |G.Text(ms.v)| + |G.GapsText(ms.after)| + |G.MembTail(ms)|))
    decreases |s| - i, 5
  {
    hide ScalarToken, SkipBlank, Holds, G.GapsOk, G.GapsText, Value, G.PiecesOk, G.PiecesUnits;
    HoldsOne(s, i, ':');
    var gap2 := GapsSound(f, s, i + 1);
    var j := i + 1 + |G.GapsText(gap2)|;
    ms := AfterColonSound(f, s, j, n, log, name, gap, gap2);
    HoldsSplit(s, i + 1, G.GapsText(gap2), G.Text(ms.v) + (G.GapsText(ms.after) + G.MembTail(ms)));
    HoldsSplit(s, i, ":", G.GapsText(gap2) + (G.Text(ms.v) + (G.GapsText(ms.after) + G.MembTail(ms))));
  }

  lemma {:induction false} AfterColonSound(
    f: Flags, s: string, i: nat, n: nat, log: seq<Event>, name: seq<G.Piece>, gap: G.Gaps, gap2: G.Gaps)
    returns (ms: G.Membs)
    requires i <= |s| && AfterColon(f, s, i, n, log).end.Ok?
    requires G.PiecesOk(f, name) && G.GapsOk(f, gap, false) && G.GapsOk(f, gap2, Peek(s, i) == '\0')
    ensures ms.Memb? && ms.name == name && ms.beforeColon == gap && ms.afterColon == gap2 && G.MembsOk(f, ms)
    ensures Holds(s, i, G.Text(ms.v) + (G.GapsText(ms.after) + G.MembTail(ms)))
    ensures AfterColon(f, s, i, n, log) ==
            Run(log + G.Events(f, ms.v) + G.MembsEvents(f, ms.rest)
                  + [EndObject((n + G.MembCount(ms)) % SIZE_TYPE_RANGE)],
                Ok(i + |G.Text(ms.v)| + |G.GapsText(ms.after)| + |G.MembTail(ms)|))
    decreases |s| - i, 4
  {
    hide ScalarToken, SkipBlank, Holds, G.GapsOk, G.GapsText, G.PiecesOk, G.PiecesUnits;
    var v := ValueSound(f, s, i, log);
    if Peek(s, i) == '\0' { NotAtEnd(f, s, i, log); }
    hide Value;
    var j := i + |G.Text(v)|;
    var after := GapsSound(f, s, j);
    var k := j + |G.GapsText(after)|;
    ms := AfterMembSound(f, s, k, n, log + G.Events(f, v), G.Memb(name, gap, gap2, v, after, false, [], G.NoMemb));
    HoldsSplit(s, j, G.GapsText(after), G.MembTail(ms));
    HoldsSplit(s, i, G.Text(v), G.GapsText(after) + G.MembTail(ms));
  }

  /** The member `one` is completed with what follows it. */
  lemma {:induction false} AfterMembSound(f: Flags, s: string, i: nat, n: nat, log: seq<Event>, one: G.Membs)
    returns (ms: G.Membs)
    requires i <= |s| && AfterMember(f, s, i, n, log).end.Ok?
    requires one.Memb? && !one.more && one.gap == [] && one.rest.NoMemb?
    requires G.PiecesOk(f, one.name) && G.GapsOk(f, one.beforeColon, false) && G.GapsOk(f, one.afterColon, false)
    requires G.TreeOk(f, one.v) && G.GapsOk(f, one.after, Peek(s, i) == '\0')
    ensures ms.Memb? && G.MembsOk(f, ms) && ms.(more := false, gap := [], rest := G.NoMemb) == one
    ensures Holds(s, i, G.MembTail(ms))
    ensures AfterMember(f, s, i, n, log) ==
            Run(log + G.MembsEvents(f, ms.rest) + [EndObject((n + G.MembCount(ms)) % SIZE_TYPE_RANGE)],
                Ok(i + |G.MembTail(ms)|))
    decreases |s| - i, 3
  {
    hide ScalarToken, SkipBlank, Value, G.GapsOk, G.GapsText, G.PiecesOk, G.PiecesUnits, Holds;
    if Peek(s, i) == '}' {
      ms := one;
      HoldsOne(s, i, '}');
      assert log + [] == log;
    } else {
      HoldsOne(s, i, ',');
      var gap := GapsSound(f, s, i + 1);
      var j := i + 1 + |G.GapsText(gap)|;
      var rest := G.NoMemb;
      if Peek(s, j) == '}' && f.trailingCommas {
        HoldsOne(s, j, '}');
        assert log + [] == log;
      } else {
        rest := MembsSound(f, s, j, Increment(n), log);
        AddModulo(n, G.MembCount(rest));
      }
      ms := one.(more := true, gap := gap, rest := rest);
      HoldsSplit(s, i + 1, G.GapsText(gap), G.MembsText(rest));
      HoldsSplit(s, i, ",", G.GapsText(gap) + G.MembsText(rest));
    }
  }

  lemma NotAtEnd(f: Flags, s: string, i: nat, log: seq<Event>)
    requires i <= |s| && Peek(s, i) == '\0'
    ensures Value(f, s, i, log).end.Err?
  {
    assert IntegerPart(f, s, i).Err?;
    assert NumberToken(f, s, i).Err?;
  }

  lemma HoldsOne(s: string, i: nat, c: char)
    requires Peek(s, i) == c && c != '\0'
    ensures Holds(s, i, [c])
  {
  }

  // ---- whole texts

  /** A text in the grammar is accepted, and the handler hears its tree. */
  lemma DocumentComplete(f: Flags, s: string, d: G.Doc)
    requires G.DocOk(f, d) && Holds(s, 0, G.DocText(d)) && Peek(s, |G.DocText(d)|) == '\0'
    ensures Document(f, s, 0, []).log == G.Events(f, d.root)
    ensures Document(f, s, 0, []).end ==
            Ok(if f.stopWhenDone then |G.GapsText(d.lead)| + |G.Text(d.root)| else |G.DocText(d)|)
  {
    hide ScalarToken, SkipBlank, G.GapsOk, G.GapsText, Value, Holds, ValueStart, G.Text, G.Events;
    HoldsSplit(s, 0, G.GapsText(d.lead), G.Text(d.root) + G.GapsText(d.trail));
    var i := |G.GapsText(d.lead)|;
    HoldsSplit(s, i, G.Text(d.root), G.GapsText(d.trail));
    var j := i + |G.Text(d.root)|;
    TrailStart(f, s, j, d.trail);
    ValueComplete(f, s, i, d.root, []);
    ValueStartIsNoBlank(f, s, i);
    GapsComplete(f, s, 0, d.lead, false);
    GapsComplete(f, s, j, d.trail, true);
    assert [] + G.Events(f, d.root) == G.Events(f, d.root);
  }

  lemma TrailStart(f: Flags, s: string, i: nat, gs: G.Gaps)
    requires G.GapsOk(f, gs, true) && Holds(s, i, G.GapsText(gs)) && Peek(s, i + |G.GapsText(gs)|) == '\0'
    ensures Stops(Peek(s, i))
  {
    if gs != [] {
      HoldsSplit(s, i, G.GapText(gs[0]), G.GapsText(gs[1..]));
      HoldsChar(s, i, G.GapText(gs[0]), 0);
    }
  }

  lemma ValueStartIsNoBlank(f: Flags, s: string, i: nat)
    requires ValueStart(Peek(s, i))
    ensures NoBlank(f, Peek(s, i)) && Peek(s, i) != '\0'
  {
  }

  /** An accepted text is in the grammar, up to where the reader stopped. */
  lemma DocumentSound(f: Flags, s: string) returns (d: G.Doc)
    requires Document(f, s, 0, []).end.Ok?
    ensures G.DocOk(f, d) && Holds(s, 0, G.DocText(d))
    ensures Document(f, s, 0, []) == Run(G.Events(f, d.root), Ok(|G.DocText(d)|))
    ensures if f.stopWhenDone then d.trail == [] else Peek(s, |G.DocText(d)|) == '\0'
  {
    hide ScalarToken, SkipBlank, G.GapsText, Value, Holds, G.Text, G.Events;
    var lead := GapsSound(f, s, 0);
    var i := |G.GapsText(lead)|;
    var root := ValueSound(f, s, i, []);
    var j := i + |G.Text(root)|;
    assert [] + G.Events(f, root) == G.Events(f, root);
    var trail := [];
    if !f.stopWhenDone { trail := GapsSound(f, s, j); }
    d := G.Doc(lead, root, trail);
    NothingHolds(s, j);
    HoldsSplit(s, i, G.Text(root), G.GapsText(trail));
    HoldsSplit(s, 0, G.GapsText(lead), G.Text(root) + G.GapsText(trail));
  }

  lemma NothingHolds(s: string, i: nat)
    ensures Holds(s, i, "") && G.GapsText([]) == ""
  {
  }

  /** Without stop-when-done: a text is accepted if and only if the grammar derives it, and every
      derivation tells the handler the same. */
  lemma AcceptedIffDerivable(f: Flags, s: string)
    requires !f.stopWhenDone && '\0' !in s
    ensures Document(f, s, 0, []).end.Ok? <==> exists d: G.Doc :: G.DocOk(f, d) && G.DocText(d) == s
    ensures forall d: G.Doc :: G.DocOk(f, d) && G.DocText(d) == s ==>
              Document(f, s, 0, []) == Run(G.Events(f, d.root), Ok(|s|))
  {
    hide Document, Holds, G.DocText, G.Events;
    forall d: G.Doc | G.DocOk(f, d) && G.DocText(d) == s
      ensures Document(f, s, 0, []) == Run(G.Events(f, d.root), Ok(|s|))
    {
      HoldsSlice(s, 0, |s|);
      assert s[0..|s|] == s;
      DocumentComplete(f, s, d);
    }
    if Document(f, s, 0, []).end.Ok? {
      var d := DocumentSound(f, s);
      HoldsText(s, 0, G.DocText(d));
      var k := |G.DocText(d)|;
      assert Peek(s, k) == '\0';
      assert k == |s|;
      assert s[0..k] == s;
    }
  }
}
