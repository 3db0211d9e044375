/** GenericReader: the stream, the handler's log, the error and the two parsers that share them. */
module JsonReader {
  import opened JsonText
  import opened JsonDescent
  import opened JsonStates
  import opened JsonSimulation
  import opened JsonDigits

  /** parseResult_, and the assertion of the code that no error is set over another one. */
  datatype Outcome = NoError | Failed(error: ParseError) | SetTwice

  function After(before: Outcome, e: ParseError): Outcome {
    if before.NoError? then Failed(e) else SetTwice
  }

  type uint32 = n: nat | n <= UINT32_MAX
  type uint64 = n: nat | n <= UINT64_MAX

  /** No number starts with c, apart from a minus sign. */
  predicate NoNumberStart(f: Flags, c: char) {
    !IsDigit(c) && !(f.nanAndInf && (c == 'N' || c == 'I'))
  }

  predicate NoScalarStart(f: Flags, c: char) {
    NoNumberStart(f, c) && c !in "-ntf\"{["
  }

  /** In state st the character c is neither skipped nor the start of anything expected. */
  predicate BadStart(f: Flags, st: State, c: char) {
    var dst := Predict(st, Tokenize(c));
    && !IsSpace(c) && !(f.comments && c == '/')
    && (dst.ErrorState? || (IsScalar(dst) && NoScalarStart(f, c)))
  }

  class GenericReader {
    const src: string
    const flags: Flags
    var pos: nat
    var log: seq<Event>
    var error: Outcome
    var stack: seq<Slot>
    var state: State

    constructor (src: string, flags: Flags)
      ensures this.src == src && this.flags == flags
      ensures pos == 0 && log == [] && error == NoError && stack == [] && state == StartState
    {
      this.src, this.flags := src, flags;
      pos, log, error, stack, state := 0, [], NoError, [], StartState;
    }

    ghost predicate Ready()
      reads this`pos, this`error
    {
      pos <= |src| && error == NoError
    }

    /** The reader ended as the run says it should: its log, and its position or its error. */
    ghost predicate Ended(r: Run)
      reads this`pos, this`log, this`error
    {
      EndedAfter(r, NoError)
    }

    /** The same when an error may have been set before. */
    ghost predicate EndedAfter(r: Run, before: Outcome)
      reads this`pos, this`log, this`error
    {
      && pos <= |src|
      && log == r.log
      && match r.end
         case Ok(j) => error == before && pos == j
         case Err(e) => error == After(before, e)
    }

    /** The reader skipped to where r says, or has an error. */
    ghost predicate Skipped(r: Try<nat>, start: nat, before: Outcome)
      reads this`pos, this`error
    {
      && start <= pos <= |src|
      && match r
         case Ok(j) => pos == j && error == before
         case Err(e) => pos == e.offset && error == After(before, e)
    }

    // ---- the stream

    function Look(): char
      reads this`pos
    {
      Peek(src, pos)
    }

    method Consume(wanted: char) returns (matched: bool)
      requires pos <= |src| && wanted != '\0'
      modifies this`pos
      ensures matched <==> old(Look()) == wanted
      ensures pos == (if matched then old(pos) + 1 else old(pos)) <= |src|
    {
      matched := Look() == wanted;
      if matched { pos := pos + 1; }
    }

    method Fail(code: ErrorCode, offset: nat)
      modifies this`error
      ensures error == After(old(error), ParseError(code, offset))
    {
      error := if error == NoError then Failed(ParseError(code, offset)) else SetTwice;
    }

    method SkipWhitespace()
      requires pos <= |src|
      modifies this`pos
      ensures pos == SkipSpaces(src, old(pos))
    {
      while IsSpace(Look())
        invariant pos <= |src| && SkipSpaces(src, pos) == SkipSpaces(src, old(pos))
        decreases |src| - pos
      {
        pos := pos + 1;
      }
    }

    method SkipWhitespaceAndComments()
      requires pos <= |src|
      modifies this`pos, this`error
      ensures Skipped(SkipBlank(flags, src, old(pos)), old(pos), old(error))
    {
      SkipWhitespace();
      if flags.comments {
        while Look() == '/'
          invariant old(pos) <= pos <= |src| && error == old(error)
          invariant SkipComments(src, pos) == SkipBlank(flags, src, old(pos))
          decreases |src| - pos
        {
          pos := pos + 1;
          var ok := SkipComment();
          if !ok { return; }
          SkipWhitespace();
        }
      }
    }

    /** The body of the comment loop, behind the first slash. */
    method SkipComment() returns (ok: bool)
      requires 0 < pos <= |src| && src[pos - 1] == '/'
      modifies this`pos, this`error
      ensures ok == CommentEnd(src, old(pos) - 1).Ok? && Skipped(CommentEnd(src, old(pos) - 1), old(pos), old(error))
    {
      ok := true;
      var star := Consume('*');
      if star {
        ok := SkipBlock();
      } else {
        var line := Consume('/');
        if line { SkipLine(); } else { Fail(UnspecificSyntaxError, pos); ok := false; }
      }
    }

    /** The inner loop of a block comment. */
    method SkipBlock() returns (closed: bool)
      requires pos <= |src|
      modifies this`pos, this`error
      ensures closed == BlockEnd(src, old(pos)).Ok? && Skipped(BlockEnd(src, old(pos)), old(pos), old(error))
    {
      while true
        invariant old(pos) <= pos <= |src| && error == old(error)
        invariant BlockEnd(src, pos) == BlockEnd(src, old(pos))
        decreases |src| - pos
      {
        if Look() == '\0' {
          Fail(UnspecificSyntaxError, pos);
          return false;
        }
        var star := Consume('*');
        if star {
          var slash := Consume('/');
          if slash { return true; }
        } else {
          pos := pos + 1;
        }
      }
    }

    /** The inner loop of a line comment. */
    method SkipLine()
      requires pos <= |src|
      modifies this`pos
      ensures pos == LineEnd(src, old(pos))
    {
      while Look() != '\0'
        invariant pos <= |src| && LineEnd(src, pos) == LineEnd(src, old(pos))
        decreases |src| - pos
      {
        pos := pos + 1;
        if src[pos - 1] == '\n' { return; }
      }
    }

    // ---- scalars

    /** A chain of Consume calls, as far as they match. */
    method ConsumeWord(word: string) returns (all: bool)
      requires pos <= |src| && '\0' !in word
      modifies this`pos
      ensures pos == old(pos) + Matched(src, old(pos), word) <= |src|
      ensures all <==> Matched(src, old(pos), word) == |word|
    {
      var k := 0;
      while k < |word|
        invariant 0 <= k <= |word| && pos == old(pos) + k <= |src|
        invariant k + Matched(src, pos, word[k..]) == Matched(src, old(pos), word)
      {
        assert word[k..][1..] == word[k + 1..];
        var same := Consume(word[k]);
        if !same { return false; }
        k := k + 1;
      }
      return true;
    }

    method ConsumeRest(word: string, event: Event)
      requires pos <= |src| && |word| > 0 && Look() == word[0] && '\0' !in word
      modifies this`pos, this`log, this`error
      ensures old(pos) <= pos
      ensures EndedAfter(match Word(src, old(pos), word, event)
                         case Ok(t) => Run(old(log) + [t.token], Ok(t.end))
                         case Err(e) => Run(old(log), Err(e)), old(error))
    {
      var all := ConsumeWord(word);
      if all { log := log + [event]; } else { Fail(ValueInvalid, pos); }
    }

    method ParseNull()
      requires pos <= |src| && Look() == 'n'
      modifies this`pos, this`log, this`error
      ensures old(pos) <= pos
      ensures EndedAfter(Scalar(flags, src, old(pos), old(log)), old(error))
    {
      ConsumeRest("null", Null);
    }

    method ParseTrue()
      requires pos <= |src| && Look() == 't'
      modifies this`pos, this`log, this`error
      ensures old(pos) <= pos
      ensures EndedAfter(Scalar(flags, src, old(pos), old(log)), old(error))
    {
      ConsumeRest("true", Bool(true));
    }

    method ParseFalse()
      requires pos <= |src| && Look() == 'f'
      modifies this`pos, this`log, this`error
      ensures old(pos) <= pos
      ensures EndedAfter(Scalar(flags, src, old(pos), old(log)), old(error))
    {
      ConsumeRest("false", Bool(false));
    }

    method ParseHex4(escapeOffset: nat) returns (codepoint: nat)
      requires pos <= |src|
      modifies this`pos, this`error
      ensures old(pos) <= pos <= |src|
      ensures match Hex4(src, old(pos), escapeOffset)
              case Ok(c) => error == old(error) && pos == old(pos) + 4 && codepoint == c
              case Err(e) => error == After(old(error), e)
    {
      codepoint := 0;
      for k := 0 to 4
        invariant pos == old(pos) + k <= |src| && error == old(error)
        invariant forall m :: old(pos) <= m < pos ==> IsHex(src[m])
        invariant k > 0 ==> codepoint == HexValue(src[old(pos)..pos])
        invariant k == 0 ==> codepoint == 0
      {
        if !IsHex(Look()) {
          Fail(StringUnicodeEscapeInvalidHex, escapeOffset);
          return;
        }
        assert src[old(pos)..pos + 1][..k] == src[old(pos)..pos];
        codepoint := 16 * codepoint + Hex(Look());
        pos := pos + 1;
      }
      HexValueOfFour(src[old(pos)..pos]);
    }

    /** The part of ParseStringToStream behind a backslash and a u.  It gives up as soon as an
        error is set, also one from before. */
    method ParseUnicode(escapeOffset: nat) returns (codepoint: nat)
      requires pos <= |src|
      modifies this`pos, this`error
      ensures old(pos) <= pos <= |src| && (old(error) != NoError ==> error != NoError)
      ensures old(error) == NoError ==>
                match UnicodeEscape(src, old(pos), escapeOffset)
                case Ok(u) => error == NoError && pos == u.end && codepoint == u.token
                case Err(e) => error == Failed(e)
    {
      hide Hex4, HexValue;
      codepoint := ParseHex4(escapeOffset);
      if error != NoError { return; }
      if 0xD800 <= codepoint <= 0xDFFF {
        if codepoint <= 0xDBFF {
          var backslash := Consume('\\');
          var u := false;
          if backslash { u := Consume('u'); }
          if !backslash || !u {
            Fail(StringUnicodeSurrogateInvalid, escapeOffset);
            return;
          }
          var codepoint2 := ParseHex4(escapeOffset);
          if error != NoError { return; }
          if codepoint2 < 0xDC00 || codepoint2 > 0xDFFF {
            Fail(StringUnicodeSurrogateInvalid, escapeOffset);
            return;
          }
          codepoint := (codepoint - 0xD800) * 1024 + (codepoint2 - 0xDC00) + 0x10000;
        } else {
          Fail(StringUnicodeSurrogateInvalid, escapeOffset);
        }
      }
    }

    method ParseStringToStream() returns (os: string)
      requires pos <= |src|
      modifies this`pos, this`error
      ensures old(pos) <= pos <= |src| && (old(error) != NoError ==> error != NoError)
      ensures old(error) == NoError ==>
                match StringRest(flags, src, old(pos), "")
                case Ok(t) => error == NoError && pos == t.end && os == t.token
                case Err(e) => error == Failed(e)
    {
      hide UnicodeEscape, Utf8;
      os := "";
      while true
        invariant old(pos) <= pos <= |src| && error == old(error)
        invariant StringRest(flags, src, pos, os) == StringRest(flags, src, old(pos), "")
        decreases |src| - pos
      {
        var c := Look();
        if c == '\\' {
          var escapeOffset := pos;
          pos := pos + 1;
          var e := Look();
          if IsSimpleEscape(e) {
            pos := pos + 1;
            os := os + [SimpleEscape(e)];
          } else if flags.escapedApostrophe && e == '\'' {
            pos := pos + 1;
            os := os + "\'";
          } else if e == 'u' {
            pos := pos + 1;
            var codepoint := ParseUnicode(escapeOffset);
            if error != NoError { return; }
            os := os + Utf8(codepoint);
          } else {
            Fail(StringEscapeInvalid, escapeOffset);
            return;
          }
        } else if c == '"' {
          pos := pos + 1;
          return;
        } else if c < ' ' {
          if c == '\0' {
            Fail(StringMissQuotationMark, pos);
          } else {
            Fail(StringInvalidEncoding, pos);
          }
          return;
        } else {
          os := os + [c];
          pos := pos + 1;
        }
      }
    }

    /** Sends the string, unless an error is set, now or from before. */
    method ParseString(isKey: bool)
      requires pos <= |src| && Look() == '"'
      modifies this`pos, this`log, this`error
      ensures old(pos) < pos
      ensures old(error) == NoError ==>
                Ended(match StringRest(flags, src, old(pos) + 1, "")
                      case Ok(t) => Run(old(log) + [if isKey then Key(t.token) else String(t.token)], Ok(t.end))
                      case Err(e) => Run(old(log), Err(e)))
      ensures old(error) != NoError ==> error != NoError && log == old(log) && pos <= |src|
    {
      pos := pos + 1;
      var str := ParseStringToStream();
      if error != NoError { return; }
      log := log + [if isKey then Key(str) else String(str)];
    }

    /** The log after a scalar has been read although an error is set: strings are not sent. */
    ghost function SentAnyway(i: nat, before: seq<Event>): seq<Event>
      requires i <= |src|
    {
      if Peek(src, i) == '"' then before else Scalar(flags, src, i, before).log
    }

    // ---- recursive descent

    /** Once an error is set only the table-driven parsers get here, and only at a scalar. */
    method ParseValue()
      requires pos <= |src| && (error == NoError || (Look() != '{' && Look() != '['))
      modifies this`pos, this`log, this`error
      ensures old(error) == NoError ==> Ended(Value(flags, src, old(pos), old(log)))
      ensures old(error) != NoError ==>
                error != NoError && log == SentAnyway(old(pos), old(log)) && pos <= |src|
      ensures old(Look()) != '{' && old(Look()) != '[' ==> old(pos) <= pos
      ensures NoScalarStart(flags, old(Look())) ==> pos == old(pos) && log == old(log)
      ensures NoScalarStart(flags, old(Look())) ==> error == After(old(error), ParseError(ValueInvalid, pos))
      decreases |src| - pos, 1
    {
      match Look() {
        case 'n' => ParseNull();
        case 't' => ParseTrue();
        case 'f' => ParseFalse();
        case '"' => ParseString(false);
        case '{' => ParseObject();
        case '[' => ParseArray();
        case _ => ParseNumber();
      }
    }

    method ParseObject()
      requires Ready() && Look() == '{'
      modifies this`pos, this`log, this`error
      ensures Ended(Object(flags, src, old(pos), old(log)))
      decreases |src| - pos, 0
    {
      hide SkipBlank, StringRest, ScalarToken;
      ghost var target := Object(flags, src, pos, log);
      pos := pos + 1;
      log := log + [StartObject];
      SkipWhitespaceAndComments();
      if error != NoError { return; }
      var empty := Consume('}');
      if empty {
        log := log + [EndObject(0)];
        return;
      }
      var memberCount := 0;
      while true
        invariant Ready() && old(pos) < pos
        invariant Members(flags, src, pos, memberCount, log) == target
        decreases |src| - pos
      {
        ParseMember(memberCount);
        if error != NoError { return; }
        var more;
        memberCount, more := EndMember(memberCount);
        if !more { return; }
      }
    }

    /** The first half of ParseObject's loop: a name, a colon and a value. */
    method ParseMember(ghost n: nat)
      requires Ready()
      modifies this`pos, this`log, this`error
      ensures error == NoError ==>
                && old(pos) < pos <= |src|
                && AfterMember(flags, src, pos, n, log) == Members(flags, src, old(pos), n, old(log))
      ensures error != NoError ==> Ended(Members(flags, src, old(pos), n, old(log)))
      decreases |src| - pos, 2
    {
      hide SkipBlank, ScalarToken;
      if Look() != '"' { Fail(ObjectMissName, pos); return; }
      ParseString(true);
      if error != NoError { return; }
      SkipWhitespaceAndComments();
      if error != NoError { return; }
      assert AfterKey(flags, src, pos, n, log) == Members(flags, src, old(pos), n, old(log));
      var colon := Consume(':');
      if !colon { Fail(ObjectMissColon, pos); return; }
      SkipWhitespaceAndComments();
      if error != NoError { return; }
      assert AfterColon(flags, src, pos, n, log) == Members(flags, src, old(pos), n, old(log));
      ParseValue();
      if error != NoError { return; }
      SkipWhitespaceAndComments();
    }

    /** The second half: a comma, or the end of the object. */
    method EndMember(n: nat) returns (memberCount: nat, more: bool)
      requires Ready()
      modifies this`pos, this`log, this`error
      ensures more ==>
                && Ready() && old(pos) < pos
                && Members(flags, src, pos, memberCount, log) == AfterMember(flags, src, old(pos), n, old(log))
      ensures !more ==> Ended(AfterMember(flags, src, old(pos), n, old(log)))
    {
      hide SkipBlank, ScalarToken;
      memberCount, more := Increment(n), false;
      match Look() {
        case ',' =>
          pos := pos + 1;
          SkipWhitespaceAndComments();
          if error != NoError { return; }
        case '}' =>
          pos := pos + 1;
          log := log + [EndObject(memberCount)];
          return;
        case _ =>
          Fail(ObjectMissCommaOrCurlyBracket, pos);
          return;
      }
      if flags.trailingCommas && Look() == '}' {
        log := log + [EndObject(memberCount)];
        pos := pos + 1;
        return;
      }
      more := true;
    }

    method ParseArray()
      requires Ready() && Look() == '['
      modifies this`pos, this`log, this`error
      ensures Ended(Array(flags, src, old(pos), old(log)))
      decreases |src| - pos, 0
    {
      hide SkipBlank, StringRest, ScalarToken;
      ghost var target := Array(flags, src, pos, log);
      pos := pos + 1;
      log := log + [StartArray];
      SkipWhitespaceAndComments();
      if error != NoError { return; }
      var empty := Consume(']');
      if empty {
        log := log + [EndArray(0)];
        return;
      }
      var elementCount := 0;
      while true
        invariant Ready() && old(pos) < pos
        invariant Elements(flags, src, pos, elementCount, log) == target
        decreases |src| - pos
      {
        ParseElement(elementCount);
        if error != NoError { return; }
        var more;
        elementCount, more := EndElement(elementCount);
        if !more { return; }
      }
    }

    /** The first half of ParseArray's loop. */
    method ParseElement(ghost n: nat)
      requires Ready()
      modifies this`pos, this`log, this`error
      ensures error == NoError ==>
                && old(pos) < pos <= |src|
                && AfterElement(flags, src, pos, n, log) == Elements(flags, src, old(pos), n, old(log))
      ensures error != NoError ==> Ended(Elements(flags, src, old(pos), n, old(log)))
      decreases |src| - pos, 2
    {
      hide SkipBlank, ScalarToken;
      ParseValue();
      if error != NoError { return; }
      SkipWhitespaceAndComments();
    }

    /** The second half: a comma, or the end of the array. */
    method EndElement(n: nat) returns (elementCount: nat, more: bool)
      requires Ready()
      modifies this`pos, this`log, this`error
      ensures more ==>
                && Ready() && old(pos) < pos
                && Elements(flags, src, pos, elementCount, log) == AfterElement(flags, src, old(pos), n, old(log))
      ensures !more ==> Ended(AfterElement(flags, src, old(pos), n, old(log)))
    {
      hide SkipBlank, ScalarToken;
      elementCount, more := Increment(n), false;
      var comma := Consume(',');
      if comma {
        SkipWhitespaceAndComments();
        if error != NoError { return; }
      } else {
        var close := Consume(']');
        if close {
          log := log + [EndArray(elementCount)];
        } else {
          Fail(ArrayMissCommaOrSquareBracket, pos);
        }
        return;
      }
      if flags.trailingCommas && Look() == ']' {
        log := log + [EndArray(elementCount)];
        pos := pos + 1;
        return;
      }
      more := true;
    }

    method RecursiveParse()
      requires pos <= |src|
      modifies this`pos, this`log, this`error, this`stack
      ensures Ended(Document(flags, src, old(pos), old(log))) && stack == []
    {
      hide SkipBlank, ScalarToken;
      error := NoError;
      stack := [];
      SkipWhitespaceAndComments();
      if error != NoError { return; }
      if Look() == '\0' {
        Fail(DocumentEmpty, pos);
        return;
      }
      ParseValue();
      if error != NoError { return; }
      if !flags.stopWhenDone {
        SkipWhitespaceAndComments();
        if error != NoError { return; }
        if Look() != '\0' { Fail(DocumentRootNotSingular, pos); }
      }
    }

    // ---- numbers

    /** The integer digits of ParseNumber: a 32-bit accumulator, then a 64-bit one, until the next
        digit would not fit. */
    method ParseInteger(minus: bool)
      returns (i: uint32, i64: uint64, use64bit: bool, useDouble: bool, significandDigit: nat)
      requires pos <= |src| && '1' <= Look() <= '9'
      modifies this`pos
      ensures pos <= |src| && old(pos) < pos && AllDigits(src[old(pos)..DigitsEnd(src, old(pos))])
      ensures DigitsEnd(src, pos) == DigitsEnd(src, old(pos))
      ensures var v := Decimal(src[old(pos)..DigitsEnd(src, old(pos))]);
              && (use64bit <==> v > Limit32(minus))
              && (useDouble <==> v > Limit64(minus))
              && (!use64bit ==> i == v)
              && (use64bit && !useDouble ==> i64 == v)
              && (useDouble ==> significandDigit >= 17)
              && (!useDouble ==> pos == DigitsEnd(src, pos) && significandDigit == pos - old(pos) - 1)
    {
      ghost var p := pos;
      i64, useDouble := 0, false;
      i := Digit(Look());
      pos := pos + 1;
      assert src[p..pos] == [src[p]];
      assert Decimal(src[p..pos]) == Digit(src[p]);
      i, use64bit, significandDigit := AccumulateDigits(
        i, 0, if minus then 214748364 else 429496729, if minus then '8' else '5', Limit32(minus), p);
      if use64bit {
        i64, useDouble, significandDigit := AccumulateDigits(
          i, significandDigit, if minus then 0x0CCC_CCCC_CCCC_CCCC else 0x1999_9999_9999_9999,
          if minus then '8' else '5',
          Limit64(minus), p);
        if useDouble { ManyDigits(src[p..pos]); }
      }
    }

    /** One digit loop: it stops before a digit that would take the accumulator past the limit,
        which is 10 * guard + last. */
    method AccumulateDigits(start: nat, digits: nat, guard: nat, last: char, ghost limit: nat, ghost p: nat)
      returns (i: nat, full: bool, significandDigit: nat)
      requires pos <= |src| && p < pos && AllDigits(src[p..pos]) && Decimal(src[p..pos]) == start <= limit
      requires IsDigit(last) && limit == 10 * guard + Digit(last)
      modifies this`pos
      ensures pos <= |src| && old(pos) <= pos && DigitsEnd(src, pos) == DigitsEnd(src, old(pos))
      ensures AllDigits(src[p..DigitsEnd(src, pos)])
      ensures AllDigits(src[p..pos]) && Decimal(src[p..pos]) == i <= limit
      ensures full <==> Decimal(src[p..DigitsEnd(src, pos)]) > limit
      ensures if full then i >= guard else pos == DigitsEnd(src, pos)
      ensures significandDigit == digits + (pos - old(pos))
    {
      i, full, significandDigit := start, false, digits;
      while IsDigit(Look())
        invariant p < pos <= |src| && AllDigits(src[p..pos]) && Decimal(src[p..pos]) == i <= limit
        invariant old(pos) <= pos && DigitsEnd(src, pos) == DigitsEnd(src, old(pos))
        invariant significandDigit == digits + (pos - old(pos))
        decreases |src| - pos
      {
        GuardExact(i, Look(), guard, last);
        if i >= guard && (i != guard || Look() > last) {
          DecimalGrows(src, p, pos);
          full := true;
          return;
        }
        DecimalStep(src, p, pos);
        i := 10 * i + Digit(Look());
        pos := pos + 1;
        significandDigit := significandDigit + 1;
      }
    }

    /** The NaN and infinity branch of ParseNumber. */
    method ParseSpecial() returns (ok: bool, useNanOrInf: bool)
      requires pos <= |src| && flags.nanAndInf && (Look() == 'N' || Look() == 'I')
      modifies this`pos, this`error
      ensures old(pos) <= pos <= |src|
      ensures match IntegerPart(flags, src, old(pos))
              case Ok(h) => ok && error == old(error) && useNanOrInf && h.special && pos == h.end
              case Err(e) => !ok && error == After(old(error), e)
    {
      hide Matched, Decimal, DigitsEnd;
      ok := true;
      if Look() == 'N' {
        useNanOrInf := ConsumeWord("NaN");
      } else {
        useNanOrInf := ConsumeWord("Inf");
        if useNanOrInf && Look() == 'i' {
          ok := ConsumeWord("inity");
          if !ok {
            Fail(ValueInvalid, pos);
            return;
          }
        }
      }
      if !useNanOrInf {
        Fail(ValueInvalid, pos);
        ok := false;
      }
    }

    /** The fraction of ParseNumber: how far the decimal exponent moves and whether the number has
        become a double.  Whether the significand is positive is all that is kept of it. */
    method ParseFraction(start: uint64, big: bool, digits: nat, ghost h: Head)
      returns (ok: bool, expFrac: int, useDouble: bool)
      requires pos <= |src| && h.end == pos && (big ==> digits >= 17 && h.moreDigits >= 17)
      requires !big ==> h.value == start && digits == h.moreDigits
      modifies this`pos, this`error
      ensures old(pos) <= pos <= |src|
      ensures match FractionPart(src, h, big)
              case Ok(t) => ok && error == old(error) && pos == t.end && -expFrac == t.token
                            && (useDouble <==> big || h.end < t.end)
              case Err(e) => !ok && error == After(old(error), e)
      ensures 0 <= -expFrac <= |src|
    {
      ok, expFrac, useDouble := true, 0, big;
      var dot := Consume('.');
      if !dot { return; }
      if !IsDigit(Look()) {
        Fail(NumberMissFraction, pos);
        ok := false;
        return;
      }
      ghost var p, q := pos, DigitsEnd(src, pos);
      ghost var kept := FractionKept(src[p..q], h.value, h.moreDigits, big);
      var i64, significandDigit := start, digits;
      if !useDouble {
        i64, expFrac, significandDigit := ParseNarrowFraction(i64, significandDigit);
        useDouble := true;
        expFrac := ParseWideFraction(i64 > 0, expFrac, significandDigit, i64);
      } else {
        FractionFull(src[p..q], h.value, h.moreDigits);
        FractionFull(src[p..q], i64, significandDigit);
        expFrac := ParseWideFraction(true, expFrac, significandDigit, i64);
      }
    }

    /** The fraction loop that still adds to the 64-bit significand. */
    method ParseNarrowFraction(start: uint64, digits: nat) returns (i64: uint64, expFrac: int, significandDigit: nat)
      requires pos <= |src|
      modifies this`pos
      ensures old(pos) <= pos <= |src| && DigitsEnd(src, pos) == DigitsEnd(src, old(pos))
      ensures old(pos) - pos == expFrac && (i64 > 0 || pos == DigitsEnd(src, pos))
      ensures FractionKept(src[pos..DigitsEnd(src, pos)], i64, significandDigit, true) - expFrac
              == FractionKept(src[old(pos)..DigitsEnd(src, pos)], start, digits, false)
    {
      hide FractionKept, Decimal, AllDigits;
      i64, expFrac, significandDigit := start, 0, digits;
      ghost var p, q := pos, DigitsEnd(src, pos);
      while IsDigit(Look())
        invariant p <= pos <= q <= |src| && DigitsEnd(src, pos) == q && AllDigits(src[pos..q])
        invariant expFrac == p - pos
        invariant FractionKept(src[pos..q], i64, significandDigit, false) - expFrac
                  == FractionKept(src[p..q], start, digits, false)
        decreases q - pos
      {
        if i64 > 0x1F_FFFF_FFFF_FFFF { break; }
        FractionStep(src, pos, q, i64, significandDigit);
        i64 := 10 * i64 + Digit(Look());
        pos := pos + 1;
        expFrac := expFrac - 1;
        if i64 != 0 { significandDigit := significandDigit + 1; }
      }
      FractionTail(src[pos..q], i64, significandDigit);
    }

    /** The fraction loop that adds to the double, up to seventeen significant digits. */
    method ParseWideFraction(positive: bool, start: int, digits: nat, ghost m: nat) returns (expFrac: int)
      requires pos <= |src| && (positive || pos == DigitsEnd(src, pos)) && 0 <= -start <= pos
      modifies this`pos
      ensures old(pos) <= pos <= |src| && pos == DigitsEnd(src, old(pos))
      ensures start - expFrac == FractionKept(src[old(pos)..pos], m, digits, true)
      ensures 0 <= -expFrac <= pos
    {
      expFrac := start;
      var significandDigit := digits;
      ghost var p, q := pos, DigitsEnd(src, pos);
      while IsDigit(Look())
        invariant p <= pos <= q <= |src| && DigitsEnd(src, pos) == q && AllDigits(src[pos..q])
        invariant 0 <= -expFrac <= pos
        invariant FractionKept(src[pos..q], m, significandDigit, true) + start - expFrac
                  == FractionKept(src[p..q], m, digits, true)
        decreases q - pos
      {
        assert src[pos..q][1..] == src[pos + 1..q];
        if significandDigit < 17 {
          pos := pos + 1;
          expFrac := expFrac - 1;
          if positive { significandDigit := significandDigit + 1; }
        } else {
          FractionFull(src[pos..q], m, significandDigit);
          FractionFull(src[pos + 1..q], m, significandDigit);
          pos := pos + 1;
        }
      }
    }

    /** The exponent of ParseNumber.  Neither it nor its sum with the fraction's shift leaves the
        range of a 32-bit int, for inputs below 2^27 characters. */
    method ParseExponent(startOffset: nat, expFrac: int, already: bool)
      returns (ok: bool, exp: int, useDouble: bool)
      requires pos <= |src| && expFrac <= 0
      modifies this`pos, this`error
      ensures old(pos) <= pos <= |src|
      ensures match ExponentPart(src, startOffset, old(pos), -expFrac)
              case Ok(z) => ok && error == old(error) && pos == z && (useDouble <==> already || old(pos) < z)
                            && (|src| < 0x800_0000 && -expFrac <= |src|
                                ==> -0x8000_0000 <= exp + expFrac && exp < 0x8000_0000)
              case Err(e) => !ok && error == After(old(error), e)
    {
      hide FractionPart, FractionKept, IntegerPart, Decimal, DigitsEnd;
      ok, exp, useDouble := true, 0, already;
      var e := Consume('e');
      if !e {
        e := Consume('E');
        if !e { return; }
      }
      useDouble := true;
      var expMinus := false;
      var plus := Consume('+');
      if !plus { expMinus := Consume('-'); }
      if !IsDigit(Look()) {
        Fail(NumberMissExponent, pos);
        ok := false;
        return;
      }
      ok, exp := ParseExponentDigits(expMinus, startOffset, expFrac);
    }

    method ParseExponentDigits(expMinus: bool, startOffset: nat, expFrac: int) returns (ok: bool, exp: int)
      requires pos <= |src| && IsDigit(Look()) && expFrac <= 0
      modifies this`pos, this`error
      ensures old(pos) <= pos <= |src|
      ensures var z := DigitsEnd(src, old(pos));
              if !expMinus && Decimal(src[old(pos)..z]) > 308 - expFrac
              then !ok && error == After(old(error), ParseError(NumberTooBig, startOffset))
              else ok && error == old(error) && pos == z
      ensures ok && |src| < 0x800_0000 && -expFrac <= |src|
              ==> -0x8000_0000 <= exp + expFrac && exp < 0x8000_0000
    {
      ghost var y := pos;
      exp := Digit(Look());
      pos := pos + 1;
      assert src[y..pos] == [src[y]];
      assert Decimal(src[y..pos]) == Digit(src[y]);
      if expMinus {
        var magnitude := ParseNegativeExponent(exp, (expFrac + 2147483639) / 10, y);
        var value: int := magnitude;
        ok, exp := true, -value;
      } else {
        ok, exp := ParsePositiveExponent(exp, 308 - expFrac, y, startOffset);
      }
    }

    method ParsePositiveExponent(start: nat, maxExp: nat, ghost y: nat, startOffset: nat)
      returns (ok: bool, exp: nat)
      requires pos <= |src| && y < pos && AllDigits(src[y..pos]) && Decimal(src[y..pos]) == start <= maxExp
      modifies this`pos, this`error
      ensures old(pos) <= pos <= |src| && AllDigits(src[y..DigitsEnd(src, old(pos))])
      ensures var v := Decimal(src[y..DigitsEnd(src, old(pos))]);
              if v <= maxExp then ok && error == old(error) && exp == v && pos == DigitsEnd(src, old(pos))
              else !ok && error == After(old(error), ParseError(NumberTooBig, startOffset))
      ensures exp <= 10 * maxExp + 9
    {
      ok, exp := true, start;
      DecimalGrows(src, y, pos);
      while IsDigit(Look())
        invariant y < pos <= |src| && error == old(error)
        invariant AllDigits(src[y..pos]) && Decimal(src[y..pos]) == exp <= maxExp
        invariant DigitsEnd(src, pos) == DigitsEnd(src, old(pos))
        decreases |src| - pos
      {
        DecimalStep(src, y, pos);
        exp := 10 * exp + Digit(Look());
        pos := pos + 1;
        if exp > maxExp {
          DecimalGrows(src, y, pos);
          Fail(NumberTooBig, startOffset);
          ok := false;
          return;
        }
      }
    }

    method ParseNegativeExponent(start: nat, maxExp: int, ghost y: nat) returns (exp: nat)
      requires pos <= |src| && y < pos && start <= 9
      modifies this`pos
      ensures old(pos) <= pos <= |src| && pos == DigitsEnd(src, old(pos))
      ensures 9 <= maxExp ==> exp <= 10 * maxExp + 9
    {
      exp := start;
      while IsDigit(Look())
        invariant pos <= |src| && DigitsEnd(src, pos) == DigitsEnd(src, old(pos))
        invariant 9 <= maxExp ==> exp <= 10 * maxExp + 9 && (exp <= maxExp || !IsDigit(Look()))
        decreases |src| - pos
      {
        exp := 10 * exp + Digit(Look());
        pos := pos + 1;
        if exp > maxExp {
          while IsDigit(Look())
            invariant pos <= |src| && DigitsEnd(src, pos) == DigitsEnd(src, old(pos))
            decreases |src| - pos
          {
            pos := pos + 1;
          }
        }
      }
    }

    /** The integer part of ParseNumber. */
    method ParseHead(minus: bool)
      returns (ok: bool, i: uint32, i64: uint64, use64bit: bool, useDouble: bool, useNanOrInf: bool,
               significandDigit: nat)
      requires pos <= |src|
      modifies this`pos, this`error
      ensures old(pos) <= pos <= |src| && (NoNumberStart(flags, old(Look())) ==> pos == old(pos))
      ensures match IntegerPart(flags, src, old(pos))
              case Err(e) => !ok && error == After(old(error), e)
              case Ok(h) =>
                && ok && error == old(error) && pos == h.end && useNanOrInf == h.special
                && (use64bit <==> h.value > Limit32(minus))
                && (useDouble <==> h.value > Limit64(minus))
                && (!use64bit ==> i == h.value)
                && (use64bit && !useDouble ==> i64 == h.value)
                && (if useDouble then significandDigit >= 17 && h.moreDigits >= 17
                    else significandDigit == h.moreDigits)
    {
      ok, i, i64, use64bit, useDouble, useNanOrInf, significandDigit := true, 0, 0, false, false, false, 0;
      if Look() == '0' {
        pos := pos + 1;
      } else if '1' <= Look() <= '9' {
        i, i64, use64bit, useDouble, significandDigit := ParseInteger(minus);
        if useDouble {
          while IsDigit(Look())
            invariant old(pos) < pos <= |src| && error == old(error) && DigitsEnd(src, pos) == DigitsEnd(src, old(pos))
            decreases |src| - pos
          {
            pos := pos + 1;
          }
          ManyDigits(src[old(pos)..pos]);
        }
      } else if flags.nanAndInf && (Look() == 'I' || Look() == 'N') {
        ok, useNanOrInf := ParseSpecial();
      } else {
        Fail(ValueInvalid, pos);
        ok := false;
      }
    }

    method ParseNumber()
      requires pos <= |src|
      modifies this`pos, this`log, this`error
      ensures old(pos) <= pos
      ensures EndedAfter(match NumberToken(flags, src, old(pos))
                         case Ok(t) => Run(old(log) + [t.token], Ok(t.end))
                         case Err(e) => Run(old(log), Err(e)), old(error))
      ensures NoNumberStart(flags, old(Look())) && old(Look()) != '-' ==> pos == old(pos)
    {
      hide IntegerPart, FractionPart, ExponentPart, FractionKept, Decimal, DigitsEnd;
      var startOffset := pos;
      var minus := Consume('-');
      ghost var p := pos;
      var ok, i, i64, use64bit, useDouble, useNanOrInf, significandDigit := ParseHead(minus);
      if !ok { return; }
      ghost var h := IntegerPart(flags, src, p).value;
      if !use64bit { i64 := i; }
      var expFrac;
      ok, expFrac, useDouble := ParseFraction(i64, useDouble, significandDigit, h);
      if !ok { return; }
      var exp;
      ok, exp, useDouble := ParseExponent(startOffset, expFrac, useDouble);
      if !ok { return; }
      if useDouble {
        if flags.overflows(src[startOffset..pos]) {
          Fail(NumberTooBig, startOffset);
          return;
        }
        log := log + [Double(src[startOffset..pos])];
      } else if useNanOrInf {
        log := log + [Double(src[startOffset..pos])];
      } else {
        LogInteger(minus, if use64bit then i64 else i, use64bit);
      }
    }

    method LogInteger(minus: bool, magnitude: nat, use64bit: bool)
      requires magnitude <= Limit64(minus) && (use64bit <==> magnitude > Limit32(minus))
      modifies this`log
      ensures log == old(log) + [IntegerEvent(minus, magnitude)]
    {
      var i: int := magnitude;
      if use64bit {
        if minus { log := log + [Int64(-i)]; } else { log := log + [Uint64(i)]; }
      } else {
        if minus { log := log + [Int(-i)]; } else { log := log + [Uint(i)]; }
      }
    }

    // ---- iterative parsing

    ghost function Pending(): Run
      reads this`pos, this`log, this`stack, this`state
      requires pos <= |src| && Fits(state, stack)
    {
      Continue(flags, src, state, stack, pos, log)
    }

    /** One transition.  It keeps what recursive descent would still do, or finds with it that the
        text is wrong.  If an error was set before, a scalar is read and sent all the same. */
    method Transit(from: State, token: Token, dst: State) returns (d: State)
      requires pos <= |src| && Fits(from, stack)
      requires token == Tokenize(Look()) && dst == Predict(from, token)
      modifies this`pos, this`log, this`error, this`stack
      ensures old(pos) <= pos <= |src| && old(log) <= log
      ensures old(error) != NoError ==> error != NoError
      ensures dst.ErrorState? ==> d.ErrorState? && pos == old(pos) && log == old(log) && error == old(error)
      ensures d.ErrorState? ==> stack == old(stack)
      ensures d.ErrorState? && old(error) == NoError ==>
                && error != SetTwice && log == old(log)
                && (!from.FinishState? ==>
                      var r := Resume(flags, src, from, old(stack), old(pos), old(log));
                      r.end.Err? && r.log == log)
      ensures d.ErrorState? && old(error) != NoError ==>
                log == if IsScalar(dst) then SentAnyway(old(pos), old(log)) else old(log)
      ensures !d.ErrorState? ==>
                && error == old(error) && old(pos) < pos && Fits(d, stack)
                && Resume(flags, src, from, old(stack), old(pos), old(log)) == Continue(flags, src, d, stack, pos, log)
      ensures !d.ErrorState? && !IsDelimiter(dst) ==> |log| == |old(log)| + 1
      ensures !d.ErrorState? && IsDelimiter(dst) ==> log == old(log) && IsDelimiter(d)
      ensures dst.ArrayInitialState? || dst.ObjectInitialState? ==> d == dst
      ensures old(error) != NoError && (IsScalar(dst) || dst.MemberKeyState?) ==> d.ErrorState?
      ensures IsScalar(dst) && NoScalarStart(flags, old(Look())) ==>
                && d.ErrorState? && pos == old(pos) && log == old(log)
                && error == After(old(error), ParseError(ValueInvalid, pos))
    {
      hide SkipBlank, ScalarToken, StringRest;
      match dst {
        case ErrorState =>
          if !from.FinishState? { RejectStep(flags, src, from, stack, pos, log); }
          return dst;
        case ObjectInitialState =>
          d := Open(from, dst);
        case ArrayInitialState =>
          d := Open(from, dst);
        case MemberKeyState =>
          d := TransitKey(from);
        case KeyValueDelimiterState =>
          ColonStep(flags, src, stack, pos, log);
          pos := pos + 1;
          return dst;
        case MemberDelimiterState =>
          d := Delimit(from, dst);
        case ElementDelimiterState =>
          d := Delimit(from, dst);
        case ObjectFinishState =>
          d := Finish(from, '}');
        case ArrayFinishState =>
          d := Finish(from, ']');
        case ElementState =>
          d := TransitScalar(from, dst);
        case MemberValueState =>
          d := TransitScalar(from, dst);
        case ValueState =>
          d := TransitScalar(from, dst);
      }
    }

    /** The state that Open pushes. */
    static lemma Opened(outer: seq<Slot>, from: State, n: State)
      requires from.StartState? ==> n == from
      requires from.ArrayInitialState? || from.ElementDelimiterState? ==> n == ElementState
      requires from.KeyValueDelimiterState? ==> n == MemberValueState
      requires
        from.StartState? || from.ArrayInitialState? || from.ElementDelimiterState? || from.KeyValueDelimiterState?
      ensures outer + [StateSlot(n)] + [CountSlot(0)] == Push(outer, ReturnTo(from))
    {
    }

    /** The part of Transit that opens an object or an array: it pushes the state to return to and
        a zero count. */
    method Open(from: State, dst: State) returns (d: State)
      requires pos <= |src| && Fits(from, stack) && ExpectsValue(from, Look())
      requires (Look() == '[' && dst.ArrayInitialState?) || (Look() == '{' && dst.ObjectInitialState?)
      modifies this`pos, this`log, this`stack
      ensures d == dst && pos == old(pos) + 1 <= |src| && Fits(d, stack)
      ensures old(log) <= log && |log| == |old(log)| + 1
      ensures Resume(flags, src, from, old(stack), old(pos), old(log)) == Continue(flags, src, d, stack, pos, log)
    {
      hide SkipBlank, ScalarToken, Push, Resume, Continue, Fits, ReturnTo;
      OpenStep(flags, src, from, stack, pos, log, dst);
      var n := from;
      if from.ArrayInitialState? || from.ElementDelimiterState? {
        n := ElementState;
      } else if from.KeyValueDelimiterState? {
        n := MemberValueState;
      }
      ghost var outer := stack;
      stack := stack + [StateSlot(n)];
      stack := stack + [CountSlot(0)];
      assert stack == Push(outer, ReturnTo(from)) by { Opened(outer, from, n); }
      log := log + [if dst.ObjectInitialState? then StartObject else StartArray];
      pos := pos + 1;
      return dst;
    }

    /** The part of Transit that takes a comma and counts the member or element before it. */
    method Delimit(from: State, dst: State) returns (d: State)
      requires pos <= |src| && Fits(from, stack) && Look() == ','
      requires
        (from.ElementState? && dst.ElementDelimiterState?) || (from.MemberValueState? && dst.MemberDelimiterState?)
      modifies this`pos, this`stack
      ensures d == dst && pos == old(pos) + 1 <= |src| && Fits(d, stack)
      ensures Resume(flags, src, from, old(stack), old(pos), log) == Continue(flags, src, d, stack, pos, log)
    {
      hide SkipBlank, ScalarToken;
      CommaStep(flags, src, from, stack, pos, log, dst);
      pos := pos + 1;
      stack := stack[|stack| - 1 := CountSlot(Increment(stack[|stack| - 1].count))];
      return dst;
    }

    /** The part of Transit that reads a member's name. */
    method TransitKey(from: State) returns (d: State)
      requires pos <= |src| && Fits(from, stack) && Look() == '"'
      requires from.ObjectInitialState? || from.MemberDelimiterState?
      modifies this`pos, this`log, this`error
      ensures old(pos) <= pos <= |src| && old(log) <= log
      ensures old(error) != NoError ==> error != NoError && d.ErrorState? && log == old(log)
      ensures d.ErrorState? && old(error) == NoError ==>
                var r := Resume(flags, src, from, stack, old(pos), old(log));
                error != SetTwice && r.end.Err? && r.log == log == old(log)
      ensures !d.ErrorState? ==>
                && d.MemberKeyState? && error == NoError && old(pos) < pos && Fits(d, stack) && |log| == |old(log)| + 1
                && Resume(flags, src, from, stack, old(pos), old(log)) == Continue(flags, src, d, stack, pos, log)
    {
      hide SkipBlank, ScalarToken;
      KeyStep(flags, src, from, stack, pos, log);
      ParseString(true);
      return if error != NoError then ErrorState else MemberKeyState;
    }

    /** The part of Transit that closes an object or an array. */
    method Finish(from: State, c: char) returns (d: State)
      requires pos <= |src| && Fits(from, stack) && Look() == c
      requires c == ']' || c == '}'
      requires if c == ']' then InArray(from) else InObject(from) && Predict(from, Tokenize(c)).ObjectFinishState?
      modifies this`pos, this`log, this`error, this`stack
      ensures old(pos) <= pos <= |src| && old(log) <= log && (old(error) != NoError ==> error != NoError)
      ensures d.ErrorState? ==> stack == old(stack) && log == old(log)
      ensures d.ErrorState? && old(error) == NoError ==>
                var r := Resume(flags, src, from, old(stack), old(pos), old(log));
                error != SetTwice && r.end.Err? && r.log == log
      ensures !d.ErrorState? ==>
                && error == old(error) && old(pos) < pos && Fits(d, stack) && |log| == |old(log)| + 1
                && Resume(flags, src, from, old(stack), old(pos), old(log)) == Continue(flags, src, d, stack, pos, log)
    {
      hide SkipBlank, ScalarToken, Resume, Continue, Innermost;
      if !flags.trailingCommas && (from.MemberDelimiterState? || from.ElementDelimiterState?) {
        RejectStep(flags, src, from, stack, pos, log);
        Fail(if from.MemberDelimiterState? then ObjectMissName else ValueInvalid, pos);
        return ErrorState;
      }
      CloseStep(flags, src, from, stack, pos, log);
      var n := stack[|stack| - 1].count;
      if from.MemberValueState? || from.ElementState? { n := Increment(n); }
      d := stack[|stack| - 2].state;
      stack := stack[..|stack| - 2];
      if d.StartState? { d := FinishState; }
      log := log + [if c == '}' then EndObject(n) else EndArray(n)];
      pos := pos + 1;
    }

    /** The part of Transit that reads a scalar. */
    method TransitScalar(from: State, dst: State) returns (d: State)
      requires pos <= |src| && Fits(from, stack) && Look() != '{' && Look() != '['
      requires dst == Predict(from, Tokenize(Look())) && IsScalar(dst)
      modifies this`pos, this`log, this`error
      ensures old(pos) <= pos <= |src| && old(log) <= log
      ensures old(error) != NoError ==> error != NoError && d.ErrorState? && log == SentAnyway(old(pos), old(log))
      ensures d.ErrorState? && old(error) == NoError ==>
                var r := Resume(flags, src, from, stack, old(pos), old(log));
                error != SetTwice && r.end.Err? && r.log == log == old(log)
      ensures !d.ErrorState? ==>
                && error == NoError && old(pos) < pos && |log| == |old(log)| + 1
                && d == (if dst.ValueState? then FinishState else dst) && Fits(d, stack)
                && Resume(flags, src, from, stack, old(pos), old(log)) == Continue(flags, src, d, stack, pos, log)
      ensures NoScalarStart(flags, old(Look())) ==>
                && d.ErrorState? && pos == old(pos) && log == old(log)
                && error == After(old(error), ParseError(ValueInvalid, pos))
    {
      hide SkipBlank, ScalarToken;
      if ExpectsValue(from, Look()) {
        ValueStep(flags, src, from, stack, pos, log);
      } else {
        EndIsNoValue(flags, src, pos, log);
      }
      assert Value(flags, src, pos, log) == Scalar(flags, src, pos, log);
      ParseValue();
      if error != NoError { return ErrorState; }
      return if dst.ValueState? then FinishState else dst;
    }

    /** Sets the error for the state the parser is in, unless one is set. */
    method HandleError(from: State)
      modifies this`error
      ensures error == if old(error) == NoError then Failed(ParseError(ErrorOf(from), pos)) else old(error)
    {
      if error != NoError { return; }
      match from {
        case StartState => Fail(DocumentEmpty, pos);
        case FinishState => Fail(DocumentRootNotSingular, pos);
        case ObjectInitialState => Fail(ObjectMissName, pos);
        case MemberDelimiterState => Fail(ObjectMissName, pos);
        case MemberKeyState => Fail(ObjectMissColon, pos);
        case MemberValueState => Fail(ObjectMissCommaOrCurlyBracket, pos);
        case KeyValueDelimiterState => Fail(ValueInvalid, pos);
        case ArrayInitialState => Fail(ValueInvalid, pos);
        case ElementDelimiterState => Fail(ValueInvalid, pos);
        case _ => Fail(ArrayMissCommaOrSquareBracket, pos);
      }
    }

    /** The table-driven parser accepts exactly what recursive descent accepts, stops where it
        stops, and has sent the same events to the handler even when it rejects. */
    method IterativeParse()
      requires pos <= |src|
      modifies this`pos, this`log, this`error, this`stack
      ensures var r := Document(flags, src, old(pos), old(log));
              && log == r.log && error != SetTwice
              && (error == NoError <==> r.end.Ok?)
              && (r.end.Ok? ==> pos == r.end.value)
      ensures stack == []
    {
      hide SkipBlank, ScalarToken;
      ghost var target := Document(flags, src, pos, log);
      error := NoError;
      var state := StartState;
      SkipWhitespaceAndComments();
      if error != NoError { stack := []; return; }
      while Look() != '\0'
        invariant Ready() && Fits(state, stack)
        invariant !state.FinishState? ==> Whole(flags, src, Resume(flags, src, state, stack, pos, log)) == target
        invariant state.FinishState? ==> !flags.stopWhenDone && AtEnd(src, pos, log) == target
        decreases |src| - pos
      {
        var t := Tokenize(Look());
        var n := Predict(state, t);
        var d := Transit(state, t, n);
        if d.ErrorState? {
          HandleError(state);
          stack := [];
          return;
        }
        state := d;
        if flags.stopWhenDone && state.FinishState? { stack := []; return; }
        SkipWhitespaceAndComments();
        if error != NoError { stack := []; return; }
      }
      if !state.FinishState? {
        EndRejects(flags, src, state, stack, pos, log);
        HandleError(state);
      }
      stack := [];
    }

    /** A caller may ask for the next event: inside a text, or for ever at its end. */
    ghost predicate Callable()
      reads this`pos, this`stack, this`state
    {
      pos <= |src| && (Fits(state, stack) || Look() == '\0')
    }

    ghost predicate Running()
      reads this`pos, this`error, this`stack, this`state
    {
      Ready() && Fits(state, stack) && !state.FinishState?
    }

    /** No further call gets past this character. */
    ghost predicate Stuck()
      reads this`pos, this`state
    {
      pos <= |src| && !state.FinishState? && (Look() == '\0' || BadStart(flags, state, Look()))
    }

    /** The error that a call leaves where it is stuck. */
    function StuckError(before: Outcome, st: State, i: nat): Outcome {
      var c := Peek(src, i);
      if c != '\0' && IsScalar(Predict(st, Tokenize(c))) then After(before, ParseError(ValueInvalid, i))
      else if before == NoError then Failed(ParseError(ErrorOf(st), i))
      else before
    }

    /** What a call does when it meets a bad comment first and goes on reading at i. */
    ghost predicate BadComment(i: nat, st: State, before: seq<Event>, ok: bool)
      reads this`log, this`error
    {
      var dst := Predict(st, Tokenize(Peek(src, i)));
      && i <= |src|
      && (dst.ArrayInitialState? || dst.ObjectInitialState? ==> ok)
      && (dst.ErrorState? || dst.MemberKeyState? ==> !ok && log == before)
      && (IsScalar(dst) ==> !ok && log == SentAnyway(i, before))
      && (IsScalar(dst) && NoScalarStart(flags, Peek(src, i)) ==> error == SetTwice)
    }

    /** One event of pull parsing.  From an unfinished state it sends exactly one event and leaves
        the rest of the parse as recursive descent sees it, or it sets an error on a text that
        recursive descent rejects. */
    method IterativeParseNext() returns (ok: bool)
      requires Callable()
      modifies this`pos, this`log, this`error, this`stack, this`state
      ensures Callable() && old(pos) <= pos && old(log) <= log && |log| <= |old(log)| + 1
      ensures !ok || old(error) != NoError ==> error != NoError
      ensures !flags.comments && old(error) == NoError ==> (ok <==> error == NoError)
      ensures old(state).FinishState? ==> state == old(state) && log == old(log) && (ok <==> old(Look()) == '\0')
      ensures !old(state).FinishState? && (ok || state.FinishState?) ==> |log| == |old(log)| + 1
      ensures !old(state).ErrorState? ==> !state.ErrorState?
      ensures old(Running()) ==>
                if error == NoError then
                  && Fits(state, stack) && |log| == |old(log)| + 1 && old(pos) < pos
                  && (if state.FinishState? then Whole(flags, src, old(Pending())) == Run(log, Ok(pos))
                      else Pending() == old(Pending()))
                else Whole(flags, src, old(Pending())).end.Err?
      ensures old(Running()) && !ok && !flags.comments ==>
                error != SetTwice && log == old(Pending()).log && (state.FinishState? <==> old(Pending()).end.Ok?)
      ensures old(Running()) && SkipBlank(flags, src, old(pos)).Err? ==> error != NoError && BadComment(
                SkipBlank(flags, src, old(pos)).error.offset, old(state), old(log), ok)
      ensures old(Stuck()) ==>
                && !ok && Stuck() && pos == old(pos) && log == old(log) && state == old(state)
                && error == StuckError(old(error), state, pos)
    {
      hide SkipBlank, ScalarToken, Resume, Predict, Tokenize;
      ghost var running, stuck := Running(), Stuck();
      ghost var target := if running then Pending() else Run(log, Ok(pos));
      ghost var bad := SkipBlank(flags, src, pos);
      ghost var first := state;
      while Look() != '\0'
        invariant old(pos) <= pos && Callable() && log == old(log)
        invariant old(error) != NoError ==> error != NoError
        invariant !flags.comments ==> error == old(error)
        invariant running && error == NoError ==> Running() && Pending() == target
        invariant running && error != NoError ==> target.end.Err?
        invariant first.FinishState? || stuck ==> pos == old(pos) && state == first && error == old(error)
        invariant running && bad.Err? ==>
                    || (pos == old(pos) && state == first && error == NoError)
                    || (error != NoError && bad.error.offset <= |src|
                        && IsDelimiter(Predict(first, Tokenize(Peek(src, bad.error.offset)))))
        invariant (state.FinishState? <==> first.FinishState?) && (state.ErrorState? ==> first.ErrorState?)
        decreases |src| - pos
      {
        var n, d := NextToken();
        if IsComplete(d) {
          if d.ErrorState? {
            HandleError(state);
            return false;
          }
          state := d;
          ok := FinishNext();
          return;
        }
        state := d;
        if !IsDelimiter(n) { return true; }
      }
      if !state.FinishState? {
        BlankAtEnd(flags, src, pos);
        if running && error == NoError { EndRejects(flags, src, state, stack, pos, log); }
        stack := [];
        HandleError(state);
        return false;
      }
      stack := [];
      return true;
    }

    /** The start of IterativeParseNext's loop: it reads one token, also behind a bad comment. */
    method NextToken() returns (n: State, d: State)
      requires pos <= |src| && Fits(state, stack) && Look() != '\0'
      modifies this`pos, this`log, this`error, this`stack
      ensures old(pos) <= pos <= |src| && old(log) <= log && |log| <= |old(log)| + 1
      ensures old(error) != NoError ==> error != NoError
      ensures !d.ErrorState? ==>
                && old(pos) < pos && Fits(d, stack) && (IsDelimiter(n) ==> IsDelimiter(d))
                && |log| == |old(log)| + (if IsDelimiter(n) then 0 else 1)
      ensures d.ErrorState? ==> stack == old(stack)
      ensures n.ArrayInitialState? || n.ObjectInitialState? ==> d == n
      ensures state.FinishState? ==> d.ErrorState? && log == old(log)
      ensures !flags.comments ==> if d.ErrorState? then old(error) == NoError ==> error != SetTwice && log == old(log)
                                  else error == old(error)
      ensures old(error) == NoError && !state.FinishState? ==>
                && (d.ErrorState? || error != NoError ==> old(Pending()).end.Err?)
                && (d.ErrorState? && !flags.comments ==> old(Pending()).log == log)
                && (!d.ErrorState? && error == NoError ==>
                      Continue(flags, src, d, stack, pos, log) == old(Pending()))
      ensures old(error) == NoError && SkipBlank(flags, src, old(pos)).Err? ==>
                && error != NoError
                && n == Predict(state, Tokenize(Peek(src, SkipBlank(flags, src, old(pos)).error.offset)))
                && BadComment(SkipBlank(flags, src, old(pos)).error.offset, state, old(log), !d.ErrorState?)
      ensures BadStart(flags, state, old(Look())) ==>
                && d.ErrorState? && pos == old(pos) && log == old(log)
                && error == if IsScalar(n) then After(old(error), ParseError(ValueInvalid, pos)) else old(error)
      ensures BadStart(flags, state, old(Look())) ==> n == Predict(state, Tokenize(old(Look())))
    {
      hide SkipBlank, ScalarToken, Resume, Predict, Tokenize;
      if !flags.comments { SpacesAreGood(flags, src, pos); }
      if BadStart(flags, state, Look()) { NothingToSkip(flags, src, pos); }
      SkipWhitespaceAndComments();
      var t := Tokenize(Look());
      n := Predict(state, t);
      NothingFollows(t);
      d := Transit(state, t, n);
    }

    /** The end of IterativeParseNext: nothing but blanks may follow the root. */
    method FinishNext() returns (ok: bool)
      requires pos <= |src| && state.FinishState?
      modifies this`pos, this`error
      ensures old(pos) <= pos <= |src|
      ensures !ok || old(error) != NoError ==> error != NoError
      ensures !flags.comments && old(error) == NoError ==> (ok <==> error == NoError) && error != SetTwice
      ensures old(error) == NoError ==>
                var r := AfterRoot(flags, src, old(pos), log);
                (error == NoError <==> r.end.Ok?) && (r.end.Ok? ==> pos == r.end.value)
    {
      hide SkipBlank, ScalarToken;
      if !flags.stopWhenDone {
        if !flags.comments { SpacesAreGood(flags, src, pos); }
        SkipWhitespaceAndComments();
        if Look() != '\0' {
          HandleError(state);
          return false;
        }
      }
      return true;
    }

    method IterativeParseInit()
      modifies this`error, this`state
      ensures error == NoError && state == StartState
    {
      error := NoError;
      state := StartState;
    }

    /** Pull parsing: one call per event until the reader is complete or a call fails.  It sends
        the same events as the other parsers and accepts the same texts. */
    method ParseByEvents() returns (calls: nat)
      requires pos <= |src|
      modifies this`pos, this`log, this`error, this`stack, this`state
      ensures var r := Document(flags, src, old(pos), old(log));
              && (error == NoError <==> r.end.Ok?)
              && (r.end.Ok? ==> log == r.log && calls == |log| - |old(log)| && pos == r.end.value && IsComplete(state))
              && (!flags.comments ==> log == r.log && error != SetTwice)
      ensures !flags.comments ==>
                (IsComplete(state) <==> Document(flags.(stopWhenDone := true), src, old(pos), old(log)).end.Ok?)
    {
      hide SkipBlank, ScalarToken;
      IterativeParseInit();
      calls := 0;
      ghost var target := Pending();
      assert target == FirstValue(flags, src, pos, log);
      FirstValueStops(flags, src, pos, log);
      while !IsComplete(state)
        invariant Ready() && Fits(state, stack) && calls == |log| - |old(log)|
        invariant if state.FinishState? then Whole(flags, src, target) == Run(log, Ok(pos)) else Pending() == target
        decreases |src| - pos, if state.FinishState? then 0 else 1
      {
        var ok := IterativeParseNext();
        if !ok || error != NoError { return; }
        calls := calls + 1;
      }
    }

    /** At most n turns of the loop that the documentation shows, which looks at nothing but the
        state.  It ends on every text that begins with a value, and never on one that begins
        with something no value begins with. */
    method DocumentedLoop(n: nat) returns (calls: nat)
      requires pos <= |src|
      modifies this`pos, this`log, this`error, this`stack, this`state
      ensures var first := Document(flags.(stopWhenDone := true), src, old(pos), old(log));
              var r := Document(flags, src, old(pos), old(log));
              (r.end.Ok? || (!flags.comments && first.end.Ok?)) && n > |src| ==>
                && IsComplete(state) && log == r.log && calls == |log| - |old(log)|
                && (error == NoError <==> r.end.Ok?)
      ensures old(Look()) == '\0' || BadStart(flags, StartState, old(Look())) ==>
                calls == n && state.StartState? && pos == old(pos) && log == old(log) && (n > 0 ==> error != NoError)
    {
      hide SkipBlank, ScalarToken;
      IterativeParseInit();
      calls := 0;
      ghost var target := Pending();
      assert target == FirstValue(flags, src, pos, log);
      FirstValueStops(flags, src, pos, log);
      ghost var whole := Whole(flags, src, target).end.Ok?;
      ghost var good, stuck := whole || (!flags.comments && target.end.Ok?), Stuck();
      while !IsComplete(state) && calls < n
        invariant Callable() && calls <= n && !state.ErrorState?
        invariant good ==> calls == |log| - |old(log)|
        invariant good && !state.FinishState? ==> Running() && Pending() == target && calls <= pos - old(pos)
        invariant good && state.FinishState? ==> log == target.log && (error == NoError <==> whole)
        invariant stuck ==> Stuck() && pos == old(pos) && log == old(log) && state.StartState?
        invariant stuck && calls > 0 ==> error != NoError
      {
        var _ := IterativeParseNext();
        calls := calls + 1;
      }
    }

    method Parse()
      requires pos <= |src|
      modifies this`pos, this`log, this`error, this`stack
      ensures var r := Document(flags, src, old(pos), old(log));
              && log == r.log && error != SetTwice
              && (error == NoError <==> r.end.Ok?)
              && (r.end.Ok? ==> pos == r.end.value)
              && (!flags.iterative && r.end.Err? ==> error == Failed(r.end.error))
      ensures stack == []
    {
      if flags.iterative { IterativeParse(); } else { RecursiveParse(); }
    }
  }

  /** With comments allowed a call can succeed although it has set an error. */
  method BadCommentIsMissed(f: Flags) returns (ok: bool, error: Outcome)
    requires f.comments
    ensures ok && error != NoError
  {
    var reader := new GenericReader("/[]", f);
    reader.IterativeParseInit();
    ok := reader.IterativeParseNext();
    error := reader.error;
  }

  /** Behind a bad comment a second error can be set over the first one, against the assertion. */
  method BadCommentSetsTwice(f: Flags) returns (ok: bool, error: Outcome)
    requires f.comments
    ensures !ok && error == SetTwice
  {
    var reader := new GenericReader("/x", f);
    reader.IterativeParseInit();
    ok := reader.IterativeParseNext();
    error := reader.error;
  }

  /** The documented loop ends on "[]x", with an error. */
  method LoopEndsWithError(f: Flags) returns (complete: bool, error: Outcome)
    requires !f.comments && !f.stopWhenDone
    ensures complete && error != NoError
  {
    var s := "[]x";
    var reader := new GenericReader(s, f);
    ghost var g := f.(stopWhenDone := true);
    assert SkipBlank(f, s, 0) == Ok(0) && SkipBlank(f, s, 1) == Ok(1) && SkipBlank(f, s, 2) == Ok(2);
    assert SkipBlank(g, s, 0) == Ok(0) && SkipBlank(g, s, 1) == Ok(1);
    assert Array(f, s, 0, []).end == Ok(2) && Array(g, s, 0, []).end == Ok(2);
    var _ := reader.DocumentedLoop(4);
    complete, error := IsComplete(reader.state), reader.error;
  }

  /** The documented loop does not end on "x". */
  method LoopStaysAtX(f: Flags, n: nat) returns (calls: nat, complete: bool)
    ensures calls == n && !complete
  {
    var reader := new GenericReader("x", f);
    calls := reader.DocumentedLoop(n);
    complete := IsComplete(reader.state);
  }
}
