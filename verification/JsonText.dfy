/** What RapidJSON's reader sees and produces: the input stream, the parse flags, the handler
    events and the parse errors, and the lexical functions that every parser shares. */
module JsonText {

  datatype Option<+T> = None | Some(value: T)

  datatype Try<+T> = Ok(value: T) | Err(error: ParseError)

  datatype ErrorCode =
    | DocumentEmpty | DocumentRootNotSingular | ValueInvalid
    | ObjectMissName | ObjectMissColon | ObjectMissCommaOrCurlyBracket
    | ArrayMissCommaOrSquareBracket
    | StringUnicodeEscapeInvalidHex | StringUnicodeSurrogateInvalid | StringEscapeInvalid
    | StringMissQuotationMark | StringInvalidEncoding
    | NumberTooBig | NumberMissFraction | NumberMissExponent
    | UnspecificSyntaxError

  datatype ParseError = ParseError(code: ErrorCode, offset: nat)

  /** The parse flags that change which texts are accepted.  `overflows` says of a number
      literal whether its conversion to double leaves the range of double. */
  datatype Flags = Flags(
    iterative: bool, comments: bool, trailingCommas: bool, stopWhenDone: bool,
    nanAndInf: bool, escapedApostrophe: bool, overflows: string -> bool)

  /** One call of the handler.  A double is identified by its literal. */
  datatype Event =
    | Null | Bool(b: bool)
    | Int(i: int) | Uint(u: nat) | Int64(i64: int) | Uint64(u64: nat)
    | Double(literal: string)
    | String(str: string)
    | StartObject | Key(name: string) | EndObject(memberCount: nat)
    | StartArray | EndArray(elementCount: nat)

  /** SizeType is a 32-bit unsigned integer; counts wrap. */
  const SIZE_TYPE_RANGE: nat := 0x1_0000_0000

  function Increment(n: nat): nat { (n + 1) % SIZE_TYPE_RANGE }

  /** The stream reads zero at and after its end. */
  function Peek(s: string, i: nat): char { if i < |s| then s[i] else '\0' }

  lemma ConcatAssociative<T>(a: seq<T>, b: seq<T>, c: seq<T>)
    ensures (a + b) + c == a + (b + c)
  {
  }

  // ---- white space and comments

  predicate IsSpace(c: char) { c == ' ' || c == '\n' || c == '\r' || c == '\t' }

  function SkipSpaces(s: string, i: nat): (j: nat)
    requires i <= |s|
    ensures i <= j <= |s| && !IsSpace(Peek(s, j))
    decreases |s| - i
  {
    if i < |s| && IsSpace(s[i]) then SkipSpaces(s, i + 1) else i
  }

  /** The position after the first "*" "/" at or after i. */
  function BlockEnd(s: string, i: nat): (r: Try<nat>)
    requires i <= |s|
    ensures r.Ok? ==> i + 2 <= r.value <= |s|
    decreases |s| - i
  {
    if Peek(s, i) == '\0' then Err(ParseError(UnspecificSyntaxError, i))
    else if s[i] == '*' && Peek(s, i + 1) == '/' then Ok(i + 2)
    else BlockEnd(s, i + 1)
  }

  /** The position after the line that contains i. */
  function LineEnd(s: string, i: nat): (j: nat)
    requires i <= |s|
    ensures i <= j <= |s|
    decreases |s| - i
  {
    if Peek(s, i) == '\0' then i
    else if s[i] == '\n' then i + 1
    else LineEnd(s, i + 1)
  }

  /** The end of the comment whose slash is at i. */
  function CommentEnd(s: string, i: nat): (r: Try<nat>)
    requires i < |s|
    ensures r.Ok? ==> i < r.value <= |s|
  {
    if Peek(s, i + 1) == '*' then BlockEnd(s, i + 2)
    else if Peek(s, i + 1) == '/' then Ok(LineEnd(s, i + 2))
    else Err(ParseError(UnspecificSyntaxError, i + 1))
  }

  function SkipComments(s: string, i: nat): (r: Try<nat>)
    requires i <= |s|
    ensures r.Ok? ==> i <= r.value <= |s|
    decreases |s| - i
  {
    if Peek(s, i) != '/' then Ok(i)
    else
      match CommentEnd(s, i)
      case Err(e) => Err(e)
      case Ok(j) => SkipComments(s, SkipSpaces(s, j))
  }

  function SkipBlank(f: Flags, s: string, i: nat): (r: Try<nat>)
    requires i <= |s|
    ensures r.Ok? ==> i <= r.value <= |s|
  {
    var j := SkipSpaces(s, i);
    if f.comments then SkipComments(s, j) else Ok(j)
  }

  // ---- scalars

  datatype Lexed<+T> = Lexed(token: T, end: nat)

  /** How many characters of `word` the stream matches at i. */
  function Matched(s: string, i: nat, word: string): (n: nat)
    ensures n <= |word|
    ensures word != "" && Peek(s, i) == word[0] ==> 1 <= n
    ensures '\0' !in word && n > 0 ==> i + n <= |s|
    decreases |word|
  {
    if word == "" || Peek(s, i) != word[0] then 0 else 1 + Matched(s, i + 1, word[1..])
  }

  function Word(s: string, i: nat, word: string, event: Event): (r: Try<Lexed<Event>>)
    ensures r.Ok? && word != "" && '\0' !in word ==> i < r.value.end <= |s|
  {
    var n := Matched(s, i, word);
    if n == |word| then Ok(Lexed(event, i + n)) else Err(ParseError(ValueInvalid, i + n))
  }

  predicate IsDigit(c: char) { '0' <= c <= '9' }

  function Digit(c: char): (d: nat)
    requires IsDigit(c)
    ensures d <= 9
  {
    c as int - '0' as int
  }

  predicate AllDigits(t: string) { forall k :: 0 <= k < |t| ==> IsDigit(t[k]) }

  function Decimal(t: string): nat
    requires AllDigits(t)
  {
    if t == "" then 0 else 10 * Decimal(t[..|t| - 1]) + Digit(t[|t| - 1])
  }

  function DigitsEnd(s: string, i: nat): (j: nat)
    requires i <= |s|
    ensures i <= j <= |s| && AllDigits(s[i..j]) && !IsDigit(Peek(s, j))
    ensures IsDigit(Peek(s, i)) ==> i < j
    decreases |s| - i
  {
    if i < |s| && IsDigit(s[i]) then
      var j := DigitsEnd(s, i + 1);
      assert s[i..j] == [s[i]] + s[i + 1..j];
      j
    else i
  }

  /** The integer part of a number: where it ends, its value, how many digits follow the first,
      and whether it is a spelled-out NaN or infinity. */
  datatype Head = Head(end: nat, value: nat, moreDigits: nat, special: bool)

  function IntegerPart(f: Flags, s: string, p: nat): (r: Try<Head>)
    requires p <= |s|
    ensures r.Ok? ==> p < r.value.end <= |s|
  {
    if Peek(s, p) == '0' then Ok(Head(p + 1, 0, 0, false))
    else if IsDigit(Peek(s, p)) then
      var q := DigitsEnd(s, p);
      Ok(Head(q, Decimal(s[p..q]), q - p - 1, false))
    else if f.nanAndInf && Peek(s, p) == 'N' then
      var n := Matched(s, p, "NaN");
      if n == 3 then Ok(Head(p + 3, 0, 0, true)) else Err(ParseError(ValueInvalid, p + n))
    else if f.nanAndInf && Peek(s, p) == 'I' then
      var n := Matched(s, p, "Inf");
      if n < 3 then Err(ParseError(ValueInvalid, p + n))
      else if Peek(s, p + 3) != 'i' then Ok(Head(p + 3, 0, 0, true))
      else
        var m := Matched(s, p + 3, "inity");
        if m == 5 then Ok(Head(p + 8, 0, 0, true)) else Err(ParseError(ValueInvalid, p + 3 + m))
    else Err(ParseError(ValueInvalid, p))
  }

  const INT32_MIN_MAGNITUDE: nat := 0x8000_0000
  const UINT32_MAX: nat := 0xFFFF_FFFF
  const INT64_MIN_MAGNITUDE: nat := 0x8000_0000_0000_0000
  const UINT64_MAX: nat := 0xFFFF_FFFF_FFFF_FFFF

  function Limit32(minus: bool): nat { if minus then INT32_MIN_MAGNITUDE else UINT32_MAX }

  function Limit64(minus: bool): nat { if minus then INT64_MIN_MAGNITUDE else UINT64_MAX }

  function IntegerEvent(minus: bool, v: nat): Event
    requires v <= Limit64(minus)
  {
    var i: int := v;
    if v <= Limit32(minus) then (if minus then Int(-i) else Uint(v))
    else (if minus then Int64(-i) else Uint64(v))
  }

  /** How many fraction digits enter the significand: all while it stays below 2^53, then
      only up to seventeen significant digits. */
  function FractionKept(t: string, m: nat, significant: nat, wide: bool): (n: nat)
    requires AllDigits(t)
    ensures n <= |t|
  {
    if t == "" then 0
    else if !wide && m <= 0x1F_FFFF_FFFF_FFFF then
      var m' := 10 * m + Digit(t[0]);
      1 + FractionKept(t[1..], m', if m' != 0 then significant + 1 else significant, false)
    else if significant < 17 then 1 + FractionKept(t[1..], m, significant + 1, true)
    else 0
  }

  /** The fraction, if any: where it ends and how many of its digits enter the significand. */
  function FractionPart(s: string, h: Head, big: bool): (r: Try<Lexed<nat>>)
    requires h.end <= |s|
    ensures r.Ok? ==> h.end <= r.value.end <= |s|
  {
    if Peek(s, h.end) != '.' then Ok(Lexed(0, h.end))
    else if !IsDigit(Peek(s, h.end + 1)) then Err(ParseError(NumberMissFraction, h.end + 1))
    else
      var q := DigitsEnd(s, h.end + 1);
      Ok(Lexed(FractionKept(s[h.end + 1..q], h.value, h.moreDigits, big), q))
  }

  /** The exponent, if any.  A positive one that alone pushes the number past 1e308 is an error. */
  function ExponentPart(s: string, start: nat, q: nat, scale: nat): (r: Try<nat>)
    requires q <= |s|
    ensures r.Ok? ==> q <= r.value <= |s|
  {
    if Peek(s, q) != 'e' && Peek(s, q) != 'E' then Ok(q)
    else
      var y := if Peek(s, q + 1) == '+' || Peek(s, q + 1) == '-' then q + 2 else q + 1;
      if !IsDigit(Peek(s, y)) then Err(ParseError(NumberMissExponent, y))
      else
        var z := DigitsEnd(s, y);
        if Peek(s, q + 1) != '-' && Decimal(s[y..z]) > 308 + scale then Err(ParseError(NumberTooBig, start))
        else Ok(z)
  }

  function NumberToken(f: Flags, s: string, i: nat): (r: Try<Lexed<Event>>)
    requires i <= |s|
    ensures r.Ok? ==> i < r.value.end <= |s|
  {
    var minus := Peek(s, i) == '-';
    match IntegerPart(f, s, if minus then i + 1 else i)
    case Err(e) => Err(e)
    case Ok(h) =>
      var big := h.value > Limit64(minus);
      match FractionPart(s, h, big)
      case Err(e) => Err(e)
      case Ok(frac) =>
        match ExponentPart(s, i, frac.end, frac.token)
        case Err(e) => Err(e)
        case Ok(z) =>
          if big || h.end < z then
            if f.overflows(s[i..z]) then Err(ParseError(NumberTooBig, i)) else Ok(Lexed(Double(s[i..z]), z))
          else if h.special then Ok(Lexed(Double(s[i..z]), z))
          else Ok(Lexed(IntegerEvent(minus, h.value), z))
  }

  // ---- strings

  predicate IsHex(c: char) { '0' <= c <= '9' || 'A' <= c <= 'F' || 'a' <= c <= 'f' }

  function Hex(c: char): (d: nat)
    requires IsHex(c)
    ensures d < 16
  {
    if '0' <= c <= '9' then c as int - '0' as int
    else if 'A' <= c <= 'F' then c as int - 'A' as int + 10
    else c as int - 'a' as int + 10
  }

  function Hex4(s: string, i: nat, escapeOffset: nat): (r: Try<nat>)
    ensures r.Ok? ==> i + 4 <= |s| && r.value < 0x1_0000
  {
    if IsHex(Peek(s, i)) && IsHex(Peek(s, i + 1)) && IsHex(Peek(s, i + 2)) && IsHex(Peek(s, i + 3)) then
      Ok(4096 * Hex(s[i]) + 256 * Hex(s[i + 1]) + 16 * Hex(s[i + 2]) + Hex(s[i + 3]))
    else Err(ParseError(StringUnicodeEscapeInvalidHex, escapeOffset))
  }

  /** UTF8::Encode.  The bits of the pieces are disjoint, so bitwise or is addition. */
  function Utf8(codepoint: nat): (t: string)
    requires codepoint <= 0x10FFFF
    ensures 1 <= |t| <= 4
  {
    if codepoint <= 0x7F then [codepoint as char]
    else if codepoint <= 0x7FF then
      [(0xC0 + codepoint / 64) as char, (0x80 + codepoint % 64) as char]
    else if codepoint <= 0xFFFF then
      [(0xE0 + codepoint / 4096) as char, (0x80 + codepoint / 64 % 64) as char, (0x80 + codepoint % 64) as char]
    else
      [(0xF0 + codepoint / 262144) as char, (0x80 + codepoint / 4096 % 64) as char,
       (0x80 + codepoint / 64 % 64) as char, (0x80 + codepoint % 64) as char]
  }

  predicate IsSimpleEscape(c: char) { c in "\"/\\bfnrt" }

  function SimpleEscape(c: char): char
    requires IsSimpleEscape(c)
  {
    match c
    case 'b' => '\U{8}'
    case 'f' => '\U{C}'
    case 'n' => '\n'
    case 'r' => '\r'
    case 't' => '\t'
    case _ => c
  }

  function SurrogatePair(high: nat, low: nat): (c: nat)
    requires 0xD800 <= high <= 0xDBFF && 0xDC00 <= low <= 0xDFFF
    ensures 0x10000 <= c <= 0x10FFFF
  {
    (high - 0xD800) * 1024 + (low - 0xDC00) + 0x10000
  }

  /** What follows the backslash and the u at i: the code point it names and where it ends. */
  function UnicodeEscape(s: string, i: nat, escapeOffset: nat): (r: Try<Lexed<nat>>)
    ensures r.Ok? ==> i < r.value.end <= |s| && r.value.token <= 0x10FFFF
  {
    match Hex4(s, i, escapeOffset)
    case Err(e) => Err(e)
    case Ok(c) =>
      if !(0xD800 <= c <= 0xDFFF) then Ok(Lexed(c, i + 4))
      else if c > 0xDBFF || Peek(s, i + 4) != '\\' || Peek(s, i + 5) != 'u' then
        Err(ParseError(StringUnicodeSurrogateInvalid, escapeOffset))
      else
        match Hex4(s, i + 6, escapeOffset)
        case Err(e) => Err(e)
        case Ok(c2) =>
          if !(0xDC00 <= c2 <= 0xDFFF) then Err(ParseError(StringUnicodeSurrogateInvalid, escapeOffset))
          else Ok(Lexed(SurrogatePair(c, c2), i + 10))
  }

  /** One step inside a string: the code units it stands for and where it ends; None at the
      closing quotation mark. */
  function StringStep(f: Flags, s: string, i: nat): (r: Try<Lexed<string>>)
    requires i <= |s| && Peek(s, i) != '"'
    ensures r.Ok? ==> i < r.value.end <= |s|
  {
    var c := Peek(s, i);
    if c == '\\' then
      var e := Peek(s, i + 1);
      if IsSimpleEscape(e) then Ok(Lexed([SimpleEscape(e)], i + 2))
      else if f.escapedApostrophe && e == '\'' then Ok(Lexed("\'", i + 2))
      else if e == 'u' then
        match UnicodeEscape(s, i + 2, i)
        case Err(e) => Err(e)
        case Ok(u) => Ok(Lexed(Utf8(u.token), u.end))
      else Err(ParseError(StringEscapeInvalid, i))
    else if c == '\0' then Err(ParseError(StringMissQuotationMark, i))
    else if c < ' ' then Err(ParseError(StringInvalidEncoding, i))
    else Ok(Lexed([c], i + 1))
  }

  /** The rest of a string whose first decoded characters are `sofar`. */
  function StringRest(f: Flags, s: string, i: nat, sofar: string): (r: Try<Lexed<string>>)
    requires i <= |s|
    ensures r.Ok? ==> i < r.value.end <= |s|
    decreases |s| - i
  {
    if Peek(s, i) == '"' then Ok(Lexed(sofar, i + 1))
    else
      match StringStep(f, s, i)
      case Err(e) => Err(e)
      case Ok(step) => StringRest(f, s, step.end, sofar + step.token)
  }

  /** The value that starts at i, when it is neither an object nor an array. */
  function ScalarToken(f: Flags, s: string, i: nat): (r: Try<Lexed<Event>>)
    requires i <= |s|
    ensures r.Ok? ==> i < r.value.end <= |s|
  {
    match Peek(s, i)
    case 'n' => Word(s, i, "null", Null)
    case 't' => Word(s, i, "true", Bool(true))
    case 'f' => Word(s, i, "false", Bool(false))
    case '"' =>
      (match StringRest(f, s, i + 1, "")
       case Err(e) => Err(e)
       case Ok(str) => Ok(Lexed(String(str.token), str.end)))
    case _ => NumberToken(f, s, i)
  }
}
