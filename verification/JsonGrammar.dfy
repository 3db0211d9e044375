/** The grammar of JSON texts as concrete syntax trees (sections 2 to 7 of RFC 8259), with the
    extensions that the parse flags allow, and what each tree means to a handler. */
module JsonGrammar {
  import opened JsonText

  // ---- white space and comments (section 2)

  /** A comment that runs to the end of the text has no line feed to close it. */
  datatype Gap = Space(c: char) | Block(body: string) | Line(body: string) | OpenLine(body: string)

  type Gaps = seq<Gap>

  function GapText(g: Gap): string {
    match g
    case Space(c) => [c]
    case Block(body) => "/*" + (body + "*/")
    case Line(body) => "//" + (body + "\n")
    case OpenLine(body) => "//" + body
  }

  /** The first "*" "/" behind the body is the one that closes the comment. */
  predicate NoClose(body: string) {
    forall k :: 0 <= k < |body| ==> !(body[k] == '*' && (body + "*/")[k + 1] == '/')
  }

  predicate GapOk(f: Flags, g: Gap) {
    match g
    case Space(c) => IsSpace(c)
    case Block(body) =>
      f.comments && '\0' !in body && NoClose(body)
    case Line(body) => f.comments && '\0' !in body && '\n' !in body
    case OpenLine(body) => f.comments && '\0' !in body && '\n' !in body
  }

  function GapsText(gs: Gaps): string {
    if gs == [] then "" else GapText(gs[0]) + GapsText(gs[1..])
  }

  predicate GapsOk(f: Flags, gs: Gaps, atEnd: bool) {
    gs == [] || (GapOk(f, gs[0]) && (gs[0].OpenLine? ==> atEnd && |gs| == 1) && GapsOk(f, gs[1..], atEnd))
  }

  // ---- strings (section 7)

  datatype Piece = Raw(c: char) | Escaped(c: char) | Unicode(h: string) | Surrogates(high: string, low: string)

  function PieceText(p: Piece): string {
    match p
    case Raw(c) => [c]
    case Escaped(c) => ['\\', c]
    case Unicode(h) => "\\u" + h
    case Surrogates(high, low) => "\\u" + (high + ("\\u" + low))
  }

  predicate FourHex(h: string) { |h| == 4 && IsHex(h[0]) && IsHex(h[1]) && IsHex(h[2]) && IsHex(h[3]) }

  function FourHexValue(h: string): (v: nat)
    requires FourHex(h)
    ensures v < 0x1_0000
  {
    4096 * Hex(h[0]) + 256 * Hex(h[1]) + 16 * Hex(h[2]) + Hex(h[3])
  }

  predicate PieceOk(f: Flags, p: Piece) {
    match p
    case Raw(c) => c >= ' ' && c != '"' && c != '\\'
    case Escaped(c) => IsSimpleEscape(c) || (f.escapedApostrophe && c == '\'')
    case Unicode(h) => FourHex(h) && !(0xD800 <= FourHexValue(h) <= 0xDFFF)
    case Surrogates(high, low) =>
      && FourHex(high) && FourHex(low)
      && 0xD800 <= FourHexValue(high) <= 0xDBFF && 0xDC00 <= FourHexValue(low) <= 0xDFFF
  }

  /** The code units a piece stands for. */
  function PieceUnits(f: Flags, p: Piece): string
    requires PieceOk(f, p)
  {
    match p
    case Raw(c) => [c]
    case Escaped(c) => if IsSimpleEscape(c) then [SimpleEscape(c)] else [c]
    case Unicode(h) => Utf8(FourHexValue(h))
    case Surrogates(high, low) => Utf8(SurrogatePair(FourHexValue(high), FourHexValue(low)))
  }

  predicate PiecesOk(f: Flags, ps: seq<Piece>) { forall k :: 0 <= k < |ps| ==> PieceOk(f, ps[k]) }

  /** With the closing quotation mark. */
  function PiecesText(ps: seq<Piece>): string {
    if ps == [] then "\"" else PieceText(ps[0]) + PiecesText(ps[1..])
  }

  function PiecesUnits(f: Flags, ps: seq<Piece>): string
    requires PiecesOk(f, ps)
  {
    if ps == [] then "" else PieceUnits(f, ps[0]) + PiecesUnits(f, ps[1..])
  }

  function QuotedText(ps: seq<Piece>): string { "\"" + PiecesText(ps) }

  // ---- numbers (section 6)

  datatype Whole = Digits(t: string) | NaN | Inf | Infinity

  /** An absent fraction is the empty string; so is an absent exponent. */
  datatype Number = Number(minus: bool, whole: Whole, fraction: string, mark: string, exponent: string)

  function WholeText(w: Whole): string {
    match w
    case Digits(t) => t
    case NaN => "NaN"
    case Inf => "Inf"
    case Infinity => "Infinity"
  }

  function FractionText(n: Number): string { if n.fraction == "" then "" else "." + n.fraction }

  function NumberText(n: Number): string {
    (if n.minus then "-" else "") + (WholeText(n.whole) + (FractionText(n) + (n.mark + n.exponent)))
  }

  /** How an exponent starts, if there is one. */
  predicate IsMark(m: string) {
    |m| <= 2 && (|m| > 0 ==> m[0] == 'e' || m[0] == 'E') && (|m| > 1 ==> m[1] == '+' || m[1] == '-')
  }

  predicate NumberWellFormed(f: Flags, n: Number) {
    && (match n.whole
        case Digits(t) => t != "" && AllDigits(t) && (t[0] == '0' ==> |t| == 1)
        case _ => f.nanAndInf)
    && AllDigits(n.fraction) && AllDigits(n.exponent)
    && (n.exponent == "" <==> n.mark == "")
    && IsMark(n.mark)
  }

  function WholeValue(f: Flags, n: Number): nat
    requires NumberWellFormed(f, n)
  {
    if n.whole.Digits? then Decimal(n.whole.t) else 0
  }

  function Big(f: Flags, n: Number): bool
    requires NumberWellFormed(f, n)
  {
    WholeValue(f, n) > Limit64(n.minus)
  }

  predicate IsDouble(f: Flags, n: Number)
    requires NumberWellFormed(f, n)
  {
    Big(f, n) || n.fraction != "" || n.exponent != ""
  }

  function Scale(f: Flags, n: Number): nat
    requires NumberWellFormed(f, n)
  {
    FractionKept(n.fraction, WholeValue(f, n), if n.whole.Digits? then |n.whole.t| - 1 else 0, Big(f, n))
  }

  /** A well-formed number that the reader does not find too big for a double. */
  predicate NumberOk(f: Flags, n: Number) {
    && NumberWellFormed(f, n)
    && (n.mark != "" && (|n.mark| == 1 || n.mark[1] != '-') ==> Decimal(n.exponent) <= 308 + Scale(f, n))
    && (IsDouble(f, n) ==> !f.overflows(NumberText(n)))
  }

  /** Integers are exact, negative ones signed and the others unsigned, in 32 bits when they fit. */
  function NumberEvent(f: Flags, n: Number): Event
    requires NumberOk(f, n)
  {
    if IsDouble(f, n) || !n.whole.Digits? then Double(NumberText(n))
    else IntegerEvent(n.minus, Decimal(n.whole.t))
  }

  // ---- values, objects and arrays (sections 3 to 5)

  datatype Literal = NullWord | TrueWord | FalseWord | Quoted(ps: seq<Piece>) | Numeric(n: Number)

  function LiteralText(l: Literal): string {
    match l
    case NullWord => "null"
    case TrueWord => "true"
    case FalseWord => "false"
    case Quoted(ps) => QuotedText(ps)
    case Numeric(n) => NumberText(n)
  }

  predicate LiteralOk(f: Flags, l: Literal) {
    match l
    case Quoted(ps) => PiecesOk(f, ps)
    case Numeric(n) => NumberOk(f, n)
    case _ => true
  }

  function LiteralEvent(f: Flags, l: Literal): Event
    requires LiteralOk(f, l)
  {
    match l
    case NullWord => Null
    case TrueWord => Bool(true)
    case FalseWord => Bool(false)
    case Quoted(ps) => String(PiecesUnits(f, ps))
    case Numeric(n) => NumberEvent(f, n)
  }

  datatype Tree = Scalar(l: Literal) | Array(lead: Gaps, elems: Elems) | Object(lead: Gaps, membs: Membs)

  /** What stands between the brackets; NoElem also ends a list with a trailing comma. */
  datatype Elems = NoElem | Elem(v: Tree, after: Gaps, more: bool, gap: Gaps, rest: Elems)

  datatype Membs = NoMemb
    | Memb(
        name: seq<Piece>, beforeColon: Gaps, afterColon: Gaps, v: Tree, after: Gaps, more: bool, gap: Gaps, rest: Membs)

  function Text(t: Tree): string
    decreases t, 2
  {
    match t
    case Scalar(l) => LiteralText(l)
    case Array(lead, es) => "[" + (GapsText(lead) + ElemsText(es))
    case Object(lead, ms) => "{" + (GapsText(lead) + MembsText(ms))
  }

  /** With the closing bracket. */
  function ElemsText(es: Elems): string
    decreases es, 1
  {
    if es.NoElem? then "]" else Text(es.v) + (GapsText(es.after) + ElemTail(es))
  }

  /** From behind the first element and its blanks. */
  function ElemTail(es: Elems): string
    requires es.Elem?
    decreases es, 0
  {
    if es.more then "," + (GapsText(es.gap) + ElemsText(es.rest)) else "]"
  }

  function MembsText(ms: Membs): string
    decreases ms, 1
  {
    if ms.NoMemb? then "}"
    else
      QuotedText(ms.name) + (GapsText(ms.beforeColon) + (":" + (GapsText(ms.afterColon)
      + (Text(ms.v) + (GapsText(ms.after) + MembTail(ms))))))
  }

  function MembTail(ms: Membs): string
    requires ms.Memb?
    decreases ms, 0
  {
    if ms.more then "," + (GapsText(ms.gap) + MembsText(ms.rest)) else "}"
  }

  predicate TreeOk(f: Flags, t: Tree) {
    match t
    case Scalar(l) => LiteralOk(f, l)
    case Array(lead, es) => GapsOk(f, lead, false) && ElemsOk(f, es)
    case Object(lead, ms) => GapsOk(f, lead, false) && MembsOk(f, ms)
  }

  predicate ElemsOk(f: Flags, es: Elems) {
    match es
    case NoElem => true
    case Elem(v, after, more, gap, rest) =>
      && TreeOk(f, v) && GapsOk(f, after, false)
      && (more ==> GapsOk(f, gap, false) && ElemsOk(f, rest) && (rest.NoElem? ==> f.trailingCommas))
      && (!more ==> gap == [] && rest.NoElem?)
  }

  predicate MembsOk(f: Flags, ms: Membs) {
    match ms
    case NoMemb => true
    case Memb(name, g1, g2, v, after, more, gap, rest) =>
      && PiecesOk(f, name) && GapsOk(f, g1, false) && GapsOk(f, g2, false)
      && TreeOk(f, v) && GapsOk(f, after, false)
      && (more ==> GapsOk(f, gap, false) && MembsOk(f, rest) && (rest.NoMemb? ==> f.trailingCommas))
      && (!more ==> gap == [] && rest.NoMemb?)
  }

  function ElemCount(es: Elems): nat { if es.NoElem? then 0 else 1 + ElemCount(es.rest) }

  function MembCount(ms: Membs): nat { if ms.NoMemb? then 0 else 1 + MembCount(ms.rest) }

  /** What a handler hears of the tree. */
  function Events(f: Flags, t: Tree): seq<Event>
    requires TreeOk(f, t)
  {
    match t
    case Scalar(l) => [LiteralEvent(f, l)]
    case Array(_, es) => [StartArray] + ElemsEvents(f, es) + [EndArray(ElemCount(es) % SIZE_TYPE_RANGE)]
    case Object(_, ms) => [StartObject] + MembsEvents(f, ms) + [EndObject(MembCount(ms) % SIZE_TYPE_RANGE)]
  }

  function ElemsEvents(f: Flags, es: Elems): seq<Event>
    requires ElemsOk(f, es)
  {
    if es.NoElem? then [] else Events(f, es.v) + ElemsEvents(f, es.rest)
  }

  function MembsEvents(f: Flags, ms: Membs): seq<Event>
    requires MembsOk(f, ms)
  {
    if ms.NoMemb? then []
    else [Key(PiecesUnits(f, ms.name))] + Events(f, ms.v) + MembsEvents(f, ms.rest)
  }

  datatype Doc = Doc(lead: Gaps, root: Tree, trail: Gaps)

  function DocText(d: Doc): string { GapsText(d.lead) + (Text(d.root) + GapsText(d.trail)) }

  predicate DocOk(f: Flags, d: Doc) {
    GapsOk(f, d.lead, false) && TreeOk(f, d.root) && GapsOk(f, d.trail, true)
  }
}
