/** Writer and PrettyWriter: handlers that print the events they receive. */
module JsonWriter {
  import opened JsonText
  import opened JsonNode

  /** Compact is Writer; Pretty is PrettyWriter with its indentation and array options. */
  datatype Format = Compact | Pretty(indentChar: char, indentCharCount: nat, singleLineArray: bool)

  predicate FormatOk(m: Format) { m.Compact? || IsSpace(m.indentChar) }

  datatype Level = Level(valueCount: nat, inArray: bool)

  datatype Output = Output(os: string, levels: seq<Level>, hasRoot: bool)

  function Repeat(c: char, n: nat): (t: string)
    ensures |t| == n && forall k :: 0 <= k < n ==> t[k] == c
  {
    if n == 0 then "" else Repeat(c, n - 1) + [c]
  }

  function Indent(m: Format, depth: nat): string
    requires m.Pretty?
  {
    Repeat(m.indentChar, depth * m.indentCharCount)
  }

  function Top(levels: seq<Level>): Level
    requires levels != []
  {
    levels[|levels| - 1]
  }

  /** Prefix and PrettyPrefix: what is written before a value. */
  function Lead(m: Format, levels: seq<Level>): string {
    if levels == [] then ""
    else
      var top := Top(levels);
      match m
      case Compact =>
        if top.valueCount == 0 then ""
        else if top.inArray then "," else if top.valueCount % 2 == 0 then "," else ":"
      case Pretty(_, _, single) =>
        if top.inArray then
          (if top.valueCount > 0 then (if single then ", " else ",") else "")
          + (if single then "" else "\n" + Indent(m, |levels|))
        else if top.valueCount % 2 == 1 then ": "
        else (if top.valueCount > 0 then ",\n" else "\n") + Indent(m, |levels|)
  }

  function Counted(levels: seq<Level>): seq<Level> {
    if levels == [] then []
    else
      var top := Top(levels);
      levels[..|levels| - 1] + [top.(valueCount := top.valueCount + 1)]
  }

  /** The assertions of Prefix: one root, and names at the even places of an object. */
  predicate MayWrite(w: Output, isString: bool) {
    if w.levels == [] then !w.hasRoot
    else !Top(w.levels).inArray && Top(w.levels).valueCount % 2 == 0 ==> isString
  }

  function Begin(m: Format, w: Output): Output {
    Output(w.os + Lead(m, w.levels), Counted(w.levels), w.hasRoot || w.levels == [])
  }

  /** What is written before a closing bracket. */
  function Trail(m: Format, levels: seq<Level>): string
    requires levels != []
  {
    if m.Compact? || Top(levels).valueCount == 0 || (Top(levels).inArray && m.singleLineArray) then ""
    else "\n" + Indent(m, |levels| - 1)
  }

  // ---- scalars

  function DigitChar(d: nat): char
    requires d < 10
  {
    ('0' as int + d) as char
  }

  function Digits(n: nat): string {
    if n < 10 then [DigitChar(n)] else Digits(n / 10) + [DigitChar(n % 10)]
  }

  function IntegerText(i: int): string { if i < 0 then "-" + Digits(-i) else Digits(i) }

  function HexDigit(d: nat): char
    requires d < 16
  {
    "0123456789ABCDEF"[d]
  }

  /** The escape table: what follows the backslash, or zero for a character that stands for itself. */
  function EscapeCode(c: char): (e: char)
    ensures e == 'u' ==> c < ' '
  {
    match c
    case '"' => '"'
    case '\\' => '\\'
    case '\U{8}' => 'b'
    case '\t' => 't'
    case '\n' => 'n'
    case '\U{C}' => 'f'
    case '\r' => 'r'
    case _ => if c < ' ' then 'u' else '\0'
  }

  function EscapeChar(c: char): string {
    var e := EscapeCode(c);
    if e == '\0' then [c]
    else if e == 'u' then ['\\', 'u', '0', '0', HexDigit(c as int / 16), HexDigit(c as int % 16)]
    else ['\\', e]
  }

  function Escape(str: string): string {
    if str == "" then "" else Escape(str[..|str| - 1]) + EscapeChar(str[|str| - 1])
  }

  lemma EscapeGrows(str: string, k: nat)
    requires k < |str|
    ensures Escape(str[..k + 1]) == Escape(str[..k]) + EscapeChar(str[k])
  {
    assert str[..k + 1][..k] == str[..k];
  }

  function Quote(str: string): string { "\"" + Escape(str) + "\"" }

  predicate Printable(e: Event) { IsScalar(e) && !e.Double? }

  function ScalarText(e: Event): string
    requires Printable(e)
  {
    match e
    case Null => "null"
    case Bool(b) => if b then "true" else "false"
    case String(str) => Quote(str)
    case Int(i) => IntegerText(i)
    case Uint(u) => IntegerText(u)
    case Int64(i) => IntegerText(i)
    case Uint64(u) => IntegerText(u)
  }

  // ---- one event

  /** None where an assertion of the writer would fail. */
  function Write(m: Format, w: Output, e: Event): Option<Output> {
    match e
    case StartObject | StartArray =>
      if !MayWrite(w, false) then None
      else
        var b := Begin(m, w);
        Some(b.(os := b.os + (if e.StartArray? then "[" else "{"), levels := b.levels + [Level(0, e.StartArray?)]))
    case EndObject(_) =>
      if w.levels == [] || Top(w.levels).inArray || Top(w.levels).valueCount % 2 == 1 then None
      else Some(w.(os := w.os + Trail(m, w.levels) + "}", levels := w.levels[..|w.levels| - 1]))
    case EndArray(_) =>
      if w.levels == [] || !Top(w.levels).inArray then None
      else Some(w.(os := w.os + Trail(m, w.levels) + "]", levels := w.levels[..|w.levels| - 1]))
    case Key(name) =>
      if !MayWrite(w, true) then None
      else
        var b := Begin(m, w);
        Some(b.(os := b.os + Quote(name)))
    case _ =>
      if !Printable(e) || !MayWrite(w, e.String?) then None
      else
        var b := Begin(m, w);
        Some(b.(os := b.os + ScalarText(e)))
  }

  /** The writer's assertions: one root, strings where an object wants a name, and brackets that
      close what is open, an object only behind a member. */
  lemma AssertionsAre(m: Format, w: Output, e: Event)
    requires !e.Double?
    ensures Write(m, w, e).None? <==>
            match e
            case EndArray(_) => w.levels == [] || !w.levels[|w.levels| - 1].inArray
            case EndObject(_) =>
              w.levels == [] || w.levels[|w.levels| - 1].inArray || w.levels[|w.levels| - 1].valueCount % 2 != 0
            case _ =>
              if w.levels == [] then w.hasRoot
              else
                && !w.levels[|w.levels| - 1].inArray && w.levels[|w.levels| - 1].valueCount % 2 == 0
                && !e.String? && !e.Key?
  {
  }

  /** A character as the escape table has it: six short escapes, four hexadecimal digits, the last
      of them in upper case, for the other control characters, and all else as it is. */
  lemma EscapesAre(c: char)
    ensures EscapeChar(c) ==
            if c == '"' then "\\\""
            else if c == '\\' then "\\\\"
            else if c == 8 as char then "\\b"
            else if c == 9 as char then "\\t"
            else if c == 10 as char then "\\n"
            else if c == 12 as char then "\\f"
            else if c == 13 as char then "\\r"
            else if c < 16 as char then "\\u000" + ["0123456789ABCDEF"[c as int]]
            else if c < 32 as char then "\\u001" + ["0123456789ABCDEF"[c as int - 16]]
            else [c]
  {
  }

  function WriteAll(m: Format, w: Output, es: seq<Event>): Option<Output>
    decreases |es|
  {
    if es == [] then Some(w)
    else
      match Write(m, w, es[0])
      case None => None
      case Some(next) => WriteAll(m, next, es[1..])
  }

  // ---- the writers as objects

  /** Writer and its subclass PrettyWriter; the format says which. */
  class Writer {
    const format: Format
    var os: string
    var levelStack: seq<Level>
    var hasRoot: bool

    constructor (format: Format)
      ensures this.format == format && State() == Output("", [], false)
    {
      this.format := format;
      os, levelStack, hasRoot := "", [], false;
    }

    ghost function State(): Output
      reads this
    {
      Output(os, levelStack, hasRoot)
    }

    method PutN(c: char, n: nat)
      modifies this`os
      ensures os == old(os) + Repeat(c, n)
    {
      for k := 0 to n
        invariant os == old(os) + Repeat(c, k)
      {
        os := os + [c];
      }
    }

    method WriteIndent()
      requires format.Pretty?
      modifies this`os
      ensures os == old(os) + Indent(format, |levelStack|)
    {
      PutN(format.indentChar, |levelStack| * format.indentCharCount);
    }

    /** Prefix, or PrettyPrefix for a pretty format. */
    method Prefix(isString: bool)
      requires MayWrite(State(), isString)
      modifies this
      ensures State() == Begin(format, old(State()))
    {
      if levelStack != [] {
        var level := levelStack[|levelStack| - 1];
        if format.Compact? {
          if level.valueCount > 0 {
            if level.inArray {
              os := os + ",";
            } else {
              os := os + if level.valueCount % 2 == 0 then "," else ":";
            }
          }
        } else {
          PrettyPrefix(level);
        }
        levelStack := levelStack[..|levelStack| - 1] + [level.(valueCount := level.valueCount + 1)];
      } else {
        hasRoot := true;
      }
    }

    method PrettyPrefix(level: Level)
      requires format.Pretty? && levelStack != [] && level == Top(levelStack)
      modifies this`os
      ensures os == old(os) + Lead(format, levelStack)
    {
      if level.inArray {
        if level.valueCount > 0 {
          os := os + ",";
          if format.singleLineArray { os := os + " "; }
        }
        if !format.singleLineArray {
          os := os + "\n";
          WriteIndent();
        }
      } else {
        if level.valueCount > 0 {
          if level.valueCount % 2 == 0 {
            os := os + ",";
            os := os + "\n";
          } else {
            os := os + ":";
            os := os + " ";
          }
        } else {
          os := os + "\n";
        }
        if level.valueCount % 2 == 0 { WriteIndent(); }
      }
    }

    method WriteString(str: string)
      modifies this`os
      ensures os == old(os) + Quote(str)
    {
      os := os + "\"";
      ghost var start := os;
      for k := 0 to |str|
        invariant os == start + Escape(str[..k])
      {
        hide EscapeChar, Escape;
        EscapeGrows(str, k);
        WriteChar(str[k]);
        ConcatAssociative(start, Escape(str[..k]), EscapeChar(str[k]));
      }
      hide Escape, EscapeChar;
      assert str[..|str|] == str;
      ConcatAssociative(old(os), "\"", Escape(str));
      ConcatAssociative(old(os), "\"" + Escape(str), "\"");
      os := os + "\"";
    }

    /** The body of WriteString's loop. */
    method WriteChar(c: char)
      modifies this`os
      ensures os == old(os) + EscapeChar(c)
    {
      var escape := EscapeCode(c);
      if escape == '\0' {
        os := os + [c];
      } else {
        os := os + "\\";
        os := os + [escape];
        if escape == 'u' {
          os := os + "0";
          os := os + "0";
          os := os + [HexDigit(c as int / 16)];
          os := os + [HexDigit(c as int % 16)];
        }
      }
    }

    method Scalar(e: Event)
      requires Printable(e) && MayWrite(State(), e.String?)
      modifies this
      ensures Some(State()) == Write(format, old(State()), e)
    {
      Prefix(e.String?);
      if e.String? { WriteString(e.str); } else { os := os + ScalarText(e); }
    }

    method Key(name: string)
      requires MayWrite(State(), true)
      modifies this
      ensures Some(State()) == Write(format, old(State()), Event.Key(name))
    {
      Prefix(true);
      WriteString(name);
    }

    method StartObject()
      requires MayWrite(State(), false)
      modifies this
      ensures Some(State()) == Write(format, old(State()), Event.StartObject)
    {
      Prefix(false);
      levelStack := levelStack + [Level(0, false)];
      os := os + "{";
    }

    method StartArray()
      requires MayWrite(State(), false)
      modifies this
      ensures Some(State()) == Write(format, old(State()), Event.StartArray)
    {
      Prefix(false);
      levelStack := levelStack + [Level(0, true)];
      os := os + "[";
    }

    method EndObject(memberCount: nat)
      requires levelStack != [] && !Top(levelStack).inArray && Top(levelStack).valueCount % 2 == 0
      modifies this
      ensures Some(State()) == Write(format, old(State()), Event.EndObject(memberCount))
    {
      var empty := levelStack[|levelStack| - 1].valueCount == 0;
      levelStack := levelStack[..|levelStack| - 1];
      if format.Pretty? && !empty {
        os := os + "\n";
        WriteIndent();
      }
      assert os == old(os) + Trail(format, old(levelStack));
      os := os + "}";
    }

    /** Receives one event. */
    method Receive(e: Event)
      requires Write(format, State(), e).Some?
      modifies this
      ensures Some(State()) == Write(format, old(State()), e)
    {
      match e
      case StartObject => StartObject();
      case Key(name) => Key(name);
      case EndObject(n) => EndObject(n);
      case StartArray => StartArray();
      case EndArray(n) => EndArray(n);
      case _ => Scalar(e);
    }

    /** Receives a run of events that no assertion forbids. */
    method ReceiveAll(es: seq<Event>)
      requires WriteAll(format, State(), es).Some?
      modifies this
      ensures Some(State()) == WriteAll(format, old(State()), es)
    {
      hide Write;
      for k := 0 to |es|
        invariant WriteAll(format, State(), es[k..]) == WriteAll(format, old(State()), es)
      {
        assert es[k..][1..] == es[k + 1..];
        Receive(es[k]);
      }
    }

    method EndArray(elementCount: nat)
      requires levelStack != [] && Top(levelStack).inArray
      modifies this
      ensures Some(State()) == Write(format, old(State()), Event.EndArray(elementCount))
    {
      var empty := levelStack[|levelStack| - 1].valueCount == 0;
      levelStack := levelStack[..|levelStack| - 1];
      if format.Pretty? && !empty && !format.singleLineArray {
        os := os + "\n";
        WriteIndent();
      }
      assert os == old(os) + Trail(format, old(levelStack));
      os := os + "]";
    }
  }
}
