/** What the writers print is in the grammar, whatever the format, and the readers and the document
    give the value back. */
module JsonRoundTrip {
  import opened JsonText
  import opened JsonNode
  import opened JsonWriter
  import opened JsonDescent
  import opened JsonLexing
  import opened JsonAcceptance
  import opened JsonDigits
  import G = JsonGrammar

  // ---- the concrete syntax of what is printed

  function SpaceGaps(c: char, n: nat): G.Gaps {
    if n == 0 then [] else [G.Space(c)] + SpaceGaps(c, n - 1)
  }

  function NewLine(m: Format, depth: nat): G.Gaps
    requires m.Pretty?
  {
    [G.Space('\n')] + SpaceGaps(m.indentChar, depth * m.indentCharCount)
  }

  /** The blanks before an element or a name, behind the comma if there is one. */
  function LeadGaps(m: Format, inArray: bool, first: bool, depth: nat): G.Gaps {
    if m.Compact? then []
    else if inArray && m.singleLineArray then (if first then [] else [G.Space(' ')])
    else NewLine(m, depth)
  }

  /** The blanks before the closing bracket. */
  function TrailGaps(m: Format, inArray: bool, depth: nat): G.Gaps
    requires depth > 0
  {
    if m.Compact? || (inArray && m.singleLineArray) then [] else NewLine(m, depth - 1)
  }

  function ColonGaps(m: Format): G.Gaps { if m.Compact? then [] else [G.Space(' ')] }

  function PieceOf(c: char): G.Piece {
    var e := EscapeCode(c);
    if e == '\0' then G.Raw(c)
    else if e == 'u' then G.Unicode(['0', '0', HexDigit(c as int / 16), HexDigit(c as int % 16)])
    else G.Escaped(e)
  }

  function PiecesOf(str: string): (ps: seq<G.Piece>)
    ensures |ps| == |str|
  {
    if str == "" then [] else [PieceOf(str[0])] + PiecesOf(str[1..])
  }

  function LiteralOf(e: Event): G.Literal
    requires Printable(e)
  {
    if e.Null? then G.NullWord
    else if e.Bool? then (if e.b then G.TrueWord else G.FalseWord)
    else if e.String? then G.Quoted(PiecesOf(e.str))
    else
      var i := Integer(e);
      G.Numeric(G.Number(i < 0, G.Digits(Digits(if i < 0 then -i else i)), "", "", ""))
  }

  /** An integer of 64 bits, signed or unsigned. */
  predicate InRange(i: int) { i <= UINT64_MAX && -i <= INT64_MIN_MAGNITUDE }

  predicate PrintableNode(n: Node) {
    match n
    case Scalar(e) => Printable(e) && (IsInteger(e) ==> InRange(Integer(e)))
    case Array(es) => forall k :: 0 <= k < |es| ==> PrintableNode(es[k])
    case Object(ms) => forall k :: 0 <= k < |ms| ==> PrintableNode(ms[k].value)
  }

  function Layout(m: Format, n: Node, depth: nat): G.Tree
    requires PrintableNode(n)
    decreases n, 1
  {
    match n
    case Scalar(e) => G.Scalar(LiteralOf(e))
    case Array(es) =>
      if es == [] then G.Array([], G.NoElem)
      else G.Array(LeadGaps(m, true, true, depth + 1), LayoutElems(m, es, depth + 1))
    case Object(ms) =>
      if ms == [] then G.Object([], G.NoMemb)
      else G.Object(LeadGaps(m, false, true, depth + 1), LayoutMembers(m, ms, depth + 1))
  }

  function LayoutElems(m: Format, es: seq<Node>, depth: nat): (r: G.Elems)
    requires es != [] && depth > 0 && forall k :: 0 <= k < |es| ==> PrintableNode(es[k])
    ensures r.Elem?
    decreases es, 0
  {
    var v := Layout(m, es[0], depth);
    if |es| == 1 then G.Elem(v, TrailGaps(m, true, depth), false, [], G.NoElem)
    else G.Elem(v, [], true, LeadGaps(m, true, false, depth), LayoutElems(m, es[1..], depth))
  }

  function LayoutMembers(m: Format, ms: seq<Member>, depth: nat): (r: G.Membs)
    requires ms != [] && depth > 0 && forall k :: 0 <= k < |ms| ==> PrintableNode(ms[k].value)
    ensures r.Memb?
    decreases ms, 0
  {
    var name, v := PiecesOf(ms[0].name), Layout(m, ms[0].value, depth);
    if |ms| == 1 then G.Memb(name, [], ColonGaps(m), v, TrailGaps(m, false, depth), false, [], G.NoMemb)
    else G.Memb(name, [], ColonGaps(m), v, [], true, LeadGaps(m, false, false, depth), LayoutMembers(m, ms[1..], depth))
  }

  // ---- scalars print as their literals

  lemma {:induction false} DigitsAreDecimal(n: nat)
    ensures AllDigits(Digits(n)) && Decimal(Digits(n)) == n
    ensures Digits(n) != "" && (Digits(n)[0] == '0' <==> n == 0) && (n == 0 ==> |Digits(n)| == 1)
    decreases n
  {
    if n < 10 {
      assert Digits(n)[..0] == "";
    } else {
      DigitsAreDecimal(n / 10);
      var t := Digits(n / 10);
      assert Digits(n)[..|t|] == t;
    }
  }

  lemma EscapeIsPiece(f: Flags, c: char)
    ensures G.PieceOk(f, PieceOf(c)) && G.PieceText(PieceOf(c)) == EscapeChar(c) && G.PieceUnits(f, PieceOf(c)) == [c]
  {
    if EscapeCode(c) == 'u' {
      HexDigitValue(c as int / 16);
      HexDigitValue(c as int % 16);
      var h := ['0', '0', HexDigit(c as int / 16), HexDigit(c as int % 16)];
      assert G.FourHexValue(h) == c as int;
    }
  }

  lemma HexDigitValue(d: nat)
    requires d < 16
    ensures IsHex(HexDigit(d)) && Hex(HexDigit(d)) == d
  {
  }

  lemma {:induction false} EscapeSplit(c: char, str: string)
    ensures Escape([c] + str) == EscapeChar(c) + Escape(str)
    decreases |str|
  {
    if str == "" {
      assert ([c] + str)[..0] == "";
    } else {
      var init := str[..|str| - 1];
      assert ([c] + str)[..|str|] == [c] + init;
      EscapeSplit(c, init);
      ConcatAssociative(EscapeChar(c), Escape(init), EscapeChar(str[|str| - 1]));
    }
  }

  lemma QuoteIsQuoted(f: Flags, str: string)
    ensures G.PiecesOk(f, PiecesOf(str)) && G.QuotedText(PiecesOf(str)) == Quote(str)
    ensures G.PiecesUnits(f, PiecesOf(str)) == str
  {
    PiecesPrint(f, str);
  }

  lemma {:induction false} PiecesPrint(f: Flags, str: string)
    ensures G.PiecesOk(f, PiecesOf(str)) && G.PiecesText(PiecesOf(str)) == Escape(str) + "\""
    ensures G.PiecesUnits(f, PiecesOf(str)) == str
    decreases |str|
  {
    if str != "" {
      hide PieceOf, EscapeChar, G.PieceOk, G.PieceText, G.PieceUnits;
      EscapeIsPiece(f, str[0]);
      PiecesPrint(f, str[1..]);
      assert PiecesOf(str)[1..] == PiecesOf(str[1..]);
      EscapeSplit(str[0], str[1..]);
      assert [str[0]] + str[1..] == str;
      ConcatAssociative(EscapeChar(str[0]), Escape(str[1..]), "\"");
    }
  }

  /** The event that a reader sends for what a scalar prints. */
  function Reread(e: Event): Event
    requires IsInteger(e) ==> InRange(Integer(e))
  {
    if IsInteger(e) then
      var i := Integer(e);
      IntegerEvent(i < 0, if i < 0 then -i else i)
    else e
  }

  lemma IntegerPrints(f: Flags, i: int)
    requires InRange(i)
    ensures var n := G.Number(i < 0, G.Digits(Digits(if i < 0 then -i else i)), "", "", "");
            G.NumberOk(f, n) && G.NumberText(n) == IntegerText(i)
            && G.NumberEvent(f, n) == IntegerEvent(i < 0, if i < 0 then -i else i)
  {
    DigitsAreDecimal(if i < 0 then -i else i);
    hide Digits, Decimal, FractionKept;
    var t := Digits(if i < 0 then -i else i);
    assert t + ("" + ("" + "")) == t && "" + t == t;
  }

  lemma ScalarPrints(f: Flags, e: Event)
    requires PrintableNode(Scalar(e))
    ensures G.LiteralOk(f, LiteralOf(e)) && G.LiteralText(LiteralOf(e)) == ScalarText(e)
    ensures G.LiteralEvent(f, LiteralOf(e)) == Reread(e)
  {
    hide G.NumberOk, G.NumberText, G.NumberEvent, IntegerEvent, IntegerText, PiecesOf, G.PiecesOk, G.PiecesUnits, Quote;
    if e.String? {
      QuoteIsQuoted(f, e.str);
    } else if IsInteger(e) {
      IntegerPrints(f, Integer(e));
    }
  }

  // ---- blanks print as they are laid out

  lemma {:induction false} SpacesPrint(c: char, n: nat)
    ensures G.GapsText(SpaceGaps(c, n)) == Repeat(c, n)
    decreases n
  {
    if n > 0 {
      SpacesPrint(c, n - 1);
      assert SpaceGaps(c, n)[1..] == SpaceGaps(c, n - 1);
    }
  }

  lemma NewLinePrints(m: Format, depth: nat)
    requires m.Pretty?
    ensures G.GapsText(NewLine(m, depth)) == "\n" + Indent(m, depth)
  {
    SpacesPrint(m.indentChar, depth * m.indentCharCount);
    assert NewLine(m, depth)[1..] == SpaceGaps(m.indentChar, depth * m.indentCharCount);
  }

  lemma OneSpacePrints()
    ensures G.GapsText([G.Space(' ')]) == " " && G.GapsText([]) == ""
  {
    assert [G.Space(' ')][1..] == [];
  }

  /** Lead is the comma or the colon, if one is due, and the blanks of the layout. */
  lemma LeadPrints(m: Format, outer: seq<Level>, c: nat, inArray: bool)
    ensures var levels := outer + [Level(c, inArray)];
            Lead(m, levels) ==
            if inArray || c % 2 == 0
            then (if c == 0 then "" else ",") + G.GapsText(LeadGaps(m, inArray, c == 0, |levels|))
            else ":" + G.GapsText(ColonGaps(m))
  {
    OneSpacePrints();
    if m.Pretty? { NewLinePrints(m, |outer| + 1); }
    hide G.GapsText, Indent, NewLine;
  }

  lemma TrailPrints(m: Format, outer: seq<Level>, c: nat, inArray: bool)
    requires c > 0
    ensures var levels := outer + [Level(c, inArray)];
            Trail(m, levels) == G.GapsText(TrailGaps(m, inArray, |levels|))
  {
    OneSpacePrints();
    if m.Pretty? { NewLinePrints(m, |outer|); }
  }

  // ---- the writer prints the layout

  lemma {:induction false} WriteSplit(m: Format, w: Output, a: seq<Event>, b: seq<Event>)
    ensures WriteAll(m, w, a + b) ==
            match WriteAll(m, w, a)
            case None => None
            case Some(next) => WriteAll(m, next, b)
    decreases |a|
  {
    if a == [] {
      assert a + b == b;
    } else {
      assert (a + b)[1..] == a[1..] + b;
      match Write(m, w, a[0]) {
        case None =>
        case Some(next) => WriteSplit(m, next, a[1..], b);
      }
    }
  }

  lemma WriteFirst(m: Format, w: Output, e: Event, rest: seq<Event>)
    ensures WriteAll(m, w, [e] + rest) ==
            match Write(m, w, e)
            case None => None
            case Some(next) => WriteAll(m, next, rest)
  {
    assert ([e] + rest)[1..] == rest;
  }

  /** Where a value of any kind may be written. */
  predicate TakesValue(w: Output) { MayWrite(w, false) }

  lemma {:induction false} WritesValue(m: Format, n: Node, w: Output)
    requires PrintableNode(n) && TakesValue(w)
    ensures WriteAll(m, w, Accept(n)) ==
            var b := Begin(m, w);
            Some(b.(os := b.os + G.Text(Layout(m, n, |w.levels|))))
    decreases n, 2
  {
    hide Lead, Trail, LeadGaps, G.GapsText, Write, G.LiteralText;
    var b := Begin(m, w);
    match n
    case Scalar(e) =>
      ScalarPrints(Flags(false, false, false, false, false, false, _ => false), e);
      WritesScalar(m, e, w);
    case Array(es) =>
      OpensLevel(m, w, StartArray, AcceptElems(es), EndArray(|es|));
      var open := Output(b.os + "[", b.levels + [Level(0, true)], b.hasRoot);
      WritesArray(m, es, open, b.levels, |es|);
      var t := Layout(m, n, |w.levels|);
      ConcatAssociative(b.os, "[", G.GapsText(t.lead) + G.ElemsText(t.elems));
    case Object(ms) =>
      OpensLevel(m, w, StartObject, AcceptMembers(ms), EndObject(|ms|));
      var open := Output(b.os + "{", b.levels + [Level(0, false)], b.hasRoot);
      WritesObject(m, ms, open, b.levels, |ms|);
      var t := Layout(m, n, |w.levels|);
      ConcatAssociative(b.os, "{", G.GapsText(t.lead) + G.MembsText(t.membs));
  }

  lemma WritesScalar(m: Format, e: Event, w: Output)
    requires Printable(e) && TakesValue(w)
    ensures WriteAll(m, w, [e]) == var b := Begin(m, w); Some(b.(os := b.os + ScalarText(e)))
  {
    hide Lead, ScalarText;
    WriteFirst(m, w, e, []);
    assert [e] + [] == [e];
  }

  lemma OpensLevel(m: Format, w: Output, start: Event, body: seq<Event>, end: Event)
    requires TakesValue(w) && (start.StartArray? || start.StartObject?)
    ensures var b := Begin(m, w);
            WriteAll(m, w, [start] + body + [end]) ==
            WriteAll(m, Output(b.os + (if start.StartArray? then "[" else "{"),
                               b.levels + [Level(0, start.StartArray?)], b.hasRoot), body + [end])
  {
    hide Lead;
    ConcatAssociative([start], body, [end]);
    WriteFirst(m, w, start, body + [end]);
  }

  /** The rest of an array from its opening bracket. */
  lemma {:induction false} WritesArray(m: Format, es: seq<Node>, w: Output, outer: seq<Level>, k: nat)
    requires forall j :: 0 <= j < |es| ==> PrintableNode(es[j])
    requires w.levels == outer + [Level(0, true)]
    ensures var t := Layout(m, Array(es), |outer|);
            WriteAll(m, w, AcceptElems(es) + [EndArray(k)]) ==
            Some(Output(w.os + (G.GapsText(t.lead) + G.ElemsText(t.elems)), outer, w.hasRoot))
    decreases es, 1
  {
    OneSpacePrints();
    if es == [] {
      EndsArray(m, w, outer, 0, k);
      assert [] + [EndArray(k)] == [EndArray(k)];
      assert w.os + "" + "]" == w.os + ("" + "]");
    } else {
      WritesElems(m, es, w, outer, 0, k);
      LeadPrints(m, outer, 0, true);
      var lead, body := G.GapsText(LeadGaps(m, true, true, |outer| + 1)), G.ElemsText(LayoutElems(m, es, |outer| + 1));
      assert "" + lead == lead;
      ConcatAssociative(w.os, lead, body);
    }
  }

  lemma EndsArray(m: Format, w: Output, outer: seq<Level>, c: nat, k: nat)
    requires w.levels == outer + [Level(c, true)]
    ensures WriteAll(m, w, [EndArray(k)]) == Some(Output(w.os + Trail(m, w.levels) + "]", outer, w.hasRoot))
    ensures c == 0 ==> Trail(m, w.levels) == ""
  {
    WriteFirst(m, w, EndArray(k), []);
    assert [EndArray(k)] + [] == [EndArray(k)];
    assert w.levels[..|w.levels| - 1] == outer;
  }

  lemma {:induction false} WritesElems(m: Format, es: seq<Node>, w: Output, outer: seq<Level>, c: nat, k: nat)
    requires es != [] && forall j :: 0 <= j < |es| ==> PrintableNode(es[j])
    requires w.levels == outer + [Level(c, true)]
    ensures WriteAll(m, w, AcceptElems(es) + [EndArray(k)]) ==
            Some(Output(w.os + Lead(m, w.levels) + G.ElemsText(LayoutElems(m, es, |outer| + 1)), outer, w.hasRoot))
    decreases es, 0
  {
    hide Write, Lead, Trail, LeadGaps, TrailGaps, G.GapsText;
    var v, rest, end := Accept(es[0]), AcceptElems(es[1..]), [EndArray(k)];
    ConcatAssociative(v, rest, end);
    WriteSplit(m, w, v, rest + end);
    MayElement(w, outer, c);
    WritesValue(m, es[0], w);
    var text := G.Text(Layout(m, es[0], |outer| + 1));
    var w1 := Output(w.os + Lead(m, w.levels) + text, outer + [Level(c + 1, true)], w.hasRoot);
    assert Begin(m, w).(os := w1.os) == w1;
    OneSpacePrints();
    if |es| == 1 {
      EndsArray(m, w1, outer, c + 1, k);
      TrailPrints(m, outer, c + 1, true);
      assert rest + end == end;
      Append(w.os + Lead(m, w.levels), text, Trail(m, w1.levels), "]");
    } else {
      WritesElems(m, es[1..], w1, outer, c + 1, k);
      LeadPrints(m, outer, c + 1, true);
      var gap := G.GapsText(LeadGaps(m, true, false, |outer| + 1));
      var body := G.ElemsText(LayoutElems(m, es[1..], |outer| + 1));
      AppendComma(w.os + Lead(m, w.levels), text, ",", gap, body);
    }
  }

  lemma Append(a: string, b: string, c: string, d: string)
    ensures a + b + c + d == a + (b + (c + d))
  {
  }

  lemma AppendComma(a: string, b: string, c: string, d: string, e: string)
    ensures a + b + (c + d) + e == a + (b + ("" + (c + (d + e))))
  {
    assert "" + (c + (d + e)) == c + (d + e);
  }

  lemma MayElement(w: Output, outer: seq<Level>, c: nat)
    requires w.levels == outer + [Level(c, true)]
    ensures TakesValue(w) && Counted(w.levels) == outer + [Level(c + 1, true)]
  {
  }

  lemma {:induction false} WritesObject(m: Format, ms: seq<Member>, w: Output, outer: seq<Level>, k: nat)
    requires forall j :: 0 <= j < |ms| ==> PrintableNode(ms[j].value)
    requires w.levels == outer + [Level(0, false)]
    ensures var t := Layout(m, Object(ms), |outer|);
            WriteAll(m, w, AcceptMembers(ms) + [EndObject(k)]) ==
            Some(Output(w.os + (G.GapsText(t.lead) + G.MembsText(t.membs)), outer, w.hasRoot))
    decreases ms, 1
  {
    OneSpacePrints();
    if ms == [] {
      EndsObject(m, w, outer, 0, k);
      assert [] + [EndObject(k)] == [EndObject(k)];
      assert w.os + "" + "}" == w.os + ("" + "}");
    } else {
      WritesMembers(m, ms, w, outer, 0, k);
      LeadPrints(m, outer, 0, false);
      var lead := G.GapsText(LeadGaps(m, false, true, |outer| + 1));
      var body := G.MembsText(LayoutMembers(m, ms, |outer| + 1));
      assert "" + lead == lead;
      ConcatAssociative(w.os, lead, body);
    }
  }

  lemma EndsObject(m: Format, w: Output, outer: seq<Level>, c: nat, k: nat)
    requires w.levels == outer + [Level(c, false)] && c % 2 == 0
    ensures WriteAll(m, w, [EndObject(k)]) == Some(Output(w.os + Trail(m, w.levels) + "}", outer, w.hasRoot))
    ensures c == 0 ==> Trail(m, w.levels) == ""
  {
    WriteFirst(m, w, EndObject(k), []);
    assert [EndObject(k)] + [] == [EndObject(k)];
    assert w.levels[..|w.levels| - 1] == outer;
  }

  /** A name in an object, where names are due. */
  lemma WritesKey(m: Format, w: Output, outer: seq<Level>, c: nat, name: string, rest: seq<Event>)
    requires w.levels == outer + [Level(c, false)] && c % 2 == 0
    ensures var w1 := Output(w.os + Lead(m, w.levels) + Quote(name), outer + [Level(c + 1, false)], w.hasRoot);
            && WriteAll(m, w, [Key(name)] + rest) == WriteAll(m, w1, rest)
            && TakesValue(w1) && Counted(w1.levels) == outer + [Level(c + 2, false)]
  {
    var w1 := Output(w.os + Lead(m, w.levels) + Quote(name), outer + [Level(c + 1, false)], w.hasRoot);
    CountsOne(outer, c);
    CountsOne(outer, c + 1);
    assert Write(m, w, Key(name)) == Some(w1) by { hide Lead, Quote, Trail, ScalarText, Printable, Counted; }
    hide Write, Lead, Quote;
    WriteFirst(m, w, Key(name), rest);
  }

  lemma CountsOne(outer: seq<Level>, c: nat)
    ensures Counted(outer + [Level(c, false)]) == outer + [Level(c + 1, false)]
  {
  }

  lemma {:induction false} WritesMember(m: Format, e: Member, w: Output, outer: seq<Level>, c: nat, rest: seq<Event>)
    requires PrintableNode(e.value) && w.levels == outer + [Level(c, false)] && c % 2 == 0
    ensures var os := w.os + Lead(m, w.levels) + Quote(e.name) + (":" + G.GapsText(ColonGaps(m)))
                        + G.Text(Layout(m, e.value, |outer| + 1));
            WriteAll(m, w, [Key(e.name)] + (Accept(e.value) + rest)) ==
            WriteAll(m, Output(os, outer + [Level(c + 2, false)], w.hasRoot), rest)
    decreases e, 3
  {
    hide Write, Lead, LeadGaps, ColonGaps, G.GapsText, Quote;
    var v := Accept(e.value);
    WritesKey(m, w, outer, c, e.name, v + rest);
    var w1 := Output(w.os + Lead(m, w.levels) + Quote(e.name), outer + [Level(c + 1, false)], w.hasRoot);
    WriteSplit(m, w1, v, rest);
    WritesValue(m, e.value, w1);
    LeadPrints(m, outer, c + 1, false);
    assert Begin(m, w1).levels == outer + [Level(c + 2, false)];
  }

  /** What follows the first member's value in a list of members. */
  function MembersTail(m: Format, ms: seq<Member>, depth: nat): string
    requires ms != [] && depth > 0 && forall j :: 0 <= j < |ms| ==> PrintableNode(ms[j].value)
  {
    if |ms| == 1 then G.GapsText(TrailGaps(m, false, depth)) + "}"
    else "," + (G.GapsText(LeadGaps(m, false, false, depth)) + G.MembsText(LayoutMembers(m, ms[1..], depth)))
  }

  lemma MembersText(m: Format, ms: seq<Member>, depth: nat)
    requires ms != [] && depth > 0 && forall j :: 0 <= j < |ms| ==> PrintableNode(ms[j].value)
    ensures G.MembsText(LayoutMembers(m, ms, depth)) ==
            Quote(ms[0].name) + (":" + (G.GapsText(ColonGaps(m))
              + (G.Text(Layout(m, ms[0].value, depth)) + MembersTail(m, ms, depth))))
  {
    hide TrailGaps, LeadGaps, ColonGaps, Quote, G.QuotedText, Layout;
    QuoteIsQuoted(Flags(false, false, false, false, false, false, _ => false), ms[0].name);
    OneSpacePrints();
    var tail := MembersTail(m, ms, depth);
    EmptyFront(tail);
    EmptyFront(":" + (G.GapsText(ColonGaps(m)) + (G.Text(Layout(m, ms[0].value, depth)) + tail)));
  }

  lemma EmptyFront(t: string)
    ensures "" + t == t
  {
  }

  lemma {:induction false} WritesMembers(m: Format, ms: seq<Member>, w: Output, outer: seq<Level>, c: nat, k: nat)
    requires ms != [] && forall j :: 0 <= j < |ms| ==> PrintableNode(ms[j].value)
    requires w.levels == outer + [Level(c, false)] && c % 2 == 0
    ensures WriteAll(m, w, AcceptMembers(ms) + [EndObject(k)]) ==
            Some(Output(w.os + Lead(m, w.levels) + G.MembsText(LayoutMembers(m, ms, |outer| + 1)), outer, w.hasRoot))
    decreases ms, 0
  {
    hide Write, Lead, Trail, LeadGaps, TrailGaps, ColonGaps, G.GapsText, Quote, LayoutMembers, G.MembsText, G.Text,
         Layout;
    var rest, end := AcceptMembers(ms[1..]), [EndObject(k)];
    Regroup([Key(ms[0].name)], Accept(ms[0].value), rest, end);
    WritesMember(m, ms[0], w, outer, c, rest + end);
    MembersText(m, ms, |outer| + 1);
    var before, quoted, colon := w.os + Lead(m, w.levels), Quote(ms[0].name), G.GapsText(ColonGaps(m));
    var text := G.Text(Layout(m, ms[0].value, |outer| + 1));
    var w2 := Output(before + quoted + (":" + colon) + text, outer + [Level(c + 2, false)], w.hasRoot);
    if |ms| == 1 {
      EndsObject(m, w2, outer, c + 2, k);
      TrailPrints(m, outer, c + 2, false);
      assert rest + end == end;
      var trail := Trail(m, w2.levels);
      ConcatAssociative(before + quoted + (":" + colon) + text, trail, "}");
      AppendMember(before, quoted, colon, text, trail + "}");
    } else {
      WritesMembers(m, ms[1..], w2, outer, c + 2, k);
      LeadPrints(m, outer, c + 2, false);
      var gap := G.GapsText(LeadGaps(m, false, false, |outer| + 1));
      var body := G.MembsText(LayoutMembers(m, ms[1..], |outer| + 1));
      ConcatAssociative(before + quoted + (":" + colon) + text, "," + gap, body);
      ConcatAssociative(",", gap, body);
      AppendMember(before, quoted, colon, text, "," + (gap + body));
    }
  }

  lemma Regroup(a: seq<Event>, b: seq<Event>, c: seq<Event>, d: seq<Event>)
    ensures a + b + c + d == a + (b + (c + d))
  {
  }

  lemma AppendMember(a: string, name: string, colon: string, v: string, tail: string)
    ensures a + name + (":" + colon) + v + tail == a + (name + (":" + (colon + (v + tail))))
  {
    ConcatAssociative(a + name + (":" + colon), v, tail);
    ConcatAssociative(a + name, ":" + colon, v + tail);
    ConcatAssociative(":", colon, v + tail);
    ConcatAssociative(a, name, ":" + (colon + (v + tail)));
  }

  // ---- what is printed is read back

  /** A tree of scalars as a reader sends them. */
  function RereadNode(n: Node): Node
    requires PrintableNode(n)
    decreases n, 1
  {
    match n
    case Scalar(e) => Scalar(Reread(e))
    case Array(es) => Array(RereadElems(es))
    case Object(ms) => Object(RereadMembers(ms))
  }

  function RereadElems(es: seq<Node>): (r: seq<Node>)
    requires forall k :: 0 <= k < |es| ==> PrintableNode(es[k])
    ensures |r| == |es|
    decreases es, 0
  {
    if es == [] then [] else [RereadNode(es[0])] + RereadElems(es[1..])
  }

  function RereadMembers(ms: seq<Member>): (r: seq<Member>)
    requires forall k :: 0 <= k < |ms| ==> PrintableNode(ms[k].value)
    ensures |r| == |ms|
    decreases ms, 0
  {
    if ms == [] then [] else [Member(ms[0].name, RereadNode(ms[0].value))] + RereadMembers(ms[1..])
  }

  lemma {:induction false} SpacesOk(f: Flags, c: char, n: nat, atEnd: bool)
    requires IsSpace(c)
    ensures G.GapsOk(f, SpaceGaps(c, n), atEnd)
    decreases n
  {
    if n > 0 {
      SpacesOk(f, c, n - 1, atEnd);
      assert SpaceGaps(c, n)[1..] == SpaceGaps(c, n - 1);
    }
  }

  lemma GapsAreOk(f: Flags, m: Format, inArray: bool, first: bool, depth: nat)
    requires FormatOk(m) && depth > 0
    ensures G.GapsOk(f, LeadGaps(m, inArray, first, depth), false)
    ensures G.GapsOk(f, TrailGaps(m, inArray, depth), false)
    ensures G.GapsOk(f, ColonGaps(m), false) && G.GapsOk(f, [], false)
  {
    assert [G.Space(' ')][1..] == [];
    if m.Pretty? {
      SpacesOk(f, m.indentChar, depth * m.indentCharCount, false);
      SpacesOk(f, m.indentChar, (depth - 1) * m.indentCharCount, false);
      assert NewLine(m, depth)[1..] == SpaceGaps(m.indentChar, depth * m.indentCharCount);
      assert NewLine(m, depth - 1)[1..] == SpaceGaps(m.indentChar, (depth - 1) * m.indentCharCount);
    }
  }

  /** The layout is in the grammar and means the value. */
  lemma {:induction false} LayoutMeans(f: Flags, m: Format, n: Node, depth: nat)
    requires FormatOk(m) && PrintableNode(n) && WellFormed(n)
    ensures G.TreeOk(f, Layout(m, n, depth))
    ensures G.Events(f, Layout(m, n, depth)) == Accept(RereadNode(n))
    decreases n, 2
  {
    match n
    case Scalar(e) =>
      hide G.LiteralOk, G.LiteralEvent, Reread, LiteralOf;
      ScalarPrints(f, e);
    case Array(es) => ArrayMeans(f, m, es, depth);
    case Object(ms) => ObjectMeans(f, m, ms, depth);
  }

  lemma {:induction false} ArrayMeans(f: Flags, m: Format, es: seq<Node>, depth: nat)
    requires FormatOk(m) && PrintableNode(Array(es)) && WellFormed(Array(es))
    ensures G.TreeOk(f, Layout(m, Array(es), depth))
    ensures G.Events(f, Layout(m, Array(es), depth)) == Accept(RereadNode(Array(es)))
    decreases es, 1
  {
    hide LeadGaps, G.GapsOk, LayoutElems, AcceptElems, G.ElemsOk, G.ElemsEvents, RereadElems;
    GapsAreOk(f, m, true, true, depth + 1);
    if es == [] { NothingMeans(f); } else { ElemsMean(f, m, es, depth + 1); }
  }

  lemma {:induction false} ObjectMeans(f: Flags, m: Format, ms: seq<Member>, depth: nat)
    requires FormatOk(m) && PrintableNode(Object(ms)) && WellFormed(Object(ms))
    ensures G.TreeOk(f, Layout(m, Object(ms), depth))
    ensures G.Events(f, Layout(m, Object(ms), depth)) == Accept(RereadNode(Object(ms)))
    decreases ms, 1
  {
    hide LeadGaps, G.GapsOk, LayoutMembers, AcceptMembers, G.MembsOk, G.MembsEvents, RereadMembers;
    GapsAreOk(f, m, false, true, depth + 1);
    if ms == [] { NothingMeans(f); } else { MembersMean(f, m, ms, depth + 1); }
  }

  lemma NothingMeans(f: Flags)
    ensures G.ElemsOk(f, G.NoElem) && G.ElemsEvents(f, G.NoElem) == AcceptElems(RereadElems([]))
    ensures G.MembsOk(f, G.NoMemb) && G.MembsEvents(f, G.NoMemb) == AcceptMembers(RereadMembers([]))
  {
  }

  lemma {:induction false} ElemsMean(f: Flags, m: Format, es: seq<Node>, depth: nat)
    requires FormatOk(m) && es != [] && depth > 0
    requires forall k :: 0 <= k < |es| ==> PrintableNode(es[k]) && WellFormed(es[k])
    ensures var r := LayoutElems(m, es, depth);
            G.ElemsOk(f, r) && G.ElemCount(r) == |es| && G.ElemsEvents(f, r) == AcceptElems(RereadElems(es))
    decreases es, 0
  {
    hide LeadGaps, TrailGaps, G.GapsOk;
    GapsAreOk(f, m, true, false, depth);
    LayoutMeans(f, m, es[0], depth);
    hide Layout;
    assert RereadElems(es)[1..] == RereadElems(es[1..]);
    if |es| > 1 { ElemsMean(f, m, es[1..], depth); }
  }

  lemma {:induction false} MembersMean(f: Flags, m: Format, ms: seq<Member>, depth: nat)
    requires FormatOk(m) && ms != [] && depth > 0
    requires forall k :: 0 <= k < |ms| ==> PrintableNode(ms[k].value) && WellFormed(ms[k].value)
    ensures var r := LayoutMembers(m, ms, depth);
            G.MembsOk(f, r) && G.MembCount(r) == |ms| && G.MembsEvents(f, r) == AcceptMembers(RereadMembers(ms))
    decreases ms, 0
  {
    hide LeadGaps, TrailGaps, ColonGaps, G.GapsOk, G.PiecesOk, G.PiecesUnits, PiecesOf;
    GapsAreOk(f, m, false, false, depth);
    QuoteIsQuoted(f, ms[0].name);
    LayoutMeans(f, m, ms[0].value, depth);
    hide Layout;
    assert RereadMembers(ms)[1..] == RereadMembers(ms[1..]);
    if |ms| > 1 { MembersMean(f, m, ms[1..], depth); }
  }

  /** What a writer prints for a value. */
  function Printed(m: Format, n: Node): string
    requires PrintableNode(n)
  {
    G.Text(Layout(m, n, 0))
  }

  /** A fresh writer of either kind prints the whole value and trips over no assertion. */
  lemma WriterPrints(m: Format, n: Node)
    requires PrintableNode(n)
    ensures WriteAll(m, Output("", [], false), Accept(n)) == Some(Output(Printed(m, n), [], true))
  {
    WritesValue(m, n, Output("", [], false));
    assert "" + "" + Printed(m, n) == Printed(m, n);
  }

  /** The writer as an object does so. */
  method PrintValue(m: Format, n: Node) returns (text: string)
    requires PrintableNode(n)
    ensures text == Printed(m, n)
  {
    hide Printed, WriteAll;
    var writer := new Writer(m);
    WriterPrints(m, n);
    writer.ReceiveAll(Accept(n));
    return writer.os;
  }

  /** Parsing what a writer printed succeeds under any flags and sends the events of the value. */
  lemma PrintThenParse(f: Flags, m: Format, n: Node)
    requires FormatOk(m) && PrintableNode(n) && WellFormed(n)
    ensures Document(f, Printed(m, n), 0, []) == Run(Accept(RereadNode(n)), Ok(|Printed(m, n)|))
  {
    hide Document, Layout, G.Text, G.Events;
    LayoutMeans(f, m, n, 0);
    var s := Printed(m, n);
    var d := G.Doc([], Layout(m, n, 0), []);
    assert G.DocText(d) == s by { assert "" + (s + "") == s; }
    HoldsSlice(s, 0, |s|);
    assert s[0..|s|] == s;
    assert G.GapsText([]) == "";
    DocumentComplete(f, s, d);
  }

  /** Numbers are stored alike whether a writer's text or the value itself is loaded. */
  lemma {:induction false} RereadStored(n: Node)
    requires PrintableNode(n) && WellFormed(n)
    ensures StoredNode(RereadNode(n)) == StoredNode(n) && WellFormed(RereadNode(n))
    decreases n, 1
  {
    match n
    case Scalar(e) =>
    case Array(es) => RereadElemsStored(es);
    case Object(ms) => RereadMembersStored(ms);
  }

  lemma {:induction false} RereadElemsStored(es: seq<Node>)
    requires forall k :: 0 <= k < |es| ==> PrintableNode(es[k]) && WellFormed(es[k])
    ensures forall k :: 0 <= k < |es| ==>
              StoredNode(RereadElems(es)[k]) == StoredNode(es[k]) && WellFormed(RereadElems(es)[k])
    decreases es, 0
  {
    if es != [] {
      RereadStored(es[0]);
      RereadElemsStored(es[1..]);
    }
  }

  lemma {:induction false} RereadMembersStored(ms: seq<Member>)
    requires forall k :: 0 <= k < |ms| ==> PrintableNode(ms[k].value) && WellFormed(ms[k].value)
    ensures forall k :: 0 <= k < |ms| ==>
              RereadMembers(ms)[k].name == ms[k].name
              && StoredNode(RereadMembers(ms)[k].value) == StoredNode(ms[k].value)
              && WellFormed(RereadMembers(ms)[k].value)
    decreases ms, 0
  {
    if ms != [] {
      RereadStored(ms[0].value);
      RereadMembersStored(ms[1..]);
    }
  }

  /** Print any value in any format, parse the text under any flags into a document: it then holds
      the value's members, elements, strings and numbers, and nothing else. */
  lemma PrintThenLoad(f: Flags, m: Format, n: Node) returns (loaded: Node)
    requires FormatOk(m) && PrintableNode(n) && WellFormed(n) && TypedNode(n)
    ensures WriteAll(m, Output("", [], false), Accept(n)).Some?
    ensures var text := WriteAll(m, Output("", [], false), Accept(n)).value.os;
            && Document(f, text, 0, []).end.Ok?
            && HandleAll([], Document(f, text, 0, []).log) == Some([loaded])
    ensures KeepsNode(n, loaded)
  {
    hide Document, WriteAll, HandleAll, Printed, KeepsNode;
    loaded := StoredNode(n);
    StoredNodeKeeps(n);
    WriterPrints(m, n);
    PrintThenParse(f, m, n);
    RereadStored(n);
    AcceptBuilds(RereadNode(n), []);
    assert [] + [loaded] == [loaded];
  }

  /** Print a document's value in any format, parse the text under any flags into a document: the
      value comes back, alone on the stack. */
  lemma DocumentRoundTrip(f: Flags, m: Format, n: Node)
    requires FormatOk(m) && PrintableNode(n) && WellFormed(n) && StoredNode(n) == n
    ensures WriteAll(m, Output("", [], false), Accept(n)).Some?
    ensures var text := WriteAll(m, Output("", [], false), Accept(n)).value.os;
            && Document(f, text, 0, []).end.Ok?
            && HandleAll([], Document(f, text, 0, []).log) == Some([n])
  {
    hide Document, WriteAll, HandleAll, Printed;
    WriterPrints(m, n);
    PrintThenParse(f, m, n);
    RereadStored(n);
    AcceptBuilds(RereadNode(n), []);
    assert [] + [n] == [n];
  }
}
