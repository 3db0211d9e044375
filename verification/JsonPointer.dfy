/** JSON Pointers as text: RFC 6901 in its plain form and its URI fragment form. */
module JsonPointer {
  import opened JsonText
  import opened JsonPointerTree
  import opened Utf8Codec
  import JsonWriter
  import N = JsonNode

  datatype PointerError =
    | TokenMustBeginWithSolidus | InvalidEscape | InvalidPercentEncoding | CharacterMustPercentEncode

  datatype Outcome<+T> = Good(value: T) | Bad(error: PointerError, offset: nat)

  /** All but the unreserved characters of RFC 3986. */
  predicate NeedPercentEncode(c: char) {
    !('0' <= c <= '9' || 'A' <= c <= 'Z' || 'a' <= c <= 'z' || c == '-' || c == '.' || c == '_' || c == '~')
  }

  // ---- indices

  /** The digits added up in a 32-bit SizeType, with the overflow check of the code. */
  function IndexLoop(name: string): Option<nat>
    requires AllDigits(name)
  {
    if name == "" then Some(0)
    else
      match IndexLoop(name[..|name| - 1])
      case None => None
      case Some(n) =>
        var m := (10 * n + Digit(name[|name| - 1])) % SIZE_TYPE_RANGE;
        if m < n then None else Some(m)
  }

  /** The index of a token: a function of its name. */
  function IndexOf(name: string): nat {
    if name == "" || !AllDigits(name) || (|name| > 1 && name[0] == '0') then INVALID_INDEX
    else match IndexLoop(name) case None => INVALID_INDEX case Some(n) => n
  }

  lemma {:induction false} LoopIsDecimal(name: string)
    requires AllDigits(name)
    ensures IndexLoop(name).Some? ==> IndexLoop(name).value < SIZE_TYPE_RANGE
    ensures Decimal(name) < SIZE_TYPE_RANGE ==> IndexLoop(name) == Some(Decimal(name))
  {
    if name != "" { LoopIsDecimal(name[..|name| - 1]); }
  }

  /** A token of digits gets its decimal value as its index exactly when the value fits in a SizeType. */
  lemma IndexIsDecimal(name: string)
    requires name != "" && AllDigits(name) && (|name| == 1 || name[0] != '0')
    ensures IndexOf(name) == Decimal(name) <==> Decimal(name) < SIZE_TYPE_RANGE
  {
    LoopIsDecimal(name);
  }

  /** A number as section 4 of RFC 6901 writes an array index. */
  predicate IsNumber(name: string) {
    && name != "" && (name[0] == '0' ==> |name| == 1)
    && forall k :: 0 <= k < |name| ==> '0' <= name[k] <= '9'
  }

  /** Any other name has no index. */
  lemma NoIndex(name: string)
    requires !IsNumber(name)
    ensures IndexOf(name) == 0xFFFF_FFFF
  {
  }

  /** Beyond that the overflow check may miss: the index is some other number, not the invalid one. */
  lemma OverflowIsMissed()
    ensures AllDigits("5000000000") && IndexOf("5000000000") == 705032704
  {
    hide IndexLoop, Decimal;
    DecimalOfZeros(9);
    assert PowerOfTen(9) == 1000000000;
    assert FiveAndZeros(9) == "5000000000";
    TenDigits("5000000000");
  }

  function PowerOfTen(k: nat): nat { if k == 0 then 1 else 10 * PowerOfTen(k - 1) }

  lemma {:induction false} DecimalBelow(t: string)
    requires AllDigits(t)
    ensures Decimal(t) < PowerOfTen(|t|)
  {
    if t != "" { DecimalBelow(t[..|t| - 1]); }
  }

  /** Of the ten-digit numbers that do not fit, the check catches two ranges; the others get their
      remainder as index. */
  lemma TenDigits(name: string)
    requires |name| == 10 && AllDigits(name) && Decimal(name) >= SIZE_TYPE_RANGE
    ensures IndexLoop(name) ==
            var v := Decimal(name);
            if v < 4772185884 || 8589934592 <= v < 9544371768 then None else Some(v % SIZE_TYPE_RANGE)
  {
    var front := name[..9];
    assert PowerOfTen(9) == 1000000000;
    DecimalBelow(front);
    LoopIsDecimal(front);
    CaughtOrNot(Decimal(front), Digit(name[9]));
  }

  lemma CaughtOrNot(n: nat, d: nat)
    requires n < 1000000000 && d <= 9 && 10 * n + d >= SIZE_TYPE_RANGE
    ensures var v := 10 * n + d;
            v % SIZE_TYPE_RANGE < n <==> v < 4772185884 || 8589934592 <= v < 9544371768
  {
    var v := 10 * n + d;
    assert v % SIZE_TYPE_RANGE == if v < 2 * SIZE_TYPE_RANGE then v - SIZE_TYPE_RANGE else v - 2 * SIZE_TYPE_RANGE;
  }

  /** A five and k zeros. */
  function FiveAndZeros(k: nat): string { if k == 0 then "5" else FiveAndZeros(k - 1) + "0" }

  lemma {:induction false} DecimalOfZeros(k: nat)
    ensures |FiveAndZeros(k)| == k + 1 && AllDigits(FiveAndZeros(k)) && Decimal(FiveAndZeros(k)) == 5 * PowerOfTen(k)
  {
    if k > 0 {
      DecimalOfZeros(k - 1);
      OneMoreZero(FiveAndZeros(k - 1));
    } else {
      assert "5"[..0] == "";
    }
  }

  lemma OneMoreZero(t: string)
    requires AllDigits(t)
    ensures AllDigits(t + "0") && Decimal(t + "0") == 10 * Decimal(t)
  {
    assert (t + "0")[..|t|] == t && (t + "0")[|t|] == '0';
  }

  // ---- reading

  /** One step of reading a name: what it adds and where it ends. */
  datatype Piece = Piece(text: string, end: nat)

  /** The byte of a percent triplet. */
  function Triplet(s: string, i: nat): Option<char> {
    if i + 3 <= |s| && s[i] == '%' && IsHex(s[i + 1]) && IsHex(s[i + 2]) then
      Some((16 * Hex(s[i + 1]) + Hex(s[i + 2])) as char)
    else None
  }

  /** The bytes of the triplets at i, as far as they go. */
  function Triplets(s: string, i: nat): string
    decreases |s| - i
  {
    match Triplet(s, i)
    case None => ""
    case Some(c) => [c] + Triplets(s, i + 3)
  }

  /** A character after percent decoding: tilde escapes are undone. */
  function Escaped(s: string, c: char, j: nat): Outcome<Piece> {
    if c != '~' then Good(Piece([c], j))
    else if j < |s| && s[j] == '0' then Good(Piece("~", j + 1))
    else if j < |s| && s[j] == '1' then Good(Piece("/", j + 1))
    else Bad(InvalidEscape, j)
  }

  function PieceAt(s: string, i: nat, fragment: bool): Outcome<Piece>
    requires i < |s|
  {
    if fragment && s[i] == '%' then
      var t := Triplets(s, i);
      var n := Front(t);
      if n == 0 then Bad(InvalidPercentEncoding, i)
      else if n == 1 then Escaped(s, t[0], i + 3)
      else Good(Piece(t[..n], i + 3 * n))
    else if fragment && NeedPercentEncode(s[i]) then Bad(CharacterMustPercentEncode, i)
    else Escaped(s, s[i], i + 1)
  }

  lemma {:induction false} TripletsFit(s: string, i: nat, n: nat)
    requires i <= |s| && n <= |Triplets(s, i)|
    ensures i + 3 * n <= |s| && '/' !in s[i..i + 3 * n]
    decreases n
  {
    if n > 0 {
      TripletsFit(s, i + 3, n - 1);
      assert s[i..i + 3 * n] == [s[i], s[i + 1], s[i + 2]] + s[i + 3..i + 3 * n];
    }
  }

  /** A piece takes at least as many characters as it gives, and no slash. */
  lemma PieceFits(s: string, i: nat, fragment: bool)
    requires i < |s| && s[i] != '/' && PieceAt(s, i, fragment).Good?
    ensures var u := PieceAt(s, i, fragment).value;
            i < u.end <= |s| && |u.text| <= u.end - i && '/' !in s[i..u.end]
  {
    hide Front;
    if fragment && s[i] == '%' { TripletsFit(s, i, Front(Triplets(s, i))); }
  }

  predicate AtSlash(s: string, i: nat) { i == |s| || (i < |s| && s[i] == '/') }

  function NameAt(s: string, i: nat, fragment: bool): (r: Outcome<Piece>)
    requires i <= |s|
    ensures r.Good? ==> i <= r.value.end <= |s| && AtSlash(s, r.value.end) && |r.value.text| <= r.value.end - i
    decreases |s| - i
  {
    if AtSlash(s, i) then Good(Piece("", i))
    else
      match PieceAt(s, i, fragment)
      case Bad(e, j) => Bad(e, j)
      case Good(u) =>
        PieceFits(s, i, fragment);
        match NameAt(s, u.end, fragment)
        case Bad(e, j) => Bad(e, j)
        case Good(rest) => Good(Piece(u.text + rest.text, rest.end))
  }

  function TokensAt(s: string, i: nat, fragment: bool): Outcome<seq<Token>>
    requires AtSlash(s, i)
    decreases |s| - i
  {
    if i == |s| then Good([])
    else
      match NameAt(s, i + 1, fragment)
      case Bad(e, j) => Bad(e, j)
      case Good(name) =>
        match TokensAt(s, name.end, fragment)
        case Bad(e, j) => Bad(e, j)
        case Good(rest) => Good([Token(name.text, IndexOf(name.text))] + rest)
  }

  function Parse(s: string): Outcome<seq<Token>> {
    var fragment := Peek(s, 0) == '#';
    var i := if fragment then 1 else 0;
    if AtSlash(s, i) then TokensAt(s, i, fragment) else Bad(TokenMustBeginWithSolidus, i)
  }

  // ---- writing

  predicate IsBytes(t: string) { forall k :: 0 <= k < |t| ==> t[k] as nat < 256 }

  function Percent(t: string): string
    requires IsBytes(t)
  {
    if t == "" then ""
    else ['%', JsonWriter.HexDigit(t[0] as nat / 16), JsonWriter.HexDigit(t[0] as nat % 16)] + Percent(t[1..])
  }

  lemma CharIsBytes(t: string)
    requires Utf8Char(t)
    ensures IsBytes(t)
  {
  }

  /** How many characters of a name are written together, 0 if they cannot be. */
  function FirstSize(name: string, fragment: bool): (n: nat)
    requires name != ""
    ensures n <= |name|
  {
    if name[0] != '/' && fragment && NeedPercentEncode(name[0]) then Front(name) else 1
  }

  function FirstText(name: string, fragment: bool): string
    requires name != "" && FirstSize(name, fragment) > 0
  {
    if name[0] == '~' then "~0"
    else if name[0] == '/' then "~1"
    else if fragment && NeedPercentEncode(name[0]) then
      CharIsBytes(name[..Front(name)]);
      Percent(name[..Front(name)])
    else [name[0]]
  }

  /** How a name is written; fails on a name that is not UTF-8 where percent encoding is needed. */
  function NameText(name: string, fragment: bool): Option<string>
    decreases |name|
  {
    if name == "" then Some("")
    else if FirstSize(name, fragment) == 0 then None
    else Prepend(FirstText(name, fragment), NameText(name[FirstSize(name, fragment)..], fragment))
  }

  function Prepend(a: string, b: Option<string>): Option<string> {
    match b case None => None case Some(t) => Some(a + t)
  }

  function TokensText(ts: seq<Token>, fragment: bool): Option<string>
    decreases |ts|
  {
    if ts == [] then Some("")
    else
      match NameText(ts[0].name, fragment)
      case None => None
      case Some(t) => Prepend("/" + t, TokensText(ts[1..], fragment))
  }

  function Stringify(ts: seq<Token>, fragment: bool): Option<string> {
    Prepend(if fragment then "#" else "", TokensText(ts, fragment))
  }

  // ---- reading what was written

  lemma HexBack(d: nat)
    requires d < 16
    ensures IsHex(JsonWriter.HexDigit(d)) && Hex(JsonWriter.HexDigit(d)) == d
  {
  }

  /** Does the text go on with t and then with rest? */
  predicate Goes(s: string, i: nat, t: string, rest: string) {
    i <= |s| && s[i..] == t + rest
  }

  lemma TripletBack(s: string, i: nat, c: char, rest: string)
    requires c as nat < 256
    requires Goes(s, i, ['%', JsonWriter.HexDigit(c as nat / 16), JsonWriter.HexDigit(c as nat % 16)], rest)
    ensures Triplet(s, i) == Some(c) && i + 3 <= |s| && s[i + 3..] == rest
  {
    hide JsonWriter.HexDigit, Hex, IsHex;
    var high, low := c as nat / 16, c as nat % 16;
    HexBack(high);
    HexBack(low);
    assert s[i..][0] == '%' && s[i..][1] == JsonWriter.HexDigit(high) && s[i..][2] == JsonWriter.HexDigit(low);
    assert s[i + 3..] == s[i..][3..];
  }

  lemma {:induction false} TripletsBack(s: string, i: nat, t: string, rest: string)
    requires IsBytes(t) && Goes(s, i, Percent(t), rest)
    ensures Triplets(s, i) == t + Triplets(s, i + 3 * |t|)
    decreases |t|
  {
    hide Triplet;
    if t == "" {
      assert t + Triplets(s, i) == Triplets(s, i);
    } else {
      var triplet := ['%', JsonWriter.HexDigit(t[0] as nat / 16), JsonWriter.HexDigit(t[0] as nat % 16)];
      ConcatAssociative(triplet, Percent(t[1..]), rest);
      TripletBack(s, i, t[0], Percent(t[1..]) + rest);
      TripletsBack(s, i + 3, t[1..], rest);
      hide Percent;
      ConcatAssociative([t[0]], t[1..], Triplets(s, i + 3 * |t|));
      HeadAndTail(t, 1);
    }
  }

  lemma GoesOn(s: string, i: nat, a: string, b: string, rest: string)
    requires Goes(s, i, a + b, rest)
    ensures Goes(s, i, a, b + rest) && Goes(s, i + |a|, b, rest)
    ensures forall k :: 0 <= k < |a| ==> i + k < |s| && s[i + k] == a[k]
  {
    ConcatAssociative(a, b, rest);
    assert s[i..][|a|..] == s[i + |a|..];
    assert forall k :: 0 <= k < |a| ==> s[i..][k] == a[k];
  }

  lemma {:induction false} PercentLength(t: string)
    requires IsBytes(t)
    ensures |Percent(t)| == 3 * |t| && (t != "" ==> Percent(t)[0] == '%')
  {
    if t != "" { PercentLength(t[1..]); }
  }

  /** A percent-encoded character is read back as one piece. */
  lemma EncodedPiece(s: string, i: nat, t: string, rest: string)
    requires Utf8Char(t) && IsBytes(t) && NeedPercentEncode(t[0]) && Goes(s, i, Percent(t), rest)
    ensures i < |s| && s[i] == '%' && PieceAt(s, i, true) == Good(Piece(t, i + 3 * |t|))
  {
    PercentLength(t);
    assert s[i..][0] == '%';
    TripletsBack(s, i, t, rest);
    FrontOf(t, Triplets(s, i + 3 * |t|));
    hide Front, Utf8Char, Triplets;
    if |t| == 1 { assert t == [t[0]] && t[0] != '~'; }
  }

  /** Two characters of a tilde escape are read back as one piece. */
  lemma TildePiece(s: string, i: nat, fragment: bool, d: char, rest: string)
    requires (d == '0' || d == '1') && Goes(s, i, ['~', d], rest)
    ensures i < |s| && s[i] == '~'
    ensures PieceAt(s, i, fragment) == Good(Piece(if d == '0' then "~" else "/", i + 2))
  {
    assert s[i..][0] == '~' && s[i..][1] == d;
  }

  lemma PlainPiece(s: string, i: nat, fragment: bool, c: char, rest: string)
    requires c != '~' && c != '/' && (fragment ==> !NeedPercentEncode(c)) && Goes(s, i, [c], rest)
    ensures i < |s| && s[i] == c && PieceAt(s, i, fragment) == Good(Piece([c], i + 1))
  {
    assert s[i..][0] == c;
  }

  lemma NameStep(s: string, i: nat, fragment: bool, u: Piece, rest: string, end: nat)
    requires i < |s| && s[i] != '/' && PieceAt(s, i, fragment) == Good(u)
    requires u.end <= |s| && NameAt(s, u.end, fragment) == Good(Piece(rest, end))
    ensures NameAt(s, i, fragment) == Good(Piece(u.text + rest, end))
  {
  }

  /** What is written together is read back as one piece. */
  lemma FirstBack(name: string, fragment: bool, s: string, i: nat, rest: string)
    requires name != "" && FirstSize(name, fragment) > 0 && Goes(s, i, FirstText(name, fragment), rest)
    ensures i < |s| && s[i] != '/'
    ensures PieceAt(s, i, fragment) == Good(Piece(name[..FirstSize(name, fragment)], i + |FirstText(name, fragment)|))
  {
    hide PieceAt, Front, Utf8Char, Percent, Goes;
    var n := FirstSize(name, fragment);
    assert n == 1 ==> name[..n] == [name[0]];
    if name[0] == '~' || name[0] == '/' {
      TildePiece(s, i, fragment, if name[0] == '~' then '0' else '1', rest);
    } else if fragment && NeedPercentEncode(name[0]) {
      CharIsBytes(name[..n]);
      PercentLength(name[..n]);
      EncodedPiece(s, i, name[..n], rest);
    } else {
      PlainPiece(s, i, fragment, name[0], rest);
    }
  }

  /** A name that was written is read back, up to the slash or the end that follows. */
  lemma {:induction false} NameBack(name: string, fragment: bool, s: string, i: nat, rest: string)
    requires NameText(name, fragment).Some? && Goes(s, i, NameText(name, fragment).value, rest)
    requires rest == "" || rest[0] == '/'
    ensures NameAt(s, i, fragment) == Good(Piece(name, i + |NameText(name, fragment).value|))
    decreases |name|
  {
    hide PieceAt, NameAt, FirstSize, FirstText, Goes, AtSlash;
    if name == "" {
      NothingLeft(s, i, fragment, rest);
    } else {
      var n, u := FirstSize(name, fragment), FirstText(name, fragment);
      var t := NameText(name[n..], fragment).value;
      GoesOn(s, i, u, t, rest);
      FirstBack(name, fragment, s, i, t + rest);
      NameBack(name[n..], fragment, s, i + |u|, rest);
      NameStep(s, i, fragment, Piece(name[..n], i + |u|), name[n..], i + |u| + |t|);
      HeadAndTail(name, n);
    }
  }

  lemma HeadAndTail<T>(s: seq<T>, n: nat)
    requires n <= |s|
    ensures s[..n] + s[n..] == s && (n == 1 ==> [s[0]] + s[1..] == s)
  {
  }

  lemma NothingLeft(s: string, i: nat, fragment: bool, rest: string)
    requires Goes(s, i, "", rest) && (rest == "" || rest[0] == '/')
    ensures AtSlash(s, i) && NameAt(s, i, fragment) == Good(Piece("", i))
  {
    assert s[i..] == rest;
    if rest != "" { assert s[i] == s[i..][0]; }
  }

  /** Tokens whose indices are those of their names. */
  predicate Derived(ts: seq<Token>) {
    forall k :: 0 <= k < |ts| ==> ts[k].index == IndexOf(ts[k].name)
  }

  /** The tokens that Parse gives have the indices of their names, so a dash has none. */
  lemma ParsedIndexed(s: string)
    requires Parse(s).Good?
    ensures Derived(Parse(s).value) && Indexed(Parse(s).value)
  {
    hide TokensAt, IndexOf;
    TokensDerived(s, if Peek(s, 0) == '#' then 1 else 0, Peek(s, 0) == '#');
    NoIndex("-");
  }

  lemma {:induction false} TokensDerived(s: string, i: nat, fragment: bool)
    requires AtSlash(s, i) && TokensAt(s, i, fragment).Good?
    ensures Derived(TokensAt(s, i, fragment).value)
    decreases |s| - i
  {
    hide NameAt, IndexOf;
    if i < |s| { TokensDerived(s, NameAt(s, i + 1, fragment).value.end, fragment); }
  }

  /** In an array a token leads to the element whose number it is, as section 4 of RFC 6901 has it,
      and nowhere if it is no number or too big a one. */
  lemma ArrayChild(es: seq<N.Node>, t: Token)
    requires t.index == IndexOf(t.name)
    requires IsNumber(t.name) ==> Decimal(t.name) < SIZE_TYPE_RANGE - 1
    ensures Child(N.Array(es), t) ==
            if IsNumber(t.name) && Decimal(t.name) < |es| then Some(Decimal(t.name)) else None
  {
    if IsNumber(t.name) {
      IndexIsDecimal(t.name);
    } else {
      NoIndex(t.name);
    }
  }

  lemma TokenStep(s: string, i: nat, fragment: bool, t: Token, end: nat, rest: seq<Token>)
    requires i < |s| && s[i] == '/' && t.index == IndexOf(t.name)
    requires NameAt(s, i + 1, fragment) == Good(Piece(t.name, end)) && AtSlash(s, end)
    requires TokensAt(s, end, fragment) == Good(rest)
    ensures AtSlash(s, i) && TokensAt(s, i, fragment) == Good([t] + rest)
  {
  }

  lemma {:induction false} TokensBack(ts: seq<Token>, fragment: bool, s: string, i: nat)
    requires Derived(ts) && TokensText(ts, fragment).Some? && Goes(s, i, TokensText(ts, fragment).value, "")
    ensures AtSlash(s, i) && TokensAt(s, i, fragment) == Good(ts)
    decreases |ts|
  {
    hide NameAt, NameText, IndexOf;
    if ts == [] {
      assert s[i..] == "";
    } else {
      hide Goes, TokensAt, AtSlash;
      var t, more := NameText(ts[0].name, fragment).value, TokensText(ts[1..], fragment).value;
      var first := ts[0];
      TokensStart(ts[1..], fragment);
      assert TokensText(ts, fragment).value == "/" + t + more;
      hide TokensText;
      GoesOn(s, i, "/" + t, more, "");
      NothingAfter(s, i, "/" + t, more);
      GoesOn(s, i, "/", t, more);
      NameBack(first.name, fragment, s, i + 1, more);
      TokensBack(ts[1..], fragment, s, i + 1 + |t|);
      TokenStep(s, i, fragment, first, i + 1 + |t|, ts[1..]);
      HeadAndTail(ts, 1);
    }
  }

  lemma NothingAfter(s: string, i: nat, t: string, more: string)
    requires Goes(s, i, t, more + "")
    ensures Goes(s, i, t, more)
  {
    assert more + "" == more;
  }

  lemma TokensStart(ts: seq<Token>, fragment: bool)
    requires TokensText(ts, fragment).Some?
    ensures var t := TokensText(ts, fragment).value; t == "" || t[0] == '/'
  {
  }

  /** Parsing what Stringify wrote gives the tokens back, in both forms. */
  lemma RoundTrip(ts: seq<Token>, fragment: bool)
    requires Derived(ts) && Stringify(ts, fragment).Some?
    ensures Parse(Stringify(ts, fragment).value) == Good(ts)
  {
    hide TokensText, TokensAt;
    var s, t := Stringify(ts, fragment).value, TokensText(ts, fragment).value;
    var i := if fragment then 1 else 0;
    assert s[i..] == t + "";
    TokensStart(ts, fragment);
    TokensBack(ts, fragment, s, i);
    if !fragment && s != "" { assert s[0] == '/'; }
  }

  /** The plain form is written for any names, the fragment form for names that are UTF-8. */
  lemma {:induction false} Writable(name: string, fragment: bool)
    requires fragment ==> WellFormed(name)
    ensures NameText(name, fragment).Some?
    decreases |name|
  {
    hide Front, FirstText;
    if name != "" {
      if fragment && (name[0] == '/' || !NeedPercentEncode(name[0])) { AsciiFront(name); }
      Writable(name[FirstSize(name, fragment)..], fragment);
    }
  }

  lemma AsciiFront(name: string)
    requires name != "" && (!NeedPercentEncode(name[0]) || name[0] == '/')
    ensures Front(name) == 1
  {
    assert name[..1] == [name[0]];
  }

  lemma {:induction false} TokensWritable(ts: seq<Token>, fragment: bool)
    requires fragment ==> forall k :: 0 <= k < |ts| ==> WellFormed(ts[k].name)
    ensures TokensText(ts, fragment).Some? && Stringify(ts, fragment).Some?
  {
    if ts != [] {
      Writable(ts[0].name, fragment);
      TokensWritable(ts[1..], fragment);
    }
  }

  // ---- what a fragment is made of

  /** The unreserved characters of section 2.3 of RFC 3986. */
  predicate Unreserved(c: char) {
    || 'a' <= c <= 'z' || 'A' <= c <= 'Z' || '0' <= c <= '9'
    || c == '-' || c == '.' || c == '_' || c == '~'
  }

  predicate FragmentText(t: string) {
    forall k :: 0 <= k < |t| ==> Unreserved(t[k]) || t[k] == '%' || t[k] == '/'
  }

  /** A fragment is written in unreserved characters, slashes and percent triplets, */
  lemma {:induction false} WrittenFragment(ts: seq<Token>)
    requires TokensText(ts, true).Some?
    ensures FragmentText(TokensText(ts, true).value)
  {
    hide NameText;
    if ts != [] {
      WrittenName(ts[0].name);
      WrittenFragment(ts[1..]);
    }
  }

  lemma {:induction false} WrittenName(name: string)
    requires NameText(name, true).Some?
    ensures FragmentText(NameText(name, true).value)
    decreases |name|
  {
    hide Percent, Front;
    if name != "" {
      var n := FirstSize(name, true);
      if NeedPercentEncode(name[0]) && name[0] != '/' {
        CharIsBytes(name[..n]);
        WrittenPercent(name[..n]);
      }
      WrittenName(name[n..]);
    }
  }

  lemma {:induction false} WrittenPercent(t: string)
    requires IsBytes(t)
    ensures FragmentText(Percent(t))
  {
    if t != "" {
      HexBack(t[0] as nat / 16);
      HexBack(t[0] as nat % 16);
      WrittenPercent(t[1..]);
    }
  }

  /** with unreserved names standing for themselves, tildes apart, */
  lemma {:induction false} PlainName(name: string)
    requires forall k :: 0 <= k < |name| ==> Unreserved(name[k]) && name[k] != '~'
    ensures NameText(name, true) == Some(name)
    decreases |name|
  {
    if name != "" {
      PlainName(name[1..]);
      HeadAndTail(name, 1);
    }
  }

  /** and only such a fragment is read. */
  lemma ReadFragment(s: string)
    requires Peek(s, 0) == '#' && Parse(s).Good?
    ensures FragmentText(s[1..])
  {
    TokensAreFragment(s, 1);
  }

  lemma {:induction false} TokensAreFragment(s: string, i: nat)
    requires AtSlash(s, i) && TokensAt(s, i, true).Good?
    ensures FragmentText(s[i..])
    decreases |s| - i
  {
    hide NameAt;
    if i < |s| {
      var j := NameAt(s, i + 1, true).value.end;
      NameIsFragment(s, i + 1);
      TokensAreFragment(s, j);
      assert s[i..] == [s[i]] + s[i + 1..j] + s[j..];
    }
  }

  lemma {:induction false} NameIsFragment(s: string, i: nat)
    requires i <= |s| && NameAt(s, i, true).Good?
    ensures FragmentText(s[i..NameAt(s, i, true).value.end])
    decreases |s| - i
  {
    hide PieceAt;
    if !AtSlash(s, i) {
      var u := PieceAt(s, i, true).value;
      PieceFits(s, i, true);
      PieceIsFragment(s, i);
      NameIsFragment(s, u.end);
      var end := NameAt(s, i, true).value.end;
      assert s[i..end] == s[i..u.end] + s[u.end..end];
    }
  }

  lemma PieceIsFragment(s: string, i: nat)
    requires i < |s| && s[i] != '/' && PieceAt(s, i, true).Good? && PieceAt(s, i, true).value.end <= |s|
    ensures i <= PieceAt(s, i, true).value.end && FragmentText(s[i..PieceAt(s, i, true).value.end])
  {
    hide Front;
    if s[i] == '%' { TripletsAreFragment(s, i, Front(Triplets(s, i))); }
  }

  lemma {:induction false} TripletsAreFragment(s: string, i: nat, n: nat)
    requires i <= |s| && n <= |Triplets(s, i)|
    ensures i + 3 * n <= |s| && FragmentText(s[i..i + 3 * n])
    decreases n
  {
    if n > 0 {
      TripletsAreFragment(s, i + 3, n - 1);
      assert s[i..i + 3 * n] == [s[i], s[i + 1], s[i + 2]] + s[i + 3..i + 3 * n];
    }
  }

  // ---- the parser's buffers

  /** How much of the name buffer the tokens take: each name and a zero after it. */
  function BufferUse(ts: seq<Token>): nat {
    if ts == [] then 0 else |ts[0].name| + 1 + BufferUse(ts[1..])
  }

  function Slashes(s: string): nat {
    if s == "" then 0 else (if s[0] == '/' then 1 else 0) + Slashes(s[1..])
  }

  lemma {:induction false} SlashesAt(s: string, i: nat, j: nat)
    requires i <= j <= |s| && '/' !in s[i..j]
    ensures Slashes(s[i..]) == Slashes(s[j..])
    decreases j - i
  {
    if i < j {
      assert s[i..j][0] == s[i] && s[i..][1..] == s[i + 1..] && s[i + 1..j] == s[i..j][1..];
      SlashesAt(s, i + 1, j);
    }
  }

  lemma {:induction false} NameHasNoSlash(s: string, i: nat, fragment: bool)
    requires i <= |s| && NameAt(s, i, fragment).Good?
    ensures '/' !in s[i..NameAt(s, i, fragment).value.end]
    decreases |s| - i
  {
    hide PieceAt;
    if !AtSlash(s, i) {
      var u := PieceAt(s, i, fragment).value;
      PieceFits(s, i, fragment);
      NameHasNoSlash(s, u.end, fragment);
      var end := NameAt(s, i, fragment).value.end;
      assert s[i..end] == s[i..u.end] + s[u.end..end];
    }
  }

  /** The names never outgrow the buffer, which is as long as the source, and there are exactly as
      many tokens as the source has slashes. */
  lemma {:induction false} TokensFit(s: string, i: nat, fragment: bool)
    requires AtSlash(s, i) && TokensAt(s, i, fragment).Good?
    ensures BufferUse(TokensAt(s, i, fragment).value) <= |s| - i
    ensures |TokensAt(s, i, fragment).value| == Slashes(s[i..])
    decreases |s| - i
  {
    hide NameAt, IndexOf;
    if i < |s| {
      var name := NameAt(s, i + 1, fragment).value;
      var rest := TokensAt(s, name.end, fragment).value;
      TokensFit(s, name.end, fragment);
      NameHasNoSlash(s, i + 1, fragment);
      SlashesAt(s, i + 1, name.end);
      assert s[i..][0] == '/' && s[i..][1..] == s[i + 1..];
      assert TokensAt(s, i, fragment).value[1..] == rest;
    }
  }

  class GenericPointer {
    var tokens: seq<Token>
    var nameBuffer: string
    var parseErrorCode: Option<PointerError>
    var parseErrorOffset: nat

    constructor ()
      ensures tokens == [] && nameBuffer == [] && parseErrorCode == None
    {
      tokens, nameBuffer, parseErrorCode, parseErrorOffset := [], [], None, 0;
    }

    ghost predicate Holds(r: Outcome<seq<Token>>)
      reads this
    {
      match r
      case Good(ts) => parseErrorCode == None && tokens == ts
      case Bad(e, i) => parseErrorCode == Some(e) && parseErrorOffset == i && tokens == []
    }

    /** Parse. */
    method ParseSource(source: string)
      requires tokens == [] && nameBuffer == [] && parseErrorCode == None
      modifies this
      ensures Holds(Parse(source))
      ensures |nameBuffer| <= |source|
    {
      hide NameAt, IndexOf;
      var i := 0;
      var uriFragment := false;
      if Peek(source, i) == '#' {
        uriFragment := true;
        i := i + 1;
      }
      if i != |source| && source[i] != '/' {
        Fail(TokenMustBeginWithSolidus, i);
        return;
      }
      NoneYet(TokensAt(source, i, uriFragment));
      while i < |source|
        invariant i <= |source| && AtSlash(source, i) && |nameBuffer| <= i && parseErrorCode == None
        invariant Parse(source) == After(tokens, TokensAt(source, i, uriFragment))
        decreases |source| - i
      {
        ghost var start := i;
        i := i + 1;
        var name, isNumber;
        name, isNumber, i := TakeName(source, i, uriFragment);
        AfterOne(tokens, source, start, uriFragment);
        if parseErrorCode != None { return; }
        var index := ParseIndex(name, isNumber);
        tokens := tokens + [Token(name, index)];
      }
    }

    method Fail(error: PointerError, offset: nat)
      modifies this
      ensures parseErrorCode == Some(error) && parseErrorOffset == offset && tokens == [] && nameBuffer == ""
    {
      tokens, nameBuffer, parseErrorCode, parseErrorOffset := [], "", Some(error), offset;
    }

    /** One name, up to the slash or the end, with a zero after it in the buffer. */
    method TakeName(source: string, start: nat, uriFragment: bool) returns (name: string, isNumber: bool, i: nat)
      requires |nameBuffer| < start <= |source| && parseErrorCode == None
      modifies this
      ensures match NameAt(source, start, uriFragment)
              case Good(u) =>
                && parseErrorCode == None && name == u.text && i == u.end && tokens == old(tokens)
                && (isNumber <==> AllDigits(name))
                && nameBuffer == old(nameBuffer) + name + ['\0'] && |nameBuffer| <= i
              case Bad(e, j) => parseErrorCode == Some(e) && parseErrorOffset == j && tokens == [] && nameBuffer == ""
    {
      hide PieceAt, AtSlash;
      name, i, isNumber := "", start, true;
      ghost var before, whole := nameBuffer, NameAt(source, start, uriFragment);
      var from := |nameBuffer|;
      NothingYet(whole);
      assert nameBuffer[from..] == "";
      while i < |source| && source[i] != '/'
        invariant i <= |source| && from <= |nameBuffer| < i && nameBuffer[..from] == before
        invariant whole == AfterText(nameBuffer[from..], NameAt(source, i, uriFragment))
        invariant isNumber <==> AllDigits(nameBuffer[from..])
        invariant parseErrorCode == None && tokens == old(tokens)
        decreases |source| - i
      {
        ghost var sofar, at := nameBuffer[from..], i;
        NextPiece(sofar, source, i, uriFragment);
        PieceFitsIfGood(source, i, uriFragment);
        i, isNumber := TakePiece(source, i, uriFragment, isNumber);
        if parseErrorCode != None { return; }
        ghost var more := PieceAt(source, at, uriFragment).value.text;
        assert nameBuffer[from..] == sofar + more;
        DigitsJoin(sofar, more);
      }
      NameDone(source, i, uriFragment);
      name := nameBuffer[from..];
      nameBuffer := nameBuffer + ['\0'];
    }

    /** One turn of the loop over a name. */
    method TakePiece(source: string, start: nat, uriFragment: bool, digits: bool) returns (i: nat, isNumber: bool)
      requires start < |source| && source[start] != '/' && parseErrorCode == None
      modifies this
      ensures match PieceAt(source, start, uriFragment)
              case Good(u) =>
                && parseErrorCode == None && i == u.end && tokens == old(tokens)
                && nameBuffer == old(nameBuffer) + u.text && isNumber == (digits && AllDigits(u.text))
              case Bad(e, j) => parseErrorCode == Some(e) && parseErrorOffset == j && tokens == [] && nameBuffer == ""
    {
      i, isNumber := start, digits;
      var c := source[i];
      if uriFragment {
        if c == '%' {
          var valid, name := DecodePercent(source, i);
          if !valid {
            Fail(InvalidPercentEncoding, i);
            return;
          }
          i := i + 3 * |name| - 1;
          if |name| == 1 {
            c := name[0];
          } else {
            ManyAreNoDigits(Triplets(source, start));
            nameBuffer := nameBuffer + name;
            isNumber := false;
            i := i + 1;
            return;
          }
        } else if NeedPercentEncode(c) {
          Fail(CharacterMustPercentEncode, i);
          return;
        }
      }
      i := i + 1;
      c, i := Unescape(source, c, i);
      if parseErrorCode != None { return; }
      if c < '0' || c > '9' { isNumber := false; }
      assert AllDigits([c]) == IsDigit([c][0]);
      nameBuffer := nameBuffer + [c];
    }

    /** The character that the triplets stand for, if they stand for one. */
    method DecodePercent(source: string, i: nat) returns (valid: bool, name: string)
      requires i < |source|
      ensures valid <==> Front(Triplets(source, i)) > 0
      ensures valid ==> name == Triplets(source, i)[..Front(Triplets(source, i))]
    {
      hide Utf8Char;
      var bytes := new MemoryStream(Triplets(source, i));
      valid, name := |bytes.src| > 0, "";
      if valid { name, valid := bytes.Validate(name); }
      assert bytes.src[0..] == bytes.src;
    }

    /** The escape part of the loop over a name. */
    method Unescape(source: string, c: char, start: nat) returns (d: char, i: nat)
      requires start <= |source| && parseErrorCode == None
      modifies this
      ensures match Escaped(source, c, start)
              case Good(u) =>
                parseErrorCode == None && u == Piece([d], i) && tokens == old(tokens) && nameBuffer == old(nameBuffer)
              case Bad(e, j) => parseErrorCode == Some(e) && parseErrorOffset == j && tokens == [] && nameBuffer == ""
    {
      d, i := c, start;
      if d == '~' {
        if i < |source| {
          d := source[i];
          if d == '0' {
            d := '~';
          } else if d == '1' {
            d := '/';
          } else {
            Fail(InvalidEscape, i);
            return;
          }
          i := i + 1;
        } else {
          Fail(InvalidEscape, i);
        }
      }
    }

    /** The index of a name. */
    method ParseIndex(name: string, digits: bool) returns (index: nat)
      requires digits <==> AllDigits(name)
      ensures index == IndexOf(name)
    {
      var isNumber := digits;
      if |name| == 0 { isNumber := false; }
      if isNumber && |name| > 1 && name[0] == '0' { isNumber := false; }
      var n := 0;
      if isNumber {
        for j := 0 to |name|
          invariant isNumber && IndexLoop(name[..j]) == Some(n)
        {
          assert name[..j + 1][..j] == name[..j];
          var m := (10 * n + Digit(name[j])) % SIZE_TYPE_RANGE;
          if m < n {
            LoopFails(name, j + 1);
            return INVALID_INDEX;
          }
          n := m;
        }
        assert name[..|name|] == name;
      }
      return if isNumber then n else INVALID_INDEX;
    }

    /** Stringify, in either form. */
    method StringifyTo(uriFragment: bool) returns (ok: bool, os: string)
      ensures ok <==> Stringify(tokens, uriFragment).Some?
      ensures ok ==> os == Stringify(tokens, uriFragment).value
    {
      hide NameText;
      ok, os := true, if uriFragment then "#" else "";
      ghost var whole := Stringify(tokens, uriFragment);
      for k := 0 to |tokens|
        invariant ok && whole == Prepend(os, TokensText(tokens[k..], uriFragment))
      {
        ghost var rest := tokens[k..];
        assert rest[1..] == tokens[k + 1..];
        PrependTwice(os, "/", NameText(rest[0].name, uriFragment), TokensText(rest[1..], uriFragment));
        os := os + "/";
        ok, os := WriteName(tokens[k].name, os, uriFragment);
        if !ok { return; }
      }
      assert whole == Some(os + "");
      assert os + "" == os;
    }

    /** The loop over the characters of one name. */
    method WriteName(name: string, start: string, uriFragment: bool) returns (ok: bool, os: string)
      ensures ok <==> NameText(name, uriFragment).Some?
      ensures ok ==> os == start + NameText(name, uriFragment).value
    {
      hide FirstSize, FirstText;
      ok, os := true, start;
      var j := 0;
      ghost var whole := Prepend(start, NameText(name, uriFragment));
      assert name[0..] == name;
      while j < |name|
        invariant j <= |name| && ok && whole == Prepend(os, NameText(name[j..], uriFragment))
        decreases |name| - j
      {
        ghost var rest := name[j..];
        FirstWritten(os, rest, uriFragment);
        var n;
        ok, os, n := WriteFirst(name, j, os, uriFragment);
        if !ok { return; }
        assert name[j + n..] == rest[n..];
        j := j + n;
      }
      assert os + "" == os;
    }

    /** One turn of that loop. */
    method WriteFirst(name: string, j: nat, start: string, uriFragment: bool) returns (ok: bool, os: string, n: nat)
      requires j < |name|
      ensures ok <==> FirstSize(name[j..], uriFragment) > 0
      ensures ok ==> n == FirstSize(name[j..], uriFragment) && os == start + FirstText(name[j..], uriFragment)
    {
      hide Front, Utf8Char, Percent;
      ok, os, n := true, start, 1;
      var c := name[j];
      if c == '~' {
        os := os + "~";
        os := os + "0";
      } else if c == '/' {
        os := os + "~";
        os := os + "1";
      } else if uriFragment && NeedPercentEncode(c) {
        var source := new MemoryStream(name[j..]);
        assert source.src[0..] == source.src;
        var put;
        put, ok := source.Validate("");
        if !ok { return; }
        FrontIsBytes(name[j..]);
        assert put == source.src[0..source.pos] == name[j..][..Front(name[j..])];
        os := os + Percent(put);
        n := source.pos;
      } else {
        os := os + [c];
      }
    }
  }

  lemma FrontIsBytes(t: string)
    requires Front(t) > 0
    ensures IsBytes(t[..Front(t)])
  {
    CharIsBytes(t[..Front(t)]);
  }

  lemma PrependTwice(a: string, b: string, c: Option<string>, d: Option<string>)
    ensures Prepend(a, match c case None => None case Some(t) => Prepend(b + t, d))
            == match c case None => None case Some(t) => Prepend(a + b + t, d)
  {
    if c.Some? && d.Some? {
      ConcatAssociative(a, b + c.value, d.value);
      ConcatAssociative(a, b, c.value);
    }
  }

  /** Writing a name, from its first characters on. */
  lemma FirstWritten(os: string, name: string, fragment: bool)
    requires name != ""
    ensures Prepend(os, NameText(name, fragment)) ==
            if FirstSize(name, fragment) == 0 then None
            else Prepend(os + FirstText(name, fragment), NameText(name[FirstSize(name, fragment)..], fragment))
  {
    hide Front, Percent;
    var n := FirstSize(name, fragment);
    if n > 0 && NameText(name[n..], fragment).Some? {
      ConcatAssociative(os, FirstText(name, fragment), NameText(name[n..], fragment).value);
    }
  }

  lemma {:induction false} LoopFails(name: string, j: nat)
    requires AllDigits(name) && j <= |name| && IndexLoop(name[..j]) == None
    ensures IndexLoop(name) == None
    decreases |name| - j
  {
    if j < |name| {
      assert name[..j + 1][..j] == name[..j];
      LoopFails(name, j + 1);
    } else {
      assert name[..j] == name;
    }
  }

  lemma DigitsJoin(a: string, b: string)
    ensures AllDigits(a + b) <==> AllDigits(a) && AllDigits(b)
  {
    assert AllDigits(a + b) ==> forall k :: 0 <= k < |a| ==> (a + b)[k] == a[k];
    assert AllDigits(a + b) ==> forall k :: 0 <= k < |b| ==> (a + b)[|a| + k] == b[k];
  }

  lemma ManyAreNoDigits(t: string)
    requires Front(t) > 1
    ensures !AllDigits(t[..Front(t)])
  {
    assert !IsDigit(t[..Front(t)][0]);
  }

  /** The outcome once these characters of a name have been read. */
  function AfterText(t: string, r: Outcome<Piece>): Outcome<Piece> {
    match r case Good(u) => Good(Piece(t + u.text, u.end)) case Bad(e, i) => Bad(e, i)
  }

  lemma NothingYet(r: Outcome<Piece>)
    ensures AfterText("", r) == r
  {
    if r.Good? { assert "" + r.value.text == r.value.text; }
  }

  lemma NextPiece(t: string, s: string, i: nat, fragment: bool)
    requires i < |s| && s[i] != '/'
    ensures AfterText(t, NameAt(s, i, fragment)) ==
            match PieceAt(s, i, fragment)
            case Bad(e, j) => Bad(e, j)
            case Good(u) => if i < u.end <= |s| then AfterText(t + u.text, NameAt(s, u.end, fragment)) else Good(u)
  {
    hide PieceAt;
    if PieceAt(s, i, fragment).Good? {
      PieceFits(s, i, fragment);
      var u := PieceAt(s, i, fragment).value;
      var r := NameAt(s, u.end, fragment);
      if r.Good? { ConcatAssociative(t, u.text, r.value.text); }
    }
  }

  lemma PieceFitsIfGood(s: string, i: nat, fragment: bool)
    requires i < |s| && s[i] != '/'
    ensures PieceAt(s, i, fragment).Good? ==>
              var u := PieceAt(s, i, fragment).value; i < u.end <= |s| && |u.text| <= u.end - i
  {
    hide PieceAt;
    if PieceAt(s, i, fragment).Good? { PieceFits(s, i, fragment); }
  }

  lemma NameDone(s: string, i: nat, fragment: bool)
    requires i <= |s| && (i == |s| || s[i] == '/')
    ensures NameAt(s, i, fragment) == Good(Piece("", i))
  {
  }

  /** The outcome once these tokens have been read. */
  function After(ts: seq<Token>, r: Outcome<seq<Token>>): Outcome<seq<Token>> {
    match r case Good(rest) => Good(ts + rest) case Bad(e, i) => Bad(e, i)
  }

  lemma NoneYet(r: Outcome<seq<Token>>)
    ensures After([], r) == r
  {
    if r.Good? { assert [] + r.value == r.value; }
  }

  lemma AfterOne(ts: seq<Token>, s: string, i: nat, fragment: bool)
    requires i < |s| && s[i] == '/'
    ensures After(ts, TokensAt(s, i, fragment)) ==
            match NameAt(s, i + 1, fragment)
            case Bad(e, j) => Bad(e, j)
            case Good(u) => After(ts + [Token(u.text, IndexOf(u.text))], TokensAt(s, u.end, fragment))
  {
    hide NameAt, IndexOf;
    if NameAt(s, i + 1, fragment).Good? {
      var u := NameAt(s, i + 1, fragment).value;
      var r := TokensAt(s, u.end, fragment);
      if r.Good? { ConcatAssociative(ts, [Token(u.text, IndexOf(u.text))], r.value); }
    }
  }
}
