/** The characters and escapes that the readers and the grammar share, against the tables of the
    standards: sections 2, 6 and 7 of RFC 8259 and section 2 of RFC 2781. */
module JsonVocabulary {
  import opened JsonText
  import opened Utf8Codec
  import G = JsonGrammar

  /** ws of section 2 of RFC 8259. */
  lemma SpacesAre(c: char)
    ensures IsSpace(c) <==> c as int == 0x20 || c as int == 0x09 || c as int == 0x0A || c as int == 0x0D
  {
  }

  const LOWER_HEX := "0123456789abcdef"
  const UPPER_HEX := "0123456789ABCDEF"

  /** c is the hexadecimal digit of d, in either case. */
  predicate IsDigitOf(c: char, d: nat)
    requires d < 16
  {
    c == LOWER_HEX[d] || c == UPPER_HEX[d]
  }

  lemma DigitsAre(c: char)
    ensures IsHex(c) <==> exists d :: 0 <= d < 16 && IsDigitOf(c, d)
  {
    if IsHex(c) { assert IsDigitOf(c, Hex(c)); }
  }

  lemma DigitMeans(c: char, d: nat)
    requires d < 16 && IsDigitOf(c, d)
    ensures IsHex(c) && Hex(c) == d
  {
  }

  /** Four digits in any mixture of cases mean the number that they write in base 16, to the
      grammar and to the readers. */
  lemma EscapeMeans(a: string, d: seq<nat>, s: string, i: nat, offset: nat)
    requires |a| == |d| == 4 && forall k :: 0 <= k < 4 ==> d[k] < 16 && IsDigitOf(a[k], d[k])
    requires i + 4 <= |s| && s[i..i + 4] == a
    ensures var v := 4096 * d[0] + 256 * d[1] + 16 * d[2] + d[3];
            G.FourHex(a) && G.FourHexValue(a) == v && Hex4(s, i, offset) == Ok(v)
  {
    hide IsHex, Hex, IsDigitOf;
    forall k | 0 <= k < 4 ensures IsHex(a[k]) && Hex(a[k]) == d[k] && s[i + k] == a[k] {
      DigitMeans(a[k], d[k]);
      assert s[i + k] == s[i..i + 4][k];
    }
  }

  /** The escapes of one character: section 7 of RFC 8259. */
  lemma EscapesAre(c: char)
    ensures IsSimpleEscape(c) <==>
            c == '"' || c == '\\' || c == '/' || c == 'b' || c == 'f' || c == 'n' || c == 'r' || c == 't'
    ensures IsSimpleEscape(c) ==>
            SimpleEscape(c) as int ==
            match c
            case '"' => 0x22
            case '\\' => 0x5C
            case '/' => 0x2F
            case 'b' => 0x08
            case 'f' => 0x0C
            case 'n' => 0x0A
            case 'r' => 0x0D
            case _ => 0x09
  {
  }

  /** The surrogates that section 2.1 of RFC 2781 gives for a code point are read as that code point. */
  lemma SurrogatesMean(u: nat)
    requires 0x10000 <= u <= 0x10FFFF
    ensures var high, low := 0xD800 + (u - 0x10000) / 0x400, 0xDC00 + (u - 0x10000) % 0x400;
            0xD800 <= high <= 0xDBFF && 0xDC00 <= low <= 0xDFFF && SurrogatePair(high, low) == u
  {
  }

  /** An escaped code point is stored as its character of section 4 of RFC 3629, */
  lemma EscapeIsUtf8(f: Flags, p: G.Piece)
    requires G.PieceOk(f, p) && (p.Unicode? || p.Surrogates?)
    ensures var units := G.PieceUnits(f, p);
            && Utf8Char(units)
            && Value(units) == if p.Unicode? then G.FourHexValue(p.h)
                               else SurrogatePair(G.FourHexValue(p.high), G.FourHexValue(p.low))
  {
    hide G.FourHexValue, Utf8, SurrogatePair;
    EncodedIsChar(if p.Unicode? then G.FourHexValue(p.h)
                  else SurrogatePair(G.FourHexValue(p.high), G.FourHexValue(p.low)));
  }

  /** so that this text is the letter e with an acute accent. */
  lemma LowerCaseEscape(f: Flags)
    ensures ScalarToken(f, "\"\\u00e9\"", 0) == Ok(Lexed(String([0xC3 as char, 0xA9 as char]), 8))
  {
    var s, units := "\"\\u00e9\"", [0xC3 as char, 0xA9 as char];
    EscapeMeans("00e9", [0, 0, 14, 9], s, 3, 1);
    hide Hex4;
    assert StringStep(f, s, 1) == Ok(Lexed(units, 7));
    assert StringRest(f, s, 7, units) == Ok(Lexed(units, 8));
    assert "" + units == units;
  }

  /** Decimal digits have their values. */
  lemma DecimalDigitsAre(c: char)
    ensures IsDigit(c) <==> exists d :: 0 <= d < 10 && c == "0123456789"[d]
    ensures IsDigit(c) ==> c == "0123456789"[Digit(c)]
  {
    if IsDigit(c) { assert c == "0123456789"[Digit(c)]; }
  }
}
