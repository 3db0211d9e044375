/** The lexical functions recognise exactly the blanks, strings and numbers of the grammar. */
module JsonLexing {
  import opened JsonText
  import opened JsonGrammar
  import opened JsonDigits

  /** The text t stands at position i. */
  predicate Holds(s: string, i: nat, t: string): (b: bool)
    ensures b ==> i + |t| <= |s| || t == ""
    decreases |t|
  {
    t == "" || (i < |s| && s[i] == t[0] && Holds(s, i + 1, t[1..]))
  }

  lemma {:induction false} HoldsSplit(s: string, i: nat, a: string, b: string)
    ensures Holds(s, i, a + b) <==> Holds(s, i, a) && Holds(s, i + |a|, b)
    decreases |a|
  {
    if a == "" {
      assert a + b == b;
    } else {
      assert (a + b)[1..] == a[1..] + b;
      HoldsSplit(s, i + 1, a[1..], b);
    }
  }

  lemma {:induction false} HoldsChar(s: string, i: nat, t: string, k: nat)
    requires Holds(s, i, t) && k < |t|
    ensures Peek(s, i + k) == t[k] && i + k < |s| && s[i + k] == t[k]
    decreases k
  {
    if k > 0 { HoldsChar(s, i + 1, t[1..], k - 1); }
  }

  lemma {:induction false} HoldsSlice(s: string, i: nat, j: nat)
    requires i <= j <= |s|
    ensures Holds(s, i, s[i..j])
    decreases j - i
  {
    if i < j {
      assert s[i..j][1..] == s[i + 1..j];
      HoldsSlice(s, i + 1, j);
    }
  }

  // ---- blanks

  /** Nothing here that SkipBlank would skip. */
  predicate NoBlank(f: Flags, c: char) { !IsSpace(c) && !(f.comments && c == '/') }

  lemma {:induction false} BlockEndComplete(s: string, i: nat, body: string, k: nat)
    requires Holds(s, i, body + "*/") && '\0' !in body && k <= |body|
    requires NoClose(body)
    ensures BlockEnd(s, i + k) == Ok(i + |body| + 2)
    decreases |body| - k
  {
    HoldsChar(s, i, body + "*/", k);
    HoldsChar(s, i, body + "*/", k + 1);
    if k < |body| { BlockEndComplete(s, i, body, k + 1); }
  }

  lemma {:induction false} LineEndComplete(s: string, i: nat, body: string)
    requires Holds(s, i, body) && '\0' !in body && '\n' !in body
    requires i <= |s| && (Peek(s, i + |body|) == '\n' || Peek(s, i + |body|) == '\0')
    ensures LineEnd(s, i) == if Peek(s, i + |body|) == '\n' then i + |body| + 1 else i + |body|
    decreases |body|
  {
    if body != "" {
      HoldsChar(s, i, body, 0);
      LineEndComplete(s, i + 1, body[1..]);
    }
  }

  lemma NothingToSkip(f: Flags, s: string, i: nat)
    requires i <= |s| && NoBlank(f, Peek(s, i))
    ensures SkipBlank(f, s, i) == Ok(i)
  {
  }

  /** A slash is skipped together with the comment it opens. */
  lemma CommentSkipped(f: Flags, s: string, i: nat)
    requires i < |s| && s[i] == '/' && f.comments
    ensures SkipBlank(f, s, i) == match CommentEnd(s, i)
                                  case Err(e) => Err(e)
                                  case Ok(j) => SkipBlank(f, s, j)
  {
    hide CommentEnd;
  }

  lemma GapComplete(f: Flags, s: string, i: nat, g: Gap)
    requires GapOk(f, g) && Holds(s, i, GapText(g))
    requires g.OpenLine? ==> Peek(s, i + |GapText(g)|) == '\0'
    ensures SkipBlank(f, s, i) == SkipBlank(f, s, i + |GapText(g)|)
  {
    HoldsChar(s, i, GapText(g), 0);
    if !g.Space? {
      HoldsChar(s, i, GapText(g), 1);
      CommentComplete(f, s, i, g);
      hide CommentEnd, SkipBlank;
      CommentSkipped(f, s, i);
    }
  }

  lemma CommentComplete(f: Flags, s: string, i: nat, g: Gap)
    requires GapOk(f, g) && Holds(s, i, GapText(g)) && !g.Space?
    requires g.OpenLine? ==> Peek(s, i + |GapText(g)|) == '\0'
    ensures CommentEnd(s, i) == Ok(i + |GapText(g)|)
  {
    hide BlockEnd, LineEnd, NoClose;
    HoldsChar(s, i, GapText(g), 0);
    HoldsChar(s, i, GapText(g), 1);
    match g
    case Block(body) =>
      HoldsSplit(s, i, "/*", body + "*/");
      BlockComplete(s, i, body);
    case Line(body) =>
      HoldsSplit(s, i, "//", body + "\n");
      HoldsSplit(s, i + 2, body, "\n");
      HoldsChar(s, i + 2 + |body|, "\n", 0);
      LineComplete(s, i, body);
    case OpenLine(body) =>
      HoldsSplit(s, i, "//", body);
      LineComplete(s, i, body);
  }

  lemma BlockComplete(s: string, i: nat, body: string)
    requires i < |s| && Peek(s, i + 1) == '*' && Holds(s, i + 2, body + "*/") && '\0' !in body
    requires NoClose(body)
    ensures CommentEnd(s, i) == Ok(i + |body| + 4)
  {
    hide NoClose, BlockEnd, Holds;
    BlockEndComplete(s, i + 2, body, 0);
  }

  lemma LineComplete(s: string, i: nat, body: string)
    requires i + 2 <= |s| && s[i + 1] == '/' && Holds(s, i + 2, body) && '\0' !in body && '\n' !in body
    requires Peek(s, i + 2 + |body|) == '\n' || Peek(s, i + 2 + |body|) == '\0'
    ensures CommentEnd(s, i) ==
            Ok(if Peek(s, i + 2 + |body|) == '\n' then i + |body| + 3 else i + |body| + 2)
  {
    LineEndComplete(s, i + 2, body);
  }

  lemma {:induction false} GapsComplete(f: Flags, s: string, i: nat, gs: Gaps, atEnd: bool)
    requires i <= |s| && GapsOk(f, gs, atEnd) && Holds(s, i, GapsText(gs))
    requires NoBlank(f, Peek(s, i + |GapsText(gs)|)) && (atEnd ==> Peek(s, i + |GapsText(gs)|) == '\0')
    ensures SkipBlank(f, s, i) == Ok(i + |GapsText(gs)|)
    decreases |gs|
  {
    hide GapText, GapOk, SkipBlank;
    if gs == [] {
      NothingToSkip(f, s, i);
    } else {
      HoldsSplit(s, i, GapText(gs[0]), GapsText(gs[1..]));
      if gs[0].OpenLine? { assert gs[1..] == []; }
      GapComplete(f, s, i, gs[0]);
      GapsComplete(f, s, i + |GapText(gs[0])|, gs[1..], atEnd);
    }
  }

  lemma {:induction false} BlockEndSound(s: string, i: nat) returns (body: string)
    requires i <= |s| && BlockEnd(s, i).Ok?
    ensures Holds(s, i, body + "*/") && '\0' !in body && BlockEnd(s, i) == Ok(i + |body| + 2)
    ensures NoClose(body)
    decreases |s| - i
  {
    if s[i] == '*' && Peek(s, i + 1) == '/' {
      body := "";
    } else {
      var rest := BlockEndSound(s, i + 1);
      body := [s[i]] + rest;
      assert body + "*/" == [s[i]] + (rest + "*/");
      HoldsSplit(s, i, [s[i]], rest + "*/");
      HoldsChar(s, i + 1, rest + "*/", 0);
      forall m | 0 <= m < |body| ensures !(body[m] == '*' && (body + "*/")[m + 1] == '/') {
        if m > 0 {
          assert body[m] == rest[m - 1] && (body + "*/")[m + 1] == (rest + "*/")[m];
        }
      }
    }
  }

  lemma {:induction false} LineEndSound(s: string, i: nat) returns (body: string, closed: bool)
    requires i <= |s|
    ensures '\0' !in body && '\n' !in body && Holds(s, i, body) && i + |body| <= |s|
    ensures Peek(s, i + |body|) == if closed then '\n' else '\0'
    ensures LineEnd(s, i) == if closed then i + |body| + 1 else i + |body|
    decreases |s| - i
  {
    if Peek(s, i) == '\0' {
      body, closed := "", false;
    } else if s[i] == '\n' {
      body, closed := "", true;
    } else {
      var rest;
      rest, closed := LineEndSound(s, i + 1);
      body := [s[i]] + rest;
      HoldsSplit(s, i, [s[i]], rest);
    }
  }

  lemma BlockSound(s: string, i: nat) returns (g: Gap)
    requires i + 2 <= |s| && s[i] == '/' && s[i + 1] == '*' && BlockEnd(s, i + 2).Ok?
    ensures g.Block? && '\0' !in g.body && NoClose(g.body) && Holds(s, i, GapText(g))
    ensures BlockEnd(s, i + 2) == Ok(i + |GapText(g)|)
  {
    hide BlockEnd, NoClose;
    var body := BlockEndSound(s, i + 2);
    g := Block(body);
    assert Holds(s, i, "/*");
    HoldsSplit(s, i, "/*", body + "*/");
  }

  lemma LineSound(s: string, i: nat) returns (g: Gap)
    requires i + 2 <= |s| && s[i] == '/' && s[i + 1] == '/'
    ensures (g.Line? || g.OpenLine?) && '\0' !in g.body && '\n' !in g.body && Holds(s, i, GapText(g))
    ensures LineEnd(s, i + 2) == i + |GapText(g)|
    ensures g.OpenLine? ==> Peek(s, i + |GapText(g)|) == '\0'
  {
    hide LineEnd;
    var body, closed := LineEndSound(s, i + 2);
    assert Holds(s, i, "//");
    HoldsSplit(s, i, "//", body);
    if closed {
      g := Line(body);
      assert Holds(s, i + 2 + |body|, "\n");
      HoldsSplit(s, i + 2, body, "\n");
      HoldsSplit(s, i, "//", body + "\n");
    } else {
      g := OpenLine(body);
    }
  }

  lemma CommentSound(f: Flags, s: string, i: nat) returns (g: Gap)
    requires i < |s| && s[i] == '/' && CommentEnd(s, i).Ok? && f.comments
    ensures GapOk(f, g) && Holds(s, i, GapText(g)) && |GapText(g)| > 0
    ensures CommentEnd(s, i) == Ok(i + |GapText(g)|)
    ensures g.OpenLine? ==> Peek(s, i + |GapText(g)|) == '\0'
  {
    hide BlockEnd, LineEnd, NoClose, Holds;
    if Peek(s, i + 1) == '*' {
      g := BlockSound(s, i);
    } else {
      g := LineSound(s, i);
    }
  }

  lemma GapSound(f: Flags, s: string, i: nat) returns (g: Gap)
    requires i < |s| && SkipBlank(f, s, i).Ok? && !NoBlank(f, Peek(s, i))
    ensures GapOk(f, g) && Holds(s, i, GapText(g)) && |GapText(g)| > 0
    ensures SkipBlank(f, s, i) == SkipBlank(f, s, i + |GapText(g)|)
    ensures g.OpenLine? ==> Peek(s, i + |GapText(g)|) == '\0'
  {
    if IsSpace(s[i]) {
      g := Space(s[i]);
    } else {
      CommentSkipped(f, s, i);
      g := CommentSound(f, s, i);
    }
  }

  lemma {:induction false} GapsSound(f: Flags, s: string, i: nat) returns (gs: Gaps)
    requires i <= |s| && SkipBlank(f, s, i).Ok?
    ensures var j := SkipBlank(f, s, i).value;
            && GapsOk(f, gs, Peek(s, j) == '\0') && Holds(s, i, GapsText(gs)) && j == i + |GapsText(gs)|
            && NoBlank(f, Peek(s, j))
    decreases |s| - i
  {
    hide GapText, GapOk, SkipBlank;
    if NoBlank(f, Peek(s, i)) {
      NothingToSkip(f, s, i);
      gs := [];
    } else {
      var g := GapSound(f, s, i);
      var k := i + |GapText(g)|;
      if g.OpenLine? {
        NothingToSkip(f, s, k);
        gs := [g];
        assert gs[1..] == [];
      } else {
        var rest := GapsSound(f, s, k);
        gs := [g] + rest;
        assert gs[1..] == rest;
      }
      HoldsSplit(s, i, GapText(g), GapsText(gs[1..]));
    }
  }

  // ---- strings

  lemma Hex4Complete(s: string, i: nat, h: string, offset: nat)
    requires FourHex(h) && Holds(s, i, h)
    ensures Hex4(s, i, offset) == Ok(FourHexValue(h))
  {
    HoldsChar(s, i, h, 0);
    HoldsChar(s, i, h, 1);
    HoldsChar(s, i, h, 2);
    HoldsChar(s, i, h, 3);
  }

  lemma Hex4Sound(s: string, i: nat, offset: nat)
    requires Hex4(s, i, offset).Ok?
    ensures i + 4 <= |s| && FourHex(s[i..i + 4]) && Holds(s, i, s[i..i + 4])
    ensures Hex4(s, i, offset) == Ok(FourHexValue(s[i..i + 4]))
  {
    HoldsSlice(s, i, i + 4);
  }

  lemma UnicodeComplete(s: string, i: nat, h: string, offset: nat)
    requires FourHex(h) && Holds(s, i, h) && !(0xD800 <= FourHexValue(h) <= 0xDFFF)
    ensures UnicodeEscape(s, i, offset) == Ok(Lexed(FourHexValue(h), i + 4))
  {
    Hex4Complete(s, i, h, offset);
  }

  lemma SurrogatesComplete(s: string, i: nat, high: string, low: string, offset: nat)
    requires FourHex(high) && FourHex(low) && Holds(s, i, high + ("\\u" + low))
    requires 0xD800 <= FourHexValue(high) <= 0xDBFF && 0xDC00 <= FourHexValue(low) <= 0xDFFF
    ensures UnicodeEscape(s, i, offset) == Ok(Lexed(SurrogatePair(FourHexValue(high), FourHexValue(low)), i + 10))
  {
    hide Hex4, FourHexValue, SurrogatePair;
    HoldsSplit(s, i, high, "\\u" + low);
    HoldsSplit(s, i + 4, "\\u", low);
    HoldsChar(s, i + 4, "\\u" + low, 0);
    HoldsChar(s, i + 4, "\\u" + low, 1);
    Hex4Complete(s, i, high, offset);
    Hex4Complete(s, i + 6, low, offset);
  }

  lemma PieceComplete(f: Flags, s: string, i: nat, p: Piece)
    requires PieceOk(f, p) && Holds(s, i, PieceText(p))
    ensures Peek(s, i) != '"'
    ensures StringStep(f, s, i) == Ok(Lexed(PieceUnits(f, p), i + |PieceText(p)|))
  {
    hide Utf8, SurrogatePair, SimpleEscape, UnicodeEscape, FourHexValue;
    HoldsChar(s, i, PieceText(p), 0);
    match p
    case Raw(_) =>
    case Escaped(_) => HoldsChar(s, i, PieceText(p), 1);
    case Unicode(h) =>
      HoldsChar(s, i, PieceText(p), 1);
      HoldsSplit(s, i, "\\u", h);
      UnicodeComplete(s, i + 2, h, i);
    case Surrogates(high, low) =>
      HoldsChar(s, i, PieceText(p), 1);
      HoldsSplit(s, i, "\\u", high + ("\\u" + low));
      SurrogatesComplete(s, i + 2, high, low, i);
  }

  lemma UnicodeSound(f: Flags, s: string, i: nat, offset: nat) returns (p: Piece)
    requires UnicodeEscape(s, i, offset).Ok?
    ensures p.Unicode? || p.Surrogates?
    ensures PieceOk(f, p) && Holds(s, i, PieceText(p)[2..]) && PieceText(p)[..2] == "\\u"
    ensures var u := UnicodeEscape(s, i, offset).value;
            PieceUnits(f, p) == Utf8(u.token) && u.end == i + |PieceText(p)| - 2
  {
    hide Utf8, Hex4, FourHexValue;
    Hex4Sound(s, i, offset);
    var h := s[i..i + 4];
    if 0xD800 <= FourHexValue(h) <= 0xDFFF {
      Hex4Sound(s, i + 6, offset);
      var low := s[i + 6..i + 10];
      p := Surrogates(h, low);
      assert Holds(s, i + 4, "\\u");
      HoldsSplit(s, i + 4, "\\u", low);
      HoldsSplit(s, i, h, "\\u" + low);
      assert PieceText(p)[2..] == h + ("\\u" + low);
    } else {
      p := Unicode(h);
      assert PieceText(p)[2..] == h;
    }
  }

  lemma PieceSound(f: Flags, s: string, i: nat) returns (p: Piece)
    requires i < |s| && s[i] != '"' && StringStep(f, s, i).Ok?
    ensures PieceOk(f, p) && Holds(s, i, PieceText(p))
    ensures StringStep(f, s, i) == Ok(Lexed(PieceUnits(f, p), i + |PieceText(p)|))
  {
    hide Utf8, SimpleEscape, UnicodeEscape, FourHexValue;
    if s[i] != '\\' {
      p := Raw(s[i]);
    } else if s[i + 1] != 'u' {
      p := Escaped(s[i + 1]);
      assert PieceText(p)[1..] == [s[i + 1]];
      assert Holds(s, i + 1, [s[i + 1]]);
    } else {
      p := UnicodeSound(f, s, i + 2, i);
      assert Holds(s, i, "\\u");
      HoldsSplit(s, i, "\\u", PieceText(p)[2..]);
      assert PieceText(p) == "\\u" + PieceText(p)[2..];
    }
  }

  lemma {:induction false} StringComplete(f: Flags, s: string, i: nat, ps: seq<Piece>, sofar: string)
    requires PiecesOk(f, ps) && Holds(s, i, PiecesText(ps))
    ensures StringRest(f, s, i, sofar) == Ok(Lexed(sofar + PiecesUnits(f, ps), i + |PiecesText(ps)|))
    decreases |ps|
  {
    hide PieceText, PieceOk, PieceUnits, StringStep;
    if ps == [] {
      HoldsChar(s, i, "\"", 0);
      assert sofar + "" == sofar;
    } else {
      HoldsSplit(s, i, PieceText(ps[0]), PiecesText(ps[1..]));
      PieceComplete(f, s, i, ps[0]);
      StringComplete(f, s, i + |PieceText(ps[0])|, ps[1..], sofar + PieceUnits(f, ps[0]));
      ConcatAssociative(sofar, PieceUnits(f, ps[0]), PiecesUnits(f, ps[1..]));
    }
  }

  lemma {:induction false} StringSound(f: Flags, s: string, i: nat, sofar: string) returns (ps: seq<Piece>)
    requires i <= |s| && StringRest(f, s, i, sofar).Ok?
    ensures PiecesOk(f, ps) && Holds(s, i, PiecesText(ps))
    ensures StringRest(f, s, i, sofar) == Ok(Lexed(sofar + PiecesUnits(f, ps), i + |PiecesText(ps)|))
    decreases |s| - i
  {
    hide PieceText, PieceOk, PieceUnits, StringStep;
    if Peek(s, i) == '"' {
      ps := [];
      assert sofar + PiecesUnits(f, ps) == sofar;
    } else {
      var p := PieceSound(f, s, i);
      var rest := StringSound(f, s, i + |PieceText(p)|, sofar + PieceUnits(f, p));
      ps := [p] + rest;
      assert ps[1..] == rest;
      HoldsSplit(s, i, PieceText(p), PiecesText(rest));
      ConcatAssociative(sofar, PieceUnits(f, p), PiecesUnits(f, rest));
    }
  }

  /** A whole string, from quotation mark to quotation mark. */
  lemma QuotedComplete(f: Flags, s: string, i: nat, ps: seq<Piece>)
    requires PiecesOk(f, ps) && Holds(s, i, QuotedText(ps))
    ensures Peek(s, i) == '"' && i < |s|
    ensures StringRest(f, s, i + 1, "") == Ok(Lexed(PiecesUnits(f, ps), i + |QuotedText(ps)|))
  {
    hide PieceText, PieceOk, PieceUnits, StringStep;
    HoldsSplit(s, i, "\"", PiecesText(ps));
    HoldsChar(s, i, QuotedText(ps), 0);
    StringComplete(f, s, i + 1, ps, "");
    assert "" + PiecesUnits(f, ps) == PiecesUnits(f, ps);
  }

  lemma QuotedSound(f: Flags, s: string, i: nat) returns (ps: seq<Piece>)
    requires i < |s| && s[i] == '"' && StringRest(f, s, i + 1, "").Ok?
    ensures PiecesOk(f, ps) && Holds(s, i, QuotedText(ps))
    ensures StringRest(f, s, i + 1, "") == Ok(Lexed(PiecesUnits(f, ps), i + |QuotedText(ps)|))
  {
    hide PieceText, PieceOk, PieceUnits, StringStep;
    ps := StringSound(f, s, i + 1, "");
    assert "" + PiecesUnits(f, ps) == PiecesUnits(f, ps);
    assert Holds(s, i, "\"");
    HoldsSplit(s, i, "\"", PiecesText(ps));
  }
}
