/** The number scanner recognises exactly the numbers of the grammar. */
module JsonNumbers {
  import opened JsonText
  import opened JsonGrammar
  import opened JsonLexing

  /** A character that can follow a value, and so does not prolong a number. */
  predicate Stops(c: char) { c == '\0' || IsSpace(c) || c == '/' || c == ',' || c == ']' || c == '}' }

  lemma {:induction false} DigitsAt(s: string, p: nat, t: string)
    requires p <= |s| && Holds(s, p, t) && AllDigits(t) && !IsDigit(Peek(s, p + |t|))
    ensures p + |t| <= |s| && DigitsEnd(s, p) == p + |t| && s[p..p + |t|] == t
    decreases |t|
  {
    if t != "" {
      DigitsAt(s, p + 1, t[1..]);
      assert s[p..p + |t|] == [s[p]] + s[p + 1..p + |t|];
    }
  }

  lemma {:induction false} MatchedHolds(s: string, i: nat, word: string)
    ensures Holds(s, i, word) ==> Matched(s, i, word) == |word|
    ensures '\0' !in word && Matched(s, i, word) == |word| ==> Holds(s, i, word)
    decreases |word|
  {
    if word != "" { MatchedHolds(s, i + 1, word[1..]); }
  }

  // ---- completeness

  lemma DigitsComplete(f: Flags, s: string, p: nat, t: string)
    requires p <= |s| && Holds(s, p, t) && AllDigits(t) && t != "" && (t[0] == '0' ==> |t| == 1)
    requires !IsDigit(Peek(s, p + |t|))
    ensures IntegerPart(f, s, p) == Ok(Head(p + |t|, Decimal(t), |t| - 1, false))
  {
    HoldsChar(s, p, t, 0);
    DigitsAt(s, p, t);
    if t[0] == '0' { assert t == "0" && Decimal("0") == 0; }
  }

  lemma WholeComplete(f: Flags, s: string, p: nat, n: Number)
    requires p <= |s| && NumberWellFormed(f, n) && Holds(s, p, WholeText(n.whole))
    requires var c := Peek(s, p + |WholeText(n.whole)|); !IsDigit(c) && c != 'i'
    ensures IntegerPart(f, s, p) ==
            Ok(Head(p + |WholeText(n.whole)|, WholeValue(f, n),
                    if n.whole.Digits? then |n.whole.t| - 1 else 0, !n.whole.Digits?))
  {
    hide Decimal, AllDigits, DigitsEnd, Matched, IsMark;
    HoldsChar(s, p, WholeText(n.whole), 0);
    hide Holds;
    match n.whole
    case Digits(t) => DigitsComplete(f, s, p, t);
    case NaN => MatchedHolds(s, p, "NaN");
    case Inf => MatchedHolds(s, p, "Inf");
    case Infinity => InfinityMatched(s, p);
  }

  lemma InfinityMatched(s: string, p: nat)
    requires Holds(s, p, "Infinity")
    ensures Matched(s, p, "Inf") == 3 && Peek(s, p + 3) == 'i' && Matched(s, p + 3, "inity") == 5
  {
    hide Matched;
    assert "Infinity" == "Inf" + "inity";
    HoldsSplit(s, p, "Inf", "inity");
    HoldsChar(s, p + 3, "inity", 0);
    MatchedHolds(s, p, "Inf");
    MatchedHolds(s, p + 3, "inity");
  }

  lemma FractionComplete(f: Flags, s: string, h: Head, n: Number)
    requires h.end <= |s| && NumberWellFormed(f, n) && Holds(s, h.end, FractionText(n))
    requires h.value == WholeValue(f, n) && h.moreDigits == (if n.whole.Digits? then |n.whole.t| - 1 else 0)
    requires var c := Peek(s, h.end + |FractionText(n)|); !IsDigit(c) && c != '.'
    ensures FractionPart(s, h, Big(f, n)) == Ok(Lexed(Scale(f, n), h.end + |FractionText(n)|))
  {
    hide Limit64, Decimal, IsMark, DigitsEnd, FractionKept;
    if n.fraction != "" {
      HoldsSplit(s, h.end, ".", n.fraction);
      HoldsChar(s, h.end, ".", 0);
      HoldsChar(s, h.end + 1, n.fraction, 0);
      DigitsAt(s, h.end + 1, n.fraction);
    }
  }

  lemma ExponentComplete(f: Flags, s: string, start: nat, q: nat, n: Number)
    requires q <= |s| && NumberOk(f, n) && Holds(s, q, n.mark + n.exponent)
    requires Stops(Peek(s, q + |n.mark| + |n.exponent|))
    ensures ExponentPart(s, start, q, Scale(f, n)) == Ok(q + |n.mark| + |n.exponent|)
  {
    hide Scale, IsDouble, Holds, Decimal, DigitsEnd, NumberText, WholeText;
    HoldsSplit(s, q, n.mark, n.exponent);
    if n.mark == "" {
      assert n.mark + n.exponent == "";
    } else {
      HoldsChar(s, q, n.mark, 0);
      HoldsChar(s, q + |n.mark|, n.exponent, 0);
      if |n.mark| == 2 { HoldsChar(s, q, n.mark, 1); }
      DigitsAt(s, q + |n.mark|, n.exponent);
    }
  }

  /** The event of a number whose three parts have been read. */
  lemma TokenOfParts(f: Flags, s: string, i: nat, minus: bool, h: Head, frac: Lexed<nat>, z: nat, t: string)
    requires i <= |s| && minus == (Peek(s, i) == '-')
    requires IntegerPart(f, s, if minus then i + 1 else i) == Ok(h)
    requires FractionPart(s, h, h.value > Limit64(minus)) == Ok(frac)
    requires ExponentPart(s, i, frac.end, frac.token) == Ok(z)
    requires s[i..z] == t && ((h.value > Limit64(minus) || h.end < z) ==> !f.overflows(t))
    ensures h.special || h.value > Limit64(minus) || h.end < z ==> NumberToken(f, s, i) == Ok(Lexed(Double(t), z))
    ensures !h.special && h.value <= Limit64(minus) && h.end == z ==>
              NumberToken(f, s, i) == Ok(Lexed(IntegerEvent(minus, h.value), z))
  {
    hide IntegerPart, FractionPart, ExponentPart, IntegerEvent, Limit64;
  }

  lemma NumberComplete(f: Flags, s: string, i: nat, n: Number)
    requires NumberOk(f, n) && Holds(s, i, NumberText(n)) && Stops(Peek(s, i + |NumberText(n)|))
    ensures i < |s| && NumberToken(f, s, i) == Ok(Lexed(NumberEvent(f, n), i + |NumberText(n)|))
  {
    hide NumberToken, IntegerPart, FractionPart, ExponentPart, Scale, Decimal, IntegerEvent, AllDigits, Limit64,
         Limit32;
    hide NumberText, WholeText, Holds, Stops, IsDigit, IsMark;
    NumberParts(f, s, i, n);
    HoldsText(s, i, NumberText(n));
    var p := if n.minus then i + 1 else i;
    WholeComplete(f, s, p, n);
    var h := IntegerPart(f, s, p).value;
    FractionComplete(f, s, h, n);
    var r := h.end + |FractionText(n)|;
    ExponentComplete(f, s, i, r, n);
    TokenOfParts(f, s, i, n.minus, h, Lexed(Scale(f, n), r), i + |NumberText(n)|, NumberText(n));
  }

  const TWO_TO_31: int := 0x8000_0000
  const TWO_TO_32: int := 0x1_0000_0000
  const TWO_TO_63: int := 0x8000_0000_0000_0000
  const TWO_TO_64: int := 0x1_0000_0000_0000_0000

  /** Does the event carry the integer v, in the type that the standard limits of 32 and 64 bits give it? */
  predicate Carries(e: Event, minus: bool, v: int) {
    match e
    case Int(i) => minus && i == v && -TWO_TO_31 <= v
    case Uint(u) => !minus && u == v && v < TWO_TO_32
    case Int64(i) => minus && i == v && -TWO_TO_63 <= v < -TWO_TO_31
    case Uint64(u) => !minus && u == v && TWO_TO_32 <= v < TWO_TO_64
    case _ => false
  }

  /** An integer literal of any length gives its exact value: signed when there is a minus sign,
      unsigned otherwise, in 32 bits exactly when it fits, and as a double exactly when it leaves
      the range from -2^63 to 2^64 - 1. */
  lemma IntegerIsExact(f: Flags, s: string, i: nat, minus: bool, t: string)
    requires AllDigits(t) && t != "" && (t[0] == '0' ==> |t| == 1)
    requires var text := (if minus then "-" else "") + t;
             Holds(s, i, text) && Stops(Peek(s, i + |text|)) && !f.overflows(text)
    ensures var v: int := if minus then -(Decimal(t) as int) else Decimal(t);
            var text := (if minus then "-" else "") + t;
            && i <= |s| && NumberToken(f, s, i).Ok? && NumberToken(f, s, i).value.end == i + |text|
            && (if -TWO_TO_63 <= v < TWO_TO_64 then Carries(NumberToken(f, s, i).value.token, minus, v)
                else NumberToken(f, s, i).value.token == Double(text))
  {
    hide NumberToken, Decimal, Holds, Stops, AllDigits, IsMark;
    var n := Number(minus, Digits(t), "", "", "");
    var text := (if minus then "-" else "") + t;
    assert NumberText(n) == text by { Unpadded(t); }
    assert NumberWellFormed(f, n) by { NoDigits(); }
    NumberComplete(f, s, i, n);
  }

  lemma Unpadded(t: string)
    ensures t + ("" + ("" + "")) == t
  {
  }

  lemma NoDigits()
    ensures AllDigits("") && IsMark("")
  {
  }

  /** Neither a fraction nor an exponent nor the end of a number starts like what precedes it. */
  lemma ExponentStart(f: Flags, s: string, r: nat, n: Number)
    requires NumberWellFormed(f, n) && Holds(s, r, n.mark + n.exponent) && Stops(Peek(s, r + |n.mark + n.exponent|))
    ensures !IsDigit(Peek(s, r)) && Peek(s, r) != 'i' && Peek(s, r) != '.'
  {
    hide Decimal;
    if n.mark != "" { HoldsChar(s, r, n.mark + n.exponent, 0); }
  }

  lemma FractionStart(f: Flags, s: string, q: nat, n: Number)
    requires NumberWellFormed(f, n) && Holds(s, q, FractionText(n))
    requires var c := Peek(s, q + |FractionText(n)|); !IsDigit(c) && c != 'i'
    ensures !IsDigit(Peek(s, q)) && Peek(s, q) != 'i'
  {
    if n.fraction != "" { HoldsChar(s, q, FractionText(n), 0); }
  }

  lemma WholeStart(f: Flags, s: string, p: nat, n: Number)
    requires NumberWellFormed(f, n) && Holds(s, p, WholeText(n.whole))
    ensures p < |s| && Peek(s, p) != '-'
  {
    HoldsChar(s, p, WholeText(n.whole), 0);
  }

  /** The parts of a number stand where they should, and the next part tells where each ends. */
  lemma NumberParts(f: Flags, s: string, i: nat, n: Number)
    requires NumberWellFormed(f, n) && Holds(s, i, NumberText(n)) && Stops(Peek(s, i + |NumberText(n)|))
    ensures i < |s| && (Peek(s, i) == '-' <==> n.minus)
    ensures var p := i + if n.minus then 1 else 0;
            var q := p + |WholeText(n.whole)|;
            var r := q + |FractionText(n)|;
            && p <= |s| && q <= |s| && r <= |s|
            && Holds(s, p, WholeText(n.whole)) && !IsDigit(Peek(s, q)) && Peek(s, q) != 'i'
            && Holds(s, q, FractionText(n)) && !IsDigit(Peek(s, r)) && Peek(s, r) != '.'
            && Holds(s, r, n.mark + n.exponent) && Stops(Peek(s, r + |n.mark| + |n.exponent|))
            && r + |n.mark| + |n.exponent| == i + |NumberText(n)|
  {
    var sign := if n.minus then "-" else "";
    var w, fr, ex := WholeText(n.whole), FractionText(n), n.mark + n.exponent;
    hide Stops, WholeText, FractionText, NumberWellFormed, IsDigit;
    HoldsSplit(s, i, sign, w + (fr + ex));
    if n.minus { HoldsChar(s, i, sign, 0); }
    hide Holds;
    var p := i + |sign|;
    HoldsSplit(s, p, w, fr + ex);
    HoldsSplit(s, p + |w|, fr, ex);
    WholeStart(f, s, p, n);
    ExponentStart(f, s, p + |w| + |fr|, n);
    FractionStart(f, s, p + |w|, n);
  }

  lemma {:induction false} HoldsText(s: string, i: nat, t: string)
    requires i <= |s| && Holds(s, i, t)
    ensures i + |t| <= |s| && s[i..i + |t|] == t
    decreases |t|
  {
    if t != "" {
      HoldsText(s, i + 1, t[1..]);
      assert s[i..i + |t|] == [s[i]] + s[i + 1..i + |t|];
    }
  }

  // ---- soundness

  lemma WholeSound(f: Flags, s: string, p: nat) returns (w: Whole)
    requires p <= |s| && IntegerPart(f, s, p).Ok?
    ensures var h := IntegerPart(f, s, p).value;
            && WholeText(w) == s[p..h.end]
            && (match w
                case Digits(t) =>
                  && AllDigits(t) && t != "" && (t[0] == '0' ==> |t| == 1)
                  && !h.special && h.value == Decimal(t) && h.moreDigits == |t| - 1
                case _ => f.nanAndInf && h.special && h.value == 0 && h.moreDigits == 0)
  {
    hide Matched;
    var h := IntegerPart(f, s, p).value;
    if Peek(s, p) == '0' {
      w := Digits("0");
      assert s[p..p + 1] == "0";
    } else if IsDigit(Peek(s, p)) {
      w := Digits(s[p..h.end]);
    } else if Peek(s, p) == 'N' {
      w := NaN;
      MatchedText(s, p, "NaN");
    } else {
      MatchedText(s, p, "Inf");
      if h.end == p + 3 {
        w := Inf;
      } else {
        w := Infinity;
        MatchedText(s, p + 3, "inity");
        assert s[p..p + 8] == s[p..p + 3] + s[p + 3..p + 8];
      }
    }
  }

  lemma MatchedText(s: string, i: nat, word: string)
    requires i <= |s| && '\0' !in word && Matched(s, i, word) == |word|
    ensures i + |word| <= |s| && s[i..i + |word|] == word
  {
    MatchedHolds(s, i, word);
    HoldsText(s, i, word);
  }

  lemma FractionSound(s: string, h: Head, big: bool) returns (t: string)
    requires h.end <= |s| && FractionPart(s, h, big).Ok?
    ensures AllDigits(t)
    ensures var r := FractionPart(s, h, big).value;
            && r.token == FractionKept(t, h.value, h.moreDigits, big)
            && s[h.end..r.end] == (if t == "" then "" else "." + t)
            && (h.end < r.end <==> t != "")
  {
    if Peek(s, h.end) != '.' {
      t := "";
    } else {
      var r := FractionPart(s, h, big).value;
      t := s[h.end + 1..r.end];
      assert s[h.end..r.end] == [s[h.end]] + t;
    }
  }

  lemma ExponentSound(s: string, start: nat, q: nat, scale: nat) returns (mark: string, t: string)
    requires q <= |s| && ExponentPart(s, start, q, scale).Ok?
    ensures AllDigits(t) && (t == "" <==> mark == "") && IsMark(mark)
    ensures mark != "" && (|mark| == 1 || mark[1] != '-') ==> Decimal(t) <= 308 + scale
    ensures s[q..ExponentPart(s, start, q, scale).value] == mark + t
  {
    if Peek(s, q) != 'e' && Peek(s, q) != 'E' {
      mark, t := "", "";
    } else {
      var y := if Peek(s, q + 1) == '+' || Peek(s, q + 1) == '-' then q + 2 else q + 1;
      var z := ExponentPart(s, start, q, scale).value;
      mark, t := s[q..y], s[y..z];
      assert s[q..z] == mark + t;
      assert mark == if y == q + 2 then [s[q], s[q + 1]] else [s[q]];
    }
  }

  /** A number that was accepted has three accepted parts, and its event is the one they give. */
  lemma PartsOfToken(f: Flags, s: string, i: nat) returns (h: Head, frac: Lexed<nat>, z: nat)
    requires i <= |s| && NumberToken(f, s, i).Ok?
    ensures var minus := Peek(s, i) == '-';
            && IntegerPart(f, s, if minus then i + 1 else i) == Ok(h) && h.end <= |s|
            && FractionPart(s, h, h.value > Limit64(minus)) == Ok(frac) && frac.end <= |s|
            && ExponentPart(s, i, frac.end, frac.token) == Ok(z)
            && i < h.end <= frac.end <= z <= |s|
            && (h.value > Limit64(minus) || h.end < z ==> !f.overflows(s[i..z]))
            && (h.special || h.value > Limit64(minus) || h.end < z ==>
                  NumberToken(f, s, i) == Ok(Lexed(Double(s[i..z]), z)))
            && (!h.special && h.value <= Limit64(minus) && h.end == z ==>
                  NumberToken(f, s, i) == Ok(Lexed(IntegerEvent(minus, h.value), z)))
  {
    hide IntegerPart, FractionPart, ExponentPart, IntegerEvent, Limit64;
    var minus := Peek(s, i) == '-';
    h := IntegerPart(f, s, if minus then i + 1 else i).value;
    frac := FractionPart(s, h, h.value > Limit64(minus)).value;
    z := ExponentPart(s, i, frac.end, frac.token).value;
  }

  lemma NumberSound(f: Flags, s: string, i: nat) returns (n: Number)
    requires i <= |s| && NumberToken(f, s, i).Ok?
    ensures NumberOk(f, n) && Holds(s, i, NumberText(n))
    ensures NumberToken(f, s, i) == Ok(Lexed(NumberEvent(f, n), i + |NumberText(n)|))
  {
    hide NumberToken, IntegerPart, FractionPart, ExponentPart, Decimal, IntegerEvent, FractionKept, AllDigits;
    hide Limit64, Limit32, Holds, IsDigit, IsMark, WholeText;
    var minus, p := SignSound(s, i);
    var h, q, z := PartsOfToken(f, s, i);
    var w := WholeSound(f, s, p);
    var big := h.value > Limit64(minus);
    var fr := FractionSound(s, h, big);
    var mark, ex := ExponentSound(s, i, q.end, q.token);
    n := Number(minus, w, fr, mark, ex);
    TextOfParts(s, i, p, h.end, q.end, z, n);
    HoldsSlice(s, i, z);
    hide NumberText, FractionText;
    Assembled(f, n, h, q.token);
    hide NumberWellFormed, WholeValue, Scale;
    Judged(f, s, i, n, h, q, z);
  }

  lemma Assembled(f: Flags, n: Number, h: Head, scale: nat)
    requires match n.whole
             case Digits(t) =>
               && AllDigits(t) && t != "" && (t[0] == '0' ==> |t| == 1)
               && h.value == Decimal(t) && h.moreDigits == |t| - 1
             case _ => f.nanAndInf && h.value == 0 && h.moreDigits == 0
    requires AllDigits(n.fraction) && AllDigits(n.exponent) && (n.exponent == "" <==> n.mark == "") && IsMark(n.mark)
    requires scale == FractionKept(n.fraction, h.value, h.moreDigits, h.value > Limit64(n.minus))
    ensures NumberWellFormed(f, n) && WholeValue(f, n) == h.value && Scale(f, n) == scale
  {
    hide AllDigits, Decimal, IsMark, FractionKept, Limit64;
  }

  /** The number has the event of the token and is not too big. */
  lemma Judged(f: Flags, s: string, i: nat, n: Number, h: Head, q: Lexed<nat>, z: nat)
    requires i <= h.end <= q.end <= z <= |s| && NumberWellFormed(f, n) && NumberText(n) == s[i..z]
    requires n.whole.Digits? != h.special && (h.special ==> h.value == 0)
    requires WholeValue(f, n) == h.value && Scale(f, n) == q.token
    requires n.mark != "" && (|n.mark| == 1 || n.mark[1] != '-') ==> Decimal(n.exponent) <= 308 + q.token
    requires (n.fraction != "" || n.exponent != "") == (h.end < z)
    requires h.value > Limit64(n.minus) || h.end < z ==> !f.overflows(s[i..z])
    ensures NumberOk(f, n)
    ensures NumberEvent(f, n) ==
            if h.special || h.value > Limit64(n.minus) || h.end < z then Double(s[i..z])
            else IntegerEvent(n.minus, h.value)
  {
    hide NumberWellFormed, NumberText, Limit64, Limit32, Decimal, Scale, IntegerEvent;
  }

  lemma SignSound(s: string, i: nat) returns (minus: bool, p: nat)
    requires i <= |s|
    ensures minus == (Peek(s, i) == '-') && p == (if minus then i + 1 else i)
    ensures p <= |s| && s[i..p] == if minus then "-" else ""
  {
    minus := Peek(s, i) == '-';
    p := if minus then i + 1 else i;
  }

  lemma TextOfParts(s: string, i: nat, p: nat, a: nat, b: nat, z: nat, n: Number)
    requires i <= p <= a <= b <= z <= |s|
    requires s[i..p] == (if n.minus then "-" else "") && s[p..a] == WholeText(n.whole)
    requires s[a..b] == (if n.fraction == "" then "" else "." + n.fraction) && s[b..z] == n.mark + n.exponent
    ensures NumberText(n) == s[i..z]
  {
    hide WholeText;
    Slices(s, i, p, a, b, z);
  }

  lemma Slices(s: string, a: nat, b: nat, c: nat, d: nat, e: nat)
    requires a <= b <= c <= d <= e <= |s|
    ensures s[a..e] == s[a..b] + (s[b..c] + (s[c..d] + s[d..e]))
  {
  }

  /** A NaN takes a fraction like any number. */
  lemma NanTakesFraction(f: Flags)
    requires f.nanAndInf && !f.overflows("NaN.5")
    ensures ScalarToken(f, "NaN.5", 0) == Ok(Lexed(Double("NaN.5"), 5))
  {
    var s := "NaN.5";
    assert Matched(s, 2, "N") == 1 && Matched(s, 1, "aN") == 2 && Matched(s, 0, "NaN") == 3;
    assert IntegerPart(f, s, 0) == Ok(Head(3, 0, 0, true));
    assert DigitsEnd(s, 4) == 5;
    assert s[0..5] == s;
  }
}
