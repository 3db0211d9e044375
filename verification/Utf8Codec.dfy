/** UTF8::Decode and Validate against section 4 of RFC 3629, and against UTF8::Encode. */
module Utf8Codec {
  import opened JsonText

  // ---- the standard

  predicate Within(c: char, low: nat, high: nat) { low <= c as nat <= high }

  predicate IsTail(c: char) { Within(c, 0x80, 0xBF) }

  /** UTF8-char of section 4 of RFC 3629. */
  predicate Utf8Char(t: string) {
    || (|t| == 1 && Within(t[0], 0x00, 0x7F))
    || (|t| == 2 && Within(t[0], 0xC2, 0xDF) && IsTail(t[1]))
    || (|t| == 3 && IsTail(t[2]) &&
        ( || (Within(t[0], 0xE0, 0xE0) && Within(t[1], 0xA0, 0xBF))
          || (Within(t[0], 0xE1, 0xEC) && IsTail(t[1]))
          || (Within(t[0], 0xED, 0xED) && Within(t[1], 0x80, 0x9F))
          || (Within(t[0], 0xEE, 0xEF) && IsTail(t[1]))))
    || (|t| == 4 && IsTail(t[2]) && IsTail(t[3]) &&
        ( || (Within(t[0], 0xF0, 0xF0) && Within(t[1], 0x90, 0xBF))
          || (Within(t[0], 0xF1, 0xF3) && IsTail(t[1]))
          || (Within(t[0], 0xF4, 0xF4) && Within(t[1], 0x80, 0x8F))))
  }

  /** A Unicode scalar value: a code point that is not a surrogate. */
  predicate Scalar(u: nat) { u <= 0xD7FF || 0xE000 <= u <= 0x10FFFF }

  /** How many bytes the lead announces, 0 if it cannot lead. */
  function Announced(lead: char): nat {
    if Within(lead, 0x00, 0x7F) then 1
    else if Within(lead, 0xC2, 0xDF) then 2
    else if Within(lead, 0xE0, 0xEF) then 3
    else if Within(lead, 0xF0, 0xF4) then 4
    else 0
  }

  function Low6(c: char): nat { c as nat % 64 }

  /** The code point of a character. */
  function Value(t: string): nat
    requires Utf8Char(t)
  {
    var lead := t[0] as nat;
    if |t| == 1 then lead
    else if |t| == 2 then 64 * (lead - 0xC0) + Low6(t[1])
    else if |t| == 3 then 4096 * (lead - 0xE0) + 64 * Low6(t[1]) + Low6(t[2])
    else 262144 * (lead - 0xF0) + 4096 * Low6(t[1]) + 64 * Low6(t[2]) + Low6(t[3])
  }

  // ---- Encode and the standard

  /** The base-64 digits of a number. */
  lemma Digits(a: nat, b: nat, c: nat, d: nat)
    requires b < 64 && c < 64 && d < 64
    ensures var u := 262144 * a + 4096 * b + 64 * c + d;
            u / 262144 == a && u / 4096 % 64 == b && u / 64 % 64 == c && u % 64 == d
    ensures a == 0 ==> (262144 * a + 4096 * b + 64 * c + d) / 4096 == b
    ensures a == 0 && b == 0 ==> (262144 * a + 4096 * b + 64 * c + d) / 64 == c
  {
    var u := 262144 * a + 4096 * b + 64 * c + d;
    assert u == 64 * (4096 * a + 64 * b + c) + d;
    assert u / 64 == 4096 * a + 64 * b + c;
    assert u / 4096 == u / 64 / 64 == 64 * a + b;
    assert u / 262144 == u / 4096 / 64 == a;
  }

  lemma EncodedIsChar(u: nat)
    requires Scalar(u)
    ensures Utf8Char(Utf8(u)) && Value(Utf8(u)) == u
  {
    if u > 0xFFFF {
      EncodedInFour(u);
    } else if u > 0x7FF {
      EncodedInThree(u);
    } else {
      assert u == 64 * (u / 64) + u % 64;
    }
  }

  lemma EncodedInThree(u: nat)
    requires Scalar(u) && 0x7FF < u <= 0xFFFF
    ensures Utf8Char(Utf8(u)) && Value(Utf8(u)) == u
  {
    assert u / 64 == 64 * (u / 4096) + u / 64 % 64;
    assert Low6(Utf8(u)[1]) == u / 64 % 64 && Low6(Utf8(u)[2]) == u % 64;
  }

  lemma EncodedInFour(u: nat)
    requires 0xFFFF < u <= 0x10FFFF
    ensures Utf8Char(Utf8(u)) && Value(Utf8(u)) == u
  {
    assert u / 64 == 64 * (u / 4096) + u / 64 % 64;
    assert u / 4096 == 64 * (u / 262144) + u / 4096 % 64;
    assert Low6(Utf8(u)[1]) == u / 4096 % 64 && Low6(Utf8(u)[2]) == u / 64 % 64 && Low6(Utf8(u)[3]) == u % 64;
  }

  lemma CharIsEncoded(t: string)
    requires Utf8Char(t)
    ensures Scalar(Value(t)) && Utf8(Value(t)) == t
  {
    if |t| == 2 {
      TwoBytes(t);
    } else if |t| == 3 {
      ThreeBytes(t);
    } else if |t| == 4 {
      FourBytes(t);
    }
  }

  lemma TwoBytes(t: string)
    requires Utf8Char(t) && |t| == 2
    ensures Scalar(Value(t)) && Utf8(Value(t)) == t
  {
    Digits(0, 0, t[0] as nat - 0xC0, Low6(t[1]));
  }

  lemma ThreeBytes(t: string)
    requires Utf8Char(t) && |t| == 3
    ensures Scalar(Value(t)) && Utf8(Value(t)) == t
  {
    Digits(0, t[0] as nat - 0xE0, Low6(t[1]), Low6(t[2]));
    var u := Value(t);
    assert 0x800 <= u <= 0xFFFF;
    assert Utf8(u)[0] == t[0] && Utf8(u)[1] == t[1] && Utf8(u)[2] == t[2];
  }

  lemma FourBytes(t: string)
    requires Utf8Char(t) && |t| == 4
    ensures Scalar(Value(t)) && Utf8(Value(t)) == t
  {
    Digits(t[0] as nat - 0xF0, Low6(t[1]), Low6(t[2]), Low6(t[3]));
    var u := Value(t);
    assert 0x10000 <= u <= 0x10FFFF;
    assert Utf8(u)[0] == t[0] && Utf8(u)[1] == t[1] && Utf8(u)[2] == t[2] && Utf8(u)[3] == t[3];
  }

  // ---- whole strings

  /** The size of the character at the front, 0 if there is none. */
  function Front(s: string): (n: nat)
    ensures n <= |s| && (n > 0 ==> Utf8Char(s[..n]))
    ensures n == 0 ==> forall k :: 0 <= k <= |s| ==> !Utf8Char(s[..k])
  {
    if s == "" then assert s[..0] == ""; 0
    else
      var n := Announced(s[0]);
      if 0 < n <= |s| && Utf8Char(s[..n]) then n else 0
  }

  /** UTF8-octets: characters one after another. */
  predicate WellFormed(s: string) {
    s == "" || (Front(s) > 0 && WellFormed(s[Front(s)..]))
  }

  function CodePoints(s: string): seq<nat>
    requires WellFormed(s)
  {
    if s == "" then [] else [Value(s[..Front(s)])] + CodePoints(s[Front(s)..])
  }

  predicate AllScalar(us: seq<nat>) {
    forall i :: 0 <= i < |us| ==> Scalar(us[i])
  }

  function EncodeAll(us: seq<nat>): string
    requires AllScalar(us)
  {
    if us == [] then "" else Utf8(us[0]) + EncodeAll(us[1..])
  }

  lemma FrontOf(t: string, rest: string)
    requires Utf8Char(t)
    ensures Front(t + rest) == |t| && (t + rest)[..|t|] == t && (t + rest)[|t|..] == rest
  {
    assert (t + rest)[..|t|] == t;
  }

  /** Decoding what was encoded gives every list of scalar values back. */
  lemma {:induction false} EncodeThenDecode(us: seq<nat>)
    requires AllScalar(us)
    ensures WellFormed(EncodeAll(us)) && CodePoints(EncodeAll(us)) == us
  {
    hide Utf8Char, Value, Utf8;
    if us != [] {
      EncodedIsChar(us[0]);
      FrontOf(Utf8(us[0]), EncodeAll(us[1..]));
      EncodeThenDecode(us[1..]);
    }
  }

  /** Encoding what was decoded gives every accepted string back. */
  lemma {:induction false} DecodeThenEncode(s: string)
    requires WellFormed(s)
    ensures AllScalar(CodePoints(s)) && EncodeAll(CodePoints(s)) == s
  {
    hide Utf8Char, Value, Utf8;
    if s != "" {
      var t, rest := s[..Front(s)], s[Front(s)..];
      CharIsEncoded(t);
      DecodeThenEncode(rest);
      assert s == t + rest;
      hide Front, WellFormed;
      assert CodePoints(s) == [Value(t)] + CodePoints(rest);
      Cons(Value(t), CodePoints(rest));
    }
  }

  lemma Cons(u: nat, us: seq<nat>)
    requires Scalar(u) && AllScalar(us)
    ensures AllScalar([u] + us) && EncodeAll([u] + us) == Utf8(u) + EncodeAll(us)
  {
    assert ([u] + us)[1..] == us;
  }

  // ---- the decoder

  /** What may follow which lead: a table of classes that are tested with masks. */
  function GetRange(c: char): bv8 {
    if Within(c, 0x00, 0x7F) then 0
    else if Within(c, 0x80, 0x8F) then 0x10
    else if Within(c, 0x90, 0x9F) then 0x40
    else if Within(c, 0xA0, 0xBF) then 0x20
    else if Within(c, 0xC0, 0xC1) then 8
    else if Within(c, 0xC2, 0xDF) then 2
    else if Within(c, 0xE0, 0xE0) then 10
    else if Within(c, 0xED, 0xED) then 4
    else if Within(c, 0xE1, 0xEF) then 3
    else if Within(c, 0xF0, 0xF0) then 11
    else if Within(c, 0xF1, 0xF3) then 6
    else if Within(c, 0xF4, 0xF4) then 5
    else 8
  }

  predicate Trans(c: char, mask: bv8) { GetRange(c) & mask != 0 }

  /** The masks and the ranges that they stand for. */
  lemma Masks(c: char)
    ensures Trans(c, 0x70) <==> IsTail(c)
    ensures Trans(c, 0x50) <==> Within(c, 0x80, 0x9F)
    ensures Trans(c, 0x10) <==> Within(c, 0x80, 0x8F)
    ensures Trans(c, 0x20) <==> Within(c, 0xA0, 0xBF)
    ensures Trans(c, 0x60) <==> Within(c, 0x90, 0xBF)
  {
  }

  /** The bits of the lead that 0xFF >> type keeps. */
  function LeadBits(kind: bv8, c: char): nat {
    if kind == 2 then c as nat % 64
    else if kind == 3 then c as nat % 32
    else if kind == 4 then c as nat % 16
    else if kind == 5 then c as nat % 8
    else if kind == 6 then c as nat % 4
    else 0
  }

  class MemoryStream {
    const src: string
    var pos: nat

    constructor (src: string)
      ensures this.src == src && pos == 0
    {
      this.src, pos := src, 0;
    }

    method Take() returns (c: char)
      requires pos <= |src|
      modifies this
      ensures c == Peek(src, old(pos)) && pos == if old(pos) < |src| then old(pos) + 1 else |src|
    {
      c := Peek(src, pos);
      if pos < |src| { pos := pos + 1; }
    }

    /** RAPIDJSON_COPY and RAPIDJSON_TRANS: takes the next byte, shifts its low six bits in and tests it. */
    method CopyTrans(codepoint: nat, sofar: bool, mask: bv8) returns (next: nat, result: bool)
      requires pos <= |src|
      modifies this
      ensures pos == if old(pos) < |src| then old(pos) + 1 else |src|
      ensures next == 64 * codepoint + Low6(Peek(src, old(pos)))
      ensures result == (sofar && Trans(Peek(src, old(pos)), mask))
    {
      var c := Take();
      next := 64 * codepoint + Low6(c);
      result := sofar && Trans(c, mask);
    }

    /** Takes a character: it succeeds exactly when the text goes on with one, and then takes all of
        it and gives its code point. */
    method Decode() returns (result: bool, codepoint: nat)
      requires pos < |src|
      modifies this
      ensures old(pos) < pos <= |src| && pos == Consumed(src, old(pos))
      ensures result <==> Front(src[old(pos)..]) > 0
      ensures result ==> pos == old(pos) + Front(src[old(pos)..]) && codepoint == Value(src[old(pos)..pos])
    {
      var c := Take();
      if c as nat < 0x80 {
        Ascii(src, old(pos));
        return true, c as nat;
      }
      hide Front, Utf8Char, Value, Trans, GetRange, LeadBits, Low6;
      NoLead(c);
      Judged(src, old(pos));
      var kind := GetRange(c);
      codepoint := if kind >= 32 then 0 else LeadBits(kind, c);
      codepoint, result := DecodeTail(kind, codepoint, old(pos));
    }

    /** The switch of Decode. */
    method DecodeTail(kind: bv8, start: nat, ghost p: nat) returns (codepoint: nat, result: bool)
      requires p < |src| && pos == p + 1
      modifies this
      ensures pos == EndOf(src, p, kind)
      ensures result == Passes(src, p, kind)
      ensures result && p + LengthOf(kind) <= |src| ==> codepoint == ShiftedIn(start, src[p + 1..pos])
    {
      hide Trans, Low6;
      codepoint, result := start, true;
      if kind == 2 {
        codepoint, result := CopyTrans(codepoint, result, 0x70);
      } else if kind == 3 {
        codepoint, result := CopyTrans(codepoint, result, 0x70);
        codepoint, result := CopyTrans(codepoint, result, 0x70);
      } else if kind == 4 {
        codepoint, result := CopyTrans(codepoint, result, 0x50);
        codepoint, result := CopyTrans(codepoint, result, 0x70);
      } else if kind == 5 {
        codepoint, result := CopyTrans(codepoint, result, 0x10);
        codepoint, result := CopyTrans(codepoint, result, 0x70);
        codepoint, result := CopyTrans(codepoint, result, 0x70);
      } else if kind == 6 {
        codepoint, result := CopyTrans(codepoint, result, 0x70);
        codepoint, result := CopyTrans(codepoint, result, 0x70);
        codepoint, result := CopyTrans(codepoint, result, 0x70);
      } else if kind == 10 {
        codepoint, result := CopyTrans(codepoint, result, 0x20);
        codepoint, result := CopyTrans(codepoint, result, 0x70);
      } else if kind == 11 {
        codepoint, result := CopyTrans(codepoint, result, 0x60);
        codepoint, result := CopyTrans(codepoint, result, 0x70);
        codepoint, result := CopyTrans(codepoint, result, 0x70);
      } else {
        result := false;
      }
    }

    /** RAPIDJSON_COPY and RAPIDJSON_TRANS of Validate: takes the next byte, puts it and tests it.  It
        is the k-th byte after the one at p. */
    method PutTrans(put: string, sofar: bool, mask: bv8, ghost p: nat, ghost k: nat, ghost out: string)
      returns (next: string, result: bool)
      requires pos == (if p + k <= |src| then p + k else |src|) && put == out + Given(src, p, k)
      modifies this
      ensures pos == if p + k + 1 <= |src| then p + k + 1 else |src|
      ensures next == out + Given(src, p, k + 1)
      ensures result == (sofar && Trans(Peek(src, p + k), mask))
    {
      var c := Take();
      next := put + [c];
      result := sofar && Trans(c, mask);
    }

    /** Takes as many bytes as Decode and judges them as Decode does.  It puts exactly the bytes that
        it takes, and a zero for each byte that it asked for past the end. */
    method Validate(out: string) returns (put: string, result: bool)
      requires pos < |src|
      modifies this
      ensures old(pos) < pos <= |src| && pos == Consumed(src, old(pos))
      ensures result <==> Front(src[old(pos)..]) > 0
      ensures put == out + Given(src, old(pos), Asked(src[old(pos)]))
      ensures result ==> put == out + src[old(pos)..pos] && pos == old(pos) + Front(src[old(pos)..])
    {
      var c := Take();
      ghost var p := old(pos);
      put := out + [c];
      assert put == out + Given(src, p, 1);
      if c as nat < 0x80 {
        Ascii(src, old(pos));
        return put, true;
      }
      hide Front, Utf8Char, Value, Trans, GetRange, LeadBits;
      Judged(src, old(pos));
      var kind := GetRange(c);
      put, result := ValidateTail(kind, put, p, out);
      GivenIs(src, p, Asked(src[p]));
    }

    /** The switch of Validate. */
    method ValidateTail(kind: bv8, start: string, ghost p: nat, ghost out: string) returns (put: string, result: bool)
      requires p < |src| && pos == p + 1 && start == out + Given(src, p, 1)
      modifies this
      ensures pos == EndOf(src, p, kind)
      ensures result == Passes(src, p, kind)
      ensures put == out + Given(src, p, if LengthOf(kind) == 0 then 1 else LengthOf(kind))
    {
      hide Trans, Given;
      put, result := start, true;
      if kind == 2 {
        put, result := PutTrans(put, result, 0x70, p, 1, out);
      } else if kind == 3 {
        put, result := PutTrans(put, result, 0x70, p, 1, out);
        put, result := PutTrans(put, result, 0x70, p, 2, out);
      } else if kind == 4 {
        put, result := PutTrans(put, result, 0x50, p, 1, out);
        put, result := PutTrans(put, result, 0x70, p, 2, out);
      } else if kind == 5 {
        put, result := PutTrans(put, result, 0x10, p, 1, out);
        put, result := PutTrans(put, result, 0x70, p, 2, out);
        put, result := PutTrans(put, result, 0x70, p, 3, out);
      } else if kind == 6 {
        put, result := PutTrans(put, result, 0x70, p, 1, out);
        put, result := PutTrans(put, result, 0x70, p, 2, out);
        put, result := PutTrans(put, result, 0x70, p, 3, out);
      } else if kind == 10 {
        put, result := PutTrans(put, result, 0x20, p, 1, out);
        put, result := PutTrans(put, result, 0x70, p, 2, out);
      } else if kind == 11 {
        put, result := PutTrans(put, result, 0x60, p, 1, out);
        put, result := PutTrans(put, result, 0x70, p, 2, out);
        put, result := PutTrans(put, result, 0x70, p, 3, out);
      } else {
        result := false;
      }
    }
  }

  /** How many bytes are taken to judge a character with this first byte. */
  function Asked(lead: char): nat {
    if lead as nat < 0x80 || LengthOf(GetRange(lead)) == 0 then 1 else LengthOf(GetRange(lead))
  }

  /** The position after the character at p has been judged. */
  function Consumed(s: string, p: nat): nat
    requires p < |s|
  {
    if p + Asked(s[p]) <= |s| then p + Asked(s[p]) else |s|
  }

  /** The n bytes that a stream gives from p on, zeros after its end. */
  function Given(s: string, p: nat, n: nat): string {
    if n == 0 then "" else Given(s, p, n - 1) + [Peek(s, p + n - 1)]
  }

  lemma {:induction false} GivenIs(s: string, p: nat, n: nat)
    requires p <= |s|
    ensures p + n <= |s| ==> Given(s, p, n) == s[p..p + n]
    ensures |Given(s, p, n)| == n && forall k :: 0 <= k < n && p + k >= |s| ==> Given(s, p, n)[k] == '\0'
  {
    if n > 0 { GivenIs(s, p, n - 1); }
  }

  /** Are the bytes after the one at p what its class asks for? */
  predicate Passes(s: string, p: nat, kind: bv8) {
    var n := LengthOf(kind);
    && n > 0 && Trans(Peek(s, p + 1), MaskOf(kind))
    && (n > 2 ==> Trans(Peek(s, p + 2), 0x70))
    && (n > 3 ==> Trans(Peek(s, p + 3), 0x70))
  }

  /** Where the switch leaves the stream. */
  function EndOf(s: string, p: nat, kind: bv8): nat
    requires p < |s|
  {
    if LengthOf(kind) == 0 then p + 1 else if p + LengthOf(kind) <= |s| then p + LengthOf(kind) else |s|
  }

  /** The low six bits of up to three bytes shifted in one after the other. */
  function ShiftedIn(u: nat, t: string): nat {
    if |t| == 0 then u
    else if |t| == 1 then 64 * u + Low6(t[0])
    else if |t| == 2 then 64 * (64 * u + Low6(t[0])) + Low6(t[1])
    else 64 * (64 * (64 * u + Low6(t[0])) + Low6(t[1])) + Low6(t[2])
  }

  function MaskOf(kind: bv8): bv8 {
    match kind
    case 4 => 0x50
    case 5 => 0x10
    case 10 => 0x20
    case 11 => 0x60
    case _ => 0x70
  }

  function LengthOf(kind: bv8): nat {
    if kind == 2 then 2 else if kind == 3 || kind == 4 || kind == 10 then 3
    else if kind == 5 || kind == 6 || kind == 11 then 4 else 0
  }

  lemma Ascii(s: string, p: nat)
    requires p < |s| && s[p] as nat < 0x80
    ensures Front(s[p..]) == 1 && Value(s[p..p + 1]) == s[p] as nat
  {
    assert s[p..][..1] == s[p..p + 1] == [s[p]];
  }

  /** A class above 31 is that of a byte that only continues. */
  lemma NoLead(c: char)
    ensures GetRange(c) >= 32 ==> LengthOf(GetRange(c)) == 0
  {
  }

  /** The table and the masks say what the standard says. */
  lemma Judged(s: string, p: nat)
    requires p < |s| && s[p] as nat >= 0x80
    ensures var kind := GetRange(s[p]);
            var n, ok := LengthOf(kind), Passes(s, p, kind);
            && (ok <==> Front(s[p..]) > 0)
            && (ok ==> p + n <= |s| && Front(s[p..]) == n && Utf8Char(s[p..p + n])
                       && Value(s[p..p + n]) == ShiftedIn(LeadBits(kind, s[p]), s[p + 1..p + n]))
  {
    var t, n := s[p..], LengthOf(GetRange(s[p]));
    Leads(s[p]);
    if n > |t| {
      Masks('\0');
      assert Peek(s, p + n - 1) == '\0';
    } else if n > 0 {
      assert t[..n] == s[p..p + n];
      WholeJudged(s, p);
    }
  }

  lemma Leads(c: char)
    requires c as nat >= 0x80
    ensures Announced(c) == LengthOf(GetRange(c))
  {
  }

  lemma WholeJudged(s: string, p: nat)
    requires p < |s| && s[p] as nat >= 0x80 && 0 < LengthOf(GetRange(s[p])) <= |s| - p
    ensures var kind := GetRange(s[p]);
            var t := s[p..p + LengthOf(kind)];
            && (Passes(s, p, kind) <==> Utf8Char(t))
            && (Utf8Char(t) ==> Value(t) == ShiftedIn(LeadBits(kind, s[p]), t[1..]) && t[1..] == s[p + 1..p + |t|])
  {
    var n := LengthOf(GetRange(s[p]));
    var t := s[p..p + n];
    Masks(t[1]);
    if n > 2 { Masks(t[2]); }
    if n > 3 { Masks(t[3]); }
    hide Trans;
    assert forall k :: 0 <= k < n ==> t[k] == s[p + k] == Peek(s, p + k);
  }

  /** Decoding to the end: every accepted text is the encoding of the code points given, and only
      those texts are accepted. */
  method DecodeAll(src: string) returns (ok: bool, us: seq<nat>)
    ensures ok <==> WellFormed(src)
    ensures ok ==> us == CodePoints(src) && AllScalar(us) && EncodeAll(us) == src
  {
    hide Front, Value, Utf8Char;
    var input := new MemoryStream(src);
    us := [];
    while input.pos < |src|
      invariant input.pos <= |src| && input.src == src
      invariant WellFormed(src[input.pos..]) <==> WellFormed(src)
      invariant WellFormed(src) ==> us + CodePoints(src[input.pos..]) == CodePoints(src)
    {
      ghost var rest, sofar := src[input.pos..], us;
      var result, u := input.Decode();
      if !result {
        assert rest != "" && !WellFormed(rest);
        return false, us;
      }
      assert rest[Front(rest)..] == src[input.pos..];
      assert rest[..Front(rest)] == src[input.pos - Front(rest)..input.pos];
      us := us + [u];
      if WellFormed(src) { assert us + CodePoints(src[input.pos..]) == sofar + CodePoints(rest); }
    }
    assert src[input.pos..] == "" && us + [] == us;
    DecodeThenEncode(src);
    return true, us;
  }
}
