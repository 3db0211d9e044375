/** Base64 by shifting bits through an accumulator, against the three-byte groups of section 4 of
    RFC 4648. */
module HandshakeBase64 {
  import opened Bytes

  /** The table of digits. */
  function Char64(n: nat): char
    requires n < 64
  {
    if n < 26 then ('A' as nat + n) as char
    else if n < 52 then ('a' as nat + (n - 26)) as char
    else if n < 62 then ('0' as nat + (n - 52)) as char
    else if n == 62 then '+'
    else '/'
  }

  /** Table 1 of section 4 of RFC 4648. */
  lemma Alphabet(n: nat)
    requires n < 64
    ensures n < 26 ==> Char64(n) == "ABCDEFGHIJKLMNOPQRSTUVWXYZ"[n]
    ensures 26 <= n < 52 ==> Char64(n) == "abcdefghijklmnopqrstuvwxyz"[n - 26]
    ensures 52 <= n ==> Char64(n) == "0123456789+/"[n - 52]
  {
  }

  /** Vectors of section 10 of RFC 4648: "f", "fo", "foo" and "foobar". */
  lemma Vectors()
    ensures Encode([102]) == "Zg==" && Encode([102, 111]) == "Zm8=" && Encode([102, 111, 111]) == "Zm9v"
    ensures Encode([102, 111, 111, 98, 97, 114]) == "Zm9vYmFy"
  {
    hide Encode, LastGroup;
    LastExamples();
    OneMoreGroup([], 102, 111, 111);
    OneMoreGroup([102, 111, 111], 98, 97, 114);
    assert [] + [102, 111, 111] == [102, 111, 111];
    assert [102, 111, 111] + [98, 97, 114] == [102, 111, 111, 98, 97, 114];
  }

  lemma LastExamples()
    ensures Encode([102]) == "Zg==" && Encode([102, 111]) == "Zm8=" && Encode([]) == ""
  {
  }

  // ---- the standard

  function Group(a: Byte, b: Byte, c: Byte): string {
    [Char64(a / 4), Char64(a % 4 * 16 + b / 16), Char64(b % 16 * 4 + c / 64), Char64(c % 64)]
  }

  /** A group of one or two bytes, padded. */
  function LastGroup(s: seq<Byte>): string
    requires 1 <= |s| <= 2
  {
    if |s| == 1 then [Char64(s[0] / 4), Char64(s[0] % 4 * 16), '=', '=']
    else [Char64(s[0] / 4), Char64(s[0] % 4 * 16 + s[1] / 16), Char64(s[1] % 16 * 4), '=']
  }

  /** Groups of three bytes, the last one padded if it is shorter. */
  function Encode(s: seq<Byte>): string {
    if |s| == 0 then ""
    else if |s| < 3 then LastGroup(s)
    else Group(s[0], s[1], s[2]) + Encode(s[3..])
  }

  lemma {:induction false} Length(s: seq<Byte>)
    ensures |Encode(s)| == 4 * ((|s| + 2) / 3)
  {
    hide Group;
    if |s| >= 3 {
      Length(s[3..]);
      assert (|s| + 2) / 3 == (|s[3..]| + 2) / 3 + 1;
      GroupLength(s[0], s[1], s[2]);
    }
  }

  lemma GroupLength(a: Byte, b: Byte, c: Byte)
    ensures |Group(a, b, c)| == 4
  {
  }

  lemma CharsDiffer(m: nat, n: nat)
    requires m < 64 && n < 64
    ensures Char64(m) == Char64(n) ==> m == n
  {
  }

  lemma NoPadding(n: nat)
    requires n < 64
    ensures Char64(n) != '='
  {
  }

  /** A group tells its three bytes. */
  lemma GroupTells(a: Byte, b: Byte, c: Byte, x: Byte, y: Byte, z: Byte)
    requires Group(a, b, c) == Group(x, y, z)
    ensures a == x && b == y && c == z
  {
    var g, h := Group(a, b, c), Group(x, y, z);
    assert g[0] == h[0] && g[1] == h[1] && g[2] == h[2] && g[3] == h[3];
    CharsDiffer(a / 4, x / 4);
    CharsDiffer(a % 4 * 16 + b / 16, x % 4 * 16 + y / 16);
    CharsDiffer(b % 16 * 4 + c / 64, y % 16 * 4 + z / 64);
    CharsDiffer(c % 64, z % 64);
    hide Char64;
    assert a % 4 == x % 4 && b / 16 == y / 16 && b % 16 == y % 16 && c / 64 == z / 64;
  }

  lemma LastTells(s: seq<Byte>, t: seq<Byte>)
    requires 1 <= |s| <= 2 && 1 <= |t| <= 2 && LastGroup(s) == LastGroup(t)
    ensures s == t
  {
    var g, h := LastGroup(s), LastGroup(t);
    assert g[0] == h[0] && g[1] == h[1] && g[2] == h[2];
    if |s| == 2 { NoPadding(s[1] % 16 * 4); }
    if |t| == 2 { NoPadding(t[1] % 16 * 4); }
    CharsDiffer(s[0] / 4, t[0] / 4);
    if |s| == 1 {
      CharsDiffer(s[0] % 4 * 16, t[0] % 4 * 16);
    } else {
      CharsDiffer(s[0] % 4 * 16 + s[1] / 16, t[0] % 4 * 16 + t[1] / 16);
      CharsDiffer(s[1] % 16 * 4, t[1] % 16 * 4);
    }
    hide Char64;
  }

  /** The fourth character tells a last short group from a full one. */
  lemma FourthTells(s: seq<Byte>)
    requires |s| > 0
    ensures |Encode(s)| >= 4 && (Encode(s)[3] == '=' <==> |s| < 3)
  {
    if |s| >= 3 {
      NoPadding(s[2] % 64);
      assert Encode(s)[3] == Group(s[0], s[1], s[2])[3];
    }
  }

  /** Different byte strings have different encodings. */
  lemma {:induction false} Injective(s: seq<Byte>, t: seq<Byte>)
    requires Encode(s) == Encode(t)
    ensures s == t
  {
    hide Group, LastGroup;
    Length(s);
    Length(t);
    if |s| > 0 && |t| > 0 {
      FourthTells(s);
      FourthTells(t);
      if |s| < 3 {
        LastTells(s, t);
      } else {
        FirstGroup(s);
        FirstGroup(t);
        GroupTells(s[0], s[1], s[2], t[0], t[1], t[2]);
        Injective(s[3..], t[3..]);
        assert s == s[..3] + s[3..] && t == t[..3] + t[3..];
      }
    }
  }

  lemma FirstGroup(s: seq<Byte>)
    requires |s| >= 3
    ensures |Encode(s)| >= 4 && Encode(s)[..4] == Group(s[0], s[1], s[2]) && Encode(s)[4..] == Encode(s[3..])
  {
  }

  // ---- the loop

  const WRAP: nat := 0x1_0000_0000

  /** The digit at a position of the accumulator. */
  function DigitAt(val: nat, shift: nat): char { Char64(val / Pow2(shift) % 64) }

  /** The accumulator with eight more bits, in 32 bits. */
  function Accumulate(val: nat, c: Byte): nat { (256 * val + c) % WRAP }

  /** The low bits survive the wrap. */
  lemma LowBits(val: nat, c: Byte)
    ensures Accumulate(val, c) % 4096 == val % 16 * 256 + c
    ensures Accumulate(val, c) % 1024 == val % 4 * 256 + c
    ensures Accumulate(val, c) % 256 == c
  {
    var n := 256 * val + c;
    var q := n / WRAP;
    assert n == WRAP * q + n % WRAP;
    Remainder(4096, val / 16 - 0x10_0000 * q, val % 16 * 256 + c, Accumulate(val, c));
    Remainder(1024, val / 4 - 0x40_0000 * q, val % 4 * 256 + c, Accumulate(val, c));
    Remainder(256, val - 0x100_0000 * q, c, Accumulate(val, c));
  }

  lemma Remainder(m: nat, q: int, r: nat, n: nat)
    requires r < m && n == m * q + r
    ensures n % m == r && n / m == q
  {
    var k := n / m - q;
    assert m * k == m * (n / m) - m * q == r - n % m;
    AtLeast(m, k);
  }

  lemma AtLeast(m: nat, k: int)
    ensures k >= 1 ==> m * k >= m
    ensures k <= -1 ==> m * k + m <= 0
  {
    if k >= 1 {
      assert m * k == m * (k - 1) + m;
    } else if k <= -1 {
      assert m * k == m * (k + 1) - m;
    }
  }

  /** Bits above the digit do not matter. */
  lemma DigitAt2(n: nat)
    ensures n / 4 % 64 == n % 256 / 4
  {
    var high, low := n / 256, n % 256;
    Remainder(4, 64 * high + low / 4, low % 4, n);
    Remainder(64, high, low / 4, n / 4);
  }

  lemma DigitAt4(n: nat)
    ensures n / 16 % 64 == n % 1024 / 16
  {
    var high, low := n / 1024, n % 1024;
    Remainder(16, 64 * high + low / 16, low % 16, n);
    Remainder(64, high, low / 16, n / 16);
  }

  lemma DigitAt6(n: nat)
    ensures n / 64 % 64 == n % 4096 / 64 && n % 64 == n % 256 % 64
  {
    var high, low := n / 4096, n % 4096;
    Remainder(64, 64 * high + low / 64, low % 64, n);
    Remainder(64, high, low / 64, n / 64);
    Remainder(64, 4 * (n / 256) + n % 256 / 64, n % 256 % 64, n);
  }

  lemma {:induction false} OneMoreGroup(s: seq<Byte>, a: Byte, b: Byte, c: Byte)
    requires |s| % 3 == 0
    ensures Encode(s + [a, b, c]) == Encode(s) + Group(a, b, c)
  {
    hide Group;
    var t := s + [a, b, c];
    if |s| == 0 {
      assert t == [a, b, c] && t[3..] == [];
    } else {
      assert t[3..] == s[3..] + [a, b, c];
      OneMoreGroup(s[3..], a, b, c);
    }
  }

  lemma {:induction false} LastGroupAfter(s: seq<Byte>, r: seq<Byte>)
    requires |s| % 3 == 0 && 1 <= |r| <= 2
    ensures Encode(s + r) == Encode(s) + LastGroup(r)
  {
    hide Group, LastGroup;
    if |s| == 0 {
      assert s + r == r;
    } else {
      assert (s + r)[3..] == s[3..] + r;
      LastGroupAfter(s[3..], r);
    }
  }

  /** The digits that the inner loop pushes. */
  function Drained(val: nat, valb: int): string
    decreases valb + 6
  {
    if valb < 0 then "" else [DigitAt(val, valb)] + Drained(val, valb - 6)
  }

  function AfterDrain(valb: int): int
    decreases valb + 6
  {
    if valb < 0 then valb else AfterDrain(valb - 6)
  }

  /** What the loop holds after i bytes: all full groups, the first digits of a short one, and the
      bits of the last byte that have not been pushed. */
  ghost predicate Sofar(input: seq<Byte>, i: nat, val: nat, valb: int, result: string)
    requires i <= |input|
  {
    var k := i % 3;
    var full := Encode(input[..i - k]);
    if k == 0 then valb == -6 && result == full
    else if k == 1 then
      valb == -4 && val % 4 == input[i - 1] % 4 && result == full + [Char64(input[i - 1] / 4)]
    else
      && valb == -2 && val % 16 == input[i - 1] % 16
      && result == full + [Char64(input[i - 2] / 4), Char64(input[i - 2] % 4 * 16 + input[i - 1] / 16)]
  }

  lemma LowPart(n: nat, c: Byte)
    requires n % 256 == c
    ensures n % 4 == c % 4 && n % 16 == c % 16
  {
    Remainder(4, 64 * (n / 256) + c / 4, c % 4, n);
    Remainder(16, 16 * (n / 256) + c / 16, c % 16, n);
  }

  lemma SplitAt16(high: nat, c: Byte)
    ensures (high * 256 + c) / 16 == high * 16 + c / 16
  {
    Remainder(16, high * 16 + c / 16, c % 16, high * 256 + c);
  }

  lemma SplitAt64(high: nat, c: Byte)
    ensures (high * 256 + c) / 64 == high * 4 + c / 64
  {
    Remainder(64, high * 4 + c / 64, c % 64, high * 256 + c);
  }

  /** The digits that the loop can push. */
  lemma DigitsAt(n: nat)
    ensures DigitAt(n, 2) == Char64(n % 256 / 4) && DigitAt(n, 4) == Char64(n % 1024 / 16)
    ensures DigitAt(n, 6) == Char64(n % 4096 / 64) && DigitAt(n, 0) == Char64(n % 256 % 64)
  {
    hide Char64;
    assert Pow2(0) == 1 && Pow2(2) == 4 && Pow2(4) == 16;
    assert Pow2(6) == 4 * Pow2(4) == 64;
    DigitAt2(n);
    DigitAt4(n);
    DigitAt6(n);
  }

  lemma OneByte(input: seq<Byte>, i: nat, val: nat, valb: int, result: string)
    requires i < |input| && Sofar(input, i, val, valb, result)
    ensures var next := Accumulate(val, input[i]);
            Sofar(input, i + 1, next, AfterDrain(valb + 8), result + Drained(next, valb + 8))
  {
    if i % 3 == 0 {
      FirstByte(input, i, val, valb, result);
    } else if i % 3 == 1 {
      SecondByte(input, i, val, valb, result);
    } else {
      ThirdByte(input, i, val, valb, result);
    }
  }

  lemma FirstByte(input: seq<Byte>, i: nat, val: nat, valb: int, result: string)
    requires i < |input| && i % 3 == 0 && Sofar(input, i, val, valb, result)
    ensures var next := Accumulate(val, input[i]);
            Sofar(input, i + 1, next, AfterDrain(valb + 8), result + Drained(next, valb + 8))
  {
    hide Accumulate, Char64, Encode, DigitAt;
    var next := Accumulate(val, input[i]);
    LowBits(val, input[i]);
    DigitsAt(next);
    assert Drained(next, 2) == [DigitAt(next, 2)] && AfterDrain(2) == -4;
    LowPart(next, input[i]);
  }

  lemma SecondByte(input: seq<Byte>, i: nat, val: nat, valb: int, result: string)
    requires i < |input| && i % 3 == 1 && Sofar(input, i, val, valb, result)
    ensures var next := Accumulate(val, input[i]);
            Sofar(input, i + 1, next, AfterDrain(valb + 8), result + Drained(next, valb + 8))
  {
    hide Accumulate, Char64, Encode, DigitAt;
    var next := Accumulate(val, input[i]);
    LowBits(val, input[i]);
    DigitsAt(next);
    assert Drained(next, 4) == [DigitAt(next, 4)] && AfterDrain(4) == -2;
    LowPart(next, input[i]);
    SplitAt16(val % 4, input[i]);
  }

  lemma ThirdByte(input: seq<Byte>, i: nat, val: nat, valb: int, result: string)
    requires i < |input| && i % 3 == 2 && Sofar(input, i, val, valb, result)
    ensures var next := Accumulate(val, input[i]);
            Sofar(input, i + 1, next, AfterDrain(valb + 8), result + Drained(next, valb + 8))
  {
    hide Accumulate, Char64, Encode, DigitAt;
    var full, a, b, c := input[..i - 2], input[i - 2], input[i - 1], input[i];
    var next := Accumulate(val, c);
    assert Drained(next, 0) == [DigitAt(next, 0)] && AfterDrain(0) == -6;
    assert Drained(next, 6) == [DigitAt(next, 6), DigitAt(next, 0)] && AfterDrain(6) == -6;
    GroupEnds(a, b, c, val);
    OneMoreGroup(full, a, b, c);
    assert input[..i + 1] == full + [a, b, c];
    hide Drained, AfterDrain;
    assert result == Encode(full) + [Char64(a / 4), Char64(a % 4 * 16 + b / 16)];
  }

  lemma GroupEnds(a: Byte, b: Byte, c: Byte, val: nat)
    requires val % 16 == b % 16
    ensures Group(a, b, c) == [Char64(a / 4), Char64(a % 4 * 16 + b / 16)]
                              + [DigitAt(Accumulate(val, c), 6), DigitAt(Accumulate(val, c), 0)]
  {
    hide Accumulate, Char64, DigitAt;
    LowBits(val, c);
    DigitsAt(Accumulate(val, c));
    SplitAt64(val % 16, c);
  }

  /** The last digit, from the bits that are left. */
  lemma LastDigit(input: seq<Byte>, val: nat, valb: int, result: string)
    requires Sofar(input, |input|, val, valb, result) && valb > -6
    ensures |input| % 3 != 0
    ensures var r := input[|input| - |input| % 3..];
            var full := Encode(input[..|input| - |input| % 3]);
            && Encode(input) == full + LastGroup(r) && |full| % 4 == 0
            && result + [DigitAt(Accumulate(val, 0), valb + 8)] == full + LastGroup(r)[..|r| + 1]
  {
    hide Accumulate, Char64, Encode, DigitAt, LastGroup;
    SofarAtEnd(input, val, valb, result);
    hide Sofar;
    var k := |input| % 3;
    var full, r := input[..|input| - k], input[|input| - k..];
    assert input == full + r;
    FullLength(full);
    LastGroupAfter(full, r);
    if k == 1 {
      LastOfOne(Encode(full), r[0], val, result);
      assert r == [r[0]];
    } else {
      LastOfTwo(Encode(full), r[0], r[1], val, result);
      assert r == [r[0], r[1]];
    }
  }

  /** What is left to push at the end. */
  lemma SofarAtEnd(input: seq<Byte>, val: nat, valb: int, result: string)
    requires Sofar(input, |input|, val, valb, result) && valb > -6
    ensures 1 <= |input| % 3 <= 2 && |input[..|input| - |input| % 3]| % 3 == 0
    ensures var r, full := input[|input| - |input| % 3..], Encode(input[..|input| - |input| % 3]);
            if |input| % 3 == 1 then
              valb == -4 && val % 4 == r[0] % 4 && result == full + [Char64(r[0] / 4)]
            else
              valb == -2 && val % 16 == r[1] % 16
              && result == full + [Char64(r[0] / 4), Char64(r[0] % 4 * 16 + r[1] / 16)]
  {
    hide Char64, Encode;
  }

  lemma FullLength(s: seq<Byte>)
    requires |s| % 3 == 0
    ensures |Encode(s)| % 4 == 0
  {
    hide Encode;
    Length(s);
  }

  lemma LastOfOne(full: string, x: Byte, val: nat, result: string)
    requires val % 4 == x % 4 && result == full + [Char64(x / 4)]
    ensures result + [DigitAt(Accumulate(val, 0), 4)] == full + LastGroup([x])[..2]
  {
    DigitOfOne(x, val);
    hide *;
  }

  lemma LastOfTwo(full: string, x: Byte, y: Byte, val: nat, result: string)
    requires val % 16 == y % 16 && result == full + [Char64(x / 4), Char64(x % 4 * 16 + y / 16)]
    ensures result + [DigitAt(Accumulate(val, 0), 6)] == full + LastGroup([x, y])[..3]
  {
    DigitOfTwo(x, y, val);
    hide *;
  }

  lemma DigitOfOne(x: Byte, val: nat)
    requires val % 4 == x % 4
    ensures LastGroup([x])[..2] == [Char64(x / 4)] + [DigitAt(Accumulate(val, 0), 4)]
  {
    hide Accumulate, Char64, DigitAt;
    LowBits(val, 0);
    DigitsAt(Accumulate(val, 0));
    SplitAt16(val % 4, 0);
  }

  lemma DigitOfTwo(x: Byte, y: Byte, val: nat)
    requires val % 16 == y % 16
    ensures LastGroup([x, y])[..3] == [Char64(x / 4), Char64(x % 4 * 16 + y / 16)] + [DigitAt(Accumulate(val, 0), 6)]
  {
    hide Accumulate, Char64, DigitAt;
    LowBits(val, 0);
    DigitsAt(Accumulate(val, 0));
    SplitAt64(val % 16, 0);
  }

  lemma PaddingOf(r: seq<Byte>)
    requires 1 <= |r| <= 2
    ensures |LastGroup(r)| == 4 && LastGroup(r)[|r| + 1..] == if |r| == 1 then "==" else "="
  {
  }

  lemma Bounds(input: seq<Byte>, val: nat, valb: int, result: string)
    ensures Sofar(input, 0, 0, -6, "")
    ensures Sofar(input, |input|, val, valb, result) && valb <= -6 ==> result == Encode(input)
  {
    assert input[..|input|] == input;
  }

  method Base64Encode(input: seq<Byte>) returns (result: string)
    ensures result == Encode(input)
  {
    hide Sofar, Encode, DigitAt, Accumulate, LastGroup;
    result := "";
    var val, valb := 0, -6;
    Bounds(input, val, valb, result);
    for i := 0 to |input|
      invariant Sofar(input, i, val, valb, result)
    {
      OneByte(input, i, val, valb, result);
      val := Accumulate(val, input[i]);
      valb := valb + 8;
      valb, result := PushDigits(val, valb, result);
    }
    Length(input);
    Bounds(input, val, valb, result);
    if valb > -6 {
      LastDigit(input, val, valb, result);
      PaddingOf(input[|input| - |input| % 3..]);
      result := result + [DigitAt(Accumulate(val, 0), valb + 8)];
    }
    result := Pad(result, Encode(input));
  }

  /** The inner loop. */
  method PushDigits(val: nat, start: int, before: string) returns (valb: int, result: string)
    ensures result == before + Drained(val, start) && valb == AfterDrain(start)
  {
    hide DigitAt;
    valb, result := start, before;
    while valb >= 0
      invariant result + Drained(val, valb) == before + Drained(val, start) && AfterDrain(valb) == AfterDrain(start)
      decreases valb + 6
    {
      result := result + [DigitAt(val, valb)];
      valb := valb - 6;
    }
  }

  /** The padding loop. */
  method Pad(start: string, ghost whole: string) returns (result: string)
    requires |start| <= |whole| < |start| + 4 && |whole| % 4 == 0
    requires start == whole[..|start|] && forall k :: |start| <= k < |whole| ==> whole[k] == '='
    ensures result == whole
  {
    result := start;
    while |result| % 4 != 0
      invariant |start| <= |result| <= |whole| && result == whole[..|result|]
      decreases |whole| - |result|
    {
      result := result + "=";
    }
  }
}
