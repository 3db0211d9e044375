/** Facts about digit strings: the accumulators of the number and hex parsers against the
    values that the digits denote. */
module JsonDigits {
  import opened JsonText

  function HexValue(t: string): nat
    requires forall k :: 0 <= k < |t| ==> IsHex(t[k])
  {
    if t == "" then 0 else 16 * HexValue(t[..|t| - 1]) + Hex(t[|t| - 1])
  }

  lemma HexValueOfFour(t: string)
    requires |t| == 4 && forall k :: 0 <= k < |t| ==> IsHex(t[k])
    ensures HexValue(t) == 4096 * Hex(t[0]) + 256 * Hex(t[1]) + 16 * Hex(t[2]) + Hex(t[3])
  {
    assert t[..3][..2] == t[..2] && t[..2][..1] == t[..1];
    assert HexValue(t[..1]) == Hex(t[0]);
    assert HexValue(t[..2]) == 16 * HexValue(t[..1]) + Hex(t[1]);
  }

  /** Reading one more digit. */
  lemma DecimalStep(s: string, p: nat, k: nat)
    requires p <= k < |s| && AllDigits(s[p..k]) && IsDigit(s[k])
    ensures AllDigits(s[p..k + 1])
    ensures Decimal(s[p..k + 1]) == 10 * Decimal(s[p..k]) + Digit(s[k])
    ensures DigitsEnd(s, k) == DigitsEnd(s, k + 1)
  {
    assert s[p..k + 1] == s[p..k] + [s[k]];
    assert s[p..k + 1][..k - p] == s[p..k];
  }

  /** The digits still to come never lower the value. */
  lemma {:induction false} DecimalGrows(s: string, p: nat, k: nat)
    requires p <= k <= |s| && AllDigits(s[p..k])
    ensures AllDigits(s[p..DigitsEnd(s, k)])
    ensures Decimal(s[p..k]) <= Decimal(s[p..DigitsEnd(s, k)])
    ensures k < DigitsEnd(s, k) ==> 10 * Decimal(s[p..k]) + Digit(s[k]) <= Decimal(s[p..DigitsEnd(s, k)])
    decreases |s| - k
  {
    if IsDigit(Peek(s, k)) {
      DecimalStep(s, p, k);
      DecimalGrows(s, p, k + 1);
    }
  }

  function Pow10(n: nat): nat { if n == 0 then 1 else 10 * Pow10(n - 1) }

  lemma {:induction false} DecimalBound(t: string)
    requires AllDigits(t)
    ensures Decimal(t) < Pow10(|t|)
  {
    if t != "" { DecimalBound(t[..|t| - 1]); }
  }

  lemma {:induction false} Pow10Grows(m: nat, n: nat)
    requires m <= n
    ensures Pow10(m) <= Pow10(n)
  {
    if m < n { Pow10Grows(m, n - 1); }
  }

  /** A value past the reach of seventeen digits was written with more of them. */
  lemma ManyDigits(t: string)
    requires AllDigits(t) && Decimal(t) >= 100_000_000_000_000_000
    ensures |t| >= 18
  {
    assert Pow10(17) == 100_000_000_000_000_000 by {
      assert Pow10(6) == 1_000_000;
      assert Pow10(12) == 1_000_000_000_000;
    }
    DecimalBound(t);
    if |t| < 18 { Pow10Grows(|t|, 17); }
  }

  /** Past 2^53 the first fraction loop has nothing left to do. */
  lemma FractionTail(t: string, m: nat, significant: nat)
    requires AllDigits(t)
    ensures t == "" || m > 0x1F_FFFF_FFFF_FFFF ==>
              FractionKept(t, m, significant, false) == FractionKept(t, m, significant, true)
  {
  }

  /** One more digit in a significand that is still below 2^53. */
  lemma FractionStep(s: string, p: nat, q: nat, m: nat, significant: nat)
    requires p < q <= |s| && AllDigits(s[p..q]) && m <= 0x1F_FFFF_FFFF_FFFF
    ensures IsDigit(s[p]) && AllDigits(s[p + 1..q])
    ensures var n := 10 * m + Digit(s[p]);
            FractionKept(s[p..q], m, significant, false)
            == 1 + FractionKept(s[p + 1..q], n, if n != 0 then significant + 1 else significant, false)
  {
    assert s[p..q][0] == s[p] && s[p..q][1..] == s[p + 1..q];
  }

  /** With seventeen significant digits no further fraction digit is kept. */
  lemma FractionFull(t: string, m: nat, significant: nat)
    requires AllDigits(t) && significant >= 17
    ensures FractionKept(t, m, significant, true) == 0
  {
  }

  /** The overflow test before a digit is added: it fires exactly when the limit, written
      10 * guard + last, would be passed. */
  lemma GuardExact(i: nat, c: char, guard: nat, last: char)
    requires IsDigit(c) && IsDigit(last)
    ensures i >= guard && (i != guard || c > last) <==> 10 * i + Digit(c) > 10 * guard + Digit(last)
  {
  }
}
