/**
 * Decimal text of an integer: an optional `-`, then the digits with no
 * leading zero. This is what JavaScript's `Number.prototype.toString()`
 * writes for a safe integer (magnitude at most 2^53 - 1); beyond that range
 * JavaScript rounds to the shortest digits that read back as the same double
 * and pads with zeros, which this module does not model.
 * `DecimalValue` reads such a text back; the two are proved mutually inverse
 * on canonical texts.
 */
module Decimal {

  predicate IsDigit(c: char) {
    '0' <= c <= '9'
  }

  predicate AllDigits(s: string) {
    forall i :: 0 <= i < |s| ==> IsDigit(s[i])
  }

  function DigitValue(c: char): int {
    c as int - '0' as int
  }

  function DigitChar(d: nat): (c: char)
    requires d < 10
    ensures IsDigit(c) && DigitValue(c) == d
  {
    ('0' as int + d) as char
  }

  /** Value of a digit string, most significant digit first. */
  function DigitsValue(s: string): int {
    if s == [] then 0 else 10 * DigitsValue(s[..|s| - 1]) + DigitValue(s[|s| - 1])
  }

  /** A non-empty digit string with no leading zero (except "0" itself). */
  predicate IsCanonicalNat(s: string) {
    |s| > 0 && AllDigits(s) && (s[0] != '0' || |s| == 1)
  }

  /** The texts `toString` produces for integers: canonical digits, or `-` and a non-zero canonical digit string. */
  predicate IsCanonicalInt(s: string) {
    IsCanonicalNat(s) || (|s| >= 2 && s[0] == '-' && IsCanonicalNat(s[1..]) && s[1..] != "0")
  }

  /** Value of a (possibly signed) decimal text. */
  function DecimalValue(s: string): int {
    if |s| > 0 && s[0] == '-' then -DigitsValue(s[1..]) else DigitsValue(s)
  }

  function NatToDecimal(n: nat): (s: string)
    ensures IsCanonicalNat(s)
    ensures DigitsValue(s) == n
    decreases n
  {
    if n < 10 then [DigitChar(n)]
    else
      var high := NatToDecimal(n / 10);
      var s := high + [DigitChar(n % 10)];
      assert s[..|s| - 1] == high;
      s
  }

  /** `n.toString()` for an integer `n`. */
  function IntToDecimal(n: int): (s: string)
    ensures IsCanonicalInt(s)
    ensures DecimalValue(s) == n
  {
    if n < 0 then
      var digits := NatToDecimal(-n);
      var s := "-" + digits;
      assert s[1..] == digits;
      s
    else NatToDecimal(n)
  }

  lemma {:induction false} LeadingNonZeroIsPositive(s: string)
    requires |s| > 0 && AllDigits(s) && s[0] != '0'
    ensures DigitsValue(s) > 0
    decreases |s|
  {
    if |s| > 1 {
      var high := s[..|s| - 1];
      assert high[0] == s[0];
      LeadingNonZeroIsPositive(high);
    }
  }

  lemma {:induction false} DigitsValueNonNegative(s: string)
    requires AllDigits(s)
    ensures DigitsValue(s) >= 0
    decreases |s|
  {
    if s != [] {
      DigitsValueNonNegative(s[..|s| - 1]);
    }
  }

  /** Every canonical digit string is the one `NatToDecimal` writes for its value. */
  lemma {:induction false} NatToDecimalOfValue(s: string)
    requires IsCanonicalNat(s)
    ensures DigitsValue(s) >= 0 && NatToDecimal(DigitsValue(s)) == s
    decreases |s|
  {
    DigitsValueNonNegative(s);
    if |s| == 1 {
      assert s[..0] == [];
      assert NatToDecimal(DigitsValue(s)) == [DigitChar(DigitValue(s[0]))];
    } else {
      var high := s[..|s| - 1];
      assert high[0] == s[0];
      LeadingNonZeroIsPositive(high);
      NatToDecimalOfValue(high);
      var n := DigitsValue(s);
      var d := DigitValue(s[|s| - 1]);
      assert 0 <= d < 10;
      assert n / 10 == DigitsValue(high) && n % 10 == d;
      assert s == high + [s[|s| - 1]];
    }
  }

  /** The other half of the round trip: a canonical text is the `toString` of its value. */
  lemma IntToDecimalOfValue(s: string)
    requires IsCanonicalInt(s)
    ensures IntToDecimal(DecimalValue(s)) == s
  {
    if IsCanonicalNat(s) {
      NatToDecimalOfValue(s);
    } else {
      NatToDecimalOfValue(s[1..]);
      LeadingNonZeroIsPositive(s[1..]);
      assert s == "-" + s[1..];
    }
  }

  /** Different integers have different decimal texts. */
  lemma IntToDecimalInjective(a: int, b: int)
    requires IntToDecimal(a) == IntToDecimal(b)
    ensures a == b
  {
  }
}
