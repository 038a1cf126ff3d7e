/**
 * Python's `str()` of an integer: decimal digits, no leading zeros, and a
 * leading `-` for negative numbers; with the digit-string reading that
 * inverts it.
 */
module Decimal {

  /** Every character of `s` is one of `0`..`9`. */
  predicate IsDigits(s: string)
  {
    forall k :: 0 <= k < |s| ==> '0' <= s[k] <= '9'
  }

  function DigitChar(d: nat): (c: char)
    requires d < 10
    ensures '0' <= c <= '9'
  {
    (d + '0' as int) as char
  }

  function DigitValue(c: char): (d: nat)
    requires '0' <= c <= '9'
    ensures d < 10 && DigitChar(d) == c
  {
    c as int - '0' as int
  }

  /** The decimal digits of `n`, most significant first. */
  function NatToString(n: nat): (s: string)
    ensures |s| >= 1 && IsDigits(s)
    ensures s[0] == '0' ==> n == 0 && |s| == 1
    decreases n
  {
    if n < 10 then [DigitChar(n)] else NatToString(n / 10) + [DigitChar(n % 10)]
  }

  /** The number a digit string denotes. */
  function DigitsToNat(s: string): nat
    requires IsDigits(s)
    decreases |s|
  {
    if s == [] then 0 else DigitsToNat(s[..|s| - 1]) * 10 + DigitValue(s[|s| - 1])
  }

  /** Reading back the digits of `n` gives `n`. */
  lemma {:induction false} DigitsRoundTrip(n: nat)
    ensures DigitsToNat(NatToString(n)) == n
    decreases n
  {
    var s := NatToString(n);
    if n < 10 {
      assert s[..0] == [];
    } else {
      DigitsRoundTrip(n / 10);
      assert s[..|s| - 1] == NatToString(n / 10);
      assert DigitValue(DigitChar(n % 10)) == n % 10;
    }
  }

  /** Python's `str(n)` for an integer `n`: a sign only when negative, and no leading zero except for 0 itself. */
  function IntToString(n: int): (s: string)
    ensures |s| >= 1
    ensures s[0] == '-' <==> n < 0
    ensures n >= 0 ==> (s[0] == '0' ==> n == 0 && |s| == 1)
    ensures n < 0 ==> |s| >= 2 && s[1] != '0'
  {
    if n < 0 then "-" + NatToString(-n) else NatToString(n)
  }

  /** Reading back the digits of `str(n)`, past the sign, gives the magnitude of `n`. */
  lemma IntToStringMagnitude(n: int)
    ensures n < 0 ==> |IntToString(n)| >= 2 && IsDigits(IntToString(n)[1..])
                      && DigitsToNat(IntToString(n)[1..]) == -n
    ensures n >= 0 ==> IsDigits(IntToString(n)) && DigitsToNat(IntToString(n)) == n
  {
    if n < 0 {
      var digits := NatToString(-n);
      assert ("-" + digits)[1..] == digits;
      DigitsRoundTrip(-n);
    } else {
      DigitsRoundTrip(n);
    }
  }

  /** Distinct integers are rendered as distinct strings. */
  lemma IntToStringInjective(a: int, b: int)
    requires IntToString(a) == IntToString(b)
    ensures a == b
  {
    IntToStringMagnitude(a);
    IntToStringMagnitude(b);
  }

  /** No digit is one of the characters that delimit links, URLs or query fields. */
  lemma DigitsHoldNoDelimiters(token: string)
    requires IsDigits(token)
    ensures forall c :: c in token ==> c !in {';', '<', '>', '?', '#', '&', '+', '='}
  {
  }
}
