/**
 * Decimal rendering of integers, as Python's `str(int)` and f-string
 * interpolation produce it, and the reading of such a rendering back.
 */
module Decimal {

  predicate IsDigit(c: char) {
    '0' <= c <= '9'
  }

  predicate AllDigits(s: string) {
    forall i :: 0 <= i < |s| ==> IsDigit(s[i])
  }

  function DigitChar(d: nat): (c: char)
    requires d < 10
    ensures IsDigit(c) && c as int - '0' as int == d
  {
    (d + '0' as int) as char
  }

  /** `str(n)` for a non-negative integer: no sign, no leading zeros. */
  function NatToString(n: nat): (s: string)
    ensures |s| >= 1 && AllDigits(s)
    ensures s[0] == '0' ==> n == 0
  {
    if n < 10 then [DigitChar(n)] else NatToString(n / 10) + [DigitChar(n % 10)]
  }

  /** `str(i)` for any integer: a minus sign precedes the magnitude. */
  function IntToString(i: int): (s: string)
    ensures |s| >= 1
    ensures i >= 0 ==> AllDigits(s)
    ensures i < 0 ==> s[0] == '-' && AllDigits(s[1..])
    ensures i >= 0 ==> s == NatToString(i)
    ensures i < 0 ==> s == "-" + NatToString(-i)
  {
    if i < 0 then "-" + NatToString(-i) else NatToString(i)
  }

  /** The value of a string of decimal digits, most significant first. */
  function DigitsValue(s: string): nat
    requires AllDigits(s)
  {
    if s == [] then 0 else DigitsValue(s[..|s| - 1]) * 10 + (s[|s| - 1] as int - '0' as int)
  }

  /** Reading the rendering back gives the number: the rendering loses nothing. */
  lemma {:induction false} NatToStringRoundTrip(n: nat)
    ensures DigitsValue(NatToString(n)) == n
  {
    var s := NatToString(n);
    if n >= 10 {
      NatToStringRoundTrip(n / 10);
      assert s[..|s| - 1] == NatToString(n / 10);
    }
  }

  /** Distinct numbers render as distinct strings. */
  lemma NatToStringInjective(a: nat, b: nat)
    ensures NatToString(a) == NatToString(b) ==> a == b
  {
    NatToStringRoundTrip(a);
    NatToStringRoundTrip(b);
  }

  /** A digit string without a leading zero denotes a positive number. */
  lemma {:induction false} DigitsValuePositive(s: string)
    requires AllDigits(s) && s != [] && s[0] != '0'
    ensures DigitsValue(s) >= 1
  {
    if |s| > 1 {
      DigitsValuePositive(s[..|s| - 1]);
    }
  }

  /**
   * A digit string is `str` of its value exactly when it has no leading
   * zero: the rendering is the one canonical spelling of a number.
   */
  lemma {:induction false} CanonicalDigits(s: string)
    requires AllDigits(s) && s != []
    ensures NatToString(DigitsValue(s)) == s <==> (|s| == 1 || s[0] != '0')
  {
    var n := DigitsValue(s);
    if |s| == 1 {
      assert s[..|s| - 1] == [] && DigitsValue([]) == 0;
      assert n == DigitsValue(s[..|s| - 1]) * 10 + (s[0] as int - '0' as int);
      assert NatToString(n) == [DigitChar(n)];
    } else if s[0] != '0' {
      var front := s[..|s| - 1];
      DigitsValuePositive(front);
      CanonicalDigits(front);
      assert n / 10 == DigitsValue(front) && n % 10 == s[|s| - 1] as int - '0' as int;
      assert s == front + [s[|s| - 1]];
    }
  }
}
