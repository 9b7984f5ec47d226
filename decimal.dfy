/** Decimal digit strings: how JavaScript renders a non-negative integer
    below 10^21 as text (`String(n)`, template literals, `textContent`),
    and the value a digit string denotes. */
module Decimal {

  predicate IsDigit(c: char) {
    '0' <= c <= '9'
  }

  predicate AllDigits(s: string) {
    forall i :: 0 <= i < |s| ==> IsDigit(s[i])
  }

  function DigitChar(d: nat): (c: char)
    requires d < 10
    ensures IsDigit(c)
  {
    (d + '0' as int) as char
  }

  function DigitValue(c: char): (d: nat)
    requires IsDigit(c)
    ensures d < 10
  {
    c as int - '0' as int
  }

  function Pow10(k: nat): (r: nat)
    ensures r >= 1
  {
    if k == 0 then 1 else 10 * Pow10(k - 1)
  }

  /** The number a digit string denotes, most significant digit first;
      leading zeros are allowed. */
  function ValueOf(s: string): nat
    requires AllDigits(s)
  {
    if s == [] then 0 else 10 * ValueOf(s[..|s| - 1]) + DigitValue(s[|s| - 1])
  }

  /** The shortest decimal rendering of `n`: digits only, denoting `n`,
      and without a leading zero unless it is the single digit of 0. */
  function ToDecimal(n: nat): (s: string)
    ensures AllDigits(s) && |s| >= 1
    ensures ValueOf(s) == n
    ensures |s| > 1 ==> s[0] != '0'
    decreases n
  {
    if n < 10 then [DigitChar(n)]
    else
      var prefix := ToDecimal(n / 10);
      var s := prefix + [DigitChar(n % 10)];
      assert s[..|s| - 1] == prefix;
      s
  }

  /** A zero in front of a digit string does not change its value. */
  lemma {:induction false} LeadingZero(s: string)
    requires AllDigits(s)
    ensures AllDigits(['0'] + s) && ValueOf(['0'] + s) == ValueOf(s)
  {
    if s != [] {
      var t := ['0'] + s;
      assert t[..|t| - 1] == ['0'] + s[..|s| - 1];
      LeadingZero(s[..|s| - 1]);
    }
  }

  /** The rendering of `n` fits in `k` characters exactly when `n < 10^k`. */
  lemma {:induction false} DecimalWidth(n: nat, k: nat)
    requires k >= 1
    ensures |ToDecimal(n)| <= k <==> n < Pow10(k)
    decreases n
  {
    if n >= 10 {
      if k == 1 {
        assert Pow10(1) == 10;
      } else {
        DecimalWidth(n / 10, k - 1);
      }
    }
  }
}
