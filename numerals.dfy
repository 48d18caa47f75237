/**
 * Decimal integers as text: Python's `str(n)` for an `int` and `int(t)` for
 * a token that is an optional sign followed by ASCII digits.
 */
module Numerals {

  predicate IsDigit(c: char) {
    '0' <= c <= '9'
  }

  predicate AllDigits(s: string) {
    forall k :: 0 <= k < |s| ==> IsDigit(s[k])
  }

  /** The digits of a token, after an optional leading sign. */
  function Unsigned(t: string): string {
    if t != [] && (t[0] == '+' || t[0] == '-') then t[1..] else t
  }

  /** A token `int(t)` accepts in this model: an optional `+` or `-` and at
      least one ASCII digit. */
  predicate IsIntToken(t: string) {
    Unsigned(t) != [] && AllDigits(Unsigned(t))
  }

  function DigitValue(c: char): nat
    requires IsDigit(c)
  {
    c as int - '0' as int
  }

  function DigitChar(d: nat): (c: char)
    requires d < 10
    ensures IsDigit(c) && DigitValue(c) == d
  {
    ('0' as int + d) as char
  }

  /** The value of a string of decimal digits (most significant first). */
  function DigitsValue(ds: string): nat
    requires AllDigits(ds)
    decreases |ds|
  {
    if ds == [] then 0
    else DigitsValue(ds[..|ds| - 1]) * 10 + DigitValue(ds[|ds| - 1])
  }

  /** `int(t)`. */
  function ParseInt(t: string): int
    requires IsIntToken(t)
  {
    if t[0] == '-' then -(DigitsValue(t[1..]) as int) else DigitsValue(Unsigned(t))
  }

  /** The shortest decimal digits of `n`. */
  function NatToDigits(n: nat): (ds: string)
    ensures ds != [] && AllDigits(ds)
    ensures ds[0] != '0' || n == 0
    decreases n
  {
    if n < 10 then [DigitChar(n)] else NatToDigits(n / 10) + [DigitChar(n % 10)]
  }

  /** `str(n)`: digits, with a leading `-` when `n` is negative. */
  function IntToString(n: int): string {
    if n < 0 then "-" + NatToDigits(-n) else NatToDigits(n)
  }

  lemma {:induction false} DigitsRoundTrip(n: nat)
    ensures DigitsValue(NatToDigits(n)) == n
    decreases n
  {
    if n >= 10 {
      var ds := NatToDigits(n);
      DigitsRoundTrip(n / 10);
      assert ds[..|ds| - 1] == NatToDigits(n / 10);
    }
  }

  /** `int(str(n)) == n`: the text written for an integer reads back as
      the same integer. */
  lemma IntRoundTrip(n: int)
    ensures IsIntToken(IntToString(n))
    ensures ParseInt(IntToString(n)) == n
  {
    var t := IntToString(n);
    if n < 0 {
      var ds := NatToDigits(-n);
      assert t == ['-'] + ds;
      assert t[1..] == ds;
      assert Unsigned(t) == ds;
      DigitsRoundTrip(-n);
    } else {
      var ds := NatToDigits(n);
      assert t == ds;
      assert IsDigit(ds[0]);
      assert Unsigned(t) == ds;
      DigitsRoundTrip(n);
    }
  }
}
