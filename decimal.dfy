/** Decimal numerals of integers, as JavaScript's template literals print a
    whole number: an optional minus sign, then digits without leading zeros.
    The elapsed-time formatter and the game-over heading both print numbers
    this way; Value is the reading back that every printed numeral round-trips
    through. */
module Decimal {

  predicate IsDigit(c: char) {
    '0' <= c <= '9'
  }

  predicate IsDigits(s: string) {
    forall i :: 0 <= i < |s| ==> IsDigit(s[i])
  }

  /** The character of one decimal digit. */
  function DigitChar(d: nat): (c: char)
    requires d < 10
    ensures IsDigit(c) && c as int - '0' as int == d
  {
    ('0' as int + d) as char
  }

  /** The numerical value of a string of digits, most significant first. */
  function Value(s: string): nat
    requires IsDigits(s)
  {
    if s == [] then 0
    else 10 * Value(s[..|s| - 1]) + (s[|s| - 1] as int - '0' as int)
  }

  /** The numeral of a non-negative integer: at least one digit, a single
      digit exactly for the numbers below ten, and no leading zero. */
  function NatToString(n: nat): (s: string)
    ensures IsDigits(s) && 1 <= |s|
    ensures (|s| == 1) == (n < 10)
    ensures |s| > 1 ==> s[0] != '0'
  {
    if n < 10 then [DigitChar(n)] else NatToString(n / 10) + [DigitChar(n % 10)]
  }

  /** Reading a printed numeral back gives the number that was printed. */
  lemma {:induction false} ValueOfNatToString(n: nat)
    ensures Value(NatToString(n)) == n
  {
    if n >= 10 {
      var s := NatToString(n);
      assert s[..|s| - 1] == NatToString(n / 10);
      ValueOfNatToString(n / 10);
    }
  }

  /** The numeral of any integer: a minus sign in front of the numeral of the
      magnitude exactly when the integer is negative, and no leading zero
      (zero itself prints as the single digit 0). */
  function IntToString(i: int): (s: string)
    ensures i >= 0 ==> IsDigits(s) && 1 <= |s| && Value(s) == i
    ensures i >= 0 ==> (|s| > 1 ==> s[0] != '0')
    ensures i < 0 ==> 2 <= |s| && s[0] == '-' && IsDigits(s[1..]) && Value(s[1..]) == -i
    ensures i < 0 ==> s[1] != '0'
  {
    if i < 0 then
      ValueOfNatToString(-i);
      var s := "-" + NatToString(-i);
      assert s[1..] == NatToString(-i);
      s
    else
      ValueOfNatToString(i);
      NatToString(i)
  }
}
