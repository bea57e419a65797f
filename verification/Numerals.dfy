/** Decimal numerals. */
module Numerals {
  function Digit(n: nat): char
    requires n < 10
  {
    '0' + n as char
  }

  // Every digit of n.
  function Decimal(n: nat): (s: string)
    ensures forall i :: 0 <= i < |s| ==> IsDigit(s[i])
  {
    if n < 10 then [Digit(n)] else Decimal(n / 10) + [Digit(n % 10)]
  }

  predicate IsDigit(c: char) {
    '0' <= c <= '9'
  }
}
