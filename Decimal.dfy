/**
 * Decimal text of integers: how `ostream << value` prints an integer and
 * how `atoi` / `std::stoll` read one back.
 */
module Decimal {

  predicate IsDigit(c: char) {
    '0' <= c <= '9'
  }

  predicate AllDigits(s: string) {
    forall i :: 0 <= i < |s| ==> IsDigit(s[i])
  }

  function DigitChar(d: nat): (c: char)
    requires d < 10
    ensures IsDigit(c)
  {
    ('0' as int + d) as char
  }

  function DigitValue(c: char): (d: nat)
    requires IsDigit(c)
    ensures d < 10
  {
    c as int - '0' as int
  }

  /** The decimal digits of n, most significant first, without leading zeros. */
  function Digits(n: nat): (s: string)
    ensures |s| >= 1 && AllDigits(s)
    decreases n
  {
    if n < 10 then [DigitChar(n)] else Digits(n / 10) + [DigitChar(n % 10)]
  }

  /** The number a string of decimal digits denotes. */
  function DigitsValue(s: string): nat
    requires AllDigits(s)
  {
    if s == [] then 0 else DigitsValue(s[..|s| - 1]) * 10 + DigitValue(s[|s| - 1])
  }

  /** The text `ostream << v` produces for an integer v. */
  function Show(v: int): string {
    if v < 0 then "-" + Digits(-v) else Digits(v)
  }

  /** Text made of an optional sign followed by at least one digit. */
  predicate IsDecimal(s: string) {
    |s| >= 1 &&
    if s[0] == '-' || s[0] == '+' then |s| >= 2 && AllDigits(s[1..]) else AllDigits(s)
  }

  /** The integer that `atoi` / `std::stoll` read from well-formed decimal text. */
  function Parse(s: string): int
    requires IsDecimal(s)
  {
    if s[0] == '-' then -(DigitsValue(s[1..]) as int)
    else if s[0] == '+' then DigitsValue(s[1..])
    else DigitsValue(s)
  }

  lemma {:induction false} DigitsValueOfDigits(n: nat)
    ensures DigitsValue(Digits(n)) == n
    decreases n
  {
    var s := Digits(n);
    if n < 10 {
      assert s[..|s| - 1] == [];
    } else {
      assert s[..|s| - 1] == Digits(n / 10);
      DigitsValueOfDigits(n / 10);
    }
  }

  /** Printed integers are well-formed decimal text and parse back to themselves. */
  lemma ParseShow(v: int)
    ensures IsDecimal(Show(v)) && Parse(Show(v)) == v
  {
    var s := Show(v);
    if v < 0 {
      assert s[1..] == Digits(-v);
      DigitsValueOfDigits(-v);
    } else {
      DigitsValueOfDigits(v);
    }
  }
}
