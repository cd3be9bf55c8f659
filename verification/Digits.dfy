/** Decimal digits: what `std::to_string` writes and what digit-by-digit readers make of it. */
module Digits {

  predicate IsDigit(c: char) {
    '0' <= c <= '9'
  }

  predicate AllDigits(s: string) {
    forall k :: 0 <= k < |s| ==> IsDigit(s[k])
  }

  function DigitValue(c: char): nat
    requires IsDigit(c)
  {
    c as int - '0' as int
  }

  function DigitChar(d: nat): (c: char)
    requires d < 10
    ensures IsDigit(c) && DigitValue(c) == d
  {
    ('0' as int + d) as char
  }

  /** `std::to_string` of an unsigned number. */
  function Decimal(n: nat): (s: string)
    ensures s != [] && AllDigits(s)
  {
    if n < 10 then [DigitChar(n)] else Decimal(n / 10) + [DigitChar(n % 10)]
  }

  /** The number read by appending the digits of `s` to `u`, left to right. */
  function Value(s: string, u: nat): nat
    requires AllDigits(s)
  {
    if s == [] then u else Value(s[1..], u * 10 + DigitValue(s[0]))
  }

  lemma {:induction false} ValueAppend(a: string, b: string, u: nat)
    requires AllDigits(a) && AllDigits(b)
    ensures Value(a + b, u) == Value(b, Value(a, u))
  {
    if a == [] {
      assert a + b == b;
    } else {
      assert (a + b)[1..] == a[1..] + b;
      ValueAppend(a[1..], b, u * 10 + DigitValue(a[0]));
    }
  }

  /** Reading the printed digits gives the number back. */
  lemma {:induction false} ValueOfDecimal(n: nat)
    ensures Value(Decimal(n), 0) == n
  {
    if n >= 10 {
      ValueOfDecimal(n / 10);
      ValueAppend(Decimal(n / 10), [DigitChar(n % 10)], 0);
      assert Value([DigitChar(n % 10)], n / 10) == n / 10 * 10 + n % 10;
    }
  }

  /** The digits are the decimal ones, the last of them that of the units. */
  lemma DecimalIs(n: nat)
    ensures n < 10 ==> Decimal(n) == ["0123456789"[n]]
    ensures n >= 10 ==> Decimal(n) == Decimal(n / 10) + ["0123456789"[n % 10]]
  {
    hide DigitChar;
    DigitIs(n % 10);
  }

  lemma DigitIs(d: nat)
    requires d < 10
    ensures DigitChar(d) == "0123456789"[d] && IsDigit("0123456789"[d]) && DigitValue("0123456789"[d]) == d
  {}

  lemma DecimalLength(n: nat)
    ensures n < 10 <==> |Decimal(n)| == 1
    ensures n < 100 ==> |Decimal(n)| <= 2
    ensures n < 1000 ==> |Decimal(n)| <= 3
  {}
}
