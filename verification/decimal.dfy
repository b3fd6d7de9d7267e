/** Canonical decimal numerals: the text form of octets and prefix lengths. */
module Decimal {

  predicate IsDigit(c: char) {
    '0' <= c <= '9'
  }

  predicate AllDigits(s: string) {
    forall i :: 0 <= i < |s| ==> IsDigit(s[i])
  }

  /** A canonical numeral: non-empty, only digits, and no leading zero unless it is "0". */
  predicate IsNumeral(s: string) {
    && |s| > 0
    && AllDigits(s)
    && (s[0] == '0' ==> |s| == 1)
  }

  function DigitValue(c: char): (d: nat)
    requires IsDigit(c)
    ensures d < 10
  {
    c as int - '0' as int
  }

  function DigitChar(d: nat): (c: char)
    requires d < 10
    ensures IsDigit(c) && DigitValue(c) == d
  {
    ('0' as int + d) as char
  }

  /** The number a string of digits denotes (most significant digit first). */
  function Value(s: string): nat
    requires AllDigits(s)
  {
    if |s| == 0 then 0 else Value(s[..|s| - 1]) * 10 + DigitValue(s[|s| - 1])
  }

  /** The decimal numeral of n, most significant digit first. */
  function Numeral(n: nat): string {
    if n < 10 then [DigitChar(n)] else Numeral(n / 10) + [DigitChar(n % 10)]
  }

  /** The numeral of n is canonical and denotes n: writing then reading is the identity. */
  lemma {:induction false} ValueOfNumeral(n: nat)
    ensures IsNumeral(Numeral(n))
    ensures Value(Numeral(n)) == n
  {
    if n >= 10 {
      ValueOfNumeral(n / 10);
      var init := Numeral(n / 10);
      var s := Numeral(n);
      assert s[..|s| - 1] == init;
    }
  }

  /** A numeral that does not start with '0' denotes a positive number. */
  lemma {:induction false} LeadingDigitPositive(s: string)
    requires |s| > 0 && AllDigits(s) && s[0] != '0'
    ensures Value(s) >= 1
  {
    if |s| > 1 {
      LeadingDigitPositive(s[..|s| - 1]);
    }
  }

  /** Every canonical numeral is the numeral of its own value: reading then writing is the identity. */
  lemma {:induction false} NumeralOfValue(s: string)
    requires IsNumeral(s)
    ensures Numeral(Value(s)) == s
  {
    if |s| > 1 {
      var init := s[..|s| - 1];
      assert IsNumeral(init);
      ValueOfNumeral(Value(s));
      LeadingDigitPositive(init);
      NumeralOfValue(init);
      var n := Value(s);
      assert n / 10 == Value(init) && n % 10 == DigitValue(s[|s| - 1]);
      assert s == init + [s[|s| - 1]];
    } else {
      assert s == [s[0]];
    }
  }
}
