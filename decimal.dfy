/**
 * Decimal text as the shell reads and writes it: `isdigit`, `atoi` on a
 * string of digits (the argument of `exit`) and `%d` (the pids that
 * `printJob` prints).
 */
module Decimal {

  /** The largest value of a C `int`. */
  const INT_MAX: int := 0x7fff_ffff

  predicate IsDigit(c: char) {
    '0' <= c <= '9'
  }

  predicate AllDigits(s: string) {
    forall i :: 0 <= i < |s| ==> IsDigit(s[i])
  }

  function DigitValue(c: char): (d: nat)
    requires IsDigit(c)
    ensures d < 10
  {
    c as int - '0' as int
  }

  function DigitChar(d: nat): (c: char)
    requires d < 10
    ensures IsDigit(c) && DigitValue(c) == d
  {
    ('0' as int + d) as char
  }

  /** The string holds no digit other than '0' (the empty string included). */
  predicate AllZeros(s: string) {
    forall i :: 0 <= i < |s| ==> s[i] == '0'
  }

  /**
   * `atoi` on a string made only of digits; the empty string reads as 0.
   * The value is 0 exactly when every digit is '0'.
   */
  function Atoi(s: string): (v: nat)
    requires AllDigits(s)
    ensures v == 0 <==> AllZeros(s)
  {
    if s == [] then 0
    else
      var init := s[..|s| - 1];
      assert AllZeros(s) <==> AllZeros(init) && s[|s| - 1] == '0' by {
        assert forall i :: 0 <= i < |init| ==> init[i] == s[i];
      }
      10 * Atoi(init) + DigitValue(s[|s| - 1])
  }

  /** `%d` of a non-negative number: its digits, most significant first, no leading zero. */
  function Natural(n: nat): (s: string)
    ensures AllDigits(s) && 0 < |s|
    ensures |s| > 1 ==> s[0] != '0'
  {
    if n < 10 then [DigitChar(n)] else Natural(n / 10) + [DigitChar(n % 10)]
  }

  /** `%d` of any `int`: a minus sign before the digits of a negative number. */
  function Format(n: int): (s: string)
    ensures 0 < |s|
    ensures s[0] == '-' <==> n < 0
    ensures n >= 0 ==> AllDigits(s)
  {
    if n < 0 then "-" + Natural(-n) else Natural(n)
  }

  /** Reading back what `%d` printed gives the number again. */
  lemma {:induction false} AtoiNatural(n: nat)
    ensures Atoi(Natural(n)) == n
  {
    var s := Natural(n);
    if n >= 10 {
      AtoiNatural(n / 10);
      assert s[..|s| - 1] == Natural(n / 10);
    }
  }

  /** A digit string with a non-zero first digit reads as a positive number. */
  lemma {:induction false} AtoiPositive(s: string)
    requires AllDigits(s) && 0 < |s| && s[0] != '0'
    ensures Atoi(s) > 0
  {
    if |s| > 1 {
      AtoiPositive(s[..|s| - 1]);
    }
  }

  /** Printing what `atoi` read gives the digit string again, when it has no leading zero. */
  lemma {:induction false} NaturalAtoi(s: string)
    requires AllDigits(s) && 0 < |s|
    requires |s| > 1 ==> s[0] != '0'
    ensures Natural(Atoi(s)) == s
  {
    if |s| > 1 {
      var init := s[..|s| - 1];
      NaturalAtoi(init);
      AtoiPositive(init);
      var v := Atoi(s);
      assert v / 10 == Atoi(init) && v % 10 == DigitValue(s[|s| - 1]);
      assert s == init + [s[|s| - 1]];
    }
  }
}
