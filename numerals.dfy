/** Decimal rendering of integers (Python's str() and f-string formatting of an int)
    and its inverse (Python's int() on a string of digits). */
module Numerals {

  predicate IsDigit(c: char) {
    '0' <= c <= '9'
  }

  predicate AllDigits(s: string) {
    forall i :: 0 <= i < |s| ==> IsDigit(s[i])
  }

  function DigitChar(d: nat): (c: char)
    requires d < 10
    ensures IsDigit(c)
  {
    ('0' as int + d) as char
  }

  function DigitValue(c: char): (d: nat)
    requires IsDigit(c)
    ensures d < 10
  {
    c as int - '0' as int
  }

  /** The canonical decimal rendering of a natural number: no sign, no leading zeros. */
  function NatToString(n: nat): (s: string)
    ensures |s| > 0 && AllDigits(s)
    decreases n
  {
    if n < 10 then [DigitChar(n)] else NatToString(n / 10) + [DigitChar(n % 10)]
  }

  /** Python's str(n) for an int, including the minus sign of a negative one. */
  function IntToString(n: int): string {
    if n < 0 then "-" + NatToString(-n) else NatToString(n)
  }

  /** The value of a string of decimal digits, as Python's int() reads it. */
  function ParseNat(s: string): nat
    requires AllDigits(s)
    decreases |s|
  {
    if s == [] then 0 else ParseNat(s[..|s| - 1]) * 10 + DigitValue(s[|s| - 1])
  }

  /** A decimal numeral as Python renders one: digits with no leading zero except "0" itself. */
  predicate IsCanonical(s: string) {
    |s| > 0 && AllDigits(s) && (s[0] == '0' ==> |s| == 1)
  }

  /** A rendered integer: an optional minus sign before a canonical numeral that is not "-0". */
  predicate IsIntNumeral(s: string) {
    IsCanonical(s) || (|s| > 1 && s[0] == '-' && IsCanonical(s[1..]) && s[1..] != "0")
  }

  function ParseInt(s: string): int
    requires IsIntNumeral(s)
  {
    var magnitude: int := if IsCanonical(s) then ParseNat(s) else ParseNat(s[1..]);
    if IsCanonical(s) then magnitude else -magnitude
  }

  lemma {:induction false} NatToStringCanonical(n: nat)
    ensures IsCanonical(NatToString(n))
    ensures NatToString(n) == "0" <==> n == 0
    decreases n
  {
    if n >= 10 {
      NatToStringCanonical(n / 10);
    }
  }

  lemma {:induction false} ParseNatToString(n: nat)
    ensures ParseNat(NatToString(n)) == n
    decreases n
  {
    var s := NatToString(n);
    if n < 10 {
      assert s[..|s| - 1] == [];
    } else {
      ParseNatToString(n / 10);
      assert s[..|s| - 1] == NatToString(n / 10);
    }
  }

  /** Rendering and reading back an integer is the identity, and the rendering is canonical. */
  lemma IntToStringRoundTrip(n: int)
    ensures IsIntNumeral(IntToString(n))
    ensures ParseInt(IntToString(n)) == n
  {
    var s := IntToString(n);
    if n < 0 {
      NegativeRoundTrip(-n);
      assert s == "-" + NatToString(-n);
      assert ParseInt(s) + ParseNat(s[1..]) == 0;
    } else {
      NatToStringCanonical(n);
      ParseNatToString(n);
      assert s == NatToString(n);
      assert ParseInt(s) == ParseNat(s);
    }
  }

  lemma NegativeRoundTrip(m: nat)
    requires m > 0
    ensures var s := "-" + NatToString(m);
      IsIntNumeral(s) && !IsCanonical(s) && s[1..] == NatToString(m) && ParseNat(s[1..]) == m
  {
    var t := NatToString(m);
    var s := "-" + t;
    NatToStringCanonical(m);
    ParseNatToString(m);
    assert s[1..] == t;
    assert !IsDigit(s[0]);
  }

  /** Distinct numbers have distinct renderings. */
  lemma NatToStringInjective(i: nat, j: nat)
    ensures NatToString(i) == NatToString(j) <==> i == j
  {
    if NatToString(i) == NatToString(j) {
      ParseNatToString(i);
      ParseNatToString(j);
    }
  }
}
