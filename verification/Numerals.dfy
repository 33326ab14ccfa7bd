// Decimal numerals: what Python's str(n) prints for n >= 0 and what int(s) reads from digits.

module Numerals {

  predicate IsDigit(c: char) {
    '0' <= c <= '9'
  }

  predicate AllDigits(s: string) {
    forall i :: 0 <= i < |s| ==> IsDigit(s[i])
  }

  function DigitValue(c: char): (d: nat)
    requires IsDigit(c)
    ensures d < 10
  {
    c as int - '0' as int
  }

  function DigitOf(d: nat): (c: char)
    requires d < 10
    ensures IsDigit(c) && DigitValue(c) == d
  {
    ('0' as int + d) as char
  }

  function Value(s: string): nat
    requires AllDigits(s)
  {
    if s == [] then 0 else 10 * Value(s[..|s| - 1]) + DigitValue(s[|s| - 1])
  }

  function Show(n: nat): (s: string)
    ensures s != [] && AllDigits(s)
  {
    if n < 10 then [DigitOf(n)] else Show(n / 10) + [DigitOf(n % 10)]
  }

  /** A numeral that str() can print: no superfluous leading zero. */
  predicate Canonical(s: string) {
    AllDigits(s) && s != [] && (|s| > 1 ==> s[0] != '0')
  }

  /** Reading what was printed gives the number back. */
  lemma {:induction false} ValueOfShow(n: nat)
    ensures Value(Show(n)) == n
  {
    if n >= 10 {
      ValueOfShow(n / 10);
      var s := Show(n / 10) + [DigitOf(n % 10)];
      assert s[..|s| - 1] == Show(n / 10);
    }
  }

  lemma {:induction false} ShowIsCanonical(n: nat)
    ensures Canonical(Show(n))
    ensures n > 0 ==> Show(n)[0] != '0'
    ensures n == 0 ==> Show(n) == "0"
  {
    if n >= 10 {
      ShowIsCanonical(n / 10);
    }
  }

  lemma ShowIsInjective(m: nat, n: nat)
    requires Show(m) == Show(n)
    ensures m == n
  {
    ValueOfShow(m);
    ValueOfShow(n);
  }

  lemma {:induction false} ValueSplit(s: string)
    requires AllDigits(s) && s != []
    ensures Value(s) / 10 == Value(s[..|s| - 1])
    ensures Value(s) % 10 == DigitValue(s[|s| - 1])
  {
  }

  /** Printing what was read gives back a canonical numeral, and shortens every other one. */
  lemma {:induction false} ShowOfValue(s: string)
    requires AllDigits(s) && s != []
    ensures if Canonical(s) then Show(Value(s)) == s else |Show(Value(s))| < |s|
    decreases |s|
  {
    ValueSplit(s);
    if |s| == 1 {
      assert Value(s[..0]) == 0;
      assert s == [DigitOf(Value(s))];
    } else {
      var t := s[..|s| - 1];
      ShowOfValue(t);
      assert s == t + [s[|s| - 1]];
      if Canonical(s) {
        LeadingDigit(t);
      }
    }
  }

  lemma {:induction false} LeadingDigit(s: string)
    requires AllDigits(s) && s != [] && s[0] != '0'
    ensures Value(s) > 0
  {
    if |s| > 1 {
      LeadingDigit(s[..|s| - 1]);
    } else {
      assert Value(s[..0]) == 0;
    }
  }
}
