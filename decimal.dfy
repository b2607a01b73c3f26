/** Decimal text of natural numbers, as Python's f-string renders an `int`
    (the 1-based positions inside a mutation such as "A5B"), and the parsing
    direction used to read those positions back. */
module Decimal {

  predicate IsDigit(c: char) {
    '0' <= c <= '9'
  }

  predicate AllDigits(s: string) {
    forall k :: 0 <= k < |s| ==> IsDigit(s[k])
  }

  function DigitChar(d: nat): (c: char)
    requires d < 10
    ensures IsDigit(c)
    ensures c as int - '0' as int == d
  {
    (48 + d) as char
  }

  function DigitValue(c: char): (d: nat)
    requires IsDigit(c)
    ensures d < 10
    ensures DigitChar(d) == c
  {
    c as int - '0' as int
  }

  /** The shortest decimal text of `n`: digits only, never empty, and no
      leading zero unless `n` itself is zero. */
  function FromNat(n: nat): (s: string)
    ensures |s| >= 1
    ensures AllDigits(s)
    ensures s[0] == '0' ==> n == 0
    decreases n
  {
    if n < 10 then [DigitChar(n)] else FromNat(n / 10) + [DigitChar(n % 10)]
  }

  /** The number a string of decimal digits denotes (most significant first). */
  function Value(s: string): nat
    requires AllDigits(s)
    decreases |s|
  {
    if s == [] then 0 else Value(s[..|s| - 1]) * 10 + DigitValue(s[|s| - 1])
  }

  /** Reading back the text `FromNat` writes gives the same number. */
  lemma {:induction false} ValueOfFromNat(n: nat)
    ensures Value(FromNat(n)) == n
    decreases n
  {
    var s := FromNat(n);
    if n >= 10 {
      ValueOfFromNat(n / 10);
      assert s[..|s| - 1] == FromNat(n / 10);
      assert DigitValue(s[|s| - 1]) == n % 10;
    } else {
      assert s[..|s| - 1] == [];
    }
  }

  /** The positive numbers `FromNat` renders start with a non-zero digit, so
      two different numbers never share a text. */
  lemma FromNatInjective(m: nat, n: nat)
    requires FromNat(m) == FromNat(n)
    ensures m == n
  {
    ValueOfFromNat(m);
    ValueOfFromNat(n);
  }
}
