/**
 * The decimal text Java's string concatenation produces for a non-negative
 * int, and its inverse.
 */
module JavaStrings {

  predicate IsDigit(c: char) {
    '0' <= c <= '9'
  }

  predicate AllDigits(s: string) {
    forall k :: 0 <= k < |s| ==> IsDigit(s[k])
  }

  function DigitChar(d: nat): (c: char)
    requires d < 10
    ensures IsDigit(c)
  {
    ('0' as int + d) as char
  }

  function DigitValue(c: char): (d: nat)
    requires IsDigit(c)
    ensures d < 10 && DigitChar(d) == c
  {
    c as int - '0' as int
  }

  /** The decimal representation of `n`, without sign and without leading zeros. */
  function IntToString(n: nat): (s: string)
    ensures |s| > 0 && AllDigits(s)
    ensures n >= 10 ==> s[0] != '0'
    decreases n
  {
    if n < 10 then [DigitChar(n)] else IntToString(n / 10) + [DigitChar(n % 10)]
  }

  /** The number a string of decimal digits denotes. */
  function ParseDecimal(s: string): nat
    requires AllDigits(s)
    decreases |s|
  {
    if s == [] then 0 else ParseDecimal(s[..|s| - 1]) * 10 + DigitValue(s[|s| - 1])
  }

  /** Reading back the decimal text of `n` gives `n`. */
  lemma {:induction false} ParseIntToString(n: nat)
    ensures ParseDecimal(IntToString(n)) == n
    decreases n
  {
    if n >= 10 {
      var s := IntToString(n);
      assert s[..|s| - 1] == IntToString(n / 10);
      ParseIntToString(n / 10);
    }
  }

  /** Distinct numbers have distinct decimal texts. */
  lemma IntToStringInjective(a: nat, b: nat)
    requires a != b
    ensures IntToString(a) != IntToString(b)
  {
    ParseIntToString(a);
    ParseIntToString(b);
  }

  /** A common prefix followed by distinct numbers gives distinct strings. */
  lemma PrefixedIntToStringInjective(prefix: string, a: nat, b: nat)
    requires a != b
    ensures prefix + IntToString(a) != prefix + IntToString(b)
  {
    IntToStringInjective(a, b);
    assert (prefix + IntToString(a))[|prefix|..] == IntToString(a);
    assert (prefix + IntToString(b))[|prefix|..] == IntToString(b);
  }
}
