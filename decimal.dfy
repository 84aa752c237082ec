/** Decimal rendering of integers, as strconv.Itoa produces it. Used for the
    keys of the error map that Each builds from slice indices. */
module Decimal {

  /** The character for a single decimal digit. */
  function Digit(d: nat): (c: char)
    requires d < 10
    ensures '0' <= c <= '9'
    ensures DigitValue(c) == d
  {
    ('0' as int + d) as char
  }

  predicate IsDigits(s: string) {
    forall k :: 0 <= k < |s| ==> '0' <= s[k] <= '9'
  }

  /** The number a digit character stands for. */
  function DigitValue(c: char): int {
    c as int - '0' as int
  }

  /** The number a string of decimal digits denotes, most significant first. */
  function ParseDigits(s: string): nat
    requires IsDigits(s)
  {
    if s == [] then 0
    else
      assert IsDigits(s[..|s| - 1]);
      ParseDigits(s[..|s| - 1]) * 10 + DigitValue(s[|s| - 1])
  }

  /** Decimal form of a non-negative integer, most significant digit first,
      without leading zeros. */
  function NatStr(n: nat): (s: string)
    ensures |s| >= 1 && IsDigits(s)
    ensures ParseDigits(s) == n
    ensures s[0] == '0' ==> n == 0
  {
    if n < 10 then [Digit(n)]
    else
      var s := NatStr(n / 10) + [Digit(n % 10)];
      assert s[..|s| - 1] == NatStr(n / 10);
      s
  }

  /** Decimal form of any integer: a leading '-' for negative values. */
  function IntStr(i: int): (s: string)
    ensures |s| >= 1
    ensures (s[0] == '-') == (i < 0)
    ensures i >= 0 ==> IsDigits(s) && ParseDigits(s) == i
    ensures i < 0 ==> IsDigits(s[1..]) && ParseDigits(s[1..]) == -i
  {
    if i < 0 then
      var s := "-" + NatStr(-i);
      assert s[1..] == NatStr(-i);
      s
    else NatStr(i)
  }

  /** Different numbers have different decimal forms: parsing gives each back. */
  lemma NatStrInjective(a: nat, b: nat)
    requires NatStr(a) == NatStr(b)
    ensures a == b
  {
    assert ParseDigits(NatStr(a)) == a && ParseDigits(NatStr(b)) == b;
  }

  /** Different integers have different signed decimal forms. */
  lemma {:induction false} IntStrInjective(a: int, b: int)
    requires IntStr(a) == IntStr(b)
    ensures a == b
  {
    if a < 0 && b < 0 {
      assert IntStr(a)[1..] == NatStr(-a);
      assert IntStr(b)[1..] == NatStr(-b);
      NatStrInjective(-a, -b);
    } else if a >= 0 && b >= 0 {
      NatStrInjective(a, b);
    }
  }
}
