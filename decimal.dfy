/**
 * Decimal rendering of non-negative integers, as JavaScript's `Number.prototype.toString()`
 * writes them (`Date.now().toString()`, the index in a synthesised article id, the HTTP status
 * in an error message), together with the inverse reading used to prove the rendering injective.
 */
module Decimal {

  predicate IsDigit(c: char) {
    '0' <= c <= '9'
  }

  predicate AllDigits(s: string) {
    forall k :: 0 <= k < |s| ==> IsDigit(s[k])
  }

  function DigitChar(d: nat): (c: char)
    requires d < 10
    ensures IsDigit(c)
  {
    ('0' as int + d) as char
  }

  function DigitValue(c: char): (d: nat)
    requires IsDigit(c)
    ensures d < 10
  {
    c as int - '0' as int
  }

  /** The shortest decimal numeral of `n`: at least one digit, and no leading zero unless `n` is 0. */
  function NatToString(n: nat): (s: string)
    ensures |s| >= 1 && AllDigits(s)
    ensures s[0] == '0' ==> n == 0
    decreases n
  {
    if n < 10 then [DigitChar(n)] else NatToString(n / 10) + [DigitChar(n % 10)]
  }

  /** Reads a numeral back, most significant digit first. */
  function ParseNat(s: string): nat
    requires AllDigits(s)
    decreases |s|
  {
    if s == [] then 0 else 10 * ParseNat(s[..|s| - 1]) + DigitValue(s[|s| - 1])
  }

  lemma {:induction false} ParseNatToString(n: nat)
    ensures ParseNat(NatToString(n)) == n
    decreases n
  {
    var s := NatToString(n);
    if n >= 10 {
      ParseNatToString(n / 10);
      assert s[..|s| - 1] == NatToString(n / 10);
    }
  }

  /** Distinct numbers render as distinct strings. */
  lemma NatToStringInjective(a: nat, b: nat)
    requires NatToString(a) == NatToString(b)
    ensures a == b
  {
    ParseNatToString(a);
    ParseNatToString(b);
  }

  /**
   * A numeral followed by a non-digit separator can be split uniquely: when
   * `NatToString(a) + [sep] + x == NatToString(b) + [sep] + y`, both the numbers and the tails agree.
   */
  lemma SplitAtSeparator(a: nat, b: nat, sep: char, x: string, y: string)
    requires !IsDigit(sep)
    requires NatToString(a) + [sep] + x == NatToString(b) + [sep] + y
    ensures a == b && x == y
  {
    var da, db := NatToString(a), NatToString(b);
    var s := da + [sep] + x;
    // the separator is the first non-digit, so both numerals end at the same position
    FirstNonDigit(da, sep, x);
    FirstNonDigit(db, sep, y);
    assert |da| == |db|;
    assert da == s[..|da|] == db;
    NatToStringInjective(a, b);
    assert x == s[|da| + 1..] == y;
  }

  /** In `d + [sep] + x` with `d` all digits, the separator first occurs right after `d`. */
  lemma FirstNonDigit(d: string, sep: char, x: string)
    requires AllDigits(d) && !IsDigit(sep)
    ensures (d + [sep] + x)[|d|] == sep
    ensures forall k :: 0 <= k < |d| ==> (d + [sep] + x)[k] != sep
  {
  }
}
