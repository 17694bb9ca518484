/**
 * The C library's `atoi` (section 7.22.1.2 of ISO C11, which defines it by
 * `strtol`, section 7.22.1.4): leading white space is skipped, an optional
 * sign is read, then the longest run of decimal digits. When the value does
 * not fit in `int` the behaviour is undefined, which the model reports as None.
 */
module Numerals {
  import opened Wrappers
  import opened CInt

  /** `isspace` in the "C" locale. */
  predicate IsSpace(c: char)
  {
    c == ' ' || c == '\t' || c == '\n' || c == '\U{B}' || c == '\U{C}' || c == '\r'
  }

  predicate IsDigit(c: char) { '0' <= c <= '9' }

  predicate AllDigits(s: string) { forall k :: 0 <= k < |s| ==> IsDigit(s[k]) }

  function DigitValue(c: char): nat
    requires IsDigit(c)
  {
    (c as int) - ('0' as int)
  }

  function SkipSpaces(s: string): string
  {
    if |s| > 0 && IsSpace(s[0]) then SkipSpaces(s[1..]) else s
  }

  /** The length of the run of digits that starts s. */
  function DigitRun(s: string): (n: nat)
    ensures n <= |s| && AllDigits(s[..n])
    ensures n < |s| ==> !IsDigit(s[n])
  {
    if |s| > 0 && IsDigit(s[0]) then
      var n := 1 + DigitRun(s[1..]);
      assert s[..n] == [s[0]] + s[1..][..n - 1];
      n
    else 0
  }

  /** The number a string of decimal digits denotes, most significant digit first. */
  function DigitsValue(ds: string): nat
    requires AllDigits(ds)
  {
    if |ds| == 0 then 0 else DigitsValue(ds[..|ds| - 1]) * 10 + DigitValue(ds[|ds| - 1])
  }

  /** The value `atoi` computes, before its range is considered. */
  function AtoiValue(s: string): int
  {
    var t := SkipSpaces(s);
    var signed := |t| > 0 && (t[0] == '-' || t[0] == '+');
    var digits := if signed then t[1..] else t;
    var magnitude: int := DigitsValue(digits[..DigitRun(digits)]);
    if signed && t[0] == '-' then -magnitude else magnitude
  }

  /** `atoi`: None where the result cannot be represented in `int`. */
  function Atoi(s: string): (r: Option<Int32>)
    ensures r.Some? <==> InInt32(AtoiValue(s))
    ensures r.Some? ==> r.value == AtoiValue(s)
  {
    var n := AtoiValue(s);
    if InInt32(n) then Some(n) else None
  }

  function DigitChar(d: nat): (c: char)
    requires d < 10
    ensures IsDigit(c) && DigitValue(c) == d
  {
    ('0' as int + d) as char
  }

  /** The shortest decimal numeral of n. */
  function DecimalText(n: nat): (s: string)
    ensures |s| > 0 && AllDigits(s)
  {
    if n < 10 then [DigitChar(n)] else DecimalText(n / 10) + [DigitChar(n % 10)]
  }

  /** Reading back the numeral of n gives n. */
  lemma {:induction false} DecimalTextValue(n: nat)
    ensures DigitsValue(DecimalText(n)) == n
  {
    var s := DecimalText(n);
    if n >= 10 {
      assert s[..|s| - 1] == DecimalText(n / 10);
      DecimalTextValue(n / 10);
    } else {
      assert s[..|s| - 1] == [];
    }
  }

  /** A string of digits is its own run of digits. */
  lemma {:induction false} DigitRunOfDigits(s: string)
    requires AllDigits(s)
    ensures DigitRun(s) == |s|
  {
    if |s| > 0 {
      DigitRunOfDigits(s[1..]);
    }
  }

  /**
   * `atoi` reads any non-empty string of digits, leading zeros included, to
   * the number it denotes, which is undefined exactly beyond INT_MAX.
   */
  lemma AtoiOfDigits(ds: string)
    requires |ds| > 0 && AllDigits(ds)
    ensures Atoi(ds) == if DigitsValue(ds) <= INT_MAX then Some(DigitsValue(ds)) else None
  {
    assert SkipSpaces(ds) == ds;
    DigitRunOfDigits(ds);
    assert ds[..DigitRun(ds)] == ds;
  }
}
