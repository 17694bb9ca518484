/**
 * The C integer types the evaluator works with, on an LP64 target built with
 * GCC or Clang: `long long` is 64-bit, `int` is 32-bit, `char` is a signed
 * 8-bit type. Conversions to a narrower signed type are implementation-defined
 * (section 6.3.1.3 of ISO C11); these compilers reduce modulo 2^N, and the model
 * writes that reduction out. Division and remainder follow section 6.5.5 of
 * ISO C11: the quotient is truncated toward zero.
 */
module CInt {

  const INT64_MIN: int := -0x8000_0000_0000_0000
  const INT64_MAX: int := 0x7FFF_FFFF_FFFF_FFFF
  const INT_MIN: int := -0x8000_0000
  const INT_MAX: int := 0x7FFF_FFFF
  const CHAR_MIN: int := -0x80
  const CHAR_MAX: int := 0x7F

  /** `long long` */
  type Int64 = x: int | INT64_MIN <= x <= INT64_MAX
  /** `int` */
  type Int32 = x: int | INT_MIN <= x <= INT_MAX
  /** `char` */
  type Char8 = x: int | CHAR_MIN <= x <= CHAR_MAX

  predicate InInt32(x: int) { INT_MIN <= x <= INT_MAX }

  predicate InInt64(x: int) { INT64_MIN <= x <= INT64_MAX }

  function Abs(x: int): nat { if x < 0 then -x else x }

  /** Conversion of an integer to `int`: the unique value in range congruent to x modulo 2^32. */
  function Wrap32(x: int): (r: Int32)
    ensures (x - r) % 0x1_0000_0000 == 0
    ensures InInt32(x) ==> r == x
  {
    (x - INT_MIN) % 0x1_0000_0000 + INT_MIN
  }

  /** Conversion of an integer to `char`: the unique value in range congruent to x modulo 2^8. */
  function Wrap8(x: int): (r: Char8)
    ensures (x - r) % 0x100 == 0
    ensures CHAR_MIN <= x <= CHAR_MAX ==> r == x
  {
    (x - CHAR_MIN) % 0x100 + CHAR_MIN
  }

  /** C's `/` on integers: the algebraic quotient with any fractional part discarded. */
  function CDiv(a: int, b: int): int
    requires b != 0
  {
    if (a >= 0) == (b > 0) then Abs(a) / Abs(b) else -(Abs(a) / Abs(b))
  }

  /** C's `%` on integers: the remainder takes the sign of the dividend. */
  function CRem(a: int, b: int): int
    requires b != 0
  {
    if a >= 0 then Abs(a) % Abs(b) else -(Abs(a) % Abs(b))
  }

  /** Two facts about products with a negated factor, kept apart from the lemmas that use them. */
  lemma NegatedProducts(x: int, y: int)
    ensures (-x) * (-y) == x * y
    ensures (-x) * y == -(x * y)
  {
  }

  /** The product `(a/b)*b` has the sign of the dividend and the magnitude of |a|/|b| times |b|. */
  lemma CDivTimesDivisor(a: int, b: int)
    requires b != 0
    ensures CDiv(a, b) * b == if a >= 0 then Abs(a) / Abs(b) * Abs(b) else -(Abs(a) / Abs(b) * Abs(b))
  {
    var q: int, y: int := Abs(a) / Abs(b), Abs(b);
    NegatedProducts(q, y);
    if a >= 0 && b < 0 {
      assert CDiv(a, b) * b == (-q) * (-y);
    } else if a < 0 && b > 0 {
      assert CDiv(a, b) * b == (-q) * y;
    } else if a < 0 {
      assert CDiv(a, b) * b == q * (-y);
      assert q * (-y) == (-q) * y;
    }
  }

  /**
   * Section 6.5.5 of ISO C11: `(a/b)*b + a%b == a`, the quotient is truncated
   * toward zero, and the remainder is smaller than the divisor in magnitude and
   * never has the opposite sign of the dividend.
   */
  lemma CDivRem(a: int, b: int)
    requires b != 0
    ensures CDiv(a, b) * b + CRem(a, b) == a
    ensures Abs(CDiv(a, b) * b) <= Abs(a)
    ensures Abs(CRem(a, b)) < Abs(b)
    ensures a >= 0 ==> CRem(a, b) >= 0
    ensures a <= 0 ==> CRem(a, b) <= 0
  {
    var x: int, y: int := Abs(a), Abs(b);
    var p: int, m: int := x / y * y, x % y;
    assert x == p + m && 0 <= m < y && 0 <= p;
    CDivTimesDivisor(a, b);
  }

  /** A quotient by a divisor of magnitude at least 2 is at most half the dividend in magnitude. */
  lemma QuotientShrinks(x: nat, y: nat)
    requires y >= 2
    ensures x / y * 2 <= x
  {
    var q := x / y;
    assert q * y <= x;
    assert q * 2 <= q * y;
  }

  /** On `int` operands the quotient overflows exactly for INT_MIN / -1; the remainder never does. */
  lemma CDivRange(a: Int32, b: Int32)
    requires b != 0
    ensures InInt32(CDiv(a, b)) <==> !(a == INT_MIN && b == -1)
    ensures InInt32(CRem(a, b))
  {
    CDivRem(a, b);
    if Abs(b) == 1 {
      assert Abs(a) / Abs(b) == Abs(a);
    } else {
      QuotientShrinks(Abs(a), Abs(b));
    }
  }
}
