/**
 * The operator functions of src/core/operations.c. Each builds a fresh Value
 * from its operands. A binary operator accepts only two Integers, narrows both
 * payloads to `int` and computes in `int`; anything else gives the Error
 * "Type error." (the message of an Error operand is not passed on). The unary
 * operators compute in `long long`.
 *
 * Signed overflow and division by zero are undefined in C and these functions
 * do not check for them, so their absence is a precondition.
 */
module Operations {
  import opened Wrappers
  import opened CInt
  import opened Values

  const TYPE_ERROR: string := "Type error."
  const NEGATION_TYPE_ERROR: string := "Type error for negation."
  const LOGICAL_NOT_TYPE_ERROR: string := "Type error for logical NOT."
  const BITWISE_NOT_TYPE_ERROR: string := "Type error for bitwise NOT."

  predicate BothIntegers(l: Value, r: Value) { IsInteger(l) && IsInteger(r) }

  /** `int x = value_as_integer(v)` for an Integer v: the conversion from `long long` to `int`. */
  function Narrow(v: Value): (n: Int32)
    requires IsInteger(v)
    ensures (AsInteger(v).value - n) % 0x1_0000_0000 == 0
  {
    Wrap32(AsInteger(v).value)
  }

  /** `value_by_adding_values` */
  function Add(l: Value, r: Value): (v: Value)
    requires BothIntegers(l, r) ==> InInt32(Narrow(l) + Narrow(r))
    ensures IsInteger(v) <==> BothIntegers(l, r)
    ensures BothIntegers(l, r) ==> v.i == Narrow(l) + Narrow(r)
    ensures !BothIntegers(l, r) ==> v == Error(TYPE_ERROR)
  {
    if BothIntegers(l, r) then Integer(Narrow(l) + Narrow(r)) else MakeError(Some(TYPE_ERROR))
  }

  /** `value_by_subtracting_values` */
  function Subtract(l: Value, r: Value): (v: Value)
    requires BothIntegers(l, r) ==> InInt32(Narrow(l) - Narrow(r))
    ensures IsInteger(v) <==> BothIntegers(l, r)
    ensures BothIntegers(l, r) ==> v.i == Narrow(l) - Narrow(r)
    ensures !BothIntegers(l, r) ==> v == Error(TYPE_ERROR)
  {
    if BothIntegers(l, r) then Integer(Narrow(l) - Narrow(r)) else MakeError(Some(TYPE_ERROR))
  }

  /** `value_by_multiplying_values` */
  function Multiply(l: Value, r: Value): (v: Value)
    requires BothIntegers(l, r) ==> InInt32(Narrow(l) * Narrow(r))
    ensures IsInteger(v) <==> BothIntegers(l, r)
    ensures BothIntegers(l, r) ==> v.i == Narrow(l) * Narrow(r)
    ensures !BothIntegers(l, r) ==> v == Error(TYPE_ERROR)
  {
    if BothIntegers(l, r) then Integer(Narrow(l) * Narrow(r)) else MakeError(Some(TYPE_ERROR))
  }

  /** The `int` division `l / r` is defined: no zero divisor and no INT_MIN / -1. */
  predicate DivisionDefined(l: Value, r: Value)
    requires BothIntegers(l, r)
  {
    Narrow(r) != 0 && !(Narrow(l) == INT_MIN && Narrow(r) == -1)
  }

  /** `value_by_dividing_values`: the quotient truncated toward zero. */
  function Divide(l: Value, r: Value): (v: Value)
    requires BothIntegers(l, r) ==> DivisionDefined(l, r)
    ensures IsInteger(v) <==> BothIntegers(l, r)
    ensures BothIntegers(l, r) ==> v.i == CDiv(Narrow(l), Narrow(r))
    ensures !BothIntegers(l, r) ==> v == Error(TYPE_ERROR)
  {
    if BothIntegers(l, r) then
      CDivRange(Narrow(l), Narrow(r));
      Integer(CDiv(Narrow(l), Narrow(r)))
    else MakeError(Some(TYPE_ERROR))
  }

  /**
   * `value_by_modulasing_values`: the remainder, with the sign of the dividend.
   * Section 6.5.5 of ISO C11 leaves `a % b` undefined whenever `a / b` is, so
   * the precondition is that of Divide.
   */
  function Modulo(l: Value, r: Value): (v: Value)
    requires BothIntegers(l, r) ==> DivisionDefined(l, r)
    ensures IsInteger(v) <==> BothIntegers(l, r)
    ensures BothIntegers(l, r) ==> v.i == CRem(Narrow(l), Narrow(r))
    ensures !BothIntegers(l, r) ==> v == Error(TYPE_ERROR)
  {
    if BothIntegers(l, r) then
      CDivRange(Narrow(l), Narrow(r));
      Integer(CRem(Narrow(l), Narrow(r)))
    else MakeError(Some(TYPE_ERROR))
  }

  /** `value_by_negating_value`: `-x` in `long long`, undefined for its minimum. */
  function Negate(v: Value): (r: Value)
    requires IsInteger(v) ==> v.i != INT64_MIN
    ensures IsInteger(r) <==> IsInteger(v)
    ensures IsInteger(v) ==> r.i + v.i == 0
    ensures !IsInteger(v) ==> r == Error(NEGATION_TYPE_ERROR)
  {
    if IsInteger(v) then Integer(-AsInteger(v).value) else MakeError(Some(NEGATION_TYPE_ERROR))
  }

  /** `value_by_logical_negating_value`: 1 for zero, 0 for anything else. */
  function LogicalNot(v: Value): (r: Value)
    ensures IsInteger(r) <==> IsInteger(v)
    ensures IsInteger(v) ==> (r.i == 1 <==> v.i == 0) && (r.i == 0 <==> v.i != 0)
    ensures !IsInteger(v) ==> r == Error(LOGICAL_NOT_TYPE_ERROR)
  {
    if IsInteger(v) then Integer(if AsInteger(v).value == 0 then 1 else 0)
    else MakeError(Some(LOGICAL_NOT_TYPE_ERROR))
  }

  /** `value_by_bitwise_complementing_value`: `~x` in two's complement `long long`, that is -x-1. */
  function Complement(v: Value): (r: Value)
    ensures IsInteger(r) <==> IsInteger(v)
    ensures IsInteger(v) ==> r.i + v.i == -1
    ensures !IsInteger(v) ==> r == Error(BITWISE_NOT_TYPE_ERROR)
  {
    if IsInteger(v) then
      var x: int := v.i;
      assert INT64_MIN <= x <= INT64_MAX;
      Integer(-x - 1)
    else MakeError(Some(BITWISE_NOT_TYPE_ERROR))
  }

  // ---- Properties relating the operators ----

  /** An operand that is not an Integer, even an Error, makes every binary operator report "Type error.". */
  lemma TypeErrorNotPropagated(l: Value, r: Value)
    requires !BothIntegers(l, r)
    ensures Add(l, r) == Subtract(l, r) == Multiply(l, r) == Error(TYPE_ERROR)
    ensures Divide(l, r) == Modulo(l, r) == Error(TYPE_ERROR)
    ensures IsError(l) && l != Error(TYPE_ERROR) ==> Add(l, r) != l
  {
  }

  /** On `int` payloads, subtracting what was added gives back the left operand. */
  lemma SubtractUndoesAdd(l: Value, r: Value)
    requires BothIntegers(l, r) && InInt32(l.i) && InInt32(r.i)
    requires InInt32(l.i + r.i)
    ensures Subtract(Add(l, r), r) == l
  {
  }

  /**
   * Division and remainder agree as section 6.5.5 of ISO C11 demands:
   * multiplying the quotient back and adding the remainder gives the
   * (narrowed) dividend, and the remainder is smaller than the divisor.
   */
  lemma DivideModuloIdentity(l: Value, r: Value)
    requires BothIntegers(l, r) && DivisionDefined(l, r)
    ensures InInt32(Narrow(Divide(l, r)) * Narrow(r))
         && InInt32(Narrow(Multiply(Divide(l, r), r)) + Narrow(Modulo(l, r)))
         && Add(Multiply(Divide(l, r), r), Modulo(l, r)) == Integer(Narrow(l))
    ensures Abs(Modulo(l, r).i) < Abs(Narrow(r))
  {
    var a, b := Narrow(l), Narrow(r);
    CDivRem(a, b);
    CDivRange(a, b);
    var q, m := CDiv(a, b), CRem(a, b);
    var qb := q * b;
    assert InInt32(qb) && qb + m == a;
    assert Divide(l, r) == Integer(q);
    assert Narrow(Integer(q)) == q;
    assert Multiply(Integer(q), r) == Integer(qb);
    assert Modulo(l, r) == Integer(m);
    assert Narrow(Integer(qb)) == qb && Narrow(Integer(m)) == m;
    assert Add(Integer(qb), Integer(m)) == Integer(a);
  }

  /** Negation is an involution on every Integer but the `long long` minimum. */
  lemma NegateInvolution(v: Value)
    requires IsInteger(v) && v.i != INT64_MIN
    ensures Negate(Negate(v)) == v
  {
  }

  /** Logical NOT applied twice normalises an Integer to 0 or 1. */
  lemma LogicalNotTwice(v: Value)
    requires IsInteger(v)
    ensures LogicalNot(LogicalNot(v)) == Integer(if v.i == 0 then 0 else 1)
  {
  }

  /** Bitwise complement is an involution, and equals negation after subtracting one. */
  lemma ComplementInvolution(v: Value)
    requires IsInteger(v)
    ensures Complement(Complement(v)) == v
    ensures v.i != INT64_MIN ==> Complement(v).i == Negate(v).i - 1
  {
  }
}
