/**
 * The value model of the evaluator (src/core/value.h, src/core/value.c): a
 * closed tagged union of five variants. A C `Value` carries a type tag and a
 * union payload; here the tag is the datatype constructor and `Tag` recovers
 * the C enumerator. Owned string buffers become Dafny strings (values), so a
 * copy can never alias; a NULL `char*` payload is `None`.
 */
module Values {
  import opened Wrappers
  import opened CInt

  /** `ValueType` of value.h */
  datatype ValueType = IntegerType | FloatType | CharacterType | StringType | ErrorType

  /**
   * A Float is kept as the bit pattern of its IEEE-754 binary64 encoding, so
   * that C's `==` on doubles and the conversion to `long long` can be stated
   * exactly without floating-point arithmetic. A String's payload may be NULL.
   */
  datatype Value =
    | Integer(i: Int64)
    | Float(bits: bv64)
    | Character(c: Char8)
    | String(text: Option<string>)
    | Error(message: string)

  /** The result of a checked accessor: its value, or the process exit after the diagnostic. */
  datatype Access<+T> = Ok(value: T) | Fatal(diagnostic: string)

  const UNKNOWN_ERROR: string := "Unknown Error"

  function Tag(v: Value): ValueType
  {
    match v
    case Integer(_) => IntegerType
    case Float(_) => FloatType
    case Character(_) => CharacterType
    case String(_) => StringType
    case Error(_) => ErrorType
  }

  // ---- Type checks (value.c:67-72) ----

  predicate IsInteger(v: Value) { Tag(v) == IntegerType }
  predicate IsFloat(v: Value) { Tag(v) == FloatType }
  predicate IsCharacter(v: Value) { Tag(v) == CharacterType }
  predicate IsString(v: Value) { Tag(v) == StringType }
  predicate IsError(v: Value) { Tag(v) == ErrorType }

  /** How many of the five type checks hold of v. */
  function TypeChecksHolding(v: Value): nat
  {
    (if IsInteger(v) then 1 else 0) + (if IsFloat(v) then 1 else 0) + (if IsCharacter(v) then 1 else 0)
    + (if IsString(v) then 1 else 0) + (if IsError(v) then 1 else 0)
  }

  /** Exactly one `value_is_*` predicate holds of every value. */
  lemma ExactlyOneTypeCheck(v: Value)
    ensures TypeChecksHolding(v) == 1
  {
  }

  // ---- IEEE-754 binary64 encodings ----

  function ExponentField(b: bv64): int { ((b >> 52) & 0x7FF) as int }
  function FractionField(b: bv64): int { (b & 0xF_FFFF_FFFF_FFFF) as int }
  predicate SignBit(b: bv64) { b >> 63 == 1 }

  /** Infinity or NaN: the exponent field is all ones. */
  predicate IsNonFinite(b: bv64) { ExponentField(b) == 0x7FF }
  predicate IsNaN(b: bv64) { IsNonFinite(b) && FractionField(b) != 0 }
  predicate IsZero(b: bv64) { ExponentField(b) == 0 && FractionField(b) == 0 }

  /** C's `==` on two doubles that are not NaN: the same encoding, or two zeros of either sign. */
  predicate SameDouble(x: bv64, y: bv64) { x == y || (IsZero(x) && IsZero(y)) }

  function Pow2(n: nat): (p: nat)
    ensures p >= 1
  {
    if n == 0 then 1 else 2 * Pow2(n - 1)
  }

  /** The significand, with the implicit leading bit of a normal number. */
  function Significand(b: bv64): nat
  {
    if ExponentField(b) == 0 then FractionField(b) else Pow2(52) + FractionField(b)
  }

  /** The power of two by which the significand is scaled (subnormals share the smallest one). */
  function BinaryExponent(b: bv64): int
  {
    (if ExponentField(b) == 0 then 1 else ExponentField(b)) - 1075
  }

  function Scale(k: int): real
  {
    if k >= 0 then Pow2(k) as real else 1.0 / Pow2(-k) as real
  }

  /** The real number a finite encoding stands for. */
  function DoubleValue(b: bv64): real
    requires !IsNonFinite(b)
  {
    SignedValue(SignBit(b), Significand(b), BinaryExponent(b))
  }

  /** The real number (-1)^negative * s * 2^k. */
  function SignedValue(negative: bool, s: nat, k: int): real
  {
    var magnitude := s as real * Scale(k);
    if negative then -magnitude else magnitude
  }

  /**
   * The conversion `(long long)d` before its range check (section 6.3.1.4 of
   * ISO C11): the integer part of a finite double; None for infinities and NaN,
   * whose conversion is undefined.
   */
  function TruncateDouble(b: bv64): Option<int>
  {
    if IsNonFinite(b) then None
    else Some(SignedIntegerPart(SignBit(b), Significand(b), BinaryExponent(b)))
  }

  /** `(long long)d` is defined: d is finite and its integer part fits in `long long`. */
  predicate ConvertibleToInt64(b: bv64)
  {
    TruncateDouble(b).Some? && InInt64(TruncateDouble(b).value)
  }

  lemma RealOfProduct(x: int, y: int)
    ensures (x * y) as real == x as real * y as real
  {
  }

  /** Dividing by a positive integer and discarding the remainder loses less than one. */
  lemma IntegerPartOfQuotient(s: nat, p: nat)
    requires p >= 1
    ensures (s / p) as real <= s as real / p as real < (s / p + 1) as real
  {
    var q, r := s / p, s % p;
    assert s == q * p + r && 0 <= r < p;
    RealOfProduct(q, p);
    var sr, qr, pr, rr := s as real, q as real, p as real, r as real;
    assert sr == qr * pr + rr;
    assert sr / pr == qr + rr / pr;
    assert 0.0 <= rr / pr < 1.0;
  }

  lemma NaturalProductAndQuotient(a: nat, b: nat)
    requires b >= 1
    ensures a * b >= 0 && a / b >= 0
  {
  }

  /** The integer part of a significand scaled by 2^k. */
  function ScaledIntegerPart(s: nat, k: int): nat
  {
    var p := Pow2(if k >= 0 then k else -k);
    NaturalProductAndQuotient(s, p);
    if k >= 0 then s * p else s / p
  }

  lemma ScaledIntegerPartBounds(s: nat, k: int)
    ensures ScaledIntegerPart(s, k) as real <= s as real * Scale(k) < (ScaledIntegerPart(s, k) + 1) as real
  {
    if k >= 0 {
      RealOfProduct(s, Pow2(k));
    } else {
      var p := Pow2(-k);
      IntegerPartOfQuotient(s, p);
      var sr, pr := s as real, p as real;
      assert sr * (1.0 / pr) == sr / pr;
    }
  }

  /** The integer part of (-1)^negative * s * 2^k. */
  function SignedIntegerPart(negative: bool, s: nat, k: int): int
  {
    var magnitude: int := ScaledIntegerPart(s, k);
    if negative then -magnitude else magnitude
  }

  /** Rounding toward zero, stated for a sign, a significand and an exponent. */
  lemma SignedTruncationTowardZero(negative: bool, s: nat, k: int)
    ensures var t, x := SignedIntegerPart(negative, s, k), SignedValue(negative, s, k);
            (x >= 0.0 ==> t as real <= x < (t + 1) as real) && (x <= 0.0 ==> (t - 1) as real < x <= t as real)
  {
    ScaledIntegerPartBounds(s, k);
  }

  /** TruncateDouble discards the fractional part: the result is the real value rounded toward zero. */
  lemma TruncationTowardZero(b: bv64)
    requires !IsNonFinite(b)
    ensures TruncateDouble(b).Some?
    ensures DoubleValue(b) >= 0.0 ==>
      TruncateDouble(b).value as real <= DoubleValue(b) < (TruncateDouble(b).value + 1) as real
    ensures DoubleValue(b) <= 0.0 ==>
      (TruncateDouble(b).value - 1) as real < DoubleValue(b) <= TruncateDouble(b).value as real
  {
    SignedTruncationTowardZero(SignBit(b), Significand(b), BinaryExponent(b));
  }

  // ---- Creation (value.c:7-57) ----

  function MakeInteger(x: Int64): (v: Value)
    ensures IsInteger(v) && AsInteger(v) == Ok(x)
  {
    Integer(x)
  }

  function MakeFloat(b: bv64): (v: Value)
    ensures IsFloat(v) && v.bits == b
  {
    Float(b)
  }

  function MakeCharacter(c: Char8): (v: Value)
    ensures IsCharacter(v) && AsCharacter(v) == Ok(c) && AsInteger(v) == Ok(c)
  {
    Character(c)
  }

  /** `value_create_string`: copies the text; a NULL argument gives a NULL payload. */
  function MakeString(s: Option<string>): (v: Value)
    ensures IsString(v) && AsString(v) == Ok(s)
  {
    String(s)
  }

  /** `value_create_error`: copies the message; a NULL message becomes "Unknown Error". */
  function MakeError(m: Option<string>): (v: Value)
    ensures IsError(v)
    ensures AsErrorMessage(v) == Ok(if m.Some? then m.value else UNKNOWN_ERROR)
    ensures AsString(v) == Ok(Some(AsErrorMessage(v).value))
  {
    Error(if m.Some? then m.value else UNKNOWN_ERROR)
  }

  // ---- Checked access (value.c:76-110) ----

  /**
   * `value_as_integer`: an Integer as it is, a Character widened, a Float
   * truncated toward zero; a String or an Error ends the process.
   */
  function AsInteger(v: Value): (r: Access<Int64>)
    requires IsFloat(v) ==> ConvertibleToInt64(v.bits)
    ensures r.Ok? <==> !(IsString(v) || IsError(v))
    ensures IsInteger(v) ==> r.value == v.i
    ensures IsCharacter(v) ==> r.value == v.c
    ensures IsFloat(v) ==> Some(r.value) == TruncateDouble(v.bits)
  {
    match v
    case Integer(x) => Ok(x)
    case Float(b) => Ok(TruncateDouble(b).value)
    case Character(c) => Ok(c)
    case _ => Access<Int64>.Fatal("Error: Attempted to access non-integer value as integer.")
  }

  /**
   * `value_as_character`: a Character as it is, an Integer converted to `char`
   * (kept modulo 256); any other variant ends the process.
   */
  function AsCharacter(v: Value): (r: Access<Char8>)
    ensures r.Ok? <==> IsCharacter(v) || IsInteger(v)
    ensures IsCharacter(v) ==> r.value == v.c
    ensures IsInteger(v) ==> (v.i - r.value) % 0x100 == 0
  {
    match v
    case Character(c) => Ok(c)
    case Integer(x) => Ok(Wrap8(x))
    case _ => Fatal("Error: Attempted to access non-character value as character.")
  }

  /** `value_as_string`: the text of a String (possibly NULL) or of an Error. */
  function AsString(v: Value): (r: Access<Option<string>>)
    ensures r.Ok? <==> IsString(v) || IsError(v)
    ensures IsString(v) ==> r.value == v.text
    ensures IsError(v) ==> r.value == Some(v.message)
  {
    match v
    case String(t) => Ok(t)
    case Error(m) => Ok(Some(m))
    case _ => Fatal("Error: Attempted to access non-string value as string.")
  }

  /** `value_as_error_message`: only an Error has a message. */
  function AsErrorMessage(v: Value): (r: Access<string>)
    ensures r.Ok? <==> IsError(v)
    ensures IsError(v) ==> r.value == v.message
  {
    match v
    case Error(m) => Ok(m)
    case _ => Fatal("Error: Attempted to access non-error value as error message.")
  }

  /** Widening a character to `long long` and converting back to `char` gives it back. */
  lemma CharacterWidenNarrow(c: Char8)
    ensures AsCharacter(MakeInteger(AsInteger(MakeCharacter(c)).value)) == Ok(c)
  {
  }

  // ---- Copy and equality (value.c:113-138) ----

  /**
   * `value_copy` as written: a String or an Error is re-created with
   * `value_create_string`, so the copy of an Error is tagged String.
   */
  function Copy(v: Value): (r: Value)
    ensures !IsError(v) ==> r == v
    ensures IsError(v) ==> IsString(r) && AsString(r) == AsString(v)
  {
    match v
    case String(t) => MakeString(t)
    case Error(m) => MakeString(Some(m))
    case _ => v
  }

  /** The copy of an Error is a String with the same text, so it is not equal to the original. */
  lemma CopyRetagsError(m: string)
    ensures Copy(Error(m)) == String(Some(m))
    ensures !Equals(Copy(Error(m)), Error(m))
  {
  }

  /** A copy that re-creates each owned payload with the constructor of its own variant. */
  function DeepCopy(v: Value): (r: Value)
    ensures r == v
    ensures Tag(r) == Tag(v)
  {
    match v
    case String(t) => MakeString(t)
    case Error(m) => MakeError(Some(m))
    case _ => v
  }

  /** A deep copy compares equal to its original, unless that original is a NaN. */
  lemma DeepCopyEquals(v: Value)
    requires IsString(v) ==> v.text.Some?
    requires IsFloat(v) ==> !IsNaN(v.bits)
    ensures Equals(DeepCopy(v), v)
  {
  }

  /**
   * `value_equals`: false when the variants differ; otherwise the payloads are
   * compared, with IEEE semantics for doubles and `strcmp` for texts (a NULL
   * text is undefined for `strcmp`, so two Strings must have text).
   */
  function Equals(a: Value, b: Value): (eq: bool)
    requires IsString(a) && IsString(b) ==> a.text.Some? && b.text.Some?
    ensures Tag(a) != Tag(b) ==> !eq
    ensures !IsFloat(a) ==> (eq <==> a == b)
    ensures IsFloat(a) && IsFloat(b) ==> (eq <==> !IsNaN(a.bits) && !IsNaN(b.bits) && SameDouble(a.bits, b.bits))
  {
    if Tag(a) != Tag(b) then false
    else
      match a
      case Integer(x) => x == b.i
      case Float(x) => !IsNaN(x) && !IsNaN(b.bits) && SameDouble(x, b.bits)
      case Character(x) => x == b.c
      case String(x) => x.value == b.text.value
      case Error(x) => x == b.message
  }

  /** Equality is reflexive on every value that is not a NaN. */
  lemma EqualsReflexive(v: Value)
    requires IsString(v) ==> v.text.Some?
    requires IsFloat(v) ==> !IsNaN(v.bits)
    ensures Equals(v, v)
  {
  }

  /** Equality is symmetric. */
  lemma EqualsSymmetric(a: Value, b: Value)
    requires IsString(a) && IsString(b) ==> a.text.Some? && b.text.Some?
    ensures Equals(a, b) == Equals(b, a)
  {
  }

  /** The comparisons of the value unit test; 0x4024000000000000 encodes 10.0. */
  lemma EqualsExamples()
    ensures Equals(Integer(10), Integer(10)) && !Equals(Integer(10), Integer(20))
    ensures !Equals(Integer(10), Float(0x4024_0000_0000_0000))
    ensures Equals(String(Some("test")), String(Some("test")))
    ensures !Equals(String(Some("test")), String(Some("other")))
  {
    assert String(Some("test")) != String(Some("other")) by {
      assert |"test"| != |"other"|;
    }
  }
}
