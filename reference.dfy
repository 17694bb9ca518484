/**
 * A reference semantics for the expressions the evaluator meets, written on
 * an abstract syntax instead of the parse tree and built on the operator
 * functions of src/core/operations.c.
 *
 * The grammar is not part of this model, so the trees an expression may have
 * are described by a relation, `Represents`, rather than by one layout: each
 * binary operator is an additive or multiplicative node whose children are
 * the left operand, the operator token and the right operand, and any operand
 * may sit under a chain of single-child nodes (an expression wrapper, a
 * binary rule with one child, a unary or primary rule without a callback).
 * The main lemma says the tree walk of src/core/evaluator.c computes the
 * reference meaning on every such tree.
 */
module Reference {
  import opened Wrappers
  import opened CInt
  import opened Values
  import opened Operations
  import opened ParseTree
  import opened Numerals
  import opened Evaluator

  datatype BinOp = Plus | Minus | Times | Over | Remainder

  /** An expression: a decimal numeral, a quoted string, or a binary operation. */
  datatype Expr = Num(n: nat) | Str(s: string) | Bin(op: BinOp, left: Expr, right: Expr)

  function Token(op: BinOp): int
  {
    match op
    case Plus => OP_ADD
    case Minus => OP_SUB
    case Times => OP_MUL
    case Over => OP_DIV
    case Remainder => OP_MOD
  }

  function Symbol(op: BinOp): string
  {
    match op
    case Plus => "+"
    case Minus => "-"
    case Times => "*"
    case Over => "/"
    case Remainder => "%"
  }

  /** The source text of an expression. */
  function Source(e: Expr): string
  {
    match e
    case Num(n) => DecimalText(n)
    case Str(s) => "\"" + s + "\""
    case Bin(op, l, r) => Source(l) + Symbol(op) + Source(r)
  }

  function BinaryKind(op: BinOp): Kind
  {
    if op == Plus || op == Minus then AdditiveExpression else MultiplicativeExpression
  }

  /**
   * t is a parse tree of e: a literal whose text is a numeral of n (leading
   * zeros allowed) or the quoted string; a binary node of the operator's rule
   * over the two operands and the operator's token; or a node that hands its
   * first child on: the expression wrapper, whatever follows that child, a
   * binary rule with one child, or a rule without a callback with one child.
   */
  ghost predicate Represents(t: Tree, e: Expr)
  {
    || (t.kind.Expression? && |t.children| >= 1 && Represents(t.children[0], e))
    || ((t.kind.AdditiveExpression? || t.kind.MultiplicativeExpression? || t.kind.OtherRule?)
        && |t.children| == 1 && Represents(t.children[0], e))
    || (match e
        case Num(n) => t.kind.Literal? && |t.text| > 0 && AllDigits(t.text) && DigitsValue(t.text) == n
        case Str(s) => t.kind.Literal? && t.text == "\"" + s + "\""
        case Bin(op, l, r) =>
          && t.kind == BinaryKind(op) && |t.children| == 3
          && Represents(t.children[0], l)
          && TerminalType(Some(t.children[1])) == Token(op)
          && Represents(t.children[2], r))
  }

  /** The tree of an expression with no single-child nodes in it. */
  function ToTree(e: Expr): (t: Tree)
    ensures t.text == Source(e)
  {
    match e
    case Num(_) => Node(Literal, [], Source(e))
    case Str(_) => Node(Literal, [], Source(e))
    case Bin(op, l, r) =>
      Node(BinaryKind(op), [ToTree(l), Node(Terminal(Token(op)), [], Symbol(op)), ToTree(r)], Source(e))
  }

  /** The expression node over the tree of e. */
  function Parse(e: Expr): Tree
  {
    Node(Expression, [ToTree(e)], Source(e))
  }

  /** Parse(e) is one of the trees of e. */
  lemma {:induction false} ParseRepresents(e: Expr)
    ensures Represents(ToTree(e), e)
    ensures Represents(Parse(e), e)
  {
    match e
    case Num(n) =>
      DecimalTextValue(n);
    case Str(_) =>
    case Bin(_, l, r) =>
      ParseRepresents(l);
      ParseRepresents(r);
  }

  /** One operator on two Integers, through the functions of src/core/operations.c. */
  function Apply(op: BinOp, l: Value, r: Value): (o: Outcome)
    requires BothIntegers(l, r)
    ensures o.Val? ==> IsInteger(o.value) || o.value == Error(DIVISION_BY_ZERO)
  {
    match op
    case Plus => if InInt32(Narrow(l) + Narrow(r)) then Val(Add(l, r)) else Undefined
    case Minus => if InInt32(Narrow(l) - Narrow(r)) then Val(Subtract(l, r)) else Undefined
    case Times => if InInt32(Narrow(l) * Narrow(r)) then Val(Multiply(l, r)) else Undefined
    case Over =>
      if Narrow(r) == 0 then Val(Error(DIVISION_BY_ZERO))
      else if DivisionDefined(l, r) then Val(Divide(l, r)) else Undefined
    case Remainder =>
      if Narrow(r) == 0 then Val(Error(DIVISION_BY_ZERO))
      else if DivisionDefined(l, r) then Val(Modulo(l, r)) else Undefined
  }

  /** The meaning of an expression: undefined behaviour first, then the left Error, the right Error, the type check. */
  function Denote(e: Expr): (o: Outcome)
    ensures !o.NoValue?
    ensures e.Str? ==> o == Val(String(Some(e.s)))
    ensures e.Num? ==> (o.Val? <==> e.n <= INT_MAX)
  {
    match e
    case Num(n) => if n <= INT_MAX then Val(Integer(n)) else Undefined
    case Str(s) => Val(String(Some(s)))
    case Bin(op, l, r) =>
      var left, right := Denote(l), Denote(r);
      if left.Undefined? || right.Undefined? then Undefined
      else if IsError(left.value) then left
      else if IsError(right.value) then right
      else if !BothIntegers(left.value, right.value) then Val(Error(OPERANDS_NOT_INTEGERS))
      else Apply(op, left.value, right.value)
  }

  /**
   * The walk of any tree of e computes the meaning of e, provided the runtime
   * passes the result of an only child through, as its default does.
   */
  lemma {:induction false} AcceptAgreesWithDenote(t: Tree, e: Expr, f: Fallback)
    requires Represents(t, e) && PassesThrough(f)
    ensures Visit(t, f) == Denote(e)
    ensures Accept(t, f) == Denote(e)
    decreases t
  {
    if t.kind.Expression? && |t.children| >= 1 && Represents(t.children[0], e) {
      AcceptAgreesWithDenote(t.children[0], e, f);
      assert AcceptChild(t, 0, f) == Accept(t.children[0], f);
    } else if (t.kind.AdditiveExpression? || t.kind.MultiplicativeExpression?)
              && |t.children| == 1 && Represents(t.children[0], e) {
      AcceptAgreesWithDenote(t.children[0], e, f);
      assert AcceptChild(t, 0, f) == Accept(t.children[0], f);
    } else if t.kind.OtherRule? && |t.children| == 1 && Represents(t.children[0], e) {
      AcceptAgreesWithDenote(t.children[0], e, f);
      PassThroughNode(t.kind.ruleIndex, t.children[0], t.text, f);
      assert t == Node(OtherRule(t.kind.ruleIndex), [t.children[0]], t.text);
    } else {
      match e
      case Num(n) =>
        AcceptLiteral(t, f);
        DigitsLiteral(t);
      case Str(s) =>
        AcceptLiteral(t, f);
        assert t.text[1..|t.text| - 1] == s;
      case Bin(op, l, r) =>
        AcceptAgreesWithDenote(t.children[0], l, f);
        AcceptAgreesWithDenote(t.children[2], r, f);
        BinaryAgreesWithApply(t, op, l, r, f);
    }
  }

  /** One binary node whose operands have their reference meaning has the meaning of the operation. */
  lemma BinaryAgreesWithApply(t: Tree, op: BinOp, l: Expr, r: Expr, f: Fallback)
    requires t.kind == BinaryKind(op) && |t.children| == 3
    requires TerminalType(Some(t.children[1])) == Token(op)
    requires Accept(t.children[0], f) == Denote(l) && Accept(t.children[2], f) == Denote(r)
    ensures Visit(t, f) == Denote(Bin(op, l, r))
  {
    assert AcceptChild(t, 0, f) == Denote(l);
    assert AcceptChild(t, 2, f) == Denote(r);
    assert TerminalType(Child(t, 1)) == Token(op);
    FirstErrorWins(t, f);
    var left, right := Denote(l), Denote(r);
    if left.Val? && right.Val? && BothIntegers(left.value, right.value) {
      if op == Plus || op == Minus {
        AdditiveAgreesWithOperations(t, f);
      } else {
        MultiplicativeAgreesWithOperations(t, f);
      }
    }
  }

  /** `evaluate_expression` on any tree of e gives the meaning of e. */
  lemma EvaluateAgreesWithDenote(t: Tree, e: Expr, f: Fallback)
    requires Represents(t, e) && PassesThrough(f)
    ensures Evaluate(Some(t), f) == Denote(e)
  {
    AcceptAgreesWithDenote(t, e, f);
  }

  /** sub occurs in e. */
  predicate SubExpr(sub: Expr, e: Expr)
  {
    sub == e || (e.Bin? && (SubExpr(sub, e.left) || SubExpr(sub, e.right)))
  }

  /**
   * An Error is never operated on: when any part of an expression means an
   * Error and the whole is defined, the whole means an Error.
   */
  lemma {:induction false} ErrorReachesRoot(sub: Expr, e: Expr)
    requires SubExpr(sub, e)
    requires Denote(sub).Val? && IsError(Denote(sub).value)
    requires !Denote(e).Undefined?
    ensures Denote(e).Val? && IsError(Denote(e).value)
  {
    if sub != e {
      if SubExpr(sub, e.left) {
        ErrorReachesRoot(sub, e.left);
      } else {
        ErrorReachesRoot(sub, e.right);
      }
    }
  }

  /** `1+1` evaluates to 2, whatever tree of it the parser builds. */
  lemma OnePlusOne(t: Tree, f: Fallback)
    requires Represents(t, Bin(Plus, Num(1), Num(1))) && PassesThrough(f)
    ensures Evaluate(Some(t), f) == Val(Integer(2))
  {
    EvaluateAgreesWithDenote(t, Bin(Plus, Num(1), Num(1)), f);
  }

  /** `"hello"` evaluates to the String hello. */
  lemma HelloString(t: Tree, f: Fallback)
    requires Represents(t, Str("hello")) && PassesThrough(f)
    ensures Evaluate(Some(t), f) == Val(String(Some("hello")))
  {
    EvaluateAgreesWithDenote(t, Str("hello"), f);
  }

  /** In `1 + 1/0 + 1` the division by zero is the result. */
  lemma DivisionByZeroInChain(t: Tree, f: Fallback)
    requires Represents(t, Bin(Plus, Bin(Plus, Num(1), Bin(Over, Num(1), Num(0))), Num(1))) && PassesThrough(f)
    ensures Evaluate(Some(t), f) == Val(Error(DIVISION_BY_ZERO))
  {
    var quotient := Bin(Over, Num(1), Num(0));
    var e := Bin(Plus, Bin(Plus, Num(1), quotient), Num(1));
    assert Denote(quotient) == Val(Error(DIVISION_BY_ZERO));
    assert Denote(Bin(Plus, Num(1), quotient)) == Val(Error(DIVISION_BY_ZERO));
    assert Denote(e) == Val(Error(DIVISION_BY_ZERO));
    EvaluateAgreesWithDenote(t, e, f);
  }

  /** `2147483647 + 1` overflows `int`, which C leaves undefined. */
  lemma AdditionOverflowIsUndefined(t: Tree, f: Fallback)
    requires Represents(t, Bin(Plus, Num(INT_MAX), Num(1))) && PassesThrough(f)
    ensures Evaluate(Some(t), f) == Undefined
  {
    EvaluateAgreesWithDenote(t, Bin(Plus, Num(INT_MAX), Num(1)), f);
  }
}
