/**
 * The tree-walking evaluator of src/core/evaluator.c, together with the
 * boundary it calls through, `expresso_tree_accept` of
 * src/parser/parser_wrapper.cpp.
 *
 * The C visitor has callbacks for four rules: the expression wrapper, the
 * additive and the multiplicative expression, and the literal. A visit of any
 * other node is the parser runtime's default, which visits the children in
 * order and combines their results; that combination is runtime code outside
 * this model, so it is a parameter, `fallback`.
 *
 * The evaluator computes in C `int` without checking for overflow, so a walk
 * can reach undefined behaviour; the model says so with the outcome
 * `Undefined` instead of guessing what the compiled program would do.
 */
module Evaluator {
  import opened Wrappers
  import opened CInt
  import opened Values
  import opened ParseTree
  import opened Numerals
  import opened Operations

  // Token types of the operators (Expresso.tokens).
  const OP_ADD: int := 15
  const OP_SUB: int := 16
  const OP_MUL: int := 17
  const OP_DIV: int := 18
  const OP_MOD: int := 19

  const NULL_TREE: string := "Cannot evaluate NULL parse tree."
  const OPERANDS_NOT_INTEGERS: string := "Type error: operands must be integers."
  const UNKNOWN_OPERATOR: string := "Unknown operator."
  const DIVISION_BY_ZERO: string := "Division by zero."
  const INVALID_ACCEPT: string := "Invalid arguments to accept"
  const NOT_A_VALUE: string := "Visitor did not return a Value"

  /**
   * What a visit produces: a Value; no Value at all (the runtime's result for
   * a node no callback turned into a Value); or behaviour C leaves undefined.
   */
  datatype Outcome = Val(value: Value) | NoValue | Undefined

  /**
   * The runtime's visit of a node without a C callback, given the node's kind
   * and the results of visiting its children in order (None where a child
   * gave no Value).
   */
  type Fallback = (Kind, seq<Option<Value>>) -> Option<Value>

  /**
   * The runtime's own default: `visitChildren` of the ANTLR base visitor keeps
   * the result of the last child it visits, and none when there is no child.
   */
  function RuntimeDefault(k: Kind, results: seq<Option<Value>>): Option<Value>
  {
    if results == [] then None else results[|results| - 1]
  }

  /** A fallback that gives back the result of a node's only child. */
  ghost predicate PassesThrough(fallback: Fallback)
  {
    forall k, o :: fallback(k, [o]) == o
  }

  /** The runtime's default passes an only child's result through. */
  lemma RuntimeDefaultPassesThrough()
    ensures PassesThrough(RuntimeDefault)
  {
  }

  /** The four rules the C visitor has a callback for. */
  predicate HasCallback(k: Kind)
  {
    k.Expression? || k.AdditiveExpression? || k.MultiplicativeExpression? || k.Literal?
  }

  /** The Value a visit gives, None when it gives none. */
  function ValueOf(o: Outcome): Option<Value>
  {
    if o.Val? then Some(o.value) else None
  }

  /** `evaluate_expression`: a NULL tree is an Error, any other is accepted from its root. */
  function Evaluate(tree: Option<Tree>, fallback: Fallback): (r: Outcome)
    ensures !r.NoValue?
    ensures tree.None? ==> r == Val(Error(NULL_TREE))
  {
    match tree
    case None => Val(MakeError(Some(NULL_TREE)))
    case Some(t) => Accept(t, fallback)
  }

  /** `expresso_tree_accept` on a node: a visit that gives no Value becomes an Error. */
  function Accept(t: Tree, fallback: Fallback): (r: Outcome)
    ensures !r.NoValue?
    ensures Visit(t, fallback).Val? ==> r == Visit(t, fallback)
    ensures Visit(t, fallback).NoValue? ==> r == Val(Error(NOT_A_VALUE))
    ensures Visit(t, fallback).Undefined? ==> r.Undefined?
    decreases t, 3
  {
    match Visit(t, fallback)
    case NoValue => Val(MakeError(Some(NOT_A_VALUE)))
    case other => other
  }

  /** `expresso_tree_accept(expresso_tree_get_child(t, index), visitor)`: a missing child is an Error. */
  function AcceptChild(t: Tree, index: int, fallback: Fallback): (r: Outcome)
    ensures !r.NoValue?
    ensures Child(t, index).None? ==> r == Val(Error(INVALID_ACCEPT))
    decreases t, 0
  {
    match Child(t, index)
    case None => Val(MakeError(Some(INVALID_ACCEPT)))
    case Some(c) => Accept(c, fallback)
  }

  /**
   * The visit of one node, dispatched on its kind: a node with a callback
   * always gives a Value or is undefined; any other node is undefined exactly
   * when one of its children is, and otherwise gives what the runtime makes of
   * its children's results.
   */
  function Visit(t: Tree, fallback: Fallback): (r: Outcome)
    ensures HasCallback(t.kind) ==> !r.NoValue?
    ensures !HasCallback(t.kind) ==>
      (r.Undefined? <==> exists i :: 0 <= i < |t.children| && Visit(t.children[i], fallback).Undefined?)
    ensures !HasCallback(t.kind) && !r.Undefined? ==>
      ValueOf(r) == fallback(t.kind, seq(|t.children|, i requires 0 <= i < |t.children| => ValueOf(Visit(t.children[i], fallback))))
    decreases t, 2
  {
    match t.kind
    case Expression => VisitExpression(t, fallback)
    case AdditiveExpression => VisitAdditive(t, fallback)
    case MultiplicativeExpression => VisitMultiplicative(t, fallback)
    case Literal => VisitLiteral(t)
    case _ =>
      match VisitChildren(t, |t.children|, fallback)
      case None => Undefined
      case Some(results) =>
        assert results == seq(|t.children|, i requires 0 <= i < |t.children| => ValueOf(Visit(t.children[i], fallback)));
        match fallback(t.kind, results)
        case None => NoValue
        case Some(v) => Val(v)
  }

  /**
   * The results of visiting the first n children in order, None as soon as one
   * of them is undefined.
   */
  function VisitChildren(t: Tree, n: nat, fallback: Fallback): (rs: Option<seq<Option<Value>>>)
    requires n <= |t.children|
    ensures rs.Some? <==> forall i :: 0 <= i < n ==> !Visit(t.children[i], fallback).Undefined?
    ensures rs.Some? ==> |rs.value| == n
    ensures rs.Some? ==> forall i :: 0 <= i < n ==> rs.value[i] == ValueOf(Visit(t.children[i], fallback))
    decreases t, 1, n
  {
    if n == 0 then Some([])
    else
      match VisitChildren(t, n - 1, fallback)
      case None => None
      case Some(prefix) =>
        match Visit(t.children[n - 1], fallback)
        case Undefined => None
        case NoValue => Some(prefix + [None])
        case Val(v) => Some(prefix + [Some(v)])
  }

  /** `visit_expression`: the result of the first child; a node without children is an Error. */
  function VisitExpression(t: Tree, fallback: Fallback): (r: Outcome)
    ensures !r.NoValue?
    ensures ChildCount(t) == 0 ==> r == Val(Error(INVALID_ACCEPT))
    decreases t, 1
  {
    AcceptChild(t, 0, fallback)
  }

  predicate Quoted(text: string) { |text| > 0 && text[0] == '"' }

  /**
   * `visit_literal`: a text that starts with a double quote is a String of the
   * text without its first and last characters (a text of one character makes
   * the copy undefined); any other text is an Integer read by `atoi`.
   */
  function VisitLiteral(t: Tree): (r: Outcome)
    ensures r.Undefined? || r.Val?
    ensures r.Val? ==> (IsString(r.value) <==> Quoted(t.text))
    ensures r.Val? ==> IsString(r.value) || (IsInteger(r.value) && InInt32(r.value.i))
  {
    var text := t.text;
    if Quoted(text) then
      if |text| < 2 then Undefined else Val(MakeString(Some(text[1..|text| - 1])))
    else
      match Atoi(text)
      case None => Undefined
      case Some(n) => Val(MakeInteger(n))
  }

  /**
   * What a binary visitor does with its two evaluated operands before it looks
   * at the operator: Some(result) when the result is already decided, None
   * when both are Integers and the arithmetic is reached.
   */
  function Precheck(left: Outcome, right: Outcome): (r: Option<Outcome>)
    requires !left.NoValue? && !right.NoValue?
    ensures r.None? <==> left.Val? && right.Val? && IsInteger(left.value) && IsInteger(right.value)
  {
    if left.Undefined? || right.Undefined? then Some(Undefined)
    else if IsError(left.value) then Some(left)
    else if IsError(right.value) then Some(right)
    else if !IsInteger(left.value) || !IsInteger(right.value) then Some(Val(MakeError(Some(OPERANDS_NOT_INTEGERS))))
    else None
  }

  /** An `int` result widened to `long long`; undefined when the `int` operation overflowed. */
  function IntResult(x: int): (r: Outcome)
    ensures r.Val? <==> InInt32(x)
    ensures r.Val? ==> r.value == Integer(x)
  {
    if InInt32(x) then Val(MakeInteger(x)) else Undefined
  }

  /**
   * The operator switch of `visit_additive_expression`: an `int` sum or
   * difference, undefined exactly when it overflows, and an Error for any other
   * token.
   */
  function AdditiveArith(op: int, l: Int32, r: Int32): (o: Outcome)
    ensures o.Undefined? <==> (op == OP_ADD && !InInt32(l + r)) || (op == OP_SUB && !InInt32(l - r))
    ensures o.Val? && IsInteger(o.value) ==> (op == OP_ADD || op == OP_SUB) && InInt32(o.value.i)
    ensures op != OP_ADD && op != OP_SUB ==> o == Val(Error(UNKNOWN_OPERATOR))
    ensures !o.NoValue?
  {
    if op == OP_ADD then IntResult(l + r)
    else if op == OP_SUB then IntResult(l - r)
    else Val(MakeError(Some(UNKNOWN_OPERATOR)))
  }

  /**
   * The operator switch of `visit_multiplicative_expression`: a zero divisor
   * is caught first; the product is undefined when it overflows, and the
   * quotient and remainder only for INT_MIN by -1.
   */
  function MultiplicativeArith(op: int, l: Int32, r: Int32): (o: Outcome)
    ensures o == Val(Error(DIVISION_BY_ZERO)) <==> (op == OP_DIV || op == OP_MOD) && r == 0
    ensures o.Undefined? <==>
      || (op == OP_MUL && !InInt32(l * r))
      || ((op == OP_DIV || op == OP_MOD) && l == INT_MIN && r == -1)
    ensures o.Val? && IsInteger(o.value) ==> (op == OP_MUL || op == OP_DIV || op == OP_MOD) && InInt32(o.value.i)
    ensures op != OP_MUL && op != OP_DIV && op != OP_MOD ==> o == Val(Error(UNKNOWN_OPERATOR))
    ensures !o.NoValue?
  {
    if op == OP_MUL then IntResult(l * r)
    else if op == OP_DIV || op == OP_MOD then
      if r == 0 then Val(MakeError(Some(DIVISION_BY_ZERO)))
      else if l == INT_MIN && r == -1 then Undefined
      else
        CDivRange(l, r);
        if op == OP_DIV then IntResult(CDiv(l, r)) else IntResult(CRem(l, r))
    else Val(MakeError(Some(UNKNOWN_OPERATOR)))
  }

  /**
   * `visit_additive_expression`: one child is passed through; otherwise
   * children 0 and 2 are evaluated, both, and combined by the token of child 1.
   */
  function VisitAdditive(t: Tree, fallback: Fallback): (r: Outcome)
    ensures !r.NoValue?
    ensures ChildCount(t) == 0 ==> r == Val(Error(INVALID_ACCEPT))
    ensures ChildCount(t) != 1 && r.Val? && IsInteger(r.value) ==> InInt32(r.value.i)
    decreases t, 1
  {
    if ChildCount(t) == 1 then AcceptChild(t, 0, fallback)
    else
      var op := TerminalType(Child(t, 1));
      var left := AcceptChild(t, 0, fallback);
      var right := AcceptChild(t, 2, fallback);
      match Precheck(left, right)
      case Some(decided) => decided
      case None => AdditiveArith(op, Wrap32(AsInteger(left.value).value), Wrap32(AsInteger(right.value).value))
  }

  /** `visit_multiplicative_expression`, the same shape as VisitAdditive. */
  function VisitMultiplicative(t: Tree, fallback: Fallback): (r: Outcome)
    ensures !r.NoValue?
    ensures ChildCount(t) == 0 ==> r == Val(Error(INVALID_ACCEPT))
    ensures ChildCount(t) != 1 && r.Val? && IsInteger(r.value) ==> InInt32(r.value.i)
    decreases t, 1
  {
    if ChildCount(t) == 1 then AcceptChild(t, 0, fallback)
    else
      var op := TerminalType(Child(t, 1));
      var left := AcceptChild(t, 0, fallback);
      var right := AcceptChild(t, 2, fallback);
      match Precheck(left, right)
      case Some(decided) => decided
      case None => MultiplicativeArith(op, Wrap32(AsInteger(left.value).value), Wrap32(AsInteger(right.value).value))
  }

  // ---- Properties of the walk ----

  /** A node whose visitor combines two operands rather than passing its only child through. */
  predicate IsBinary(t: Tree)
  {
    (t.kind.AdditiveExpression? || t.kind.MultiplicativeExpression?) && ChildCount(t) != 1
  }

  /** The expression wrapper, and an additive or multiplicative node with one child, give their first child's result unchanged. */
  lemma WrapperReturnsChild(t: Tree, f: Fallback)
    requires t.kind.Expression? || ((t.kind.AdditiveExpression? || t.kind.MultiplicativeExpression?) && ChildCount(t) == 1)
    requires ChildCount(t) >= 1
    ensures Visit(t, f) == Accept(t.children[0], f)
  {
    assert AcceptChild(t, 0, f) == Accept(t.children[0], f);
  }

  /** A quoted literal evaluates to the String between the quotes. */
  lemma QuotedLiteral(s: string, f: Fallback)
    ensures Evaluate(Some(Node(Literal, [], "\"" + s + "\"")), f) == Val(String(Some(s)))
  {
    var text := "\"" + s + "\"";
    assert text[1..|text| - 1] == s;
  }

  /** A literal node is visited by its callback alone. */
  lemma AcceptLiteral(t: Tree, f: Fallback)
    requires t.kind.Literal?
    ensures Accept(t, f) == VisitLiteral(t) && Visit(t, f) == VisitLiteral(t)
  {
  }

  /** The digits of a literal are read by `atoi`. */
  lemma DigitsLiteral(t: Tree)
    requires t.kind.Literal? && |t.text| > 0 && AllDigits(t.text)
    ensures VisitLiteral(t) == if DigitsValue(t.text) <= INT_MAX then Val(Integer(DigitsValue(t.text))) else Undefined
  {
    assert IsDigit(t.text[0]);
    AtoiOfDigits(t.text);
  }

  /** A literal of digits, leading zeros included, evaluates to its value, undefined beyond INT_MAX. */
  lemma NumeralLiteral(ds: string, children: seq<Tree>, f: Fallback)
    requires |ds| > 0 && AllDigits(ds)
    ensures Evaluate(Some(Node(Literal, children, ds)), f) ==
      if DigitsValue(ds) <= INT_MAX then Val(Integer(DigitsValue(ds))) else Undefined
  {
    AcceptLiteral(Node(Literal, children, ds), f);
    DigitsLiteral(Node(Literal, children, ds));
  }

  /** A node of a rule without a callback, over one child, gives the child's result when the fallback passes it through. */
  lemma PassThroughNode(k: nat, c: Tree, text: string, f: Fallback)
    requires PassesThrough(f)
    ensures Visit(Node(OtherRule(k), [c], text), f) == Visit(c, f)
    ensures Accept(Node(OtherRule(k), [c], text), f) == Accept(c, f)
  {
    var t := Node(OtherRule(k), [c], text);
    assert t.children[0] == c;
    if !Visit(c, f).Undefined? {
      var rs := VisitChildren(t, 1, f).value;
      assert |rs| == 1 && rs[0] == ValueOf(Visit(c, f));
      assert rs == [ValueOf(Visit(c, f))];
    }
  }

  /**
   * A binary node whose child 1 is missing or is not a token gives "Unknown
   * operator." once its operands are two Integers: the token type read is -1.
   */
  lemma OperatorNotATerminal(t: Tree, f: Fallback)
    requires IsBinary(t)
    requires Child(t, 1).None? || !Child(t, 1).value.kind.Terminal?
    requires AcceptChild(t, 0, f).Val? && AcceptChild(t, 2, f).Val?
    requires BothIntegers(AcceptChild(t, 0, f).value, AcceptChild(t, 2, f).value)
    ensures TerminalType(Child(t, 1)) == -1
    ensures Visit(t, f) == Val(Error(UNKNOWN_OPERATOR))
  {
  }

  /**
   * Both operands of a binary node are evaluated, left then right; an Error
   * from the left operand wins over one from the right, either wins over the
   * operand type check, and that check wins over the operator.
   */
  lemma FirstErrorWins(t: Tree, f: Fallback)
    requires IsBinary(t)
    ensures var left, right := AcceptChild(t, 0, f), AcceptChild(t, 2, f);
      && (left.Undefined? || right.Undefined? ==> Visit(t, f).Undefined?)
      && (left.Val? && right.Val? && IsError(left.value) ==> Visit(t, f) == left)
      && (left.Val? && right.Val? && !IsError(left.value) && IsError(right.value) ==> Visit(t, f) == right)
      && (left.Val? && right.Val? && !IsError(left.value) && !IsError(right.value) && !BothIntegers(left.value, right.value)
          ==> Visit(t, f) == Val(Error(OPERANDS_NOT_INTEGERS)))
  {
  }

  /**
   * An Error a binary node produces is one of its operands' results passed up
   * unchanged, or one of the node's own three messages.
   */
  lemma BinaryErrorOrigin(t: Tree, f: Fallback)
    requires IsBinary(t)
    requires Visit(t, f).Val? && IsError(Visit(t, f).value)
    ensures || Visit(t, f) == AcceptChild(t, 0, f)
            || Visit(t, f) == AcceptChild(t, 2, f)
            || Visit(t, f).value.message == OPERANDS_NOT_INTEGERS
            || Visit(t, f).value.message == UNKNOWN_OPERATOR
            || Visit(t, f).value.message == DIVISION_BY_ZERO
  {
  }

  /**
   * On two Integer operands an additive node computes what the operators of
   * src/core/operations.c compute, wherever the `int` arithmetic is defined.
   */
  lemma AdditiveAgreesWithOperations(t: Tree, f: Fallback)
    requires t.kind.AdditiveExpression? && ChildCount(t) != 1
    requires AcceptChild(t, 0, f).Val? && AcceptChild(t, 2, f).Val?
    requires BothIntegers(AcceptChild(t, 0, f).value, AcceptChild(t, 2, f).value)
    ensures var l, r, op := AcceptChild(t, 0, f).value, AcceptChild(t, 2, f).value, TerminalType(Child(t, 1));
      && (op == OP_ADD ==> Visit(t, f) == if InInt32(Narrow(l) + Narrow(r)) then Val(Add(l, r)) else Undefined)
      && (op == OP_SUB ==> Visit(t, f) == if InInt32(Narrow(l) - Narrow(r)) then Val(Subtract(l, r)) else Undefined)
      && (op != OP_ADD && op != OP_SUB ==> Visit(t, f) == Val(Error(UNKNOWN_OPERATOR)))
  {
  }

  /**
   * The same for a multiplicative node; a zero divisor is reported as an Error
   * where the operators of src/core/operations.c would be undefined.
   */
  lemma MultiplicativeAgreesWithOperations(t: Tree, f: Fallback)
    requires t.kind.MultiplicativeExpression? && ChildCount(t) != 1
    requires AcceptChild(t, 0, f).Val? && AcceptChild(t, 2, f).Val?
    requires BothIntegers(AcceptChild(t, 0, f).value, AcceptChild(t, 2, f).value)
    ensures var l, r, op := AcceptChild(t, 0, f).value, AcceptChild(t, 2, f).value, TerminalType(Child(t, 1));
      && (op == OP_MUL ==> Visit(t, f) == if InInt32(Narrow(l) * Narrow(r)) then Val(Multiply(l, r)) else Undefined)
      && (op == OP_DIV ==>
            Visit(t, f) == if Narrow(r) == 0 then Val(Error(DIVISION_BY_ZERO))
                           else if DivisionDefined(l, r) then Val(Divide(l, r)) else Undefined)
      && (op == OP_MOD ==>
            Visit(t, f) == if Narrow(r) == 0 then Val(Error(DIVISION_BY_ZERO))
                           else if DivisionDefined(l, r) then Val(Modulo(l, r)) else Undefined)
      && (op != OP_MUL && op != OP_DIV && op != OP_MOD ==> Visit(t, f) == Val(Error(UNKNOWN_OPERATOR)))
  {
    var l, r := AcceptChild(t, 0, f).value, AcceptChild(t, 2, f).value;
    if Narrow(r) != 0 {
      CDivRange(Narrow(l), Narrow(r));
    }
  }

  /** A binary node's result depends only on its children 0, 1 and 2. */
  lemma ReadsOnlyFirstThreeChildren(t: Tree, u: Tree, f: Fallback)
    requires IsBinary(t) && IsBinary(u) && t.kind == u.kind
    requires forall i :: 0 <= i < 3 ==> Child(t, i) == Child(u, i)
    ensures Visit(t, f) == Visit(u, f)
  {
    assert Child(t, 0) == Child(u, 0) && Child(t, 1) == Child(u, 1) && Child(t, 2) == Child(u, 2);
    assert AcceptChild(t, 0, f) == AcceptChild(u, 0, f) && AcceptChild(t, 2, f) == AcceptChild(u, 2, f);
    if t.kind.AdditiveExpression? {
      assert Visit(t, f) == VisitAdditive(t, f) && Visit(u, f) == VisitAdditive(u, f);
    } else {
      assert Visit(t, f) == VisitMultiplicative(t, f) && Visit(u, f) == VisitMultiplicative(u, f);
    }
  }

  /**
   * Consequently a flat chain `1 + 2 + 3` under one additive node evaluates
   * only its first operator.
   */
  lemma FlatChainStopsAfterFirstOperator(f: Fallback)
    ensures var one, two, three := Node(Literal, [], "1"), Node(Literal, [], "2"), Node(Literal, [], "3");
      var plus := Node(Terminal(OP_ADD), [], "+");
      Evaluate(Some(Node(AdditiveExpression, [one, plus, two, plus, three], "1+2+3")), f) == Val(Integer(3))
  {
    var one, two, three := Node(Literal, [], "1"), Node(Literal, [], "2"), Node(Literal, [], "3");
    var plus := Node(Terminal(OP_ADD), [], "+");
    var t := Node(AdditiveExpression, [one, plus, two, plus, three], "1+2+3");
    NumeralLiteral("1", [], f);
    NumeralLiteral("2", [], f);
    assert DigitsValue("1") == 1 && DigitsValue("2") == 2;
    assert AcceptChild(t, 0, f) == Val(Integer(1));
    assert AcceptChild(t, 2, f) == Val(Integer(2));
    assert TerminalType(Child(t, 1)) == OP_ADD;
    assert Visit(t, f) == VisitAdditive(t, f);
  }
}
