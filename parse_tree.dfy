/**
 * The parse tree the evaluator walks, as the C wrapper over the ANTLR runtime
 * exposes it (src/parser/parser_wrapper.cpp). The tree is produced by the
 * parser, which is not part of this model: a node is its kind, its children
 * in order and the source text it spans.
 */
module ParseTree {
  import opened Wrappers

  /**
   * The node kinds the evaluator can meet. The four rules the C visitor has a
   * callback for are named; every other rule (unary, primary, parenthesised
   * expressions) is an OtherRule, and a token is a Terminal with its type.
   */
  datatype Kind =
    | Expression
    | AdditiveExpression
    | MultiplicativeExpression
    | Literal
    | OtherRule(ruleIndex: nat)
    | Terminal(tokenType: int)

  datatype Tree = Node(kind: Kind, children: seq<Tree>, text: string)

  /** `expresso_tree_get_child`: NULL for an index out of range. */
  function Child(t: Tree, index: int): (c: Option<Tree>)
    ensures c.Some? <==> 0 <= index < |t.children|
    ensures c.Some? ==> c.value == t.children[index]
  {
    if 0 <= index < |t.children| then Some(t.children[index]) else None
  }

  /** `expresso_tree_get_child_count`: the indices `Child` answers are exactly those below the count. */
  function ChildCount(t: Tree): (n: nat)
    ensures forall i :: 0 <= i < n ==> Child(t, i).Some?
    ensures Child(t, n).None? && Child(t, -1).None?
  {
    |t.children|
  }

  /** `expresso_tree_get_terminal_type`: the token type of a terminal, -1 for NULL or a rule node. */
  function TerminalType(t: Option<Tree>): int
  {
    match t
    case Some(Node(Terminal(tokenType), _, _)) => tokenType
    case _ => -1
  }
}
