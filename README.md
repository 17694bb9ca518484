# Expresso evaluation engine in Dafny

Expresso is an interactive evaluator of C-like expressions. This project models its engine, which has four parts:

- **The value model** (`src/core/value.c`). A tagged union of five variants: Integer (`long long`), Float (`double`), Character (`char`), String and Error. It comes with constructors, type checks, checked accessors, copy and equality.
- **The operators** (`src/core/operations.c`). Five binary operators (`+ - * / %`) narrow two Integer operands to `int`. Three unary ones (`-`, `!`, `~`) work in `long long`. Any other operand gives a type Error.
- **The evaluator** (`src/core/evaluator.c`). A post-order walk over the parse tree. It has callbacks for the expression wrapper, the additive and multiplicative expressions and the literal. It does its own `int` arithmetic, with a division-by-zero check.
- **The input history** (`src/core/history.c`). A fixed-capacity ring buffer of trimmed, non-empty, distinct entries. When it is full, the oldest entry is evicted.

The project has these modules:

| file | module | what it holds |
|---|---|---|
| `wrappers.dfy` | `Wrappers` | `Option` |
| `cint.dfy` | `CInt` | C integer widths, the `int`/`char` conversions of GCC and Clang on x86-64, and C's truncating `/` and `%` |
| `values.dfy` | `Values` | the value model |
| `operations.dfy` | `Operations` | the operators |
| `parse_tree.dfy` | `ParseTree` | the parse tree as the C wrapper over the parser runtime exposes it |
| `numerals.dfy` | `Numerals` | `atoi` |
| `evaluator.dfy` | `Evaluator` | the evaluator and the `expresso_tree_accept` boundary |
| `reference.dfy` | `Reference` | a reference meaning of expressions, built on the operators |
| `history.dfy` | `History` | the history, as a class over an array with a ghost list of contents |

The value model, the operators and the evaluator are pure: they are datatypes and functions.

The history is imperative. `History.History` has the C struct's fields: `entries` (an array of nullable strings), `capacity`, `size`, `head` and `tail`. Its methods update them in place. Its three loops (trimming, the duplicate scan, clearing) are `while` loops with invariants.

C's undefined behaviour is stated explicitly, never guessed:

- In `Operations`, the binary operators `+`, `-` and `*` require that their `int` arithmetic does not overflow. `/` and `%` require a non-zero divisor and not `INT_MIN / -1`. Negation requires an operand other than the `long long` minimum. Logical NOT and complement require nothing. The source checks none of these.
- In `Evaluator`, a walk that reaches signed overflow, `INT_MIN / -1`, `INT_MIN % -1`, an `atoi` result outside `int`, or a one-character quoted literal ends in the outcome `Undefined`.

Facts about the code that a reader may not expect:

- **Only children 0, 1 and 2 of a binary node are read.** An additive or multiplicative node with more than one child is combined from exactly those three children (`Evaluator.ReadsOnlyFirstThreeChildren`). So a flat `1 + 2 + 3` node is not folded left to right: its result is 3 (`Evaluator.FlatChainStopsAfterFirstOperator`). Whether the parser builds such nodes depends on the grammar, which is not part of this model, so this is stated as a consequence rather than a finding.
- **Both operands are evaluated before either is checked.** Evaluation does not stop at the first Error: the right operand is still evaluated (and can still reach undefined behaviour) before the left Error is returned.
- **The evaluator does not call the operator functions.** It redoes the arithmetic itself. `Evaluator.AdditiveAgreesWithOperations` and `Evaluator.MultiplicativeAgreesWithOperations` show the two agree wherever both are defined. `Reference.EvaluateAgreesWithDenote` lifts this to whole expressions.
- **`tail` is not the newest entry.** The comment on `tail` in `src/core/history.h:11` calls it the index of the newest entry. The code uses it as the slot after the newest (`History.History.TailFollowsNewest`).

## Model

| member | source | states |
|---|---|---|
| CInt.Wrap32 | src/core/operations.c:64-65 | converting `long long` to `int` keeps the value modulo 2^32 and leaves every `int` value unchanged |
| CInt.Wrap8 | src/core/value.c:96 | converting to signed `char` keeps the value modulo 256 and leaves every `char` value unchanged |
| CInt.CDivRem | src/core/operations.c:109-141 | C's truncating `/` and `%` satisfy `(a/b)*b + a%b == a`; the remainder is smaller than the divisor in magnitude and has the sign of the dividend |
| CInt.CDivRange | src/core/operations.c:109-141 | on `int` operands the quotient fits in `int` exactly when the operation is not `INT_MIN / -1`; the remainder always fits |
| Values.ExactlyOneTypeCheck | src/core/value.c:68-72 | exactly one of the five `value_is_*` checks holds of every value |
| Values.MakeInteger | src/core/value.c:8-13 | the value is an Integer, and `value_as_integer` gives back the payload |
| Values.MakeFloat | src/core/value.c:15-20 | the value is a Float with the given encoding |
| Values.MakeCharacter | src/core/value.c:22-27 | the value is a Character; `value_as_character` gives it back and `value_as_integer` widens it |
| Values.MakeString | src/core/value.c:29-43 | the value is a String whose text, NULL included, is what `value_as_string` gives back |
| Values.MakeError | src/core/value.c:45-57 | the value is an Error whose message is the argument, or "Unknown Error" for NULL; `value_as_string` gives the same text |
| Values.AsInteger | src/core/value.c:77-84 | succeeds exactly on Integer, Float and Character: an Integer unchanged, a Character widened, a Float truncated; String and Error end the process |
| Values.TruncationTowardZero | src/core/value.c:79 | the Float conversion is the real value of the encoding rounded toward zero |
| Values.AsCharacter | src/core/value.c:94-99 | succeeds exactly on Character and Integer; an Integer is kept modulo 256 |
| Values.CharacterWidenNarrow | src/core/value.c:77-99 | widening a `char` to `long long` and converting back gives the same `char` |
| Values.AsString | src/core/value.c:101-105 | succeeds exactly on String and Error; it gives the String's text or the Error's message |
| Values.AsErrorMessage | src/core/value.c:107-111 | succeeds exactly on Error, with its message |
| Values.Copy | src/core/value.c:114-119 | a copy leaves every non-Error value unchanged; an Error's copy is a String with the same text |
| Values.CopyRetagsError | src/core/value.c:114-119 | the copy of an Error is tagged String, so it is not equal to the original |
| Values.DeepCopy | src/core/value.c:114-119 | the corrected copy equals its original and keeps its variant |
| Values.DeepCopyEquals | src/core/value.c:114-136 | the corrected copy compares equal to its original under `value_equals`, NaN excepted |
| Values.Equals | src/core/value.c:121-139 | false when the variants differ; otherwise exact payload equality, except that doubles compare by IEEE rules (NaN unequal to itself, +0 equal to -0) |
| Values.EqualsReflexive | src/core/value.c:128-136 | every value that is not a NaN equals itself |
| Values.EqualsSymmetric | src/core/value.c:121-136 | equality does not depend on the order of the operands |
| Values.EqualsExamples | tests/unit/core/test_value.c:51-64 | 10 equals 10 and not 20; Integer 10 does not equal Float 10.0; "test" equals "test" and not "other" |
| Operations.Narrow | src/core/operations.c:64-65 | an Integer operand is narrowed to `int` modulo 2^32 |
| Operations.Add | src/core/operations.c:58-73 | two Integers give the Integer sum of their narrowed payloads; any other pair gives Error "Type error." |
| Operations.Subtract | src/core/operations.c:75-90 | the same for the difference |
| Operations.Multiply | src/core/operations.c:92-107 | the same for the product |
| Operations.Divide | src/core/operations.c:109-124 | the same for the quotient truncated toward zero, given a non-zero divisor that is not `INT_MIN / -1` |
| Operations.Modulo | src/core/operations.c:126-141 | the same for the remainder with the sign of the dividend, under the same condition |
| Operations.Negate | src/core/operations.c:143-152 | an Integer gives its negation in `long long`; anything else gives "Type error for negation." |
| Operations.LogicalNot | src/core/operations.c:154-163 | an Integer gives 1 exactly when it is 0, and 0 otherwise; anything else gives "Type error for logical NOT." |
| Operations.Complement | src/core/operations.c:165-174 | an Integer x gives -x-1, which is `~x` in two's complement; anything else gives "Type error for bitwise NOT." |
| Operations.TypeErrorNotPropagated | src/core/operations.c:68-71 | a non-Integer operand makes every binary operator give "Type error."; an incoming Error's message is lost |
| Operations.SubtractUndoesAdd | src/core/operations.c:58-90 | subtracting r after adding r gives back an `int` operand |
| Operations.DivideModuloIdentity | src/core/operations.c:109-141 | `Add(Multiply(Divide(l, r), r), Modulo(l, r))` is the narrowed l; the remainder is smaller than the divisor |
| Operations.NegateInvolution | src/core/operations.c:143-152 | negating twice gives back every Integer except the `long long` minimum |
| Operations.LogicalNotTwice | src/core/operations.c:154-163 | logical NOT twice maps an Integer to 0 or 1 by whether it is non-zero |
| Operations.ComplementInvolution | src/core/operations.c:165-174 | complement is an involution and equals negation minus one |
| ParseTree.Child | src/parser/parser_wrapper.cpp:73-79 | a child exists exactly for an index from 0 to below the number of children, and it is that child |
| ParseTree.ChildCount | src/parser/parser_wrapper.cpp:68-71 | the count is the bound of the indices `expresso_tree_get_child` answers: every index below it gives a child, the count itself and -1 give NULL |
| Numerals.Atoi | src/core/evaluator.c:55 | `atoi` is defined exactly when the value it reads fits in `int`, and then it gives that value |
| Numerals.DecimalTextValue | src/core/evaluator.c:55 | reading back the decimal numeral of n gives n |
| Numerals.AtoiOfDigits | src/core/evaluator.c:55 | `atoi` of any non-empty digit string, leading zeros included, is its value up to INT_MAX and undefined beyond |
| Evaluator.Evaluate | src/core/evaluator.c:21-35 | a NULL tree gives Error "Cannot evaluate NULL parse tree."; evaluation never ends without a Value |
| Evaluator.Accept | src/parser/parser_wrapper.cpp:134-144 | a visit that gives a Value is returned as it is; a visit that gives none becomes Error "Visitor did not return a Value"; undefined behaviour stays undefined |
| Evaluator.AcceptChild | src/parser/parser_wrapper.cpp:134-137 | accepting a missing child gives Error "Invalid arguments to accept" |
| Evaluator.Visit | src/parser/parser_wrapper.cpp:98-128 | a node of the four rules with a callback always gives a Value or is undefined; any other node is undefined exactly when one of its children is, and otherwise gives what the runtime makes of its children's results in order |
| Evaluator.VisitChildren | src/parser/parser_wrapper.cpp:103 | the children are visited in order: the result exists exactly when no child is undefined, and entry i is child i's Value, or none |
| Evaluator.RuntimeDefaultPassesThrough | src/parser/parser_wrapper.cpp:94 | the base visitor's default, which keeps the last child's result, hands an only child's result on |
| Evaluator.PassThroughNode | src/parser/parser_wrapper.cpp:94-132 | a node of a rule without a callback over one child gives that child's result, when the runtime passes an only child through |
| Evaluator.VisitExpression | src/core/evaluator.c:37-42 | the wrapper always gives a Value or is undefined; without a child it gives "Invalid arguments to accept" |
| Evaluator.VisitLiteral | src/core/evaluator.c:44-57 | a literal gives a String exactly when its text starts with a double quote; otherwise it gives an `int` Integer or is undefined |
| Evaluator.Precheck | src/core/evaluator.c:72-80 | the arithmetic is reached exactly when both operands are Integers |
| Evaluator.IntResult | src/core/evaluator.c:86-92 | an `int` result is defined exactly when it fits in `int` |
| Evaluator.AdditiveArith | src/core/evaluator.c:86-95 | undefined exactly when `+` or `-` overflows `int`; an Integer result fits in `int`; any other token gives "Unknown operator." |
| Evaluator.MultiplicativeArith | src/core/evaluator.c:133-153 | "Division by zero." exactly for `/` or `%` by 0; undefined exactly when `*` overflows or for `INT_MIN / -1` and `INT_MIN % -1`; an Integer result fits in `int`; any other token gives "Unknown operator." |
| Evaluator.VisitAdditive | src/core/evaluator.c:59-104 | always a Value or undefined; a node without children gives "Invalid arguments to accept"; an Integer from two operands fits in `int` |
| Evaluator.VisitMultiplicative | src/core/evaluator.c:106-162 | the same for the multiplicative node |
| Evaluator.WrapperReturnsChild | src/core/evaluator.c:37-42 | the expression wrapper, and an additive or multiplicative node with one child (60-65, 107-112), give their child's result unchanged |
| Evaluator.QuotedLiteral | src/core/evaluator.c:46-53 | a literal in double quotes gives the String between them |
| Evaluator.AcceptLiteral | src/parser/parser_wrapper.cpp:122-128 | a literal node is visited by `visit_literal` alone, whatever its children |
| Evaluator.DigitsLiteral | src/core/evaluator.c:54-56 | a literal whose text is digits is read by `atoi`: its value up to INT_MAX, undefined beyond |
| Evaluator.NumeralLiteral | src/core/evaluator.c:55 | a literal of digits, leading zeros included, gives its Integer value, and is undefined beyond INT_MAX |
| Evaluator.OperatorNotATerminal | src/parser/parser_wrapper.cpp:81-87 | when child 1 of a binary node is missing or is not a token, its type reads as -1 and two Integer operands give "Unknown operator." |
| Evaluator.FirstErrorWins | src/core/evaluator.c:72-80 | both operands are evaluated; a left Error wins over a right one; either wins over the type check, which gives "Type error: operands must be integers." |
| Evaluator.BinaryErrorOrigin | src/core/evaluator.c:72-95 | an Error from a binary node is an operand's result passed up unchanged, or one of the node's three messages |
| Evaluator.AdditiveAgreesWithOperations | src/core/evaluator.c:82-95 | on Integers, `+` and `-` compute what `value_by_adding_values` and `value_by_subtracting_values` compute; overflow is undefined; another token gives "Unknown operator." |
| Evaluator.MultiplicativeAgreesWithOperations | src/core/evaluator.c:129-153 | on Integers, `*`, `/` and `%` agree with operations.c; a narrowed zero divisor gives "Division by zero."; overflow is undefined; another token gives "Unknown operator." |
| Evaluator.ReadsOnlyFirstThreeChildren | src/core/evaluator.c:67-70 | two binary nodes of one kind with the same children 0, 1 and 2 evaluate alike |
| Evaluator.FlatChainStopsAfterFirstOperator | src/core/evaluator.c:67-95 | one additive node with children `1 + 2 + 3` evaluates to 3 |
| Reference.Apply | src/core/operations.c:58-141 | one operator on Integers through operations.c gives an Integer or the division-by-zero Error |
| Reference.Denote | src/core/evaluator.c:59-162 | the reference meaning always has an outcome: a String for a quoted text, and a numeral defined exactly up to INT_MAX |
| Reference.ParseRepresents | src/core/evaluator.c:59-70 | every expression has a tree: its operators as three-child binary nodes, its operands as literals |
| Reference.AcceptAgreesWithDenote | src/core/evaluator.c:37-162 | walking any tree of any expression, single-child nodes included, gives its reference meaning |
| Reference.BinaryAgreesWithApply | src/core/evaluator.c:67-95 | a binary node whose operands evaluate to their reference meanings evaluates to the meaning of the operation |
| Reference.EvaluateAgreesWithDenote | src/core/evaluator.c:21-35 | `evaluate_expression` on any tree of any expression gives its reference meaning |
| Reference.ErrorReachesRoot | src/core/evaluator.c:75-76 | when a part of an expression means an Error and the whole is defined, the whole means an Error |
| Reference.OnePlusOne | tests/unit/core/test_evaluator.c:8-21 | `1+1` evaluates to Integer 2 on every tree of it |
| Reference.HelloString | tests/unit/core/test_evaluator.c:23-36 | `"hello"` evaluates to the String hello on every tree of it |
| Reference.DivisionByZeroInChain | src/core/evaluator.c:137-143 | `1 + 1/0 + 1` evaluates to "Division by zero." on every tree of it |
| Reference.AdditionOverflowIsUndefined | src/core/evaluator.c:88 | `2147483647 + 1` overflows `int` on every tree of it, which is undefined |
| History.TrimmedEnd | src/core/history.c:56-59 | the result is a prefix that does not end in white space, and everything removed was white space |
| History.StripTrailingWhitespace | src/core/history.c:56-59 | the trimming loop computes TrimmedEnd |
| History.TrimmedEndIdempotent | src/core/history.c:56-59 | trimming twice is trimming once |
| History.TrimmedEndIgnoresTrailingSpace | src/core/history.c:56-59 | appending space, tab, LF or CR does not change the trimmed text |
| History.Added | src/core/history.c:47-88 | the contents after an add never exceed the capacity |
| History.AddedOutcome | src/core/history.c:62-87 | an entry that trims to nothing, or to a held entry, changes nothing; otherwise the trimmed entry becomes the newest, and a full buffer drops its oldest |
| History.AddedAdmissible | src/core/history.c:56-80 | adding keeps the entries non-empty, trimmed and pairwise distinct |
| History.AppendAdmissible | src/core/history.c:68-80 | appending a trimmed, non-empty entry not yet held keeps the entries distinct |
| History.AddedIdempotent | src/core/history.c:68-73 | adding the same entry twice is adding it once |
| History.AddedIgnoresTrailingSpace | src/core/history.c:56-73 | entries that differ only by trailing white space are added alike |
| History.AddedFresh | src/core/history.c:76-87 | a new, already trimmed entry added to a buffer with room is appended |
| History.RotatedSlots | src/core/history.c:80-87 | overwriting the oldest slot of a full ring and moving head on lays out the entries after the oldest, then the new one |
| History.Create | src/core/history.c:6-35 | capacity 0 gives NULL; any other capacity gives an empty, valid history of that capacity |
| History.History.constructor | src/core/history.c:18-32 | every slot is NULL; size, head and tail are 0; nothing is held |
| History.History.Get | src/core/history.c:90-95 | index i gives the i-th oldest entry, and NULL from `size` on |
| History.History.Size | src/core/history.c:97-99 | the number of entries held |
| History.History.Add | src/core/history.c:47-88 | the contents become `Added` of the old contents; the ring invariant (`tail == (head + size) % capacity`, entries distinct and trimmed) is kept; nothing changes when the contents do not |
| History.History.WriteAtEnd | src/core/history.c:80-87 | with room, the entry is stored after the newest |
| History.History.Overwrite | src/core/history.c:76-87 | when full, the oldest entry is replaced and head moves on |
| History.History.Clear | src/core/history.c:101-111 | every slot NULL; size, head and tail 0; the invariant kept; capacity unchanged |
| History.History.TailFollowsNewest | src/core/history.c:80-87 | the slot before `tail` holds the newest entry |
| History.AddAndRecall | tests/unit/core/test_history.c:6-17 | three different entries in a buffer of three are recalled oldest first |
| History.CircularOverwrite | tests/unit/core/test_history.c:19-29 | with capacity 2, adding a, b, c leaves [b, c] |
| History.ClearEmpties | tests/unit/core/test_history.c:31-41 | after a clear, the size is 0 and index 0 gives NULL |
| History.TrimmedDuplicateIgnored | src/core/history.c:56-73 | an entry plus trailing white space is not stored again, and white space alone is not stored |

## Left out

- Memory management is not modelled: `strdup` and `malloc` failures that exit, `value_destroy`, `history_destroy`, and the values leaked on the evaluator's early returns. Dafny strings are values, so the pointer-distinctness of a copied String cannot be stated.
- `value_print` is left out because it only writes to the standard streams.
- `value_as_float` is left out because it needs floating-point arithmetic. Floats are kept as their bit encoding: equality and truncation to `long long` are exact, and arithmetic is absent.
- A NULL `History*` handle is not modelled: a `History` object always exists. The NULL checks of `history_add`, `history_get` and `history_clear` are therefore absent. A NULL entry is modelled as `None`.
- An `ExpressoParseTree` whose node is NULL is not modelled.
- The parser, the grammar, the lexer and the rest of the parser runtime are not part of this model. A tree is an abstract datatype.
- A node kind without a C callback is combined by the runtime's default visit of its children. That combination is the parameter `Fallback`.
- Unary, primary and parenthesised expressions have no C callback and are not modelled beyond `Fallback`. A single-child node of such a rule is modelled as passing its child's result through (`Evaluator.PassThroughNode`), which holds of the runtime's default.
- Reference.AcceptAgreesWithDenote: the grammar is not part of this model, so the trees of an expression are those `Reference.Represents` describes (three-child binary nodes, literals, and chains of single-child nodes above any operand). The parser's trees are assumed to be among them, and the same assumption holds for Reference.OnePlusOne, Reference.HelloString, Reference.DivisionByZeroInChain and Reference.AdditionOverflowIsUndefined. Parenthesised expressions are not among them.
- Texts are Dafny strings of Unicode characters, not the NUL-terminated byte strings of C. So `Evaluator.VisitLiteral` strips one character where C strips one byte, and `Values.Equals` compares whole sequences where `strcmp` stops at a NUL. No reachable input tells the two apart: a string literal ends in `"`, and a C string holds no NUL. `History` requires NUL-free entries (`History.IsCString`).
- The command-line interface and the read-eval-print loop (`src/cli/`) are left out: terminal I/O and global parser state.
- Values.Equals: a String with a NULL text is excluded by precondition, because `strcmp` on NULL is undefined.
- History.History.Add: an entry must not contain NUL. A C string cannot, and `strcmp` would stop there.
- Operations.Add: overflow of the `int` arithmetic is a precondition rather than wrap-around, because signed overflow is undefined in C. The same applies to Operations.Subtract, Operations.Multiply, Operations.Divide, Operations.Modulo and Operations.Negate. The evaluator instead reports these cases as `Undefined`.
- History.AddAndRecall: proved for any three different storable entries rather than for the test's literal strings, which the test's strings are an instance of. The same holds for History.CircularOverwrite, History.ClearEmpties and History.TrimmedDuplicateIgnored.

## Findings

| source | as written | input that shows it | evidently intended | confidence | as-written member | corrected member |
|---|---|---|---|---|---|---|
| src/core/value.c:114-119 | `value_copy` re-creates an Error with `value_create_string`, so the copy is tagged String | `value_copy(value_create_error("boom"))` is a String, and `value_equals` of it with the original is false | the copy keeps the Error variant and equals its original | high (not executed) | Values.CopyRetagsError | Values.DeepCopyEquals |
