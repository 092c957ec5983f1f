# A verified model of the Custom_Language_Interpreter pipeline

This project models the core of the small Rust interpreter in
`custom_interpreter/src`. It has three stages:

- **Lexer** (`lexer.rs`). A cursor `pos` walks the input. Each call of
  `next_token` skips whitespace and returns one `Token`: one of the keywords
  `assume` and `eq`, one of the operators `+ - * /`, a decimal `Number`, an
  `Identifier`, `EndOfFile`, or `Invalid`.
- **Parser** (`parser.rs`). A recursive-descent parser with one token of
  lookahead (`current_token`). It recognises
  `assume <identifier> eq <expr>`, or an `<expr>`. An `<expr>` is a chain of
  numbers and identifiers joined by `+` and `-`, folded to the left.
- **Interpreter** (`interpreter.rs`). It walks the `Expr` tree to an
  `Option<i64>`. On an assignment it updates the `variables` map.

Each stage is written twice in Dafny:

- A **specification function** over values:
  - `Lexer.Scan` and `Lexer.Tokens` for the lexer;
  - `Parser.FactorAt`, `Parser.ExpressionTail`, `Parser.ExpressionAt` and
    `Parser.AssignmentAt` for the parser;
  - `Interpreter.Eval` for the interpreter.
- A **class** in the imperative form of the Rust code:
  - `Lexer.Lexer`, with its mutable `pos` and its `while` loops;
  - `Parser.Parser`, with its mutable `current` token, its owned lexer and the
    `while` loop of `expr`;
  - `Interpreter.Interpreter`, with its mutable `variables` map.

Every method is proved to agree with its specification function. The
properties of the code are proved as lemmas about those functions.

The module `Pipeline` composes the three stages' specification functions on
whole inputs. Its lemmas
pin down concrete inputs such as `assumer`, `1 + 2 * 3`, `9 - 3 - 2` and
`(2 + 3) * 4`.

Files:

- `wrappers.dfy`: the `Option` type.
- `lexer.dfy`: the lexer.
- `parser.dfy`: the parser.
- `interpreter.dfy`: the evaluator.
- `pipeline.dfy`: the whole-input examples.

The code has none of the following, which a calculator grammar usually has,
and the model follows the code:

- There are no parenthesis tokens. `(` is `Invalid`.
- There is no `*`/`/` precedence level. `expr` loops only on `+` and `-`, so
  `*` and `/` are scanned but end the expression.
- Keywords are matched as a prefix, with no word-boundary check.
- There is no parse-time check for a division by the literal zero. `4 / 0`
  parses as `4`.
- There are no distinct error kinds. Every failure is a bare `None`.
- Trailing tokens after a complete expression are ignored.

After `Invalid` the cursor does not move past the offending character. It
does, however, stay past the whitespace that `skip_whitespace` consumed
before it (`Lexer.ScanInvalid`).

## Model

| member | source | states |
|---|---|---|
| Lexer.RunEnd | custom_interpreter/src/lexer.rs:68-72 | the end of a character-class run is within the input, every character before it is in the class, and the one at it (if any) is not |
| Lexer.RunEndIsMaximalRun | custom_interpreter/src/lexer.rs:93-95 | those two facts determine the run end uniquely, so a scanning loop stops exactly there |
| Lexer.DecimalRoundTrip | custom_interpreter/src/lexer.rs:96-97 | parsing the decimal rendering of any natural number gives the number back |
| Lexer.Scan | custom_interpreter/src/lexer.rs:25-66 | one `next_token` call never moves the cursor backwards or past the end, and every token other than `EndOfFile` and `Invalid` consumes at least one character |
| Lexer.Tokens | custom_interpreter/src/lexer.rs:25-66 | the stream of successive `next_token` results ends at its first `EndOfFile` or `Invalid`, and only there |
| Lexer.EndOfFileIffOnlyWhitespace | custom_interpreter/src/lexer.rs:26-30 | the token is `EndOfFile` exactly when only whitespace remains, and the cursor is then at the end of the input |
| Lexer.EndOfFileIsSticky | custom_interpreter/src/lexer.rs:28-30 | after `EndOfFile`, the next call returns `EndOfFile` again with the cursor at the end |
| Lexer.ScanOperator | custom_interpreter/src/lexer.rs:46-61 | `+ - * /` give `Add Sub Mul Div` and advance the cursor by exactly one character |
| Lexer.ScanNumber | custom_interpreter/src/lexer.rs:91-98 | on a digit the token is `Number(v)`: the maximal digit run is consumed, it stops at a non-digit, and `v` is the run's decimal value |
| Lexer.ScanDigitString | custom_interpreter/src/lexer.rs:91-98 | an input made only of digits scans as one number token followed by `EndOfFile` |
| Lexer.ScanDecimal | custom_interpreter/src/lexer.rs:91-98 | scanning the decimal rendering of `n` gives `[Number(n), EndOfFile]` |
| Lexer.ScanKeyword | custom_interpreter/src/lexer.rs:34-45 | if the text at the token start begins with `assume` or `eq`, the token is the keyword and the cursor moves by its length, whatever follows it |
| Lexer.ScanInvalid | custom_interpreter/src/lexer.rs:34-64 | `Invalid` exactly for an `a` not starting `assume`, an `e` not starting `eq`, or an unlisted character; the cursor stays at that character, and the next call returns `Invalid` again |
| Lexer.ScanIdentifier | custom_interpreter/src/lexer.rs:100-107 | a letter other than `a`/`e` starts an identifier: the maximal run of letters, digits and `_`, returned as exactly that substring |
| Lexer.Lexer.constructor | custom_interpreter/src/lexer.rs:21-23 | a new lexer is over the given input with the cursor at 0 |
| Lexer.Lexer.NextToken | custom_interpreter/src/lexer.rs:25-66 | the token returned and the new cursor are those of `Scan`, provided a number token fits `i64` |
| Lexer.Lexer.SkipWhitespace | custom_interpreter/src/lexer.rs:68-72 | the cursor moves to the end of the whitespace run: never backwards, and then at the end of the input or at a non-whitespace character |
| Lexer.Lexer.CurrentChar | custom_interpreter/src/lexer.rs:74-76 | the character under the cursor, a single ASCII byte, which `advance` relies on to step one character |
| Lexer.Lexer.Advance | custom_interpreter/src/lexer.rs:78-80 | the cursor moves forward by one (ASCII) character |
| Lexer.Lexer.Matches | custom_interpreter/src/lexer.rs:82-89 | true exactly when the rest of the input starts with the keyword; then the cursor moves past it, otherwise it stays |
| Lexer.Lexer.Number | custom_interpreter/src/lexer.rs:91-98 | consumes the maximal digit run and returns `Number` of its decimal value |
| Lexer.Lexer.Identifier | custom_interpreter/src/lexer.rs:100-107 | consumes the maximal run of letters, digits and `_`, and returns `Identifier` of exactly that text |
| Parser.OpFromToken | custom_interpreter/src/parser.rs:81-89 | the operator returned is the one the token spells (a round trip with `TokenOf`), defined on operator tokens only |
| Parser.FactorAt | custom_interpreter/src/parser.rs:66-79 | `factor` consumes one token when it succeeds and none when it fails |
| Parser.FactorCases | custom_interpreter/src/parser.rs:66-79 | `Number(v)` becomes `Expr::Number(v)` and `Identifier(s)` becomes `Variable(s)`, each consuming one token; any other token gives `None` and consumes nothing |
| Parser.ExpressionTail | custom_interpreter/src/parser.rs:56-61 | the loop of `expr` never moves the lookahead backwards |
| Parser.ExpressionTailStep | custom_interpreter/src/parser.rs:56-61 | one turn of the loop: a failing operand after `+`/`-` fails the loop, otherwise it is folded into `left` with that operator |
| Parser.ExpressionAt | custom_interpreter/src/parser.rs:53-64 | `expr` never moves the lookahead backwards |
| Parser.AssignmentAt | custom_interpreter/src/parser.rs:38-51 | `assignment` never moves the lookahead backwards |
| Parser.ChainFolds | custom_interpreter/src/parser.rs:56-61 | after the first `k` operators of a `+`/`-` chain, the loop holds the left-nested tree of the first `k + 1` operands and ends with the tree of the whole chain |
| Parser.ExpressionTailShift | custom_interpreter/src/parser.rs:56-63 | tokens in front of the stream do not change what the `+`/`-` loop of `expr` returns or how many tokens it consumes |
| Parser.ExpressionShift | custom_interpreter/src/parser.rs:53-64 | `expr` parses the same wherever in the stream it is called, in particular after `assume`, `assume x` or `assume x eq` |
| Parser.ExpressionIsLeftAssociative | custom_interpreter/src/parser.rs:53-64 | on `f0 op1 f1 ... opn fn` followed by any token other than `+`/`-`, wherever the chain starts, `expr` returns `((f0 op1 f1) op2 f2) ...` and leaves that token unconsumed as the lookahead; at the start of the input `parse` returns the same |
| Parser.DanglingOperatorFails | custom_interpreter/src/parser.rs:59 | a `+` or `-` not followed by a number or identifier makes `expr` `None` wherever the chain starts, and the whole parse `None` at the start of the input |
| Parser.AssignedChain | custom_interpreter/src/parser.rs:38-46 | `assume x eq` followed by a chain parses as the assignment of the left-nested chain to `x` |
| Parser.AssignedDanglingFails | custom_interpreter/src/parser.rs:43-45 | `assume x eq` followed by a chain with a dangling `+` or `-` does not parse |
| Parser.TailKeepsShape | custom_interpreter/src/parser.rs:56-61 | the loop builds only `Add`/`Sub` nodes and no assignment |
| Parser.ExpressionShape | custom_interpreter/src/parser.rs:53-64 | every tree `expr` returns has only `Add`/`Sub` operators and no assignment |
| Parser.ParseTreeShape | custom_interpreter/src/parser.rs:56-60 | every tree `parse` returns has only `Add`/`Sub` operators and an assignment at most at the root, so the `Mul`, `Div` and panic arms of `op_from_token` are never reached |
| Parser.AssignmentIffPrefix | custom_interpreter/src/parser.rs:39-46 | `parse` gives `Assign(x, rhs)` exactly when the tokens start with `assume x eq` and `expr` then gives `rhs` |
| Parser.BrokenAssumeFallsThrough | custom_interpreter/src/parser.rs:38-50 | after `assume`, a missing identifier or a missing `eq` is not undone: `expr` parses from the current lookahead |
| Parser.AssignmentFailsWithRhs | custom_interpreter/src/parser.rs:43-46 | a complete `assume x eq` prefix fails exactly when its right-hand side fails |
| Parser.TailLiteralsI64 | custom_interpreter/src/parser.rs:56-63 | when every number token the loop of `expr` consumes fits `i64`, every literal of the tree it returns does |
| Parser.ExpressionLiteralsI64 | custom_interpreter/src/parser.rs:53-64 | when every number token `expr` consumes fits `i64`, every literal of its tree does |
| Parser.TailStaysInStream | custom_interpreter/src/parser.rs:56-63 | on a token stream as the lexer yields it, the loop of `expr` stops on a token of the stream |
| Parser.ExpressionStaysInStream | custom_interpreter/src/parser.rs:53-64 | on a token stream as the lexer yields it, `expr` stops on a token of the stream |
| Parser.ParseStaysInStream | custom_interpreter/src/parser.rs:38-51 | on a token stream as the lexer yields it, `parse` stops on a token of the stream, never past its final `EndOfFile` or `Invalid` |
| Parser.ParseLiteralsI64 | custom_interpreter/src/parser.rs:6 | when every token `parse` consumes fits `i64`, its tree has only `i64` literals, as `Expr::Number(i64)` requires |
| Parser.Parser.constructor | custom_interpreter/src/parser.rs:25-32 | `new` pulls exactly one token from the lexer into the lookahead before any parsing |
| Parser.Parser.Parse | custom_interpreter/src/parser.rs:34-36 | returns what `AssignmentAt` gives on the lexer's token stream and leaves the lookahead where it says; every literal of the tree it returns is an `i64`, which is what `Interpreter.Interpreter.Interpret` requires |
| Parser.Parser.Assignment | custom_interpreter/src/parser.rs:38-51 | returns the tree `AssignmentAt` gives and leaves the lookahead at its end index |
| Parser.Parser.Expression | custom_interpreter/src/parser.rs:53-64 | the `while` loop returns the tree `ExpressionAt` gives and leaves the lookahead at its end index |
| Parser.Parser.Factor | custom_interpreter/src/parser.rs:66-79 | returns the tree `FactorAt` gives and leaves the lookahead at its end index |
| Parser.Parser.NextToken | custom_interpreter/src/parser.rs:91-93 | the lookahead becomes the next token of the lexer's stream |
| Interpreter.Eval | custom_interpreter/src/interpreter.rs:15-35 | evaluation never removes a binding |
| Interpreter.EvalLeaves | custom_interpreter/src/interpreter.rs:17-18 | a literal is its own value; a variable is its binding, or `None` when unbound (never 0); neither changes the map |
| Interpreter.TruncDivRoundsTowardZero | custom_interpreter/src/interpreter.rs:26 | `/` truncates toward zero: the remainder is smaller than the divisor in magnitude and has the sign of the dividend |
| Interpreter.BinaryOpOrder | custom_interpreter/src/interpreter.rs:19-28 | the left operand is evaluated first; a left `None` is the result, and otherwise the right operand runs against the map the left one left |
| Interpreter.LeftAssignmentVisibleToRight | custom_interpreter/src/interpreter.rs:19-21 | in the instance `(x = v) - x`, the assignment made in the left operand is visible to the right one: the right operand reads `v`, the result is 0 and the map gains `x = v`; the general form, that the right operand runs in the map the left one leaves, is the second `ensures` of `Interpreter.BinaryOpOrder` |
| Interpreter.AssignFreeKeepsEnv | custom_interpreter/src/interpreter.rs:15-35 | an expression with no `Assign` node leaves the map unchanged |
| Interpreter.EvalAssign | custom_interpreter/src/interpreter.rs:29-33 | a successful assignment returns the right-hand value and binds the name to it, overwriting any earlier binding, with every other name as the right-hand side left it; a failed one adds no binding |
| Interpreter.ParseTreeEffect | custom_interpreter/src/interpreter.rs:15-35 | evaluating a tree that `parse` built changes at most the one name it assigns |
| Interpreter.EvalStaysI64 | custom_interpreter/src/interpreter.rs:22-27 | with `i64` literals and bindings, and no panicking operation, every result and binding stays an `i64` |
| Interpreter.Interpreter.constructor | custom_interpreter/src/interpreter.rs:9-13 | a new interpreter has an empty map |
| Interpreter.Interpreter.Interpret | custom_interpreter/src/interpreter.rs:15-35 | the recursive method returns the value `Eval` gives and leaves the map as `Eval` says |
| Interpreter.Interpreter.Assign | custom_interpreter/src/interpreter.rs:37-39 | the map becomes the old map with the name bound to the value |
| Pipeline.AssumerIsKeywordThenIdentifier | custom_interpreter/src/lexer.rs:82-89 | `assumer` scans as exactly `assume`, the identifier `r` and the end of input, and does not parse |
| Pipeline.WordStartingWithAOrEIsInvalid | custom_interpreter/src/lexer.rs:34-45 | `apple` and `eggs` scan as `Invalid`, not as identifiers |
| Pipeline.ParenthesisIsInvalid | custom_interpreter/src/lexer.rs:64 | `(2 + 3) * 4` scans as `Invalid` at once and does not parse |
| Pipeline.AssumeWithoutEqParsesRest | custom_interpreter/src/parser.rs:38-50 | `assume x 5` parses as `5`: the consumed `assume x` is dropped |
| Pipeline.TrailingProductIgnored | custom_interpreter/src/parser.rs:56-63 | `1 + 2 * 3` parses as `1 + 2`, stopping at index 3 with the `*` token as the unconsumed lookahead, and evaluates to 3 |
| Pipeline.SubtractionChainIsLeftNested | custom_interpreter/src/parser.rs:53-64 | `9 - 3 - 2` parses as `(9 - 3) - 2` and evaluates to 4 |
| Pipeline.DivisionByLiteralZeroIsNotParsed | custom_interpreter/src/parser.rs:56 | `4 / 0` parses as `4`; there is no parse-time zero check |
| Pipeline.AssignmentBinds | custom_interpreter/src/interpreter.rs:29-33 | `assume x eq 5` evaluates to 5 and binds `x` to 5 in an empty map |
| Pipeline.UseAfterAssignment | custom_interpreter/src/interpreter.rs:18 | `x + 1` is 6 with `x` bound to 5, and `None` with `x` unbound |

## Left out

- `custom_interpreter/src/main.rs` is not part of this model. It holds the
  argument check, the file read, the printing and the exit status. Only its
  order of calls (scan, parse once, interpret) is followed, in `Pipeline`.
- Unicode is not modelled. The input is a sequence of ASCII characters, so
  `len_utf8` is a step of one and `is_whitespace` / `is_alphanumeric` are
  their ASCII cases. The lexer's constructor requires ASCII input.
- Rust panics are preconditions, not modelled behaviour:
  - `unwrap` on a literal too large for `i64`: `Lexer.Fits` on
    `Lexer.Lexer.NextToken`, and `Parser.PullsFit` on the parser methods.
    `PullsFit` covers only the tokens the parser actually pulls.
  - Division by zero and `i64` overflow, including `i64::MIN / -1`:
    `Interpreter.Safe` on `Interpreter.Eval` and
    `Interpreter.Interpreter.Interpret`.
  - The `panic!` arm of `op_from_token`: the precondition of
    `Parser.OpFromToken`. `Parser.ParseTreeShape` shows that no parse reaches
    it with `*` or `/`.
- Whether overflow panics (debug build) or wraps (release build) is a build
  setting. Only the non-overflowing case is modelled.
- `HashMap` hashing is not modelled. The variable map is a Dafny
  `map<string, int>`.
- Values are unbounded integers. `i64` is enforced by `Lexer.IsI64` where the
  Rust type matters: literals as scanned (`Lexer.Fits`) and as they stand in
  the parser's trees (`Parser.ParseLiteralsI64`), bindings and results
  (`Interpreter.EvalStaysI64`).
- The token stream the parser reads is a ghost field of `Parser.Parser`.
  Sharing of the lexer with other owners is not modelled, because the Rust
  parser owns its lexer.
- The code has no parentheses, no `*`/`/` precedence level, no parse-time
  check for division by the literal zero, no rejection of trailing tokens and
  no distinct error kinds, so the model has none either. The `Pipeline`
  lemmas show how the code behaves on inputs that would need each of them.
