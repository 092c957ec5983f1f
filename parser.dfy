/** The single-lookahead recursive-descent parser of
    custom_interpreter/src/parser.rs.

    The grammar the code implements is

      assignment := "assume" identifier "eq" expr | expr
      expr       := factor (("+" | "-") factor)*
      factor     := number | identifier

    The functions `FactorAt`, `ExpressionTail`, `ExpressionAt` and
    `AssignmentAt` specify each parse method over the token stream that the
    lexer produces, with the index of the lookahead token; the class `Parser`
    is the imperative parser and is proved to agree with them. */
module Parser {
  import opened Wrappers
  import L = Lexer

  datatype Op = Add | Sub | Mul | Div

  datatype Expr =
    | Variable(name: string)
    | Number(value: int)
    | BinaryOp(left: Expr, op: Op, right: Expr)
    | Assign(name: string, rhs: Expr)

  /** The operator token that spells `op`. */
  function TokenOf(op: Op): L.Token {
    match op
    case Add => L.Add
    case Sub => L.Sub
    case Mul => L.Mul
    case Div => L.Div
  }

  /** `op_from_token`: its panic branch is excluded by the precondition,
      which every call in this module meets. The operator it returns is the
      one the token spells. */
  function OpFromToken(t: L.Token): (op: Op)
    requires t.Add? || t.Sub? || t.Mul? || t.Div?
    ensures TokenOf(op) == t
  {
    match t
    case Add => Op.Add
    case Sub => Op.Sub
    case Mul => Op.Mul
    case Div => Op.Div
  }

  predicate IsOperand(t: L.Token) { t.Number? || t.Identifier? }

  predicate IsAdditive(t: L.Token) { t.Add? || t.Sub? }

  /** The tree `factor` builds from a number or identifier token. */
  function Leaf(t: L.Token): Expr
    requires IsOperand(t)
  {
    if t.Number? then Number(t.value) else Variable(t.name)
  }

  /** The outcome of a parse method: the tree (or `None`) and the index of
      the lookahead token it leaves in `current_token`. */
  datatype Parsed = Parsed(tree: Option<Expr>, next: nat)

  /** Every literal is an `i64`, as the Rust type `Expr::Number(i64)` says. */
  predicate LiteralsI64(e: Expr) {
    match e
    case Number(v) => L.IsI64(v)
    case Variable(_) => true
    case BinaryOp(l, _, r) => LiteralsI64(l) && LiteralsI64(r)
    case Assign(_, rhs) => LiteralsI64(rhs)
  }

  /** The token at index `i`. Past the end of a stream the value is
      `EndOfFile` by convention; the parser stops pulling at `EndOfFile` or
      `Invalid`, so it never reads it (`ParseStaysInStream`). */
  function At(ts: seq<L.Token>, i: nat): L.Token {
    if i < |ts| then ts[i] else L.EndOfFile
  }

  function FactorAt(ts: seq<L.Token>, i: nat): (r: Parsed)
    ensures r.next == if r.tree.Some? then i + 1 else i
  {
    var t := At(ts, i);
    if IsOperand(t) then Parsed(Some(Leaf(t)), i + 1) else Parsed(None, i)
  }

  /** The `while` loop of `expr`, with accumulator `left` and lookahead at `i`. */
  function ExpressionTail(ts: seq<L.Token>, i: nat, left: Expr): (r: Parsed)
    ensures i <= r.next
    decreases |ts| + 1 - i
  {
    var t := At(ts, i);
    if IsAdditive(t) then
      var f := FactorAt(ts, i + 1);
      if f.tree.None? then f
      else ExpressionTail(ts, f.next, BinaryOp(left, OpFromToken(t), f.tree.value))
    else Parsed(Some(left), i)
  }

  /** One turn of the loop: the operand after an additive operator at `i`
      either fails, and so does the loop, or is folded into `left`. */
  lemma ExpressionTailStep(ts: seq<L.Token>, i: nat, left: Expr)
    requires IsAdditive(At(ts, i))
    ensures FactorAt(ts, i + 1).next <= ExpressionTail(ts, i, left).next
    ensures FactorAt(ts, i + 1).tree.None? ==> ExpressionTail(ts, i, left) == FactorAt(ts, i + 1)
    ensures FactorAt(ts, i + 1).tree.Some? ==>
      ExpressionTail(ts, i, left)
      == ExpressionTail(ts, FactorAt(ts, i + 1).next, BinaryOp(left, OpFromToken(At(ts, i)), FactorAt(ts, i + 1).tree.value))
  {
  }

  function ExpressionAt(ts: seq<L.Token>, i: nat): (r: Parsed)
    ensures i <= r.next
  {
    var f := FactorAt(ts, i);
    if f.tree.None? then f else ExpressionTail(ts, f.next, f.tree.value)
  }

  /** `assignment`, which is also `parse`. A failed `assume x eq` prefix is
      not undone: parsing goes on with `expr` from the current lookahead. */
  function AssignmentAt(ts: seq<L.Token>, i: nat): (r: Parsed)
    ensures i <= r.next
  {
    if At(ts, i).Assume? then
      var id := At(ts, i + 1);
      if id.Identifier? then
        if At(ts, i + 2).Eq? then
          var e := ExpressionAt(ts, i + 3);
          if e.tree.None? then e else Parsed(Some(Assign(id.name, e.tree.value)), e.next)
        else ExpressionAt(ts, i + 2)
      else ExpressionAt(ts, i + 1)
    else ExpressionAt(ts, i)
  }

  /** Every token the parser pulls after index `i`, up to index `j`, is one
      the lexer can produce without panicking. */
  ghost predicate PullsFit(ts: seq<L.Token>, i: nat, j: nat) {
    forall k :: i < k <= j ==> L.Fits(At(ts, k))
  }

  /** A token stream as `Lexer.Tokens` produces it. */
  ghost predicate WellFormed(ts: seq<L.Token>) {
    |ts| > 0 && forall k :: 0 <= k < |ts| ==> (ts[k].IsFinal() <==> k == |ts| - 1)
  }

  // ---------------------------------------------------------------------
  // Properties of the parse functions

  /** `factor` turns a number or identifier into a leaf and consumes that one
      token; on any other token it fails and consumes nothing. */
  lemma FactorCases(ts: seq<L.Token>, i: nat)
    ensures At(ts, i).Number? ==> FactorAt(ts, i) == Parsed(Some(Number(At(ts, i).value)), i + 1)
    ensures At(ts, i).Identifier? ==> FactorAt(ts, i) == Parsed(Some(Variable(At(ts, i).name)), i + 1)
    ensures !IsOperand(At(ts, i)) ==> FactorAt(ts, i) == Parsed(None, i)
  {
  }

  /** Operands `fs` and `+`/`-` operators `ops` of a chain `f0 op1 f1 ... opn fn`. */
  predicate IsChain(fs: seq<L.Token>, ops: seq<L.Token>) {
    && |fs| == |ops| + 1
    && (forall j :: 0 <= j < |fs| ==> IsOperand(fs[j]))
    && (forall j :: 0 <= j < |ops| ==> IsAdditive(ops[j]))
  }

  /** The tokens `f0 op1 f1 ... opn fn`. */
  function Chain(fs: seq<L.Token>, ops: seq<L.Token>): (ts: seq<L.Token>)
    requires |fs| == |ops| + 1
    ensures |ts| == 2 * |ops| + 1
    ensures forall j :: 0 <= j < |fs| ==> ts[2 * j] == fs[j]
    ensures forall j :: 0 <= j < |ops| ==> ts[2 * j + 1] == ops[j]
  {
    if ops == [] then [fs[0]]
    else Chain(fs[..|fs| - 1], ops[..|ops| - 1]) + [ops[|ops| - 1], fs[|fs| - 1]]
  }

  /** The left-nested tree `((f0 op1 f1) op2 f2) ... opn fn`. */
  function LeftNested(fs: seq<L.Token>, ops: seq<L.Token>): Expr
    requires IsChain(fs, ops)
    decreases |ops|
  {
    var n := |ops|;
    if n == 0 then Leaf(fs[0])
    else BinaryOp(LeftNested(fs[..n], ops[..n - 1]), OpFromToken(ops[n - 1]), Leaf(fs[n]))
  }

  /** One operator of a chain: the loop of `expr` folds the operand after
      the `k`-th operator into the tree of the first `k + 1` operands. */
  lemma ChainStep(fs: seq<L.Token>, ops: seq<L.Token>, rest: seq<L.Token>, k: nat)
    requires IsChain(fs, ops) && k < |ops|
    ensures ExpressionTail(Chain(fs, ops) + rest, 2 * k + 1, LeftNested(fs[..k + 1], ops[..k]))
         == ExpressionTail(Chain(fs, ops) + rest, 2 * k + 3, LeftNested(fs[..k + 2], ops[..k + 1]))
  {
    var ts := Chain(fs, ops) + rest;
    var left := LeftNested(fs[..k + 1], ops[..k]);
    assert At(ts, 2 * k + 1) == ops[k];
    assert At(ts, 2 * k + 2) == fs[k + 1];
    assert fs[..k + 2][..k + 1] == fs[..k + 1];
    assert ops[..k + 1][..k] == ops[..k];
    assert LeftNested(fs[..k + 2], ops[..k + 1]) == BinaryOp(left, OpFromToken(ops[k]), Leaf(fs[k + 1]));
    assert IsOperand(fs[k + 1]) && FactorAt(ts, 2 * k + 2) == Parsed(Some(Leaf(fs[k + 1])), 2 * k + 3);
    ExpressionTailStep(ts, 2 * k + 1, left);
  }

  /** After the first `k` operators of a chain the loop of `expr` holds the
      left-nested tree of the first `k + 1` operands, and it ends holding the
      tree of the whole chain. */
  lemma {:induction false} ChainFolds(fs: seq<L.Token>, ops: seq<L.Token>, rest: seq<L.Token>, k: nat)
    requires IsChain(fs, ops) && k <= |ops|
    ensures ExpressionTail(Chain(fs, ops) + rest, 2 * k + 1, LeftNested(fs[..k + 1], ops[..k]))
         == ExpressionTail(Chain(fs, ops) + rest, 2 * |ops| + 1, LeftNested(fs, ops))
    decreases |ops| - k
  {
    if k == |ops| {
      assert fs[..k + 1] == fs && ops[..k] == ops;
    } else {
      ChainStep(fs, ops, rest, k);
      ChainFolds(fs, ops, rest, k + 1);
    }
  }

  lemma ChainStart(fs: seq<L.Token>, ops: seq<L.Token>, rest: seq<L.Token>)
    requires IsChain(fs, ops)
    ensures ExpressionAt(Chain(fs, ops) + rest, 0)
         == ExpressionTail(Chain(fs, ops) + rest, 2 * |ops| + 1, LeftNested(fs, ops))
    ensures AssignmentAt(Chain(fs, ops) + rest, 0) == ExpressionAt(Chain(fs, ops) + rest, 0)
  {
    var ts := Chain(fs, ops) + rest;
    assert At(ts, 0) == fs[0];
    assert LeftNested(fs[..1], ops[..0]) == Leaf(fs[0]);
    ChainFolds(fs, ops, rest, 0);
  }

  /** The outcome `r` of a parse of a stream, seen in that stream behind
      `n` more tokens. */
  function Shifted(r: Parsed, n: nat): Parsed {
    Parsed(r.tree, n + r.next)
  }

  /** Tokens in front of a stream do not change how its factors parse. */
  lemma FactorShift(pre: seq<L.Token>, ts: seq<L.Token>, i: nat)
    ensures At(pre + ts, |pre| + i) == At(ts, i)
    ensures FactorAt(pre + ts, |pre| + i) == Shifted(FactorAt(ts, i), |pre|)
  {
  }

  /** Tokens in front of a stream do not change how the loop of `expr`
      parses it. */
  lemma {:induction false} ExpressionTailShift(pre: seq<L.Token>, ts: seq<L.Token>, i: nat, left: Expr)
    ensures ExpressionTail(pre + ts, |pre| + i, left) == Shifted(ExpressionTail(ts, i, left), |pre|)
    decreases |ts| + 1 - i
  {
    FactorShift(pre, ts, i);
    var t := At(ts, i);
    if IsAdditive(t) {
      FactorShift(pre, ts, i + 1);
      var f := FactorAt(ts, i + 1);
      if f.tree.Some? {
        ExpressionTailShift(pre, ts, f.next, BinaryOp(left, OpFromToken(t), f.tree.value));
      }
    }
  }

  /** `expr` parses the same wherever in the token stream it is called: in
      particular after `assume`, `assume x` or `assume x eq`. */
  lemma ExpressionShift(pre: seq<L.Token>, ts: seq<L.Token>, i: nat)
    ensures ExpressionAt(pre + ts, |pre| + i) == Shifted(ExpressionAt(ts, i), |pre|)
  {
    FactorShift(pre, ts, i);
    var f := FactorAt(ts, i);
    if f.tree.Some? {
      ExpressionTailShift(pre, ts, f.next, f.tree.value);
    }
  }

  /** `expr` is left-associative: on `f0 op1 f1 ... opn fn` followed by any
      token other than `+` and `-` (a `*` or `/` included), wherever the
      chain starts, it returns the left-nested tree and leaves that token as
      the lookahead, unconsumed. At the start of the input `parse` returns
      the same. */
  lemma ExpressionIsLeftAssociative(pre: seq<L.Token>, fs: seq<L.Token>, ops: seq<L.Token>, rest: seq<L.Token>)
    requires IsChain(fs, ops) && !IsAdditive(At(rest, 0))
    ensures ExpressionAt(pre + (Chain(fs, ops) + rest), |pre|)
         == Parsed(Some(LeftNested(fs, ops)), |pre| + 2 * |ops| + 1)
    ensures AssignmentAt(Chain(fs, ops) + rest, 0) == ExpressionAt(Chain(fs, ops) + rest, 0)
  {
    ChainStart(fs, ops, rest);
    assert At(Chain(fs, ops) + rest, 2 * |ops| + 1) == At(rest, 0);
    ExpressionShift(pre, Chain(fs, ops) + rest, 0);
  }

  /** A `+` or `-` not followed by a number or identifier makes `expr` fail
      wherever the chain starts, and so the whole parse at the start of the
      input. */
  lemma DanglingOperatorFails(pre: seq<L.Token>, fs: seq<L.Token>, ops: seq<L.Token>, op: L.Token, rest: seq<L.Token>)
    requires IsChain(fs, ops) && IsAdditive(op) && !IsOperand(At(rest, 0))
    ensures ExpressionAt(pre + (Chain(fs, ops) + ([op] + rest)), |pre|).tree == None
    ensures AssignmentAt(Chain(fs, ops) + ([op] + rest), 0).tree == None
  {
    var ts := Chain(fs, ops) + ([op] + rest);
    ChainStart(fs, ops, [op] + rest);
    assert At(ts, 2 * |ops| + 1) == op;
    assert At(ts, 2 * |ops| + 2) == At(rest, 0);
    ExpressionShift(pre, ts, 0);
  }

  /** `assume x eq` followed by a chain binds `x` to the left-nested tree of
      the chain. */
  lemma AssignedChain(x: string, fs: seq<L.Token>, ops: seq<L.Token>, rest: seq<L.Token>)
    requires IsChain(fs, ops) && !IsAdditive(At(rest, 0))
    ensures AssignmentAt([L.Assume, L.Identifier(x), L.Eq] + (Chain(fs, ops) + rest), 0)
         == Parsed(Some(Assign(x, LeftNested(fs, ops))), 2 * |ops| + 4)
  {
    ExpressionIsLeftAssociative([L.Assume, L.Identifier(x), L.Eq], fs, ops, rest);
  }

  /** `assume x eq` followed by a chain with a dangling `+` or `-` fails. */
  lemma AssignedDanglingFails(x: string, fs: seq<L.Token>, ops: seq<L.Token>, op: L.Token, rest: seq<L.Token>)
    requires IsChain(fs, ops) && IsAdditive(op) && !IsOperand(At(rest, 0))
    ensures AssignmentAt([L.Assume, L.Identifier(x), L.Eq] + (Chain(fs, ops) + ([op] + rest)), 0).tree == None
  {
    DanglingOperatorFails([L.Assume, L.Identifier(x), L.Eq], fs, ops, op, rest);
  }

  predicate AddSubOnly(e: Expr) {
    match e
    case BinaryOp(l, op, r) => (op.Add? || op.Sub?) && AddSubOnly(l) && AddSubOnly(r)
    case Assign(_, rhs) => AddSubOnly(rhs)
    case _ => true
  }

  predicate AssignFree(e: Expr) {
    match e
    case BinaryOp(l, _, r) => AssignFree(l) && AssignFree(r)
    case Assign(_, _) => false
    case _ => true
  }

  /** The trees `parse` can build: only `+` and `-` operators, and an
      assignment only at the root. */
  predicate IsParseTree(e: Expr) {
    AddSubOnly(e) && (if e.Assign? then AssignFree(e.rhs) else AssignFree(e))
  }

  lemma {:induction false} TailKeepsShape(ts: seq<L.Token>, i: nat, left: Expr)
    requires AddSubOnly(left) && AssignFree(left)
    ensures var r := ExpressionTail(ts, i, left);
      r.tree.Some? ==> AddSubOnly(r.tree.value) && AssignFree(r.tree.value)
    decreases |ts| + 1 - i
  {
    var t := At(ts, i);
    if IsAdditive(t) {
      var f := FactorAt(ts, i + 1);
      if f.tree.Some? {
        TailKeepsShape(ts, f.next, BinaryOp(left, OpFromToken(t), f.tree.value));
      }
    }
  }

  lemma ExpressionShape(ts: seq<L.Token>, i: nat)
    ensures var r := ExpressionAt(ts, i);
      r.tree.Some? ==> AddSubOnly(r.tree.value) && AssignFree(r.tree.value)
  {
    var f := FactorAt(ts, i);
    if f.tree.Some? {
      TailKeepsShape(ts, f.next, f.tree.value);
    }
  }

  /** Every tree `parse` returns uses only `Add` and `Sub`: a `*` or `/`
      token ends the expression, so `op_from_token` never reaches its `Mul`,
      `Div` or panic arms. */
  lemma ParseTreeShape(ts: seq<L.Token>, i: nat)
    ensures var r := AssignmentAt(ts, i); r.tree.Some? ==> IsParseTree(r.tree.value)
  {
    ExpressionShape(ts, i);
    ExpressionShape(ts, i + 1);
    ExpressionShape(ts, i + 2);
    ExpressionShape(ts, i + 3);
  }

  /** `parse` returns `Assign(x, rhs)` exactly when the tokens start with
      `assume x eq` and `expr` parses `rhs` after them. */
  lemma AssignmentIffPrefix(ts: seq<L.Token>, i: nat, x: string, rhs: Expr)
    ensures AssignmentAt(ts, i).tree == Some(Assign(x, rhs)) <==>
      && At(ts, i).Assume? && At(ts, i + 1) == L.Identifier(x) && At(ts, i + 2).Eq?
      && ExpressionAt(ts, i + 3).tree == Some(rhs)
  {
    ExpressionShape(ts, i);
    ExpressionShape(ts, i + 1);
    ExpressionShape(ts, i + 2);
  }

  /** After `assume`, a missing identifier or a missing `eq` is not an error:
      the tokens already consumed stay consumed and `expr` parses from the
      current lookahead. */
  lemma BrokenAssumeFallsThrough(ts: seq<L.Token>, i: nat)
    requires At(ts, i).Assume?
    ensures !At(ts, i + 1).Identifier? ==> AssignmentAt(ts, i) == ExpressionAt(ts, i + 1)
    ensures At(ts, i + 1).Identifier? && !At(ts, i + 2).Eq? ==>
      AssignmentAt(ts, i) == ExpressionAt(ts, i + 2)
  {
  }

  /** A complete `assume x eq` prefix fails exactly when its right-hand side
      fails. */
  lemma AssignmentFailsWithRhs(ts: seq<L.Token>, i: nat)
    requires At(ts, i).Assume? && At(ts, i + 1).Identifier? && At(ts, i + 2).Eq?
    ensures AssignmentAt(ts, i).tree.None? <==> ExpressionAt(ts, i + 3).tree.None?
  {
  }

  /** Every number token the loop of `expr` consumes fits `i64`, so every
      literal of the tree it returns does. */
  lemma {:induction false} TailLiteralsI64(ts: seq<L.Token>, i: nat, left: Expr)
    requires LiteralsI64(left)
    requires forall k :: i < k < ExpressionTail(ts, i, left).next ==> L.Fits(At(ts, k))
    ensures var r := ExpressionTail(ts, i, left); r.tree.Some? ==> LiteralsI64(r.tree.value)
    decreases |ts| + 1 - i
  {
    var t := At(ts, i);
    if IsAdditive(t) {
      var f := FactorAt(ts, i + 1);
      if f.tree.Some? {
        ExpressionTailStep(ts, i, left);
        assert L.Fits(At(ts, i + 1));
        TailLiteralsI64(ts, f.next, BinaryOp(left, OpFromToken(t), f.tree.value));
      }
    }
  }

  lemma ExpressionLiteralsI64(ts: seq<L.Token>, i: nat)
    requires forall k :: i <= k < ExpressionAt(ts, i).next ==> L.Fits(At(ts, k))
    ensures var r := ExpressionAt(ts, i); r.tree.Some? ==> LiteralsI64(r.tree.value)
  {
    var f := FactorAt(ts, i);
    if f.tree.Some? {
      assert L.Fits(At(ts, i));
      TailLiteralsI64(ts, f.next, f.tree.value);
    }
  }

  /** When every token `parse` consumes fits `i64`, so does every literal of
      the tree it returns: the tree is an `Expr` whose numbers are `i64`, as
      `Expr::Number(i64)` requires, and can be handed to the interpreter. */
  lemma ParseLiteralsI64(ts: seq<L.Token>, i: nat)
    requires forall k :: i <= k < AssignmentAt(ts, i).next ==> L.Fits(At(ts, k))
    ensures var r := AssignmentAt(ts, i); r.tree.Some? ==> LiteralsI64(r.tree.value)
  {
    if At(ts, i).Assume? {
      if At(ts, i + 1).Identifier? {
        if At(ts, i + 2).Eq? {
          ExpressionLiteralsI64(ts, i + 3);
        } else {
          ExpressionLiteralsI64(ts, i + 2);
        }
      } else {
        ExpressionLiteralsI64(ts, i + 1);
      }
    } else {
      ExpressionLiteralsI64(ts, i);
    }
  }

  lemma {:induction false} TailStaysInStream(ts: seq<L.Token>, i: nat, left: Expr)
    requires WellFormed(ts) && i < |ts|
    ensures ExpressionTail(ts, i, left).next < |ts|
    decreases |ts| + 1 - i
  {
    var t := At(ts, i);
    if IsAdditive(t) {
      assert i + 1 < |ts|;
      var f := FactorAt(ts, i + 1);
      if f.tree.Some? {
        assert i + 2 < |ts|;
        TailStaysInStream(ts, f.next, BinaryOp(left, OpFromToken(t), f.tree.value));
      }
    }
  }

  lemma ExpressionStaysInStream(ts: seq<L.Token>, i: nat)
    requires WellFormed(ts) && i < |ts|
    ensures ExpressionAt(ts, i).next < |ts|
  {
    var f := FactorAt(ts, i);
    if f.tree.Some? {
      assert i + 1 < |ts|;
      TailStaysInStream(ts, f.next, f.tree.value);
    }
  }

  /** On a stream as the lexer yields it, `parse` stops on a token of the
      stream: it stops pulling at the final `EndOfFile` or `Invalid`, so the
      value `At` gives past the end is never read. */
  lemma ParseStaysInStream(ts: seq<L.Token>, i: nat)
    requires WellFormed(ts) && i < |ts|
    ensures AssignmentAt(ts, i).next < |ts|
  {
    if At(ts, i).Assume? {
      assert i + 1 < |ts|;
      if At(ts, i + 1).Identifier? {
        assert i + 2 < |ts|;
        if At(ts, i + 2).Eq? {
          assert i + 3 < |ts|;
          ExpressionStaysInStream(ts, i + 3);
        } else {
          ExpressionStaysInStream(ts, i + 2);
        }
      } else {
        ExpressionStaysInStream(ts, i + 1);
      }
    } else {
      ExpressionStaysInStream(ts, i);
    }
  }

  class Parser {
    const lexer: L.Lexer
    var current: L.Token
    /** The tokens the lexer yields from where the parser was created. */
    ghost const tokens: seq<L.Token>
    /** The index of `current` in `tokens`. */
    ghost var index: nat

    ghost predicate Valid()
      reads this, lexer
    {
      && lexer.Valid()
      && WellFormed(tokens)
      && index < |tokens|
      && current == tokens[index]
      && L.Fits(current)
      && (!current.IsFinal() ==> L.Tokens(lexer.input, lexer.pos) == tokens[index + 1..])
    }

    /** `Parser::new` pulls exactly one token before any parsing. */
    constructor (lexer: L.Lexer)
      requires lexer.Valid() && L.Fits(L.Scan(lexer.input, lexer.pos).0)
      modifies lexer
      ensures Valid() && this.lexer == lexer
      ensures tokens == L.Tokens(lexer.input, old(lexer.pos)) && index == 0
      ensures current == L.Scan(lexer.input, old(lexer.pos)).0
      ensures lexer.pos == L.Scan(lexer.input, old(lexer.pos)).1
    {
      this.lexer := lexer;
      tokens := L.Tokens(lexer.input, lexer.pos);
      index := 0;
      current := L.EndOfFile;
      new;
      // Rust calls `self.next_token()` here on the placeholder `EndOfFile`;
      // `NextToken` requires a non-final lookahead, so the lexer is asked
      // directly, which is what that call does.
      current := lexer.NextToken();
    }

    method Parse() returns (r: Option<Expr>)
      requires Valid() && PullsFit(tokens, index, AssignmentAt(tokens, index).next)
      modifies this, lexer
      ensures Valid() && Parsed(r, index) == AssignmentAt(tokens, old(index))
      ensures r.Some? ==> LiteralsI64(r.value)
    {
      ghost var start := index;
      r := Assignment();
      ParseLiteralsI64(tokens, start);
    }

    method Assignment() returns (r: Option<Expr>)
      requires Valid() && PullsFit(tokens, index, AssignmentAt(tokens, index).next)
      modifies this, lexer
      ensures Valid() && Parsed(r, index) == AssignmentAt(tokens, old(index))
    {
      if current.Assume? {
        NextToken();
        if current.Identifier? {
          var name := current.name;
          NextToken();
          if current.Eq? {
            NextToken();
            var e := Expression();
            if e.None? {
              return None;
            }
            return Some(Assign(name, e.value));
          }
        }
      }
      r := Expression();
    }

    method Expression() returns (r: Option<Expr>)
      requires Valid() && PullsFit(tokens, index, ExpressionAt(tokens, index).next)
      modifies this, lexer
      ensures Valid() && Parsed(r, index) == ExpressionAt(tokens, old(index))
    {
      var first := Factor();
      if first.None? {
        return None;
      }
      var left := first.value;
      ghost var goal := ExpressionAt(tokens, old(index));
      while current.Add? || current.Sub?
        invariant Valid() && ExpressionTail(tokens, index, left) == goal
        invariant PullsFit(tokens, index, goal.next)
        decreases |tokens| - index
      {
        var op := current;
        ghost var i := index;
        assert op == At(tokens, i);
        ExpressionTailStep(tokens, i, left);
        NextToken();
        var right := Factor();
        if right.None? {
          return None;
        }
        assert Parsed(right, index) == FactorAt(tokens, i + 1);
        left := BinaryOp(left, OpFromToken(op), right.value);
      }
      r := Some(left);
    }

    method Factor() returns (r: Option<Expr>)
      requires Valid() && PullsFit(tokens, index, FactorAt(tokens, index).next)
      modifies this, lexer
      ensures Valid() && Parsed(r, index) == FactorAt(tokens, old(index))
    {
      match current
      case Number(value) =>
        NextToken();
        r := Some(Number(value));
      case Identifier(id) =>
        NextToken();
        r := Some(Variable(id));
      case _ =>
        r := None;
    }

    /** `next_token`: replaces the lookahead with the lexer's next token. The
        parser calls it only while the lookahead is neither `EndOfFile` nor
        `Invalid`. */
    method NextToken()
      requires Valid() && !current.IsFinal() && L.Fits(At(tokens, index + 1))
      modifies this, lexer
      ensures Valid() && index == old(index) + 1
    {
      ghost var rest := L.Tokens(lexer.input, lexer.pos);
      current := lexer.NextToken();
      index := index + 1;
      assert !current.IsFinal() ==> L.Tokens(lexer.input, lexer.pos) == rest[1..];
    }
  }
}
