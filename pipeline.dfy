/** Whole inputs through the three stages, as the command-line driver
    strings them together: scan, `parse` once, `interpret` the tree.

    Each example takes its input as a parameter equal to a string literal,
    so that the proof unfolds the scanner one token at a time. */
module Pipeline {
  import opened Wrappers
  import opened Lexer
  import P = Parser
  import I = Interpreter

  /** The tree `parse` returns for the whole input `s`. */
  function ParseText(s: string): Option<P.Expr> {
    P.AssignmentAt(Tokens(s, 0), 0).tree
  }

  /** Whitespace from `p` up to `q`, where a token starts (or the input ends). */
  predicate BlankUpTo(s: string, p: nat, q: nat) {
    p <= q <= |s| && (forall k :: p <= k < q ==> IsWhitespace(s[k])) && (q == |s| || !IsWhitespace(s[q]))
  }

  /** The end of the input after whitespace from `p`. */
  lemma EndAt(s: string, p: nat)
    requires BlankUpTo(s, p, |s|)
    ensures Tokens(s, p) == [EndOfFile]
  {
    EndOfFileIffOnlyWhitespace(s, p);
  }

  /** A single-digit literal at `q`, then the tokens `rest`. */
  lemma DigitAt(s: string, p: nat, q: nat, rest: seq<Token>)
    requires BlankUpTo(s, p, q) && q < |s| && IsDigit(s[q]) && (q + 1 == |s| || !IsDigit(s[q + 1]))
    requires Tokens(s, q + 1) == rest
    ensures Tokens(s, p) == [Number(DigitValue(s[q]))] + rest
  {
    RunEndIsMaximalRun(s, p, q, Whitespace);
    RunEndIsMaximalRun(s, q, q + 1, Digit);
    var w := s[q..q + 1];
    assert w == [s[q]] && w[..|w| - 1] == [];
    assert DecimalValue(w) == DigitValue(s[q]);
    assert Scan(s, p) == (Number(DigitValue(s[q])), q + 1);
  }

  /** An operator character at `q`, then the tokens `rest`. */
  lemma OperatorAt(s: string, p: nat, q: nat, t: Token, rest: seq<Token>)
    requires BlankUpTo(s, p, q) && q < |s|
    requires t == match s[q] case '+' => Add case '-' => Sub case '*' => Mul case '/' => Div case _ => Invalid
    requires t != Invalid && Tokens(s, q + 1) == rest
    ensures Tokens(s, p) == [t] + rest
  {
    RunEndIsMaximalRun(s, p, q, Whitespace);
    assert Scan(s, p) == (t, q + 1);
  }

  /** A one-letter identifier at `q`, then the tokens `rest`. */
  lemma LetterAt(s: string, p: nat, q: nat, rest: seq<Token>)
    requires BlankUpTo(s, p, q) && q < |s| && IsLetter(s[q]) && s[q] != 'a' && s[q] != 'e'
    requires q + 1 == |s| || !IsWordChar(s[q + 1])
    requires Tokens(s, q + 1) == rest
    ensures Tokens(s, p) == [Identifier([s[q]])] + rest
  {
    RunEndIsMaximalRun(s, p, q, Whitespace);
    RunEndIsMaximalRun(s, q, q + 1, Word);
    assert s[q..q + 1] == [s[q]];
    assert Scan(s, p) == (Identifier([s[q]]), q + 1);
  }

  /** The keyword `assume` at `q`, then the tokens `rest`. */
  lemma AssumeAt(s: string, p: nat, q: nat, rest: seq<Token>)
    requires BlankUpTo(s, p, q) && HasPrefixAt(s, q, "assume") && Tokens(s, q + 6) == rest
    ensures Tokens(s, p) == [Assume] + rest
  {
    RunEndIsMaximalRun(s, p, q, Whitespace);
    ScanKeyword(s, p);
  }

  /** The keyword `eq` at `q`, then the tokens `rest`. */
  lemma EqAt(s: string, p: nat, q: nat, rest: seq<Token>)
    requires BlankUpTo(s, p, q) && HasPrefixAt(s, q, "eq") && Tokens(s, q + 2) == rest
    ensures Tokens(s, p) == [Eq] + rest
  {
    RunEndIsMaximalRun(s, p, q, Whitespace);
    ScanKeyword(s, p);
  }

  /** The tokens of the input of `AssumerIsKeywordThenIdentifier`, spelled out character by character. */
  lemma AssumerIsKeywordThenIdentifierTokens(s: string)
    requires |s| == 7 && s[0] == 'a' && s[1] == 's' && s[2] == 's' && s[3] == 'u' && s[4] == 'm' && s[5] == 'e' && s[6] == 'r'
    ensures Tokens(s, 0) == [Assume, Identifier("r"), EndOfFile]
  {
    var r2 := [EndOfFile];
    EndAt(s, 7);
    var r1 := [Identifier("r")] + r2;
    LetterAt(s, 6, 6, r2);
    AssumeAt(s, 0, 0, r1);
  }

  /** A keyword is matched without a word boundary: `assumer` is `assume`
      then the identifier `r`, and so does not parse. */
  lemma AssumerIsKeywordThenIdentifier(s: string)
    requires s == "assumer"
    ensures Tokens(s, 0) == [Assume, Identifier("r"), EndOfFile]
    ensures ParseText(s) == None
  {
    AssumerIsKeywordThenIdentifierTokens(s);
    var ts := [Assume, Identifier("r"), EndOfFile];
    assert P.AssignmentAt(ts, 0).tree == None;
  }

  /** The tokens of the input of `AssumeWithoutEqParsesRest` from index 8 on. */
  lemma AssumeWithoutEqParsesRestTokensFrom8(s: string)
    requires |s| == 10 && s[0] == 'a' && s[1] == 's' && s[2] == 's' && s[3] == 'u' && s[4] == 'm' && s[5] == 'e' && s[6] == ' ' && s[7] == 'x' && s[8] == ' ' && s[9] == '5'
    ensures Tokens(s, 8) == [Number(5), EndOfFile]
  {
    var r3 := [EndOfFile];
    EndAt(s, 10);
    DigitAt(s, 8, 9, r3);
  }

  /** The tokens of the input of `AssumeWithoutEqParsesRest`, spelled out character by character. */
  lemma AssumeWithoutEqParsesRestTokens(s: string)
    requires |s| == 10 && s[0] == 'a' && s[1] == 's' && s[2] == 's' && s[3] == 'u' && s[4] == 'm' && s[5] == 'e' && s[6] == ' ' && s[7] == 'x' && s[8] == ' ' && s[9] == '5'
    ensures Tokens(s, 0) == [Assume, Identifier("x"), Number(5), EndOfFile]
  {
    AssumeWithoutEqParsesRestTokensFrom8(s);
    var t2 := [Number(5), EndOfFile];
    var r1 := [Identifier("x")] + t2;
    LetterAt(s, 6, 7, t2);
    AssumeAt(s, 0, 0, r1);
  }

  /** `assume` not followed by `eq`: the consumed `assume x` is dropped and
      `expr` parses the rest. */
  lemma AssumeWithoutEqParsesRest(s: string)
    requires s == "assume x 5"
    ensures ParseText(s) == Some(P.Number(5))
  {
    AssumeWithoutEqParsesRestTokens(s);
    var ts := [Assume, Identifier("x"), Number(5), EndOfFile];
    assert P.AssignmentAt(ts, 0).tree == Some(P.Number(5));
  }

  /** The tokens of the input of `TrailingProductIgnored` from index 7 on. */
  lemma TrailingProductIgnoredTokensFrom7(s: string)
    requires |s| == 9 && s[0] == '1' && s[1] == ' ' && s[2] == '+' && s[3] == ' ' && s[4] == '2' && s[5] == ' ' && s[6] == '*' && s[7] == ' ' && s[8] == '3'
    ensures Tokens(s, 7) == [Number(3), EndOfFile]
  {
    var r5 := [EndOfFile];
    EndAt(s, 9);
    DigitAt(s, 7, 8, r5);
  }

  /** The tokens of the input of `TrailingProductIgnored` from index 3 on. */
  lemma TrailingProductIgnoredTokensFrom3(s: string)
    requires |s| == 9 && s[0] == '1' && s[1] == ' ' && s[2] == '+' && s[3] == ' ' && s[4] == '2' && s[5] == ' ' && s[6] == '*' && s[7] == ' ' && s[8] == '3'
    ensures Tokens(s, 3) == [Number(2), Mul, Number(3), EndOfFile]
  {
    TrailingProductIgnoredTokensFrom7(s);
    var t4 := [Number(3), EndOfFile];
    var r3 := [Mul] + t4;
    OperatorAt(s, 5, 6, Mul, t4);
    DigitAt(s, 3, 4, r3);
  }

  /** The tokens of the input of `TrailingProductIgnored`, spelled out character by character. */
  lemma TrailingProductIgnoredTokens(s: string)
    requires |s| == 9 && s[0] == '1' && s[1] == ' ' && s[2] == '+' && s[3] == ' ' && s[4] == '2' && s[5] == ' ' && s[6] == '*' && s[7] == ' ' && s[8] == '3'
    ensures Tokens(s, 0) == [Number(1), Add, Number(2), Mul, Number(3), EndOfFile]
  {
    TrailingProductIgnoredTokensFrom3(s);
    var t2 := [Number(2), Mul, Number(3), EndOfFile];
    var r1 := [Add] + t2;
    OperatorAt(s, 1, 2, Add, t2);
    DigitAt(s, 0, 0, r1);
  }

  /** There is no multiplicative level: `1 + 2 * 3` parses as `1 + 2`, the
      `* 3` is left unconsumed, and the result is 3. */
  lemma TrailingProductIgnored(s: string)
    requires s == "1 + 2 * 3"
    ensures P.AssignmentAt(Tokens(s, 0), 0).next == 3 && Tokens(s, 0)[3] == Mul
    ensures ParseText(s) == Some(P.BinaryOp(P.Number(1), P.Add, P.Number(2)))
    ensures I.Eval(P.BinaryOp(P.Number(1), P.Add, P.Number(2)), map[]).value == Some(3)
  {
    TrailingProductIgnoredTokens(s);
    var ts := [Number(1), Add, Number(2), Mul, Number(3), EndOfFile];
    assert P.AssignmentAt(ts, 0) == P.Parsed(Some(P.BinaryOp(P.Number(1), P.Add, P.Number(2))), 3);
  }

  /** The tokens of the input of `SubtractionChainIsLeftNested` from index 7 on. */
  lemma SubtractionChainIsLeftNestedTokensFrom7(s: string)
    requires |s| == 9 && s[0] == '9' && s[1] == ' ' && s[2] == '-' && s[3] == ' ' && s[4] == '3' && s[5] == ' ' && s[6] == '-' && s[7] == ' ' && s[8] == '2'
    ensures Tokens(s, 7) == [Number(2), EndOfFile]
  {
    var r5 := [EndOfFile];
    EndAt(s, 9);
    DigitAt(s, 7, 8, r5);
  }

  /** The tokens of the input of `SubtractionChainIsLeftNested` from index 3 on. */
  lemma SubtractionChainIsLeftNestedTokensFrom3(s: string)
    requires |s| == 9 && s[0] == '9' && s[1] == ' ' && s[2] == '-' && s[3] == ' ' && s[4] == '3' && s[5] == ' ' && s[6] == '-' && s[7] == ' ' && s[8] == '2'
    ensures Tokens(s, 3) == [Number(3), Sub, Number(2), EndOfFile]
  {
    SubtractionChainIsLeftNestedTokensFrom7(s);
    var t4 := [Number(2), EndOfFile];
    var r3 := [Sub] + t4;
    OperatorAt(s, 5, 6, Sub, t4);
    DigitAt(s, 3, 4, r3);
  }

  /** The tokens of the input of `SubtractionChainIsLeftNested`, spelled out character by character. */
  lemma SubtractionChainIsLeftNestedTokens(s: string)
    requires |s| == 9 && s[0] == '9' && s[1] == ' ' && s[2] == '-' && s[3] == ' ' && s[4] == '3' && s[5] == ' ' && s[6] == '-' && s[7] == ' ' && s[8] == '2'
    ensures Tokens(s, 0) == [Number(9), Sub, Number(3), Sub, Number(2), EndOfFile]
  {
    SubtractionChainIsLeftNestedTokensFrom3(s);
    var t2 := [Number(3), Sub, Number(2), EndOfFile];
    var r1 := [Sub] + t2;
    OperatorAt(s, 1, 2, Sub, t2);
    DigitAt(s, 0, 0, r1);
  }

  /** Subtraction chains associate to the left: `9 - 3 - 2` is 4, not 8. */
  lemma SubtractionChainIsLeftNested(s: string)
    requires s == "9 - 3 - 2"
    ensures ParseText(s) == Some(P.BinaryOp(P.BinaryOp(P.Number(9), P.Sub, P.Number(3)), P.Sub, P.Number(2)))
    ensures I.Eval(P.BinaryOp(P.BinaryOp(P.Number(9), P.Sub, P.Number(3)), P.Sub, P.Number(2)), map[]).value == Some(4)
  {
    SubtractionChainIsLeftNestedTokens(s);
    var ts := [Number(9), Sub, Number(3), Sub, Number(2), EndOfFile];
    assert P.AssignmentAt(ts, 0).tree == Some(P.BinaryOp(P.BinaryOp(P.Number(9), P.Sub, P.Number(3)), P.Sub, P.Number(2)));
  }

  /** The tokens of the input of `AssignmentBinds` from index 8 on. */
  lemma AssignmentBindsTokensFrom8(s: string)
    requires |s| == 13 && s[0] == 'a' && s[1] == 's' && s[2] == 's' && s[3] == 'u' && s[4] == 'm' && s[5] == 'e' && s[6] == ' ' && s[7] == 'x' && s[8] == ' ' && s[9] == 'e' && s[10] == 'q' && s[11] == ' ' && s[12] == '5'
    ensures Tokens(s, 8) == [Eq, Number(5), EndOfFile]
  {
    var r4 := [EndOfFile];
    EndAt(s, 13);
    var r3 := [Number(5)] + r4;
    DigitAt(s, 11, 12, r4);
    EqAt(s, 8, 9, r3);
  }

  /** The tokens of the input of `AssignmentBinds`, spelled out character by character. */
  lemma AssignmentBindsTokens(s: string)
    requires |s| == 13 && s[0] == 'a' && s[1] == 's' && s[2] == 's' && s[3] == 'u' && s[4] == 'm' && s[5] == 'e' && s[6] == ' ' && s[7] == 'x' && s[8] == ' ' && s[9] == 'e' && s[10] == 'q' && s[11] == ' ' && s[12] == '5'
    ensures Tokens(s, 0) == [Assume, Identifier("x"), Eq, Number(5), EndOfFile]
  {
    AssignmentBindsTokensFrom8(s);
    var t2 := [Eq, Number(5), EndOfFile];
    var r1 := [Identifier("x")] + t2;
    LetterAt(s, 6, 7, t2);
    AssumeAt(s, 0, 0, r1);
  }

  /** `assume x eq 5` binds `x` to 5 in an empty map. */
  lemma AssignmentBinds(s: string)
    requires s == "assume x eq 5"
    ensures ParseText(s) == Some(P.Assign("x", P.Number(5)))
    ensures I.Eval(P.Assign("x", P.Number(5)), map[]) == I.Outcome(Some(5), map["x" := 5])
  {
    AssignmentBindsTokens(s);
    var ts := [Assume, Identifier("x"), Eq, Number(5), EndOfFile];
    assert P.AssignmentAt(ts, 0).tree == Some(P.Assign("x", P.Number(5)));
  }

  /** The tokens of the input of `UseAfterAssignment` from index 3 on. */
  lemma UseAfterAssignmentTokensFrom3(s: string)
    requires |s| == 5 && s[0] == 'x' && s[1] == ' ' && s[2] == '+' && s[3] == ' ' && s[4] == '1'
    ensures Tokens(s, 3) == [Number(1), EndOfFile]
  {
    var r3 := [EndOfFile];
    EndAt(s, 5);
    DigitAt(s, 3, 4, r3);
  }

  /** The tokens of the input of `UseAfterAssignment`, spelled out character by character. */
  lemma UseAfterAssignmentTokens(s: string)
    requires |s| == 5 && s[0] == 'x' && s[1] == ' ' && s[2] == '+' && s[3] == ' ' && s[4] == '1'
    ensures Tokens(s, 0) == [Identifier("x"), Add, Number(1), EndOfFile]
  {
    UseAfterAssignmentTokensFrom3(s);
    var t2 := [Number(1), EndOfFile];
    var r1 := [Add] + t2;
    OperatorAt(s, 1, 2, Add, t2);
    LetterAt(s, 0, 0, r1);
  }

  /** `x + 1` evaluated against the map `assume x eq 5` left gives 6; against
      an empty map it gives no value (an unbound name is never zero). */
  lemma UseAfterAssignment(s: string)
    requires s == "x + 1"
    ensures ParseText(s) == Some(P.BinaryOp(P.Variable("x"), P.Add, P.Number(1)))
    ensures I.Eval(P.BinaryOp(P.Variable("x"), P.Add, P.Number(1)), map["x" := 5]).value == Some(6)
    ensures I.Eval(P.BinaryOp(P.Variable("x"), P.Add, P.Number(1)), map[]).value == None
  {
    UseAfterAssignmentTokens(s);
    var ts := [Identifier("x"), Add, Number(1), EndOfFile];
    assert P.AssignmentAt(ts, 0).tree == Some(P.BinaryOp(P.Variable("x"), P.Add, P.Number(1)));
  }

  /** The tokens of the input of `DivisionByLiteralZeroIsNotParsed` from index 3 on. */
  lemma DivisionByLiteralZeroIsNotParsedTokensFrom3(s: string)
    requires |s| == 5 && s[0] == '4' && s[1] == ' ' && s[2] == '/' && s[3] == ' ' && s[4] == '0'
    ensures Tokens(s, 3) == [Number(0), EndOfFile]
  {
    var r3 := [EndOfFile];
    EndAt(s, 5);
    DigitAt(s, 3, 4, r3);
  }

  /** The tokens of the input of `DivisionByLiteralZeroIsNotParsed`, spelled out character by character. */
  lemma DivisionByLiteralZeroIsNotParsedTokens(s: string)
    requires |s| == 5 && s[0] == '4' && s[1] == ' ' && s[2] == '/' && s[3] == ' ' && s[4] == '0'
    ensures Tokens(s, 0) == [Number(4), Div, Number(0), EndOfFile]
  {
    DivisionByLiteralZeroIsNotParsedTokensFrom3(s);
    var t2 := [Number(0), EndOfFile];
    var r1 := [Div] + t2;
    OperatorAt(s, 1, 2, Div, t2);
    DigitAt(s, 0, 0, r1);
  }

  /** No division is parsed, so there is no parse-time check of a zero
      divisor either: `4 / 0` is the literal 4 and the rest stays unconsumed. */
  lemma DivisionByLiteralZeroIsNotParsed(s: string)
    requires s == "4 / 0"
    ensures ParseText(s) == Some(P.Number(4))
  {
    DivisionByLiteralZeroIsNotParsedTokens(s);
    var ts := [Number(4), Div, Number(0), EndOfFile];
    assert P.AssignmentAt(ts, 0) == P.Parsed(Some(P.Number(4)), 1);
  }

  /** There are no parenthesis tokens: `(` is `Invalid`, so `(2 + 3) * 4`
      does not parse. */
  lemma ParenthesisIsInvalid(s: string)
    requires s == "(2 + 3) * 4"
    ensures Tokens(s, 0) == [Invalid]
    ensures ParseText(s) == None
  {
    assert Scan(s, 0) == (Invalid, 0) by { RunEndIsMaximalRun(s, 0, 0, Whitespace); }
  }

  /** A word starting with `a` or `e` that is not the keyword is `Invalid`,
      not an identifier. */
  lemma WordStartingWithAOrEIsInvalid(s: string, t: string)
    requires s == "apple" && t == "eggs"
    ensures Tokens(s, 0) == [Invalid] && Tokens(t, 0) == [Invalid]
  {
    assert Scan(s, 0) == (Invalid, 0) by { RunEndIsMaximalRun(s, 0, 0, Whitespace); assert s[1] == 'p'; }
    assert Scan(t, 0) == (Invalid, 0) by { RunEndIsMaximalRun(t, 0, 0, Whitespace); assert t[0..2][1] == 'g'; }
  }
}
