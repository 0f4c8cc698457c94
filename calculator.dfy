/**
 * The entry point `Calculate(string_view)` of W3-1.cpp: tokenize, parse one expression that must
 * use up every token, evaluate.  `Calculation` is the specification and `Calculate` the program.
 */
module Calculator {
  import opened Wrappers
  import opened Expressions
  import opened Lexer
  import opened Parser

  /**
   * The result of `Calculate(input)`: the value of the parsed tree, or the error that parsing or
   * evaluation stops with. Input without tokens is an error, and a tree without `/` or `%`
   * always has a value.
   */
  function Calculation(input: string): (r: Result<int, Error>)
    ensures Parse(Lex(input)).Failure? ==> r == Failure(Parse(Lex(input)).error)
    ensures Parse(Lex(input)).Success? ==> r == Eval(Parse(Lex(input)).value)
    ensures Parse(Lex(input)).Success? && !HasDivision(Parse(Lex(input)).value) ==> r.Success?
    ensures Lex(input) == [] ==> r == Failure(UnexpectedEnd)
  {
    var tree :- Parse(Lex(input));
    if HasDivision(tree) then Eval(tree)
    else
      EvalTotalWithoutDivision(tree);
      Eval(tree)
  }

  method Calculate(input: string) returns (r: Result<int, Error>)
    ensures r == Calculation(input)
  {
    var tokens := Tokenize(input);
    var pos := 0;
    var expression := ParseExpression(tokens, pos);
    if expression.Failure? {
      return Failure(expression.error);
    }
    pos := expression.value.pos;
    if pos != |tokens| {
      return Failure(TrailingTokens);
    }
    r := Eval(expression.value.tree);
  }

  /** Every constant of the tree is a literal the lexer can produce. */
  predicate NonNegativeConstants(e: Expr) {
    match e
    case Constant(v) => v >= 0
    case Binary(_, left, right) => NonNegativeConstants(left) && NonNegativeConstants(right)
    case SqrOp(operand) => NonNegativeConstants(operand)
  }

  lemma {:induction false} UnparseProducible(e: Expr)
    requires NonNegativeConstants(e)
    ensures forall i :: 0 <= i < |Unparse(e)| ==> Producible(Unparse(e)[i])
  {
    match e
    case Constant(_) =>
    case Binary(op, left, right) =>
      UnparseProducible(left);
      UnparseProducible(right);
      assert Unparse(e) == [OpeningBracket] + Unparse(left) + [OperatorToken(op)] + Unparse(right) + [ClosingBracket];
    case SqrOp(operand) =>
      UnparseProducible(operand);
      assert Unparse(e) == [Sqr, OpeningBracket] + Unparse(operand) + [ClosingBracket];
  }

  /**
   * The whole pipeline, end to end: for every tree whose constants are non-negative, calculating
   * the text of its fully bracketed form yields exactly the tree's value (or its division by zero).
   */
  lemma CalculateShownTree(e: Expr)
    requires NonNegativeConstants(e)
    ensures forall i :: 0 <= i < |Unparse(e)| ==> Producible(Unparse(e)[i])
    ensures Calculation(Show(Unparse(e))) == Eval(e)
  {
    UnparseProducible(e);
    LexShow(Unparse(e));
    ParseUnparse(e);
  }

  /** The character of a binary operator in the input text: the one `TokenMap` maps to its token. */
  function OperatorChar(op: BinOp): (c: char)
    ensures Producible(OperatorToken(op)) && c == TokenChar(OperatorToken(op))
  {
    match op
    case Sum => '+'
    case Subtract => '-'
    case MultiplyOp => '*'
    case DivideOp => '/'
    case ModuloOp => '%'
  }

  /** An operator between two spaces yields exactly the operator's token. */
  lemma LexOperatorText(op: BinOp, rest: string)
    ensures Lex([' ', OperatorChar(op), ' '] + rest) == [OperatorToken(op)] + Lex(rest)
  {
    var c := OperatorChar(op);
    assert [' ', c, ' '] + rest == [' '] + ([c] + ([' '] + rest));
    LexSkipThen(' ', rest);
    LexTokenThen(OperatorToken(op), [' '] + rest);
    LexSkipThen(' ', [c] + ([' '] + rest));
  }

  /** The text `a op b` lexes to the number `a`, the operator's token and the number `b`. */
  lemma LexBinaryOfNaturals(a: nat, op: BinOp, b: nat)
    ensures Lex(NatDigits(a) + [' ', OperatorChar(op), ' '] + NatDigits(b)) == [Number(a), OperatorToken(op), Number(b)]
  {
    var da, db, middle := NatDigits(a), NatDigits(b), [' ', OperatorChar(op), ' '];
    assert da + middle + db == da + (middle + db);
    assert db + [] == db;
    LexNumberThen(b, []);
    LexOperatorText(op, db);
    LexNumberThen(a, middle + db);
  }

  /**
   * `a op b` for natural numbers written in decimal: `+`, `-` and `*` give the arithmetic result,
   * `/` and `%` truncate, and a zero divisor is reported.
   */
  lemma CalculateBinaryOfNaturals(a: nat, op: BinOp, b: nat)
    ensures Calculation(NatDigits(a) + [' ', OperatorChar(op), ' '] + NatDigits(b)) == Apply(op, a, b)
  {
    var s := NatDigits(a) + [' ', OperatorChar(op), ' '] + NatDigits(b);
    var tree := Binary(op, Constant(a), Constant(b));
    LexBinaryOfNaturals(a, op, b);
    ParseSingleOperation(a, op, b);
    assert Parse(Lex(s)) == Success(tree);
    assert Eval(tree) == Apply(op, a, b);
  }

  /** `7 / 2` is 3: the quotient is truncated. */
  lemma SevenDividedByTwo()
    ensures Calculation("7 / 2") == Success(3)
  {
    CalculateBinaryOfNaturals(7, DivideOp, 2);
    assert NatDigits(7) + [' ', '/', ' '] + NatDigits(2) == "7 / 2";
  }

  /** `5 / 0` is undefined in the source; the model flags it as `DivisionByZero` instead of producing a value. */
  lemma DivideByZeroFlagged()
    ensures Calculation("5 / 0") == Failure(DivisionByZero)
  {
    CalculateBinaryOfNaturals(5, DivideOp, 0);
    assert NatDigits(5) + [' ', '/', ' '] + NatDigits(0) == "5 / 0";
  }

  /** `5 % 0` likewise. */
  lemma ModuloByZeroFlagged()
    ensures Calculation("5 % 0") == Failure(DivisionByZero)
  {
    CalculateBinaryOfNaturals(5, ModuloOp, 0);
    assert NatDigits(5) + [' ', '%', ' '] + NatDigits(0) == "5 % 0";
  }

  /*
   * Lexing a concrete text. The text is a parameter fixed by `requires` rather than a literal in
   * the `ensures`, and it is lexed from its end backwards, one character per `Lex...At` step, in
   * chunks of about six characters (`LexSourceSampleFrom0` ... `From30`): a proof about all 34
   * characters at once expands the literal into every obligation and becomes too expensive. Each
   * chunk needs only the characters it reads, which `SourceSampleChars` extracts once.
   */

  /** Tokens of the source's sample; `q` and `r` of `sqr` are dropped. */
  lemma LexSourceSample(s: string)
    requires s == "1 + 3 * (4 - 2) /" + " (2 - 1) + sqr(4)"
    ensures Lex(s) == [Number(1), Plus, Number(3), Multiply, OpeningBracket, Number(4), Minus, Number(2), ClosingBracket, Divide, OpeningBracket, Number(2), Minus, Number(1), ClosingBracket, Plus, Sqr, OpeningBracket, Number(4), ClosingBracket]
  {
    SourceSampleChars(s);
    LexSourceSampleChars(s);
  }

  /** The characters of the sample, one by one. */
  lemma SourceSampleChars(s: string)
    requires s == "1 + 3 * (4 - 2) /" + " (2 - 1) + sqr(4)"
    ensures |s| == 34 && s[0] == '1' && s[1] == ' ' && s[2] == '+' && s[3] == ' ' && s[4] == '3' && s[5] == ' ' && s[6] == '*' && s[7] == ' ' && s[8] == '(' && s[9] == '4' && s[10] == ' ' && s[11] == '-' && s[12] == ' ' && s[13] == '2' && s[14] == ')' && s[15] == ' ' && s[16] == '/' && s[17] == ' ' && s[18] == '(' && s[19] == '2' && s[20] == ' ' && s[21] == '-' && s[22] == ' ' && s[23] == '1' && s[24] == ')' && s[25] == ' ' && s[26] == '+' && s[27] == ' ' && s[28] == 's' && s[29] == 'q' && s[30] == 'r' && s[31] == '(' && s[32] == '4' && s[33] == ')'
  {
  }

  /** The sample's tokens, chunk by chunk, last chunk first. */
  lemma LexSourceSampleChars(s: string)
    requires |s| == 34 && s[0] == '1' && s[1] == ' ' && s[2] == '+' && s[3] == ' ' && s[4] == '3' && s[5] == ' ' && s[6] == '*' && s[7] == ' ' && s[8] == '(' && s[9] == '4' && s[10] == ' ' && s[11] == '-' && s[12] == ' ' && s[13] == '2' && s[14] == ')' && s[15] == ' ' && s[16] == '/' && s[17] == ' ' && s[18] == '(' && s[19] == '2' && s[20] == ' ' && s[21] == '-' && s[22] == ' ' && s[23] == '1' && s[24] == ')' && s[25] == ' ' && s[26] == '+' && s[27] == ' ' && s[28] == 's' && s[29] == 'q' && s[30] == 'r' && s[31] == '(' && s[32] == '4' && s[33] == ')'
    ensures LexFrom(s, 0) == [Number(1), Plus, Number(3)] + ([Multiply, OpeningBracket, Number(4), Minus] + ([Number(2), ClosingBracket, Divide] + ([OpeningBracket, Number(2), Minus, Number(1)] + ([ClosingBracket, Plus, Sqr] + ([OpeningBracket, Number(4), ClosingBracket])))))
  {
    LexSourceSampleFrom30(s);
    LexSourceSampleFrom24(s);
    LexSourceSampleFrom18(s);
    LexSourceSampleFrom12(s);
    LexSourceSampleFrom6(s);
    LexSourceSampleFrom0(s);
  }

  lemma LexSourceSampleFrom0(s: string)
    requires |s| == 34 && s[0] == '1' && s[1] == ' ' && s[2] == '+' && s[3] == ' ' && s[4] == '3' && s[5] == ' ' && s[6] == '*'
    ensures LexFrom(s, 0) == [Number(1), Plus, Number(3)] + LexFrom(s, 6)
  {
    LexSkipAt(s, 5);
    LexDigitAt(s, 4);
    LexSkipAt(s, 3);
    LexTokenAt(s, 2, Plus);
    LexSkipAt(s, 1);
    LexDigitAt(s, 0);
  }

  lemma LexSourceSampleFrom6(s: string)
    requires |s| == 34 && s[6] == '*' && s[7] == ' ' && s[8] == '(' && s[9] == '4' && s[10] == ' ' && s[11] == '-' && s[12] == ' '
    ensures LexFrom(s, 6) == [Multiply, OpeningBracket, Number(4), Minus] + LexFrom(s, 12)
  {
    LexTokenAt(s, 11, Minus);
    LexSkipAt(s, 10);
    LexDigitAt(s, 9);
    LexTokenAt(s, 8, OpeningBracket);
    LexSkipAt(s, 7);
    LexTokenAt(s, 6, Multiply);
  }

  lemma LexSourceSampleFrom12(s: string)
    requires |s| == 34 && s[12] == ' ' && s[13] == '2' && s[14] == ')' && s[15] == ' ' && s[16] == '/' && s[17] == ' ' && s[18] == '('
    ensures LexFrom(s, 12) == [Number(2), ClosingBracket, Divide] + LexFrom(s, 18)
  {
    LexSkipAt(s, 17);
    LexTokenAt(s, 16, Divide);
    LexSkipAt(s, 15);
    LexTokenAt(s, 14, ClosingBracket);
    LexDigitAt(s, 13);
    LexSkipAt(s, 12);
  }

  lemma LexSourceSampleFrom18(s: string)
    requires |s| == 34 && s[18] == '(' && s[19] == '2' && s[20] == ' ' && s[21] == '-' && s[22] == ' ' && s[23] == '1' && s[24] == ')'
    ensures LexFrom(s, 18) == [OpeningBracket, Number(2), Minus, Number(1)] + LexFrom(s, 24)
  {
    LexDigitAt(s, 23);
    LexSkipAt(s, 22);
    LexTokenAt(s, 21, Minus);
    LexSkipAt(s, 20);
    LexDigitAt(s, 19);
    LexTokenAt(s, 18, OpeningBracket);
  }

  lemma LexSourceSampleFrom24(s: string)
    requires |s| == 34 && s[24] == ')' && s[25] == ' ' && s[26] == '+' && s[27] == ' ' && s[28] == 's' && s[29] == 'q' && s[30] == 'r'
    ensures LexFrom(s, 24) == [ClosingBracket, Plus, Sqr] + LexFrom(s, 30)
  {
    LexLetterAt(s, 29);
    LexTokenAt(s, 28, Sqr);
    LexSkipAt(s, 27);
    LexTokenAt(s, 26, Plus);
    LexSkipAt(s, 25);
    LexTokenAt(s, 24, ClosingBracket);
  }

  lemma LexSourceSampleFrom30(s: string)
    requires |s| == 34 && s[30] == 'r' && s[31] == '(' && s[32] == '4' && s[33] == ')'
    ensures LexFrom(s, 30) == [OpeningBracket, Number(4), ClosingBracket]
  {
    LexTokenAt(s, 33, ClosingBracket);
    LexDigitAt(s, 32);
    LexTokenAt(s, 31, OpeningBracket);
    LexLetterAt(s, 30);
  }

  /** The tokens of the sample, with the product `3 * (4 - 2) / (2 - 1)` from position 2 to 15. */
  predicate IsSampleTokens(ts: seq<Token>) {
    ts == [Number(1), Plus, Number(3), Multiply, OpeningBracket, Number(4), Minus, Number(2), ClosingBracket,
           Divide, OpeningBracket, Number(2), Minus, Number(1), ClosingBracket, Plus, Sqr, OpeningBracket,
           Number(4), ClosingBracket]
  }

  /** In the sample, after `3 * (4 - 2)` the term goes on with `/ (2 - 1)` and ends before the second `+`. */
  lemma SampleTermTail(ts: seq<Token>)
    requires IsSampleTokens(ts)
    ensures TermLoop(ts, Binary(MultiplyOp, Constant(3), Binary(Subtract, Constant(4), Constant(2))), 9)
         == Success(Parsed(Binary(DivideOp, Binary(MultiplyOp, Constant(3), Binary(Subtract, Constant(4), Constant(2))), Binary(Subtract, Constant(2), Constant(1))), 15))
  {
    var diff2 := Binary(Subtract, Constant(2), Constant(1));
    var product := Binary(MultiplyOp, Constant(3), Binary(Subtract, Constant(4), Constant(2)));
    var quotient := Binary(DivideOp, product, diff2);
    assert At(ts, 10, Unparse(diff2));
    FactorUnparse(ts, 10, diff2);
    assert TermLoop(ts, quotient, 15) == Success(Parsed(quotient, 15));
  }

  lemma SampleTermHead(ts: seq<Token>)
    requires IsSampleTokens(ts)
    ensures TermLoop(ts, Constant(3), 3) == TermLoop(ts, Binary(MultiplyOp, Constant(3), Binary(Subtract, Constant(4), Constant(2))), 9)
  {
    var diff1 := Binary(Subtract, Constant(4), Constant(2));
    assert At(ts, 4, Unparse(diff1));
    FactorUnparse(ts, 4, diff1);
  }

  /** In the sample, `3 * (4 - 2) / (2 - 1)` is one term, grouped from the left. */
  lemma SampleTerm(ts: seq<Token>)
    requires IsSampleTokens(ts)
    ensures Term(ts, 2) == Success(Parsed(Binary(DivideOp, Binary(MultiplyOp, Constant(3), Binary(Subtract, Constant(4), Constant(2))), Binary(Subtract, Constant(2), Constant(1))), 15))
  {
    SampleTermHead(ts);
    SampleTermTail(ts);
    assert Factor(ts, 2) == Success(Parsed(Constant(3), 3));
  }

  /** The tokens of the sample parse into `(1 + 3 * (4 - 2) / (2 - 1)) + sqr(4)`, whose value is 23. */
  lemma SourceSampleTokensAre23(ts: seq<Token>)
    requires IsSampleTokens(ts)
    ensures Parse(ts) == Success(Binary(Sum, Binary(Sum, Constant(1), Binary(DivideOp, Binary(MultiplyOp, Constant(3), Binary(Subtract, Constant(4), Constant(2))), Binary(Subtract, Constant(2), Constant(1)))), SqrOp(Constant(4))))
    ensures Eval(Parse(ts).value) == Success(23)
  {
    var diff1 := Binary(Subtract, Constant(4), Constant(2));
    var diff2 := Binary(Subtract, Constant(2), Constant(1));
    var square := SqrOp(Constant(4));
    var product := Binary(MultiplyOp, Constant(3), diff1);
    var quotient := Binary(DivideOp, product, diff2);
    var left := Binary(Sum, Constant(1), quotient);
    var whole := Binary(Sum, left, square);
    SampleTerm(ts);
    assert At(ts, 16, Unparse(square));
    FactorUnparse(ts, 16, square);
    FactorIsWholeExpression(ts, 16, square, 20);
    assert Term(ts, 0) == Success(Parsed(Constant(1), 1));
    assert ExpressionLoop(ts, whole, 20) == Success(Parsed(whole, 20));
    assert ExpressionLoop(ts, left, 15) == Success(Parsed(whole, 20));
    assert ExpressionLoop(ts, Constant(1), 1) == Success(Parsed(whole, 20));
    assert Parse(ts) == Success(whole);
    assert Eval(product) == Success(6);
    assert Eval(quotient) == Success(6);
  }

  /** The sample of the source's `main`: `1 + 3 * (4 - 2) / (2 - 1) + sqr(4)` is 23. */
  lemma SourceSampleIs23(s: string)
    requires s == "1 + 3 * (4 - 2) /" + " (2 - 1) + sqr(4)"
    ensures Calculation(s) == Success(23)
  {
    LexSourceSample(s);
    SourceSampleTokensAre23(Lex(s));
  }

  /** Tokens of `9 - 3 - 2`. */
  lemma LexNineMinusThreeMinusTwo(s: string)
    requires s == "9 - 3 - 2"
    ensures Lex(s) == [Number(9), Minus, Number(3), Minus, Number(2)]
  {
    LexNineMinusThreeMinusTwoChars(s);
  }

  lemma LexNineMinusThreeMinusTwoChars(s: string)
    requires |s| == 9 && s[0] == '9' && s[1] == ' ' && s[2] == '-' && s[3] == ' ' && s[4] == '3' && s[5] == ' ' && s[6] == '-' && s[7] == ' ' && s[8] == '2'
    ensures LexFrom(s, 0) == [Number(9), Minus, Number(3)] + ([Minus, Number(2)])
  {
    LexNineMinusThreeMinusTwoFrom6(s);
    LexNineMinusThreeMinusTwoFrom0(s);
  }

  lemma LexNineMinusThreeMinusTwoFrom0(s: string)
    requires |s| == 9 && s[0] == '9' && s[1] == ' ' && s[2] == '-' && s[3] == ' ' && s[4] == '3' && s[5] == ' ' && s[6] == '-'
    ensures LexFrom(s, 0) == [Number(9), Minus, Number(3)] + LexFrom(s, 6)
  {
    LexSkipAt(s, 5);
    LexDigitAt(s, 4);
    LexSkipAt(s, 3);
    LexTokenAt(s, 2, Minus);
    LexSkipAt(s, 1);
    LexDigitAt(s, 0);
  }

  lemma LexNineMinusThreeMinusTwoFrom6(s: string)
    requires |s| == 9 && s[6] == '-' && s[7] == ' ' && s[8] == '2'
    ensures LexFrom(s, 6) == [Minus, Number(2)]
  {
    LexDigitAt(s, 8);
    LexSkipAt(s, 7);
    LexTokenAt(s, 6, Minus);
  }

  /** Left associativity in the text: `9 - 3 - 2` is 4, not 8. */
  lemma SubtractionChain(s: string)
    requires s == "9 - 3 - 2"
    ensures Calculation(s) == Success(4)
  {
    LexNineMinusThreeMinusTwo(s);
    SubtractionIsLeftAssociative(9, 3, 2);
  }

  /** Tokens of `2 + 3 * 4`. */
  lemma LexTwoPlusThreeTimesFour(s: string)
    requires s == "2 + 3 * 4"
    ensures Lex(s) == [Number(2), Plus, Number(3), Multiply, Number(4)]
  {
    LexTwoPlusThreeTimesFourChars(s);
  }

  lemma LexTwoPlusThreeTimesFourChars(s: string)
    requires |s| == 9 && s[0] == '2' && s[1] == ' ' && s[2] == '+' && s[3] == ' ' && s[4] == '3' && s[5] == ' ' && s[6] == '*' && s[7] == ' ' && s[8] == '4'
    ensures LexFrom(s, 0) == [Number(2), Plus, Number(3)] + ([Multiply, Number(4)])
  {
    LexTwoPlusThreeTimesFourFrom6(s);
    LexTwoPlusThreeTimesFourFrom0(s);
  }

  lemma LexTwoPlusThreeTimesFourFrom0(s: string)
    requires |s| == 9 && s[0] == '2' && s[1] == ' ' && s[2] == '+' && s[3] == ' ' && s[4] == '3' && s[5] == ' ' && s[6] == '*'
    ensures LexFrom(s, 0) == [Number(2), Plus, Number(3)] + LexFrom(s, 6)
  {
    LexSkipAt(s, 5);
    LexDigitAt(s, 4);
    LexSkipAt(s, 3);
    LexTokenAt(s, 2, Plus);
    LexSkipAt(s, 1);
    LexDigitAt(s, 0);
  }

  lemma LexTwoPlusThreeTimesFourFrom6(s: string)
    requires |s| == 9 && s[6] == '*' && s[7] == ' ' && s[8] == '4'
    ensures LexFrom(s, 6) == [Multiply, Number(4)]
  {
    LexDigitAt(s, 8);
    LexSkipAt(s, 7);
    LexTokenAt(s, 6, Multiply);
  }

  /** Tokens of `(2 + 3) * 4`. */
  lemma LexBracketedSumTimesFour(s: string)
    requires s == "(2 + 3) * 4"
    ensures Lex(s) == [OpeningBracket, Number(2), Plus, Number(3), ClosingBracket, Multiply, Number(4)]
  {
    LexBracketedSumTimesFourChars(s);
  }

  lemma LexBracketedSumTimesFourChars(s: string)
    requires |s| == 11 && s[0] == '(' && s[1] == '2' && s[2] == ' ' && s[3] == '+' && s[4] == ' ' && s[5] == '3' && s[6] == ')' && s[7] == ' ' && s[8] == '*' && s[9] == ' ' && s[10] == '4'
    ensures LexFrom(s, 0) == [OpeningBracket, Number(2), Plus, Number(3)] + ([ClosingBracket, Multiply, Number(4)])
  {
    LexBracketedSumTimesFourFrom6(s);
    LexBracketedSumTimesFourFrom0(s);
  }

  lemma LexBracketedSumTimesFourFrom0(s: string)
    requires |s| == 11 && s[0] == '(' && s[1] == '2' && s[2] == ' ' && s[3] == '+' && s[4] == ' ' && s[5] == '3' && s[6] == ')'
    ensures LexFrom(s, 0) == [OpeningBracket, Number(2), Plus, Number(3)] + LexFrom(s, 6)
  {
    LexDigitAt(s, 5);
    LexSkipAt(s, 4);
    LexTokenAt(s, 3, Plus);
    LexSkipAt(s, 2);
    LexDigitAt(s, 1);
    LexTokenAt(s, 0, OpeningBracket);
  }

  lemma LexBracketedSumTimesFourFrom6(s: string)
    requires |s| == 11 && s[6] == ')' && s[7] == ' ' && s[8] == '*' && s[9] == ' ' && s[10] == '4'
    ensures LexFrom(s, 6) == [ClosingBracket, Multiply, Number(4)]
  {
    LexDigitAt(s, 10);
    LexSkipAt(s, 9);
    LexTokenAt(s, 8, Multiply);
    LexSkipAt(s, 7);
    LexTokenAt(s, 6, ClosingBracket);
  }

  /** Precedence in the text: `2 + 3 * 4` is 14, and brackets override it: `(2 + 3) * 4` is 20. */
  lemma Precedence(s: string, t: string)
    requires s == "2 + 3 * 4" && t == "(2 + 3) * 4"
    ensures Calculation(s) == Success(14)
    ensures Calculation(t) == Success(20)
  {
    LexTwoPlusThreeTimesFour(s);
    MultiplicationBindsTighter(2, 3, 4);
    LexBracketedSumTimesFour(t);
    var ts := [OpeningBracket, Number(2), Plus, Number(3), ClosingBracket, Multiply, Number(4)];
    var sum := Binary(Sum, Constant(2), Constant(3));
    var product := Binary(MultiplyOp, sum, Constant(4));
    assert At(ts, 0, Unparse(sum));
    FactorUnparse(ts, 0, sum);
    assert Factor(ts, 6) == Success(Parsed(Constant(4), 7));
    assert TermLoop(ts, product, 7) == Success(Parsed(product, 7));
    assert TermLoop(ts, sum, 5) == Success(Parsed(product, 7));
    assert Term(ts, 0) == Success(Parsed(product, 7));
    assert ExpressionLoop(ts, product, 7) == Success(Parsed(product, 7));
  }

  /** Tokens of `-7`. */
  lemma LexMinusSeven(s: string)
    requires s == "-7"
    ensures Lex(s) == [Minus, Number(7)]
  {
    LexDigitAt(s, 1);
    LexTokenAt(s, 0, Minus);
  }
  /** Tokens of `(-7)`. */
  lemma LexBracketedMinusSeven(s: string)
    requires s == "(-7)"
    ensures Lex(s) == [OpeningBracket, Minus, Number(7), ClosingBracket]
  {
    LexTokenAt(s, 3, ClosingBracket);
    LexDigitAt(s, 2);
    LexTokenAt(s, 1, Minus);
    LexTokenAt(s, 0, OpeningBracket);
  }
  /** Tokens of `-7 / 2`. */
  lemma LexMinusSevenDividedByTwo(s: string)
    requires s == "-7 / 2"
    ensures Lex(s) == [Minus, Number(7), Divide, Number(2)]
  {
    LexDigitAt(s, 5);
    LexSkipAt(s, 4);
    LexTokenAt(s, 3, Divide);
    LexSkipAt(s, 2);
    LexDigitAt(s, 1);
    LexTokenAt(s, 0, Minus);
  }

  /**
   * Negative literals are rejected, because the unary minus leaves the cursor on the number:
   * `-7` and `-7 / 2` end with unread tokens, and in `(-7)` a `7` stands where `)` is expected.
   */
  lemma NegativeLiteralsRejected(s: string, t: string, u: string)
    requires s == "-7" && t == "(-7)" && u == "-7 / 2"
    ensures Calculation(s) == Failure(TrailingTokens)
    ensures Calculation(t) == Failure(MissingClosingBracket)
    ensures Calculation(u) == Failure(TrailingTokens)
  {
    LexMinusSeven(s);
    LexBracketedMinusSeven(t);
    NegativeLiteralRejected(7);
    LexMinusSevenDividedByTwo(u);
    var ts := [Minus, Number(7), Divide, Number(2)];
    MinusNumberKeepsCursorOnNumber(ts, 0);
    FactorIsWholeExpression(ts, 0, Binary(Subtract, Constant(0), Constant(7)), 1);
  }

  /** Tokens of `-(5)`. */
  lemma LexMinusBracketedFive(s: string)
    requires s == "-(5)"
    ensures Lex(s) == [Minus, OpeningBracket, Number(5), ClosingBracket]
  {
    LexTokenAt(s, 3, ClosingBracket);
    LexDigitAt(s, 2);
    LexTokenAt(s, 1, OpeningBracket);
    LexTokenAt(s, 0, Minus);
  }

  /** Tokens of `-(5) 3`. */
  lemma LexMinusBracketedFiveThree(s: string)
    requires s == "-(5) 3"
    ensures Lex(s) == [Minus, OpeningBracket, Number(5), ClosingBracket, Number(3)]
  {
    LexDigitAt(s, 5);
    LexSkipAt(s, 4);
    LexTokenAt(s, 3, ClosingBracket);
    LexDigitAt(s, 2);
    LexTokenAt(s, 1, OpeningBracket);
    LexTokenAt(s, 0, Minus);
  }

  /** Tokens of `--5`. */
  lemma LexDoubleMinusFive(s: string)
    requires s == "--5"
    ensures Lex(s) == [Minus, Minus, Number(5)]
  {
    LexDigitAt(s, 2);
    LexTokenAt(s, 1, Minus);
    LexTokenAt(s, 0, Minus);
  }

  /**
   * A unary minus before anything but a number subtracts the term that follows the factor:
   * `-(5)` ends where that term should begin, `-(5) 3` is `5 - 3`, and `--5` is `(0 - 5) - 5`.
   */
  lemma UnaryMinusBeforeNonNumber(s: string, t: string, u: string)
    requires s == "-(5)" && t == "-(5) 3" && u == "--5"
    ensures Calculation(s) == Failure(UnexpectedEnd)
    ensures Calculation(t) == Success(2)
    ensures Calculation(u) == Success(-10)
  {
    LexMinusBracketedFive(s);
    LexMinusBracketedFiveThree(t);
    LexDoubleMinusFive(u);
    MinusBeforeNonNumberExamples();
  }

  /** Tokens of `(1 + 2`. */
  lemma LexUnclosed(s: string)
    requires s == "(1 + 2"
    ensures Lex(s) == [OpeningBracket, Number(1), Plus, Number(2)]
  {
    LexDigitAt(s, 5);
    LexSkipAt(s, 4);
    LexTokenAt(s, 3, Plus);
    LexSkipAt(s, 2);
    LexDigitAt(s, 1);
    LexTokenAt(s, 0, OpeningBracket);
  }

  /** Tokens of `1 + 2)`. */
  lemma LexUnopened(s: string)
    requires s == "1 + 2)"
    ensures Lex(s) == [Number(1), Plus, Number(2), ClosingBracket]
  {
    LexTokenAt(s, 5, ClosingBracket);
    LexDigitAt(s, 4);
    LexSkipAt(s, 3);
    LexTokenAt(s, 2, Plus);
    LexSkipAt(s, 1);
    LexDigitAt(s, 0);
  }

  /** An unterminated group and an unmatched `)` are both rejected. */
  lemma UnbalancedBrackets(s: string, t: string)
    requires s == "(1 + 2" && t == "1 + 2)"
    ensures Calculation(s) == Failure(MissingClosingBracket)
    ensures Calculation(t) == Failure(TrailingTokens)
  {
    var sum := Binary(Sum, Constant(1), Constant(2));
    LexUnclosed(s);
    var ts := [OpeningBracket, Number(1), Plus, Number(2)];
    assert Term(ts, 1) == Success(Parsed(Constant(1), 2));
    FactorIsWholeExpression(ts, 3, Constant(2), 4);
    assert ExpressionLoop(ts, sum, 4) == Success(Parsed(sum, 4));
    assert ExpressionLoop(ts, Constant(1), 2) == Success(Parsed(sum, 4));
    BracketErrors(ts, 0);
    assert Term(ts, 0) == Failure(MissingClosingBracket);
    LexUnopened(t);
    var us := [Number(1), Plus, Number(2), ClosingBracket];
    assert Term(us, 0) == Success(Parsed(Constant(1), 1));
    FactorIsWholeExpression(us, 2, Constant(2), 3);
    assert ExpressionLoop(us, sum, 3) == Success(Parsed(sum, 3));
    assert ExpressionLoop(us, Constant(1), 1) == Success(Parsed(sum, 3));
  }
}
