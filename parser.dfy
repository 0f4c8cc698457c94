/**
 * The recursive-descent parser of W3-1.cpp: `ParseExpression`, `ParseTerm` and `ParseFactor`,
 * which share the cursor `pos`.  The functions `Expression`, `Term` and `Factor` (with the
 * loops of the first two written as `ExpressionLoop` and `TermLoop`) are the specification:
 * from a cursor they give the tree and the cursor after it, or the error thrown.  The methods
 * are the source's loops, each proved equal to its function.
 *
 * Termination: `Expression` calls `Term` and `Term` calls `Factor` at the same cursor, and
 * `Factor` re-enters `Expression` or `Factor` only after consuming a token, so the pair
 * (tokens left, rank) decreases, with ranks Expression 2, Term 1, Factor and the loops 0.
 */
module Parser {
  import opened Wrappers
  import opened Expressions
  import opened Lexer

  /** A parsed tree and the cursor just after it. */
  datatype Parsed = Parsed(tree: Expr, pos: nat)

  /** `Expression := Term { ('+' | '-') Term }` */
  function Expression(ts: seq<Token>, pos: nat): (r: Result<Parsed, Error>)
    requires pos <= |ts|
    ensures r.Success? ==> pos < r.value.pos <= |ts|
    decreases |ts| - pos, 2
  {
    var first :- Term(ts, pos);
    ExpressionLoop(ts, first.tree, first.pos)
  }

  /** The `while` loop of `ParseExpression`, folding to the left into `acc`. */
  function ExpressionLoop(ts: seq<Token>, acc: Expr, pos: nat): (r: Result<Parsed, Error>)
    requires pos <= |ts|
    ensures r.Success? ==> pos <= r.value.pos <= |ts|
    decreases |ts| - pos, 0
  {
    if pos < |ts| && ts[pos].Plus? then
      var next :- Term(ts, pos + 1);
      ExpressionLoop(ts, Binary(Sum, acc, next.tree), next.pos)
    else if pos < |ts| && ts[pos].Minus? then
      var next :- Term(ts, pos + 1);
      ExpressionLoop(ts, Binary(Subtract, acc, next.tree), next.pos)
    else
      Success(Parsed(acc, pos))
  }

  /** `Term := Factor { ('*' | '/' | '%') Factor }` */
  function Term(ts: seq<Token>, pos: nat): (r: Result<Parsed, Error>)
    requires pos <= |ts|
    ensures r.Success? ==> pos < r.value.pos <= |ts|
    decreases |ts| - pos, 1
  {
    var first :- Factor(ts, pos);
    TermLoop(ts, first.tree, first.pos)
  }

  /** The multiplicative operator a token stands for, if any. */
  function MultiplicativeOp(t: Token): (op: Option<BinOp>)
    ensures op.Some? <==> t.Divide? || t.Modulo? || t.Multiply?
  {
    if t.Divide? then Some(DivideOp)
    else if t.Modulo? then Some(ModuloOp)
    else if t.Multiply? then Some(MultiplyOp)
    else None
  }

  /** The `while` loop of `ParseTerm`, folding to the left into `acc`. */
  function TermLoop(ts: seq<Token>, acc: Expr, pos: nat): (r: Result<Parsed, Error>)
    requires pos <= |ts|
    ensures r.Success? ==> pos <= r.value.pos <= |ts|
    decreases |ts| - pos, 0
  {
    if pos < |ts| && MultiplicativeOp(ts[pos]).Some? then
      var next :- Factor(ts, pos + 1);
      TermLoop(ts, Binary(MultiplicativeOp(ts[pos]).value, acc, next.tree), next.pos)
    else
      Success(Parsed(acc, pos))
  }

  /**
   * `ParseFactor`.  A `-` directly before a number yields `0 - n` and leaves the cursor ON the
   * number; any other `-` yields `Factor - Term`, the factor parsed first.
   */
  function Factor(ts: seq<Token>, pos: nat): (r: Result<Parsed, Error>)
    requires pos <= |ts|
    ensures r.Success? ==> pos < r.value.pos <= |ts|
    decreases |ts| - pos, 0
  {
    if pos >= |ts| then Failure(UnexpectedEnd)
    else match ts[pos]
      case Number(n) => Success(Parsed(Constant(n), pos + 1))
      case OpeningBracket =>
        var inner :- Expression(ts, pos + 1);
        if inner.pos >= |ts| || !ts[inner.pos].ClosingBracket? then Failure(MissingClosingBracket)
        else Success(Parsed(inner.tree, inner.pos + 1))
      case Plus => Factor(ts, pos + 1)
      case Minus =>
        if pos + 1 < |ts| && ts[pos + 1].Number? then
          Success(Parsed(Binary(Subtract, Constant(0), Constant(ts[pos + 1].value)), pos + 1))
        else
          var left :- Factor(ts, pos + 1);
          var right :- Term(ts, left.pos);
          Success(Parsed(Binary(Subtract, left.tree, right.tree), right.pos))
      case Divide => Failure(UnexpectedToken)
      case Modulo => Failure(UnexpectedToken)
      case Multiply => Failure(UnexpectedToken)
      case Sqr =>
        if pos + 1 >= |ts| || !ts[pos + 1].OpeningBracket? then Failure(MissingSqrOpening)
        else
          var inner :- Expression(ts, pos + 2);
          if inner.pos >= |ts| || !ts[inner.pos].ClosingBracket? then Failure(MissingSqrClosing)
          else Success(Parsed(SqrOp(inner.tree), inner.pos + 1))
      case _ => Failure(UnexpectedToken)
  }

  /**
   * The top level of `Calculate(string_view)`: one expression that must use up every token. An
   * empty input has no expression; an expression that stops early leaves trailing tokens.
   */
  function Parse(ts: seq<Token>): (r: Result<Expr, Error>)
    ensures ts == [] ==> r == Failure(UnexpectedEnd)
    ensures r.Success? <==> Expression(ts, 0).Success? && Expression(ts, 0).value.pos == |ts|
    ensures r.Success? ==> r.value == Expression(ts, 0).value.tree
    ensures Expression(ts, 0).Failure? ==> r == Failure(Expression(ts, 0).error)
    ensures Expression(ts, 0).Success? && Expression(ts, 0).value.pos < |ts| ==> r == Failure(TrailingTokens)
  {
    assert ts == [] ==> Term(ts, 0) == Failure(UnexpectedEnd);
    var whole :- Expression(ts, 0);
    if whole.pos != |ts| then Failure(TrailingTokens) else Success(whole.tree)
  }

  method ParseExpression(tokens: seq<Token>, start: nat) returns (r: Result<Parsed, Error>)
    requires start <= |tokens|
    ensures r == Expression(tokens, start)
    decreases |tokens| - start, 2
  {
    var first := ParseTerm(tokens, start);
    if first.Failure? {
      return first;
    }
    var expression, pos := first.value.tree, first.value.pos;
    while pos < |tokens|
      invariant start < pos <= |tokens|
      invariant ExpressionLoop(tokens, expression, pos) == Expression(tokens, start)
    {
      if tokens[pos].Plus? {
        var next := ParseTerm(tokens, pos + 1);
        if next.Failure? {
          return next;
        }
        expression, pos := Binary(Sum, expression, next.value.tree), next.value.pos;
      } else if tokens[pos].Minus? {
        var next := ParseTerm(tokens, pos + 1);
        if next.Failure? {
          return next;
        }
        expression, pos := Binary(Subtract, expression, next.value.tree), next.value.pos;
      } else {
        break;
      }
    }
    return Success(Parsed(expression, pos));
  }

  method ParseTerm(tokens: seq<Token>, start: nat) returns (r: Result<Parsed, Error>)
    requires start <= |tokens|
    ensures r == Term(tokens, start)
    decreases |tokens| - start, 1
  {
    var first := ParseFactor(tokens, start);
    if first.Failure? {
      return first;
    }
    var expression, pos := first.value.tree, first.value.pos;
    while pos < |tokens|
      invariant start < pos <= |tokens|
      invariant TermLoop(tokens, expression, pos) == Term(tokens, start)
    {
      var op: BinOp;
      if tokens[pos].Divide? {
        op := DivideOp;
      } else if tokens[pos].Modulo? {
        op := ModuloOp;
      } else if tokens[pos].Multiply? {
        op := MultiplyOp;
      } else {
        break;
      }
      var next := ParseFactor(tokens, pos + 1);
      if next.Failure? {
        return next;
      }
      expression, pos := Binary(op, expression, next.value.tree), next.value.pos;
    }
    return Success(Parsed(expression, pos));
  }

  method ParseFactor(tokens: seq<Token>, start: nat) returns (r: Result<Parsed, Error>)
    requires start <= |tokens|
    ensures r == Factor(tokens, start)
    decreases |tokens| - start, 0
  {
    var pos := start;
    if pos >= |tokens| {
      return Failure(UnexpectedEnd);
    }
    var token := tokens[pos];
    if token.Number? {
      pos := pos + 1;
      return Success(Parsed(Constant(token.value), pos));
    } else if token.OpeningBracket? {
      pos := pos + 1;
      var inner := ParseExpression(tokens, pos);
      if inner.Failure? {
        return inner;
      }
      pos := inner.value.pos;
      if pos >= |tokens| || !tokens[pos].ClosingBracket? {
        return Failure(MissingClosingBracket);
      }
      pos := pos + 1;
      return Success(Parsed(inner.value.tree, pos));
    } else if token.Plus? {
      pos := pos + 1;
      r := ParseFactor(tokens, pos);
    } else if token.Minus? {
      if pos + 1 < |tokens| && tokens[pos + 1].Number? {
        pos := pos + 1;
        var number := tokens[pos].value;
        return Success(Parsed(Binary(Subtract, Constant(0), Constant(number)), pos));
      } else {
        pos := pos + 1;
        var left := ParseFactor(tokens, pos);
        if left.Failure? {
          return left;
        }
        var right := ParseTerm(tokens, left.value.pos);
        if right.Failure? {
          return right;
        }
        return Success(Parsed(Binary(Subtract, left.value.tree, right.value.tree), right.value.pos));
      }
    } else if token.Divide? || token.Modulo? || token.Multiply? {
      return Failure(UnexpectedToken);
    } else if token.Sqr? {
      pos := pos + 1;
      if pos >= |tokens| || !tokens[pos].OpeningBracket? {
        return Failure(MissingSqrOpening);
      }
      pos := pos + 1;
      var inner := ParseExpression(tokens, pos);
      if inner.Failure? {
        return inner;
      }
      pos := inner.value.pos;
      if pos >= |tokens| || !tokens[pos].ClosingBracket? {
        return Failure(MissingSqrClosing);
      }
      pos := pos + 1;
      return Success(Parsed(SqrOp(inner.value.tree), pos));
    } else {
      return Failure(UnexpectedToken);
    }
  }

  /** Tokens that continue an `Expression` or `Term` loop. */
  predicate IsOperator(t: Token) {
    t.Plus? || t.Minus? || t.Multiply? || t.Divide? || t.Modulo?
  }

  /** Tokens with which a factor can begin. */
  predicate StartsFactor(t: Token) {
    t.Number? || t.OpeningBracket? || t.Plus? || t.Minus? || t.Sqr?
  }

  /**
   * The failures of `ParseFactor`: at the end of the input, and on every token that cannot begin
   * a factor (a leading `*`, `/` or `%`, a `)`, and the `UnknownToken`, `MinToken` and `AbsToken`
   * that the lexer never produces).  Conversely a successful factor began with a token that can.
   */
  lemma FactorRejects(ts: seq<Token>, pos: nat)
    requires pos <= |ts|
    ensures pos == |ts| ==> Factor(ts, pos) == Failure(UnexpectedEnd)
    ensures pos < |ts| && !StartsFactor(ts[pos]) ==> Factor(ts, pos) == Failure(UnexpectedToken)
    ensures Factor(ts, pos).Success? ==> pos < |ts| && StartsFactor(ts[pos])
  {
  }

  /** A bracketed expression not followed by `)` fails; so does `s` without `(` ... `)` around an expression. */
  lemma BracketErrors(ts: seq<Token>, pos: nat)
    requires pos < |ts|
    ensures ts[pos].OpeningBracket? && Expression(ts, pos + 1).Success?
            && (Expression(ts, pos + 1).value.pos == |ts| || !ts[Expression(ts, pos + 1).value.pos].ClosingBracket?)
            ==> Factor(ts, pos) == Failure(MissingClosingBracket)
    ensures ts[pos].Sqr? && (pos + 1 == |ts| || !ts[pos + 1].OpeningBracket?)
            ==> Factor(ts, pos) == Failure(MissingSqrOpening)
    ensures ts[pos].Sqr? && pos + 1 < |ts| && ts[pos + 1].OpeningBracket? && Expression(ts, pos + 2).Success?
            && (Expression(ts, pos + 2).value.pos == |ts| || !ts[Expression(ts, pos + 2).value.pos].ClosingBracket?)
            ==> Factor(ts, pos) == Failure(MissingSqrClosing)
  {
  }

  /**
   * The unary minus before a number: the tree is `0 - n`, but the cursor is left ON the number,
   * so the number is read a second time by whatever follows.
   */
  lemma MinusNumberKeepsCursorOnNumber(ts: seq<Token>, pos: nat)
    requires pos + 1 < |ts| && ts[pos].Minus? && ts[pos + 1].Number?
    ensures Factor(ts, pos) == Success(Parsed(Binary(Subtract, Constant(0), Constant(ts[pos + 1].value)), pos + 1))
    ensures ts[Factor(ts, pos).value.pos] == ts[pos + 1]
  {
  }

  /**
   * The unary minus before anything but a number reads a factor and then a whole term, and
   * subtracts the term from the factor; a failure of either is the failure of the minus.
   */
  lemma MinusBeforeNonNumber(ts: seq<Token>, pos: nat)
    requires pos < |ts| && ts[pos].Minus? && !(pos + 1 < |ts| && ts[pos + 1].Number?)
    ensures Factor(ts, pos + 1).Failure? ==> Factor(ts, pos) == Failure(Factor(ts, pos + 1).error)
    ensures Factor(ts, pos + 1).Success? ==>
              var left := Factor(ts, pos + 1).value;
              var right := Term(ts, left.pos);
              Factor(ts, pos) == if right.Failure? then Failure(right.error)
                                 else Success(Parsed(Binary(Subtract, left.tree, right.value.tree), right.value.pos))
  {
  }

  /**
   * Instances of `MinusBeforeNonNumber`: `-(5)` has no term after the bracket, `-(5) 3` is
   * `5 - 3`, and in `--5` the inner minus leaves `5` to be read again, giving `(0 - 5) - 5`.
   */
  lemma MinusBeforeNonNumberExamples()
    ensures Parse([Minus, OpeningBracket, Number(5), ClosingBracket]) == Failure(UnexpectedEnd)
    ensures Parse([Minus, OpeningBracket, Number(5), ClosingBracket, Number(3)])
            == Success(Binary(Subtract, Constant(5), Constant(3)))
    ensures Parse([Minus, Minus, Number(5)])
            == Success(Binary(Subtract, Binary(Subtract, Constant(0), Constant(5)), Constant(5)))
  {
    var ts := [Minus, OpeningBracket, Number(5), ClosingBracket];
    FactorIsWholeExpression(ts, 2, Constant(5), 3);
    assert Factor(ts, 1) == Success(Parsed(Constant(5), 4));
    MinusBeforeNonNumber(ts, 0);
    assert Term(ts, 0) == Failure(UnexpectedEnd);
    var us := [Minus, OpeningBracket, Number(5), ClosingBracket, Number(3)];
    FactorIsWholeExpression(us, 2, Constant(5), 3);
    assert Factor(us, 1) == Success(Parsed(Constant(5), 4));
    FactorIsWholeExpression(us, 4, Constant(3), 5);
    MinusBeforeNonNumber(us, 0);
    FactorIsWholeExpression(us, 0, Binary(Subtract, Constant(5), Constant(3)), 5);
    var vs := [Minus, Minus, Number(5)];
    MinusNumberKeepsCursorOnNumber(vs, 1);
    FactorIsWholeExpression(vs, 2, Constant(5), 3);
    MinusBeforeNonNumber(vs, 0);
    FactorIsWholeExpression(vs, 0, Binary(Subtract, Binary(Subtract, Constant(0), Constant(5)), Constant(5)), 3);
  }

  /** Consequently a negative literal is rejected: `-7` leaves `7` behind, and `(-7)` finds `7` where `)` should be. */
  lemma NegativeLiteralRejected(n: int)
    ensures Parse([Minus, Number(n)]) == Failure(TrailingTokens)
    ensures Parse([OpeningBracket, Minus, Number(n), ClosingBracket]) == Failure(MissingClosingBracket)
  {
    var negated := Binary(Subtract, Constant(0), Constant(n));
    var ts := [Minus, Number(n)];
    MinusNumberKeepsCursorOnNumber(ts, 0);
    FactorIsWholeExpression(ts, 0, negated, 1);
    var us := [OpeningBracket, Minus, Number(n), ClosingBracket];
    MinusNumberKeepsCursorOnNumber(us, 1);
    FactorIsWholeExpression(us, 1, negated, 2);
    assert Factor(us, 0) == Failure(MissingClosingBracket);
    assert Term(us, 0) == Failure(MissingClosingBracket);
  }

  /** When a factor is followed by no operator, the enclosing term and expression are that factor. */
  lemma FactorIsWholeExpression(ts: seq<Token>, pos: nat, e: Expr, q: nat)
    requires pos <= |ts| && Factor(ts, pos) == Success(Parsed(e, q))
    requires q == |ts| || !IsOperator(ts[q])
    ensures Term(ts, pos) == Success(Parsed(e, q))
    ensures Expression(ts, pos) == Success(Parsed(e, q))
  {
  }

  /** `a - b - c` is `(a - b) - c`: both tiers fold to the left. */
  lemma SubtractionIsLeftAssociative(a: int, b: int, c: int)
    ensures Parse([Number(a), Minus, Number(b), Minus, Number(c)])
         == Success(Binary(Subtract, Binary(Subtract, Constant(a), Constant(b)), Constant(c)))
  {
    var ts := [Number(a), Minus, Number(b), Minus, Number(c)];
    var ab := Binary(Subtract, Constant(a), Constant(b));
    var abc := Binary(Subtract, ab, Constant(c));
    assert Term(ts, 0) == Success(Parsed(Constant(a), 1));
    assert Term(ts, 2) == Success(Parsed(Constant(b), 3));
    assert Term(ts, 4) == Success(Parsed(Constant(c), 5));
    assert ExpressionLoop(ts, abc, 5) == Success(Parsed(abc, 5));
    assert ExpressionLoop(ts, ab, 3) == Success(Parsed(abc, 5));
    assert ExpressionLoop(ts, Constant(a), 1) == Success(Parsed(abc, 5));
  }

  /** `a / b % c` is `(a / b) % c`. */
  lemma MultiplicativeIsLeftAssociative(a: int, b: int, c: int)
    ensures Parse([Number(a), Divide, Number(b), Modulo, Number(c)])
         == Success(Binary(ModuloOp, Binary(DivideOp, Constant(a), Constant(b)), Constant(c)))
  {
    var ts := [Number(a), Divide, Number(b), Modulo, Number(c)];
    var ab := Binary(DivideOp, Constant(a), Constant(b));
    var abc := Binary(ModuloOp, ab, Constant(c));
    assert Factor(ts, 0) == Success(Parsed(Constant(a), 1));
    assert Factor(ts, 2) == Success(Parsed(Constant(b), 3));
    assert Factor(ts, 4) == Success(Parsed(Constant(c), 5));
    assert TermLoop(ts, abc, 5) == Success(Parsed(abc, 5));
    assert TermLoop(ts, ab, 3) == Success(Parsed(abc, 5));
    assert TermLoop(ts, Constant(a), 1) == Success(Parsed(abc, 5));
    assert Term(ts, 0) == Success(Parsed(abc, 5));
    assert ExpressionLoop(ts, abc, 5) == Success(Parsed(abc, 5));
  }

  /** `*` binds tighter than `+`, on either side of it. */
  lemma MultiplicationBindsTighter(a: int, b: int, c: int)
    ensures Parse([Number(a), Plus, Number(b), Multiply, Number(c)])
         == Success(Binary(Sum, Constant(a), Binary(MultiplyOp, Constant(b), Constant(c))))
    ensures Parse([Number(a), Multiply, Number(b), Plus, Number(c)])
         == Success(Binary(Sum, Binary(MultiplyOp, Constant(a), Constant(b)), Constant(c)))
  {
    var ts := [Number(a), Plus, Number(b), Multiply, Number(c)];
    var bc := Binary(MultiplyOp, Constant(b), Constant(c));
    assert Term(ts, 0) == Success(Parsed(Constant(a), 1));
    assert Factor(ts, 2) == Success(Parsed(Constant(b), 3));
    assert Factor(ts, 4) == Success(Parsed(Constant(c), 5));
    assert TermLoop(ts, bc, 5) == Success(Parsed(bc, 5));
    assert TermLoop(ts, Constant(b), 3) == Success(Parsed(bc, 5));
    assert Term(ts, 2) == Success(Parsed(bc, 5));
    assert ExpressionLoop(ts, Binary(Sum, Constant(a), bc), 5) == Success(Parsed(Binary(Sum, Constant(a), bc), 5));
    assert ExpressionLoop(ts, Constant(a), 1) == Success(Parsed(Binary(Sum, Constant(a), bc), 5));

    var us := [Number(a), Multiply, Number(b), Plus, Number(c)];
    var ab := Binary(MultiplyOp, Constant(a), Constant(b));
    assert Factor(us, 0) == Success(Parsed(Constant(a), 1));
    assert Factor(us, 2) == Success(Parsed(Constant(b), 3));
    assert TermLoop(us, ab, 3) == Success(Parsed(ab, 3));
    assert TermLoop(us, Constant(a), 1) == Success(Parsed(ab, 3));
    assert Term(us, 0) == Success(Parsed(ab, 3));
    assert Term(us, 4) == Success(Parsed(Constant(c), 5));
    assert ExpressionLoop(us, Binary(Sum, ab, Constant(c)), 5) == Success(Parsed(Binary(Sum, ab, Constant(c)), 5));
    assert ExpressionLoop(us, ab, 3) == Success(Parsed(Binary(Sum, ab, Constant(c)), 5));
  }

  /** The token of a binary operator. */
  function OperatorToken(op: BinOp): (t: Token)
    ensures IsOperator(t)
    ensures MultiplicativeOp(t) == Some(op) <==> op in {MultiplyOp, DivideOp, ModuloOp}
  {
    match op
    case Sum => Plus
    case Subtract => Minus
    case MultiplyOp => Multiply
    case DivideOp => Divide
    case ModuloOp => Modulo
  }

  /** A fully bracketed token form of a tree: the inverse of the parser. */
  function Unparse(e: Expr): seq<Token>
  {
    match e
    case Constant(v) => [Number(v)]
    case Binary(op, left, right) => [OpeningBracket] + Unparse(left) + [OperatorToken(op)] + Unparse(right) + [ClosingBracket]
    case SqrOp(operand) => [Sqr, OpeningBracket] + Unparse(operand) + [ClosingBracket]
  }

  /** The tokens `u` stand in `ts` from `pos` on. */
  predicate At(ts: seq<Token>, pos: nat, u: seq<Token>) {
    pos + |u| <= |ts| && ts[pos..pos + |u|] == u
  }

  /** Tokens `a + u + b` standing at `pos`: each of the three parts stands at its own offset. */
  lemma AtSplit(ts: seq<Token>, pos: nat, a: seq<Token>, u: seq<Token>, b: seq<Token>)
    requires At(ts, pos, a + u + b)
    ensures At(ts, pos, a) && At(ts, pos + |a|, u) && At(ts, pos + |a| + |u|, b)
  {
    var whole := a + u + b;
    var p1, p2 := pos + |a|, pos + |a| + |u|;
    assert forall i :: 0 <= i < |whole| ==> ts[pos + i] == whole[i] by {
      forall i | 0 <= i < |whole|
        ensures ts[pos + i] == whole[i]
      {
        assert ts[pos..pos + |whole|][i] == ts[pos + i];
      }
    }
    forall i | 0 <= i < |a|
      ensures ts[pos..p1][i] == a[i]
    {
      assert whole[i] == a[i];
    }
    forall i | 0 <= i < |u|
      ensures ts[p1..p2][i] == u[i]
    {
      assert whole[|a| + i] == u[i];
    }
    forall i | 0 <= i < |b|
      ensures ts[p2..p2 + |b|][i] == b[i]
    {
      assert whole[|a| + |u| + i] == b[i];
    }
  }

  lemma AtSingle(ts: seq<Token>, pos: nat, t: Token)
    requires At(ts, pos, [t])
    ensures pos < |ts| && ts[pos] == t
  {
    assert ts[pos..pos + 1][0] == ts[pos];
  }

  /** `( left op right )` is read as one factor, whichever tier `op` belongs to. */
  lemma FactorBracketedBinary(ts: seq<Token>, pos: nat, op: BinOp, left: Expr, right: Expr, p1: nat, p2: nat)
    requires pos < p1 < p2 < |ts|
    requires ts[pos].OpeningBracket? && ts[p1] == OperatorToken(op) && ts[p2].ClosingBracket?
    requires Factor(ts, pos + 1) == Success(Parsed(left, p1))
    requires Factor(ts, p1 + 1) == Success(Parsed(right, p2))
    ensures Factor(ts, pos) == Success(Parsed(Binary(op, left, right), p2 + 1))
  {
    var e := Binary(op, left, right);
    if op in {MultiplyOp, DivideOp, ModuloOp} {
      assert TermLoop(ts, e, p2) == Success(Parsed(e, p2));
      assert TermLoop(ts, left, p1) == Success(Parsed(e, p2));
      assert Term(ts, pos + 1) == Success(Parsed(e, p2));
      assert ExpressionLoop(ts, e, p2) == Success(Parsed(e, p2));
    } else {
      assert TermLoop(ts, left, p1) == Success(Parsed(left, p1));
      assert Term(ts, pos + 1) == Success(Parsed(left, p1));
      FactorIsWholeExpression(ts, p1 + 1, right, p2);
      assert ExpressionLoop(ts, e, p2) == Success(Parsed(e, p2));
      assert ExpressionLoop(ts, left, p1) == Success(Parsed(e, p2));
    }
    assert Expression(ts, pos + 1) == Success(Parsed(e, p2));
  }

  /** Where `( ul t ur )` stands: the positions of its brackets, its middle token and its two parts. */
  lemma AtBracketed(ts: seq<Token>, pos: nat, ul: seq<Token>, t: Token, ur: seq<Token>)
    requires At(ts, pos, [OpeningBracket] + ul + [t] + ur + [ClosingBracket])
    ensures var p1 := pos + 1 + |ul|;
            var p2 := p1 + 1 + |ur|;
            && p2 < |ts| && ts[pos] == OpeningBracket && ts[p1] == t && ts[p2] == ClosingBracket
            && At(ts, pos + 1, ul) && At(ts, p1 + 1, ur)
  {
    var front := [OpeningBracket] + ul + [t];
    AtSplit(ts, pos, front, ur, [ClosingBracket]);
    AtSplit(ts, pos, [OpeningBracket], ul, [t]);
    AtSingle(ts, pos, OpeningBracket);
    AtSingle(ts, pos + 1 + |ul|, t);
    AtSingle(ts, pos + |front| + |ur|, ClosingBracket);
  }

  /** Where `s ( uo )` stands: the positions of its tokens and of `uo`. */
  lemma AtSquare(ts: seq<Token>, pos: nat, uo: seq<Token>)
    requires At(ts, pos, [Sqr, OpeningBracket] + uo + [ClosingBracket])
    ensures var q := pos + 2 + |uo|;
            && q < |ts| && ts[pos] == Sqr && ts[pos + 1] == OpeningBracket && ts[q] == ClosingBracket
            && At(ts, pos + 2, uo)
  {
    AtSplit(ts, pos, [Sqr, OpeningBracket], uo, [ClosingBracket]);
    AtSplit(ts, pos, [Sqr], [OpeningBracket], []);
    AtSingle(ts, pos, Sqr);
    AtSingle(ts, pos + 1, OpeningBracket);
    AtSingle(ts, pos + 2 + |uo|, ClosingBracket);
  }

  /** Wherever the tokens of `Unparse(e)` stand, `Factor` reads exactly them back as `e`. */
  lemma {:induction false} FactorUnparse(ts: seq<Token>, pos: nat, e: Expr)
    requires At(ts, pos, Unparse(e))
    ensures Factor(ts, pos) == Success(Parsed(e, pos + |Unparse(e)|))
    decreases e, 2
  {
    match e
    case Constant(v) =>
      AtSingle(ts, pos, Number(v));
    case Binary(op, left, right) =>
      var ul, ur := Unparse(left), Unparse(right);
      var p1 := pos + 1 + |ul|;
      var p2 := p1 + 1 + |ur|;
      FactorBracketedParts(ts, pos, op, left, right, ul, ur);
      FactorBracketedBinary(ts, pos, op, left, right, p1, p2);
    case SqrOp(operand) =>
      FactorUnparseSqr(ts, pos, operand);
  }

  /** In `( ul op ur )`, with `ul` and `ur` the bracketed forms of the operands, `Factor` reads each operand back. */
  lemma {:induction false} FactorBracketedParts(ts: seq<Token>, pos: nat, op: BinOp, left: Expr, right: Expr, ul: seq<Token>, ur: seq<Token>)
    requires ul == Unparse(left) && ur == Unparse(right)
    requires At(ts, pos, [OpeningBracket] + ul + [OperatorToken(op)] + ur + [ClosingBracket])
    ensures var p1 := pos + 1 + |ul|;
            var p2 := p1 + 1 + |ur|;
            && p2 < |ts| && ts[pos].OpeningBracket? && ts[p1] == OperatorToken(op) && ts[p2].ClosingBracket?
            && Factor(ts, pos + 1) == Success(Parsed(left, p1))
            && Factor(ts, p1 + 1) == Success(Parsed(right, p2))
    decreases Binary(op, left, right), 1
  {
    AtBracketed(ts, pos, ul, OperatorToken(op), ur);
    FactorBracketedLeft(ts, pos, op, left, right, ul, ur);
    FactorBracketedRight(ts, pos, op, left, right, ul, ur);
  }

  lemma {:induction false} FactorBracketedLeft(ts: seq<Token>, pos: nat, op: BinOp, left: Expr, right: Expr, ul: seq<Token>, ur: seq<Token>)
    requires ul == Unparse(left) && ur == Unparse(right)
    requires pos + 1 + |ul| < |ts| && At(ts, pos + 1, ul)
    ensures Factor(ts, pos + 1) == Success(Parsed(left, pos + 1 + |ul|))
    decreases Binary(op, left, right), 0
  {
    FactorUnparse(ts, pos + 1, left);
  }

  lemma {:induction false} FactorBracketedRight(ts: seq<Token>, pos: nat, op: BinOp, left: Expr, right: Expr, ul: seq<Token>, ur: seq<Token>)
    requires ul == Unparse(left) && ur == Unparse(right)
    requires pos + 1 + |ul| + 1 + |ur| < |ts| && At(ts, pos + 1 + |ul| + 1, ur)
    ensures Factor(ts, pos + 1 + |ul| + 1) == Success(Parsed(right, pos + 1 + |ul| + 1 + |ur|))
    decreases Binary(op, left, right), 0
  {
    FactorUnparse(ts, pos + 1 + |ul| + 1, right);
  }

  lemma {:induction false} FactorUnparseSqr(ts: seq<Token>, pos: nat, operand: Expr)
    requires At(ts, pos, Unparse(SqrOp(operand)))
    ensures Factor(ts, pos) == Success(Parsed(SqrOp(operand), pos + |Unparse(SqrOp(operand))|))
    decreases SqrOp(operand), 0
  {
    var q := pos + 2 + |Unparse(operand)|;
    AtSquare(ts, pos, Unparse(operand));
    FactorUnparse(ts, pos + 2, operand);
    FactorIsWholeExpression(ts, pos + 2, operand, q);
  }

  /** Round trip: parsing the bracketed form of any tree gives that tree. */
  lemma ParseUnparse(e: Expr)
    ensures Parse(Unparse(e)) == Success(e)
  {
    var u := Unparse(e);
    assert At(u, 0, u) by { assert u[0..|u|] == u; }
    FactorUnparse(u, 0, e);
    FactorIsWholeExpression(u, 0, e, |u|);
  }

  /** `a op b` with two numbers is the single binary node, for each of the five operators. */
  lemma ParseSingleOperation(a: int, op: BinOp, b: int)
    ensures Parse([Number(a), OperatorToken(op), Number(b)]) == Success(Binary(op, Constant(a), Constant(b)))
  {
    var ts := [Number(a), OperatorToken(op), Number(b)];
    var e := Binary(op, Constant(a), Constant(b));
    assert Factor(ts, 0) == Success(Parsed(Constant(a), 1));
    assert Factor(ts, 2) == Success(Parsed(Constant(b), 3));
    if op in {MultiplyOp, DivideOp, ModuloOp} {
      assert TermLoop(ts, e, 3) == Success(Parsed(e, 3));
      assert TermLoop(ts, Constant(a), 1) == Success(Parsed(e, 3));
      assert Term(ts, 0) == Success(Parsed(e, 3));
      assert ExpressionLoop(ts, e, 3) == Success(Parsed(e, 3));
    } else {
      assert TermLoop(ts, Constant(a), 1) == Success(Parsed(Constant(a), 1));
      assert Term(ts, 0) == Success(Parsed(Constant(a), 1));
      FactorIsWholeExpression(ts, 2, Constant(b), 3);
      assert ExpressionLoop(ts, e, 3) == Success(Parsed(e, 3));
      assert ExpressionLoop(ts, Constant(a), 1) == Success(Parsed(e, 3));
    }
  }
}
