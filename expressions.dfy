/**
 * The expression tree of the calculator (the `IExpression` hierarchy of W3-1.cpp) and its
 * evaluator (the `Calculate()` methods).  The tree is a value: every node owns its children and
 * nothing is shared, so a datatype replaces the heap-allocated polymorphic nodes.
 */
module Expressions {
  import opened Wrappers

  /** Every way a calculation can fail. All but the last are the parser's `WrongExpressionError`s. */
  datatype Error =
    | UnexpectedEnd            // "Unexpected end of expression"
    | MissingClosingBracket    // "Expected ')'"
    | MissingSqrOpening        // "Expected '(' after 'sqr'"
    | MissingSqrClosing        // "Expected ')' after expression inside 'sqr'"
    | UnexpectedToken          // "Unexpected token"
    | TrailingTokens           // "Unexpected token at the end of expression"
    | DivisionByZero           // not reported by the source: `/` and `%` by zero are undefined there

  /** The five subclasses of `IBinaryOperation`. */
  datatype BinOp = Sum | Subtract | MultiplyOp | DivideOp | ModuloOp

  datatype Expr =
    | Constant(value: int)
    | Binary(op: BinOp, left: Expr, right: Expr)
    | SqrOp(operand: Expr)

  function Abs(x: int): nat {
    if x < 0 then -x else x
  }

  /** C++ `lhs / rhs` on `int`: the quotient truncated toward zero. */
  function TruncDiv(a: int, b: int): (q: int)
    requires b != 0
    ensures Abs(q) == Abs(a) / Abs(b)
    ensures (a < 0) == (b < 0) ==> q >= 0
    ensures (a < 0) != (b < 0) ==> q <= 0
  {
    var n: int := NatDiv(Abs(a), Abs(b));
    if (a < 0) == (b < 0) then n else -n
  }

  /** Division of naturals, with the bounds Dafny's nonlinear arithmetic does not find alone. */
  function NatDiv(x: nat, y: nat): (n: nat)
    requires y > 0
    ensures n == x / y && n * y <= x < n * y + y
  {
    x / y
  }

  /** C++ `lhs % rhs` on `int`: the remainder takes the sign of the dividend. */
  function TruncMod(a: int, b: int): (m: int)
    requires b != 0
    ensures Abs(m) == Abs(a) % Abs(b)
    ensures a >= 0 ==> m >= 0
    ensures a < 0 ==> m <= 0
  {
    var n: int := NatMod(Abs(a), Abs(b));
    if a < 0 then -n else n
  }

  function NatMod(x: nat, y: nat): (n: nat)
    requires y > 0
    ensures n == x % y && n < y
  {
    x % y
  }

  /** The identity C++ guarantees for `/` and `%`: `(a / b) * b + a % b == a`, with `|a % b| < |b|`. */
  lemma DivModIdentity(a: int, b: int)
    requires b != 0
    ensures TruncDiv(a, b) * b + TruncMod(a, b) == a
    ensures Abs(TruncMod(a, b)) < Abs(b)
  {
    var q: int, m: int := NatDiv(Abs(a), Abs(b)), NatMod(Abs(a), Abs(b));
    assert q * Abs(b) + m == Abs(a);
    var d := if (a < 0) == (b < 0) then q else -q;
    var r := if a < 0 then -m else m;
    assert TruncDiv(a, b) == d && TruncMod(a, b) == r;
    assert d * b == if a < 0 then -(q * Abs(b)) else q * Abs(b);
  }

  /** `Operation(lhs, rhs)` of each binary node. */
  function Apply(op: BinOp, x: int, y: int): (r: Result<int, Error>)
    ensures r.Failure? <==> (op == DivideOp || op == ModuloOp) && y == 0
    ensures r.Failure? ==> r.error == DivisionByZero
  {
    match op
    case Sum => Success(x + y)
    case Subtract => Success(x - y)
    case MultiplyOp => Success(x * y)
    case DivideOp => if y == 0 then Failure(DivisionByZero) else Success(TruncDiv(x, y))
    case ModuloOp => if y == 0 then Failure(DivisionByZero) else Success(TruncMod(x, y))
  }

  /**
   * `Calculate()` of a node, post-order: a binary node evaluates its left child, then its right
   * child, then combines them; `SqrOp` evaluates its operand once and multiplies it by itself.
   * The only failure is a zero divisor, which the source leaves undefined.
   */
  function Eval(e: Expr): (r: Result<int, Error>)
    ensures r.Failure? ==> r.error == DivisionByZero
    ensures e.SqrOp? && r.Success? ==> r.value >= 0
  {
    match e
    case Constant(v) => Success(v)
    case Binary(op, left, right) =>
      var x :- Eval(left);
      var y :- Eval(right);
      Apply(op, x, y)
    case SqrOp(operand) =>
      var x :- Eval(operand);
      Success(x * x)
  }

  /** The tree divides or takes a remainder somewhere. */
  predicate HasDivision(e: Expr) {
    match e
    case Constant(_) => false
    case Binary(op, left, right) => op == DivideOp || op == ModuloOp || HasDivision(left) || HasDivision(right)
    case SqrOp(operand) => HasDivision(operand)
  }

  /** Without `/` and `%` evaluation never fails. */
  lemma {:induction false} EvalTotalWithoutDivision(e: Expr)
    requires !HasDivision(e)
    ensures Eval(e).Success?
  {
    match e
    case Constant(_) =>
    case Binary(_, left, right) =>
      EvalTotalWithoutDivision(left);
      EvalTotalWithoutDivision(right);
    case SqrOp(operand) =>
      EvalTotalWithoutDivision(operand);
  }

  /** A failing subtree makes the whole node fail: evaluation is all-or-nothing. */
  lemma {:induction false} EvalFailurePropagates(op: BinOp, left: Expr, right: Expr)
    requires Eval(left).Failure? || Eval(right).Failure?
    ensures Eval(Binary(op, left, right)) == Failure(DivisionByZero)
  {
  }
}
