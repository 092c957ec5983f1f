/** The tree-walking evaluator of custom_interpreter/src/interpreter.rs.

    `Eval` specifies `interpret`: the value (or `None`) and the variable map
    afterwards. The map is threaded through the walk because the Rust code
    updates `self.variables` in place, so an assignment made before a later
    failure stays made. The cases in which the Rust arithmetic panics (a zero
    divisor, a result outside `i64`) are excluded by the precondition `Safe`. */
module Interpreter {
  import opened Wrappers
  import opened Parser
  import L = Lexer

  type Env = map<string, int>

  datatype Outcome = Outcome(value: Option<int>, env: Env)

  function Abs(x: int): nat { if x < 0 then -x else x }

  /** Rust's integer `/`, which truncates toward zero. */
  function TruncDiv(a: int, b: int): int
    requires b != 0
  {
    var q := Abs(a) / Abs(b);
    if (a < 0) == (b < 0) then q else -q
  }

  function Apply(op: Op, a: int, b: int): int
    requires op.Div? ==> b != 0
  {
    match op
    case Add => a + b
    case Sub => a - b
    case Mul => a * b
    case Div => TruncDiv(a, b)
  }

  /** The `i64` operation neither divides by zero nor overflows (this covers
      `i64::MIN / -1` too). */
  predicate NoPanic(op: Op, a: int, b: int) {
    (op.Div? ==> b != 0) && L.IsI64(Apply(op, a, b))
  }

  predicate AllI64(env: Env) {
    forall x :: x in env ==> L.IsI64(env[x])
  }

  /** Evaluating `e` from `env` reaches no arithmetic panic. */
  predicate Safe(e: Expr, env: Env)
    decreases e, 0
  {
    match e
    case BinaryOp(l, op, r) =>
      && Safe(l, env)
      && var ol := Eval(l, env);
         ol.value.Some? ==>
           && Safe(r, ol.env)
           && var or := Eval(r, ol.env);
              or.value.Some? ==> NoPanic(op, ol.value.value, or.value.value)
    case Assign(_, rhs) => Safe(rhs, env)
    case _ => true
  }

  /** `interpret`: post-order, left operand before right, `None` as soon as a
      variable is unbound; bindings only grow. */
  function Eval(e: Expr, env: Env): (o: Outcome)
    requires Safe(e, env)
    ensures env.Keys <= o.env.Keys
    decreases e, 1
  {
    match e
    case Number(v) => Outcome(Some(v), env)
    case Variable(x) => Outcome(if x in env then Some(env[x]) else None, env)
    case BinaryOp(l, op, r) =>
      var ol := Eval(l, env);
      if ol.value.None? then ol
      else
        var or := Eval(r, ol.env);
        if or.value.None? then or
        else Outcome(Some(Apply(op, ol.value.value, or.value.value)), or.env)
    case Assign(x, rhs) =>
      var o := Eval(rhs, env);
      if o.value.None? then o else Outcome(o.value, o.env[x := o.value.value])
  }

  // ---------------------------------------------------------------------
  // Properties of the evaluator

  /** A literal is its own value; a variable is its binding or `None`, never
      a default of zero; neither touches the map. */
  lemma EvalLeaves(v: int, x: string, env: Env)
    ensures Eval(Number(v), env) == Outcome(Some(v), env)
    ensures Eval(Variable(x), env).env == env
    ensures Eval(Variable(x), env).value.Some? <==> x in env
    ensures x in env ==> Eval(Variable(x), env).value == Some(env[x])
  {
  }

  /** Rust's `/` truncates: the remainder is smaller than the divisor and
      has the sign of the dividend (Dafny's own `/` is Euclidean). */
  lemma TruncDivRoundsTowardZero(a: int, b: int)
    requires b != 0
    ensures var r := a - TruncDiv(a, b) * b;
      Abs(r) < Abs(b) && (r == 0 || (r < 0 <==> a < 0))
  {
    var x: int, y: int := Abs(a), Abs(b);
    var q0: int, r0: int := x / y, x % y;
    assert x == q0 * y + r0 && 0 <= r0 < y;
    var q := TruncDiv(a, b);
    if a >= 0 && b > 0 {
      assert q * b == q0 * y;
    } else if a >= 0 {
      assert q == -q0 && b == -y;
      assert q * b == q0 * y;
    } else if b > 0 {
      assert q == -q0 && b == y;
      assert q * b == -(q0 * y);
    } else {
      assert q == q0 && b == -y;
      assert q * b == -(q0 * y);
    }
  }

  /** A binary operation evaluates its left operand first, and the right one
      only when the left succeeded, against the map the left one left. */
  lemma BinaryOpOrder(l: Expr, op: Op, r: Expr, env: Env)
    requires Safe(BinaryOp(l, op, r), env)
    ensures Eval(l, env).value.None? ==> Eval(BinaryOp(l, op, r), env) == Eval(l, env)
    ensures Eval(l, env).value.Some? ==>
      var o := Eval(r, Eval(l, env).env);
      && Eval(BinaryOp(l, op, r), env).env == o.env
      && (Eval(BinaryOp(l, op, r), env).value.Some? <==> o.value.Some?)
  {
  }

  /** An assignment made in the left operand is visible to the right one:
      `(x = v) - x` is zero. */
  lemma LeftAssignmentVisibleToRight(x: string, v: int, env: Env)
    requires L.IsI64(v)
    ensures Safe(BinaryOp(Assign(x, Number(v)), Sub, Variable(x)), env)
    ensures Eval(BinaryOp(Assign(x, Number(v)), Sub, Variable(x)), env) == Outcome(Some(0), env[x := v])
  {
    assert Eval(Assign(x, Number(v)), env) == Outcome(Some(v), env[x := v]);
  }

  /** An expression without assignments leaves the map as it was. */
  lemma {:induction false} AssignFreeKeepsEnv(e: Expr, env: Env)
    requires Safe(e, env) && AssignFree(e)
    ensures Eval(e, env).env == env
  {
    match e
    case BinaryOp(l, op, r) =>
      AssignFreeKeepsEnv(l, env);
      if Eval(l, env).value.Some? {
        AssignFreeKeepsEnv(r, env);
      }
    case _ =>
  }

  /** A successful `Assign(x, rhs)` returns the value of `rhs` and binds `x`
      to it, overwriting any earlier binding; every other name keeps what it
      had after `rhs` (what it had before, when `rhs` assigns nothing). A
      failed one adds no binding. */
  lemma EvalAssign(x: string, rhs: Expr, env: Env)
    requires Safe(rhs, env)
    ensures var o := Eval(Assign(x, rhs), env); var orhs := Eval(rhs, env);
      && o.value == orhs.value
      && (o.value.Some? ==> o.env[x] == o.value.value)
      && (forall y :: y != x && y in orhs.env ==> y in o.env && o.env[y] == orhs.env[y])
      && (forall y :: y in o.env ==> y == x || y in orhs.env)
      && (o.value.None? ==> o.env == orhs.env)
    ensures AssignFree(rhs) ==>
      var o := Eval(Assign(x, rhs), env);
      o.env == if o.value.Some? then env[x := o.value.value] else env
  {
    if AssignFree(rhs) {
      AssignFreeKeepsEnv(rhs, env);
    }
  }

  /** Evaluating a tree that `parse` built changes at most the one name it
      assigns. */
  lemma ParseTreeEffect(e: Expr, env: Env)
    requires Safe(e, env) && IsParseTree(e)
    ensures Eval(e, env).env == env ||
      (e.Assign? && Eval(e, env).value.Some? && Eval(e, env).env == env[e.name := Eval(e, env).value.value])
  {
    if e.Assign? {
      EvalAssign(e.name, e.rhs, env);
    } else {
      AssignFreeKeepsEnv(e, env);
    }
  }

  /** With `i64` literals and bindings, every result and binding is an `i64`. */
  lemma {:induction false} EvalStaysI64(e: Expr, env: Env)
    requires Safe(e, env) && LiteralsI64(e) && AllI64(env)
    ensures var o := Eval(e, env); AllI64(o.env) && (o.value.Some? ==> L.IsI64(o.value.value))
  {
    match e
    case BinaryOp(l, op, r) =>
      EvalStaysI64(l, env);
      var ol := Eval(l, env);
      if ol.value.Some? {
        EvalStaysI64(r, ol.env);
      }
    case Assign(x, rhs) =>
      EvalStaysI64(rhs, env);
    case _ =>
  }

  class Interpreter {
    var variables: Env

    ghost predicate Valid()
      reads this
    {
      AllI64(variables)
    }

    /** `Interpreter::new`: an empty map. */
    constructor ()
      ensures Valid() && variables == map[]
    {
      variables := map[];
    }

    method Interpret(e: Expr) returns (r: Option<int>)
      requires Valid() && LiteralsI64(e) && Safe(e, variables)
      modifies this
      ensures Valid()
      ensures Outcome(r, variables) == Eval(e, old(variables))
      decreases e
    {
      EvalStaysI64(e, variables);
      match e
      case Number(value) =>
        r := Some(value);
      case Variable(x) =>
        r := if x in variables then Some(variables[x]) else None;
      case BinaryOp(left, op, right) =>
        var lv := Interpret(left);
        if lv.None? {
          return None;
        }
        var rv := Interpret(right);
        if rv.None? {
          return None;
        }
        r := Some(Apply(op, lv.value, rv.value));
      case Assign(x, rhs) =>
        var v := Interpret(rhs);
        if v.None? {
          return None;
        }
        Assign(x, v.value);
        r := v;
    }

    /** `assign`: binds `name` to `value`, overwriting any earlier binding. */
    method Assign(name: string, value: int)
      requires Valid() && L.IsI64(value)
      modifies this
      ensures Valid() && variables == old(variables)[name := value]
    {
      variables := variables[name := value];
    }
  }
}
