/**
 * What the operators of an arithmetic expression do, on texts: the symbols, the
 * values, precedence, association, signs and parentheses, for all number tokens.
 */
module Precedence {
  import opened Arithmetic
  import opened Numbers
  import opened Wrappers

  /** A number token and its value. */
  predicate Token(s: string, v: int64) {
    WellFormed(Literal(s)) && LiteralValue(s) == Some(v)
  }

  /** `v` is `exact`, up to a multiple of 2^64. */
  predicate Wraps(v: Option<int64>, exact: int) {
    v.Some? && (v.value as int - exact) % 0x1_0000_0000_0000_0000 == 0
  }

  /** `x / y` and `x % y` of numbers that are not negative fail on zero. */
  predicate Divides(q: Option<int64>, r: Option<int64>, x: nat, y: nat) {
    if y == 0 then q == None && r == None
    else q.Some? && r.Some? && x == y * (q.value as int) + r.value as int && 0 <= r.value < y
  }

  lemma WrapsToItself(x: int)
    ensures Wraps(Some(Wrap(x)), x)
  {}

  lemma WrapKeeps(x: int64)
    ensures Wrap(x) == x
  {}

  lemma ApplyMeans(a: int64, b: int64)
    ensures Wraps(Apply(Add, a, b), a as int + b as int)
    ensures Wraps(Apply(Sub, a, b), a as int - b as int)
    ensures Wraps(Apply(Mul, a, b), a as int * b as int)
    ensures a >= 0 && b >= 0 ==> Divides(Apply(Div, a, b), Apply(Mod, a, b), a, b)
  {
    hide Wrap;
    WrapsToItself(a as int + b as int);
    WrapsToItself(a as int - b as int);
    WrapsToItself(a as int * b as int);
    if a >= 0 && b > 0 {
      WithinDividend(a, b);
      WrapKeeps(a / b);
      WrapKeeps(a % b);
    }
  }

  lemma WithinDividend(a: nat, b: nat)
    requires b > 0
    ensures 0 <= a / b <= a && a == b * (a / b) + a % b && 0 <= a % b < b
  {
    DivisionTruncates(a, b, Quotient(a, b), Remainder(a, b));
    Factor(b, a / b);
  }

  lemma Factor(b: nat, q: int)
    requires b > 0
    ensures if q < 0 then b * q <= -(b as int) else b * q >= q
  {
    if q < 0 { assert b * (-q) >= b; }
  }

  lemma TokenPrints(s: string, v: int64, level: nat, env: string -> int64)
    requires Token(s, v) && level <= 2
    ensures WellFormed(Literal(s)) && Print(Literal(s), level) == s && Eval(Literal(s), env) == Some(v)
    ensures v >= 0
  {
    hide WellFormed;
  }

  /** One operator. */
  lemma OneOperator(a: string, b: string, x: int64, y: int64, env: string -> int64)
    requires Token(a, x) && Token(b, y) && |a| + |b| <= 255
    ensures Wraps(Evaluate(a + "+" + b, env), x as int + y as int)
    ensures Wraps(Evaluate(a + "-" + b, env), x as int - y as int)
    ensures Wraps(Evaluate(a + "*" + b, env), x as int * y as int)
    ensures Divides(Evaluate(a + "/" + b, env), Evaluate(a + "%" + b, env), x, y)
  {
    hide Evaluate, Apply, Wraps, Divides, Token, WellFormed;
    TokenPrints(a, x, 0, env);
    ApplyMeans(x, y);
    Infix(Add, a, b, x, y, env);
    Infix(Sub, a, b, x, y, env);
    Infix(Mul, a, b, x, y, env);
    Infix(Div, a, b, x, y, env);
    Infix(Mod, a, b, x, y, env);
    TokenPrints(b, y, 0, env);
  }

  /** The operator on two results, if both are there. */
  function Both(op: Op, a: Option<int64>, b: Option<int64>): Option<int64> {
    if a.Some? && b.Some? then Apply(op, a.value, b.value) else None
  }

  lemma OnTrees(op: Op, l: Expr, r: Expr, a: string, b: string, env: string -> int64)
    requires WellFormed(l) && WellFormed(r) && |a| + |b| <= 255
    requires var n := Level(Binary(op, l, r)); Print(l, n) == a && Print(r, n + 1) == b
    ensures Evaluate(a + [Symbol(op)] + b, env) == Both(op, Eval(l, env), Eval(r, env))
  {
    hide Evaluate, Apply;
    BinaryBare(op, l, r);
    PrintThenEvaluate(Binary(op, l, r), env);
  }

  lemma Infix(op: Op, a: string, b: string, x: int64, y: int64, env: string -> int64)
    requires Token(a, x) && Token(b, y) && |a| + |b| <= 255
    ensures Evaluate(a + [Symbol(op)] + b, env) == Apply(op, x, y)
  {
    hide Evaluate, Apply;
    var e := Binary(op, Literal(a), Literal(b));
    TokenPrints(a, x, Level(e), env);
    TokenPrints(b, y, Level(e) + 1, env);
    OnTrees(op, Literal(a), Literal(b), a, b, env);
  }

  /** Two tokens with an operator, as an operand. */
  lemma Operand(op: Op, a: string, b: string, x: int64, y: int64, level: nat, env: string -> int64)
    requires Token(a, x) && Token(b, y) && level <= 2
    ensures var e := Binary(op, Literal(a), Literal(b));
      && WellFormed(e) && Eval(e, env) == Apply(op, x, y)
      && Print(e, level) ==
           if (if op in [Add, Sub] then 0 else 1) < level then "(" + (a + [Symbol(op)] + b) + ")"
           else a + [Symbol(op)] + b
  {
    hide Apply;
    var n := if op in [Add, Sub] then 0 else 1;
    TokenPrints(a, x, n, env);
    TokenPrints(b, y, n + 1, env);
    BinaryBare(op, Literal(a), Literal(b));
  }

  /** Products bind closer than sums; otherwise the left operator comes first. */
  lemma TwoOperators(o1: Op, o2: Op, a: string, b: string, c: string, x: int64, y: int64, z: int64,
      env: string -> int64)
    requires Token(a, x) && Token(b, y) && Token(c, z) && |a| + |b| + |c| <= 254
    ensures Evaluate(a + [Symbol(o1)] + b + [Symbol(o2)] + c, env) ==
      if o1 in [Add, Sub] && o2 in [Mul, Div, Mod] then Both(o1, Some(x), Apply(o2, y, z))
      else Both(o2, Apply(o1, x, y), Some(z))
  {
    hide Evaluate, Apply, Token, Print;
    var n := if o2 in [Add, Sub] then 0 else 1;
    if o1 in [Add, Sub] && o2 in [Mul, Div, Mod] {
      Operand(o2, b, c, y, z, 1, env);
      TokenPrints(a, x, 0, env);
      OnTrees(o1, Literal(a), Binary(o2, Literal(b), Literal(c)), a, b + [Symbol(o2)] + c, env);
      assert a + [Symbol(o1)] + (b + [Symbol(o2)] + c) == a + [Symbol(o1)] + b + [Symbol(o2)] + c;
    } else {
      Operand(o1, a, b, x, y, n, env);
      TokenPrints(c, z, n + 1, env);
      OnTrees(o2, Binary(o1, Literal(a), Literal(b)), Literal(c), a + [Symbol(o1)] + b, c, env);
    }
  }

  /** Parentheses on the left come first. */
  lemma ParenthesesLeft(o1: Op, o2: Op, a: string, b: string, c: string, x: int64, y: int64, z: int64,
      env: string -> int64)
    requires Token(a, x) && Token(b, y) && Token(c, z) && |a| + |b| + |c| <= 252
    requires o1 in [Add, Sub] && o2 in [Mul, Div, Mod]
    ensures Evaluate("(" + a + [Symbol(o1)] + b + ")" + [Symbol(o2)] + c, env) == Both(o2, Apply(o1, x, y), Some(z))
  {
    hide Evaluate, Apply, Token, Print;
    Operand(o1, a, b, x, y, 1, env);
    TokenPrints(c, z, 2, env);
    var left := "(" + (a + [Symbol(o1)] + b) + ")";
    OnTrees(o2, Binary(o1, Literal(a), Literal(b)), Literal(c), left, c, env);
    assert left == "(" + a + [Symbol(o1)] + b + ")";
  }

  /** Parentheses on the right come first. */
  lemma ParenthesesRight(o1: Op, o2: Op, a: string, b: string, c: string, x: int64, y: int64, z: int64,
      env: string -> int64)
    requires Token(a, x) && Token(b, y) && Token(c, z) && |a| + |b| + |c| <= 252
    requires o1 in [Mul, Div, Mod] || o2 in [Add, Sub]
    ensures Evaluate(a + [Symbol(o1)] + "(" + b + [Symbol(o2)] + c + ")", env) == Both(o1, Some(x), Apply(o2, y, z))
  {
    hide Evaluate, Apply, Token, Print;
    var n := if o1 in [Add, Sub] then 0 else 1;
    Operand(o2, b, c, y, z, n + 1, env);
    TokenPrints(a, x, n, env);
    var right := "(" + (b + [Symbol(o2)] + c) + ")";
    OnTrees(o1, Literal(a), Binary(o2, Literal(b), Literal(c)), a, right, env);
    assert a + [Symbol(o1)] + right == a + [Symbol(o1)] + "(" + b + [Symbol(o2)] + c + ")";
  }

  /** A sign in front of a number. */
  lemma Signs(a: string, x: int64, env: string -> int64)
    requires Token(a, x) && |a| <= 255
    ensures Wraps(Evaluate("-" + a, env), -(x as int)) && Evaluate("+" + a, env) == Some(x)
  {
    hide Evaluate, Token, Wrap;
    var la := Literal(a);
    TokenPrints(a, x, 2, env);
    SignedBare(true, la);
    SignedBare(false, la);
    PrintThenEvaluate(Signed(true, la), env);
    PrintThenEvaluate(Signed(false, la), env);
    WrapsToItself(-(x as int));
  }
}
