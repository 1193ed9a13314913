/**
 * Shell arithmetic: the recursive-descent parser that reads and evaluates the
 * inside of `$((...))` in one sweep over a position field.
 *
 * Three views are connected here:
 *   - the imperative `Parser`, which moves `i` and computes int64 values;
 *   - `ExprAt` and its companions, which read a syntax tree instead;
 *   - `Spells`, an ambiguous-looking left-recursive grammar that never mentions
 *     a parsing strategy.
 * The main results are `EvaluateMeaning`, `PrintThenEvaluate` and `FailsExactlyWhen`.
 */
module Arithmetic {
  import opened Numbers
  import opened Spaces
  import opened Wrappers

  const MAX_EXPRESSION := 256

  /** Two's complement wrap-around of a mathematical integer. */
  function Wrap(x: int): int64 {
    (x - MIN_INT64) % 0x1_0000_0000_0000_0000 + MIN_INT64
  }

  /** Go's `/`: rounds toward zero (Dafny's own `/` is Euclidean). */
  function Quotient(a: int, b: int): int
    requires b != 0
  {
    if a >= 0 then a / b else -(-a / b)
  }

  /** Go's `%`: takes the sign of the dividend. */
  function Remainder(a: int, b: int): int
    requires b != 0
  {
    if a >= 0 then a % b else -(-a % b)
  }

  function Abs(x: int): nat { if x < 0 then -x else x }

  /** The two operators above are the unique truncating pair. */
  lemma DivisionTruncates(a: int, b: int, q: int, r: int)
    requires b != 0
    ensures q == Quotient(a, b) && r == Remainder(a, b)
       <==> a == b * q + r && Abs(r) < Abs(b) && (r == 0 || (r < 0) == (a < 0))
  {
    var q0, r0 := Quotient(a, b), Remainder(a, b);
    assert a == b * q0 + r0 && Abs(r0) < Abs(b) && (r0 == 0 || (r0 < 0) == (a < 0));
    if a == b * q + r && Abs(r) < Abs(b) && (r == 0 || (r < 0) == (a < 0)) {
      assert b * (q - q0) == r0 - r;
      MultipleIsSmall(b, q - q0, r0 - r);
    }
  }

  lemma MultipleIsSmall(b: int, k: int, d: int)
    requires b * k == d && Abs(d) < Abs(b)
    ensures k == 0
  {
    if k != 0 { AbsOfProduct(b, k); }
  }

  lemma AbsOfProduct(b: int, k: int)
    requires k != 0
    ensures Abs(b * k) >= Abs(b)
  {
    assert k > 0 && b >= 0 ==> b * k >= b;
    assert k > 0 && b < 0 ==> b * k <= b;
    assert k < 0 && b >= 0 ==> b * k <= -b;
    assert k < 0 && b < 0 ==> b * k >= -b;
  }

  // ----- syntax trees and their value ---------------------------------------

  datatype Op = Add | Sub | Mul | Div | Mod

  datatype Expr =
    | Literal(token: string)
    | Variable(name: string)
    | Signed(negative: bool, arg: Expr)
    | Binary(op: Op, left: Expr, right: Expr)

  function Apply(op: Op, a: int64, b: int64): Option<int64> {
    match op
    case Add => Some(Wrap(a + b))
    case Sub => Some(Wrap(a - b))
    case Mul => Some(Wrap(a * b))
    case Div => if b == 0 then None else Some(Wrap(Quotient(a, b)))
    case Mod => if b == 0 then None else Some(Wrap(Remainder(a, b)))
  }

  /** The numbers that the texts of variables read as; what is no number reads as 0. */
  function Values(vars: string -> string): string -> int64 {
    name => ParseInt(Trim(vars(name)))
  }

  /** A variable that holds a number's text, blanks around it or not, has that number as its value. */
  lemma StoredNumberReadsBack(vars: string -> string, name: string, v: int64, before: string, after: string)
    requires vars(name) == before + FormatInt(v) + after && forall c | c in before + after :: IsBlank(c)
    ensures Values(vars)(name) == v
  {
    hide Trim, ParseInt, FormatInt, IsBlank;
    var text := FormatInt(v);
    ParseIntReadsFormatted(v);
    assert text[0] in text && text[|text| - 1] in text;
    assert forall c | c in before :: c in before + after;
    assert forall c | c in after :: c in before + after;
    TrimAround(before, text, after);
  }

  function Eval(e: Expr, env: string -> int64): Option<int64> {
    match e
    case Literal(token) => LiteralValue(token)
    case Variable(name) => Some(env(name))
    case Signed(negative, arg) =>
      (match Eval(arg, env)
       case None => None
       case Some(v) => Some(if negative then Wrap(-(v as int)) else v))
    case Binary(op, left, right) =>
      (match (Eval(left, env), Eval(right, env))
       case (Some(a), Some(b)) => Apply(op, a, b)
       case _ => None)
  }

  // ----- lexical layer ------------------------------------------------------

  datatype Class = Blank | Digit | HexDigit | NameChar

  predicate Is(class_: Class, c: char) {
    match class_
    case Blank => c == ' ' || c == '\t'
    case Digit => '0' <= c <= '9'
    case HexDigit => '0' <= c <= '9' || 'a' <= c <= 'f' || 'A' <= c <= 'F'
    case NameChar => 'a' <= c <= 'z' || 'A' <= c <= 'Z' || '0' <= c <= '9' || c == '_'
  }

  predicate IsSign(c: char) { c == '+' || c == '-' }
  predicate IsMulOp(c: char) { c == '*' || c == '/' || c == '%' }

  function OpOf(c: char): Op {
    match c
    case '+' => Add
    case '-' => Sub
    case '*' => Mul
    case '/' => Div
    case _ => Mod
  }

  /** End of the longest run of characters of one class that starts at `i`. */
  function Span(s: string, i: nat, class_: Class): (j: nat)
    requires i <= |s|
    ensures i <= j <= |s|
    ensures j < |s| ==> !Is(class_, s[j])
    ensures forall k | i <= k < j :: Is(class_, s[k])
    decreases |s| - i
  {
    if i < |s| && Is(class_, s[i]) then Span(s, i + 1, class_) else i
  }

  function Skip(s: string, i: nat): (j: nat)
    requires i <= |s|
    ensures i <= j <= |s|
  {
    Span(s, i, Blank)
  }

  function NumberEnd(s: string, i: nat): (j: nat)
    requires i < |s|
    ensures i < j <= |s|
  {
    if i + 1 < |s| && s[i] == '0' && (s[i + 1] == 'x' || s[i + 1] == 'X')
    then Span(s, i + 2, HexDigit)
    else Span(s, i + 1, Digit)
  }

  lemma NumberEndCases(s: string, i: nat)
    requires i < |s|
    ensures NumberEnd(s, i) ==
      if i + 1 < |s| && s[i] == '0' && (s[i + 1] == 'x' || s[i + 1] == 'X') then Span(s, i + 2, HexDigit)
      else Span(s, i + 1, Digit)
  {}

  lemma SpanStep(s: string, i: nat, class_: Class)
    requires i <= |s|
    ensures Span(s, i, class_) == if i < |s| && Is(class_, s[i]) then Span(s, i + 1, class_) else i
  {}

  // ----- the grammar --------------------------------------------------------

  /** `s[i..j]` is a spelling of `e` at sum level; sums associate to the left. */
  ghost predicate SpellsExpr(e: Expr, s: string, i: nat, j: nat)
    requires i <= j <= |s|
    decreases j - i, 2
  {
    || SpellsTerm(e, s, i, j)
    || (e.Binary? && exists k | i <= k < j ::
          && SpellsExpr(e.left, s, i, k)
          && Skip(s, k) < j && IsSign(s[Skip(s, k)]) && OpOf(s[Skip(s, k)]) == e.op
          && SpellsTerm(e.right, s, Skip(s, k) + 1, j))
  }

  /** The same at product level. */
  ghost predicate SpellsTerm(e: Expr, s: string, i: nat, j: nat)
    requires i <= j <= |s|
    decreases j - i, 1
  {
    || SpellsFactor(e, s, i, j)
    || (e.Binary? && exists k | i <= k < j ::
          && SpellsTerm(e.left, s, i, k)
          && Skip(s, k) < j && IsMulOp(s[Skip(s, k)]) && OpOf(s[Skip(s, k)]) == e.op
          && SpellsFactor(e.right, s, Skip(s, k) + 1, j))
  }

  /** A signed factor, a parenthesised sum, or a token of maximal length. */
  ghost predicate SpellsFactor(e: Expr, s: string, i: nat, j: nat)
    requires i <= j <= |s|
    decreases j - i, 0
  {
    var p := Skip(s, i);
    p < j &&
    if IsSign(s[p]) then
      e.Signed? && e.negative == (s[p] == '-') && SpellsFactor(e.arg, s, p + 1, j)
    else if s[p] == '(' then
      s[j - 1] == ')' && exists k | p < k < j :: SpellsExpr(e, s, p + 1, k) && Skip(s, k) == j - 1
    else if Is(Digit, s[p]) then
      j == NumberEnd(s, p) && e == Literal(s[p..j])
    else
      Is(NameChar, s[p]) && j == Span(s, p, NameChar) && e == Variable(s[p..j])
  }

  /** The whole text spells `e`, trailing blanks aside. */
  ghost predicate Spells(e: Expr, s: string) {
    exists j | 0 <= j <= |s| :: SpellsExpr(e, s, 0, j) && Skip(s, j) == |s|
  }

  // ----- the parser as a function to syntax trees ---------------------------

  function ExprAt(s: string, i: nat): (r: Option<(Expr, nat)>)
    requires i <= |s|
    ensures r.Some? ==> i < r.value.1 <= |s|
    decreases |s| - i, 4
  {
    match TermAt(s, i)
    case None => None
    case Some((e, j)) => ExprRest(s, e, j)
  }

  function ExprRest(s: string, left: Expr, j: nat): (r: Option<(Expr, nat)>)
    requires j <= |s|
    ensures r.Some? ==> j <= r.value.1 <= |s|
    decreases |s| - j, 3
  {
    var k := Skip(s, j);
    if k == |s| || !IsSign(s[k]) then Some((left, k)) else
    match TermAt(s, k + 1)
    case None => None
    case Some((right, m)) => ExprRest(s, Binary(OpOf(s[k]), left, right), m)
  }

  function TermAt(s: string, i: nat): (r: Option<(Expr, nat)>)
    requires i <= |s|
    ensures r.Some? ==> i < r.value.1 <= |s|
    decreases |s| - i, 2
  {
    match FactorAt(s, i)
    case None => None
    case Some((e, j)) => TermRest(s, e, j)
  }

  function TermRest(s: string, left: Expr, j: nat): (r: Option<(Expr, nat)>)
    requires j <= |s|
    ensures r.Some? ==> j <= r.value.1 <= |s|
    decreases |s| - j, 1
  {
    var k := Skip(s, j);
    if k == |s| || !IsMulOp(s[k]) then Some((left, k)) else
    match FactorAt(s, k + 1)
    case None => None
    case Some((right, m)) => TermRest(s, Binary(OpOf(s[k]), left, right), m)
  }

  function FactorAt(s: string, i: nat): (r: Option<(Expr, nat)>)
    requires i <= |s|
    ensures r.Some? ==> i < r.value.1 <= |s|
    decreases |s| - i, 0
  {
    var p := Skip(s, i);
    if p == |s| then None
    else if IsSign(s[p]) then
      WithSign(s[p] == '-', FactorAt(s, p + 1))
    else if s[p] == '(' then
      Grouped(s, ExprAt(s, p + 1))
    else if Is(Digit, s[p]) then
      Some((Literal(s[p..NumberEnd(s, p)]), NumberEnd(s, p)))
    else if Is(NameChar, s[p]) then
      Some((Variable(s[p..Span(s, p, NameChar)]), Span(s, p, NameChar)))
    else None
  }

  function WithSign(negative: bool, arg: Option<(Expr, nat)>): Option<(Expr, nat)> {
    match arg
    case None => None
    case Some((e, j)) => Some((Signed(negative, e), j))
  }

  /** What follows `(`: the sum inside must be closed by `)`. */
  function Grouped(s: string, inner: Option<(Expr, nat)>): (r: Option<(Expr, nat)>)
    requires inner.Some? ==> inner.value.1 <= |s|
    ensures r.Some? ==> inner.Some? && inner.value.1 < r.value.1 <= |s|
  {
    match inner
    case None => None
    case Some((e, k)) =>
      var q := Skip(s, k);
      if q < |s| && s[q] == ')' then Some((e, q + 1)) else None
  }

  /** `evalVirtualArithmetic`, as a function. */
  function Evaluate(s: string, env: string -> int64): Option<int64> {
    if |s| > MAX_EXPRESSION then None else
    match ExprAt(s, 0)
    case None => None
    case Some((e, j)) => if Skip(s, j) == |s| then Eval(e, env) else None
  }

  // ----- the imperative parser ----------------------------------------------

  /** The result of a sub-parse that started at `from`: the tree's value, or a failure. */
  ghost predicate Agrees(r: Option<(Expr, nat)>, env: string -> int64, v: int64, ok: bool, i: nat) {
    if ok then r.Some? && Eval(r.value.0, env) == Some(v) && r.value.1 == i
    else r.None? || Eval(r.value.0, env) == None
  }

  class Parser {
    const s: string
    const vars: string -> string
    ghost const env: string -> int64 := Values(vars)
    var i: nat

    constructor (s: string, vars: string -> string)
      ensures this.s == s && this.vars == vars && i == 0
    {
      this.s, this.vars, this.i := s, vars, 0;
    }

    method SkipBlanks()
      requires i <= |s|
      modifies this`i
      ensures i == Skip(s, old(i))
    {
      while i < |s| && Is(Blank, s[i])
        invariant old(i) <= i <= |s|
        invariant Skip(s, i) == Skip(s, old(i))
      {
        i := i + 1;
      }
    }

    method ParseExpr() returns (v: int64, ok: bool)
      requires i <= |s|
      modifies this`i
      ensures old(i) <= i <= |s| && (ok ==> old(i) < i)
      ensures Agrees(ExprAt(s, old(i)), env, v, ok, i)
      decreases |s| - i, 4
    {
      hide Eval, Apply, Skip, ExprAt, ExprRest, TermAt, TermRest, FactorAt;
      ghost var goal, first := ExprAt(s, i), TermAt(s, i);
      ExprStarts(s, i);
      var left, good := ParseTerm();
      if !good {
        if first.Some? { ExprRestKeepsFault(s, first.value.0, first.value.1, env); }
        return 0, false;
      }
      ghost var tree := first.value.0;
      while true
        invariant old(i) < i <= |s|
        invariant goal == ExprRest(s, tree, i)
        invariant Eval(tree, env) == Some(left)
        decreases |s| - i
      {
        ExprGoesOn(s, tree, i);
        SkipBlanks();
        if i >= |s| || (s[i] != '+' && s[i] != '-') {
          return left, true;
        }
        var op := s[i];
        i := i + 1;
        ghost var next := TermAt(s, i);
        var right, rightOk := ParseTerm();
        if !rightOk {
          if next.Some? {
            EvalBinary(OpOf(op), tree, next.value.0, env);
            ExprRestKeepsFault(s, Binary(OpOf(op), tree, next.value.0), next.value.1, env);
          }
          return 0, false;
        }
        EvalBinary(OpOf(op), tree, next.value.0, env);
        tree := Binary(OpOf(op), tree, next.value.0);
        left := CombineSum(op, left, right);
      }
    }

    /** The update at the end of the sum loop. */
    method CombineSum(op: char, left: int64, right: int64) returns (v: int64)
      requires IsSign(op)
      ensures Apply(OpOf(op), left, right) == Some(v)
    {
      hide Wrap, Quotient, Remainder;
      if op == '+' {
        v := Wrap(left as int + right);
      } else {
        v := Wrap(left as int - right);
      }
    }

    method ParseTerm() returns (v: int64, ok: bool)
      requires i <= |s|
      modifies this`i
      ensures old(i) <= i <= |s| && (ok ==> old(i) < i)
      ensures Agrees(TermAt(s, old(i)), env, v, ok, i)
      decreases |s| - i, 2
    {
      hide Eval, Wrap, Quotient, Remainder, Skip, ExprAt, ExprRest, TermAt, TermRest, FactorAt;
      ghost var goal, first := TermAt(s, i), FactorAt(s, i);
      TermStarts(s, i);
      var left, good := ParseFactor();
      if !good {
        if first.Some? { TermRestKeepsFault(s, first.value.0, first.value.1, env); }
        return 0, false;
      }
      ghost var tree := first.value.0;
      while true
        invariant old(i) < i <= |s|
        invariant goal == TermRest(s, tree, i)
        invariant Eval(tree, env) == Some(left)
        decreases |s| - i
      {
        TermGoesOn(s, tree, i);
        SkipBlanks();
        if i >= |s| || (s[i] != '*' && s[i] != '/' && s[i] != '%') {
          return left, true;
        }
        var op := s[i];
        i := i + 1;
        ghost var next := FactorAt(s, i);
        var right, rightOk := ParseFactor();
        if !rightOk || ((op == '/' || op == '%') && right == 0) {
          if next.Some? {
            EvalBinary(OpOf(op), tree, next.value.0, env);
            TermRestKeepsFault(s, Binary(OpOf(op), tree, next.value.0), next.value.1, env);
          }
          return 0, false;
        }
        EvalBinary(OpOf(op), tree, next.value.0, env);
        tree := Binary(OpOf(op), tree, next.value.0);
        left := CombineProduct(op, left, right);
      }
    }

    /** The switch at the end of the product loop. */
    method CombineProduct(op: char, left: int64, right: int64) returns (v: int64)
      requires IsMulOp(op) && (op == '*' || right != 0)
      ensures Apply(OpOf(op), left, right) == Some(v)
    {
      hide Wrap, Quotient, Remainder;
      match op {
        case '*' => v := Wrap(left as int * right);
        case '/' => v := Wrap(Quotient(left, right));
        case _ => v := Wrap(Remainder(left, right));
      }
    }

    method ParseFactor() returns (v: int64, ok: bool)
      requires i <= |s|
      modifies this`i
      ensures old(i) <= i <= |s| && (ok ==> old(i) < i)
      ensures Agrees(FactorAt(s, old(i)), env, v, ok, i)
      decreases |s| - i, 1
    {
      hide Eval, LiteralValue, Skip, Span, NumberEnd, ExprAt, FactorAt, WithSign, Grouped;
      FactorCases(s, i);
      SkipBlanks();
      if i >= |s| {
        return 0, false;
      }
      if s[i] == '+' || s[i] == '-' {
        v, ok := ParseSigned();
        return v, ok;
      }
      if s[i] == '(' {
        v, ok := ParseGroup();
        return v, ok;
      }
      if '0' <= s[i] <= '9' {
        EvalToken(s[i..NumberEnd(s, i)], env);
        v, ok := ParseNumber();
        return v, ok;
      }
      SpanStep(s, i, NameChar);
      EvalToken(s[i..Span(s, i, NameChar)], env);
      v, ok := ParseName();
    }

    /** The branch of `ParseFactor` that starts on a sign. */
    method ParseSigned() returns (v: int64, ok: bool)
      requires i < |s| && IsSign(s[i])
      modifies this`i
      ensures old(i) <= i <= |s| && (ok ==> old(i) < i)
      ensures Agrees(WithSign(s[old(i)] == '-', FactorAt(s, old(i) + 1)), env, v, ok, i)
      decreases |s| - i, 0
    {
      hide Eval, Wrap, FactorAt;
      var op := s[i];
      i := i + 1;
      ghost var arg := FactorAt(s, i);
      v, ok := ParseFactor();
      if arg.Some? { EvalSigned(op == '-', arg.value.0, env); }
      if !ok {
        return 0, false;
      }
      if op == '-' {
        v := Wrap(-(v as int));
      }
      return v, true;
    }

    /** The branch of `ParseFactor` that starts on a parenthesis. */
    method ParseGroup() returns (v: int64, ok: bool)
      requires i < |s| && s[i] == '('
      modifies this`i
      ensures old(i) <= i <= |s| && (ok ==> old(i) < i)
      ensures Agrees(Grouped(s, ExprAt(s, old(i) + 1)), env, v, ok, i)
      decreases |s| - i, 0
    {
      hide Eval, ExprAt, Span;
      i := i + 1;
      v, ok := ParseExpr();
      if !ok {
        return 0, false;
      }
      SkipBlanks();
      if i >= |s| || s[i] != ')' {
        return 0, false;
      }
      i := i + 1;
      return v, true;
    }

    /** The branch of `ParseFactor` for everything else: a name, or nothing at all. */
    method ParseName() returns (v: int64, ok: bool)
      requires i <= |s|
      modifies this`i
      ensures old(i) <= i == Span(s, old(i), NameChar) && ok == (old(i) < i)
      ensures ok ==> v == env(s[old(i)..i])
    {
      hide Span;
      var start := i;
      while i < |s| && Is(NameChar, s[i])
        invariant start <= i <= |s| && Span(s, i, NameChar) == Span(s, start, NameChar)
      {
        SpanStep(s, i, NameChar);
        i := i + 1;
      }
      SpanStep(s, i, NameChar);
      if i == start {
        return 0, false;
      }
      return ParseInt(Trim(vars(s[start..i]))), true;
    }

    /** The branch of `ParseFactor` that starts on a digit. */
    method ParseNumber() returns (v: int64, ok: bool)
      requires i < |s| && Is(Digit, s[i])
      modifies this`i
      ensures old(i) < i == NumberEnd(s, old(i))
      ensures LiteralValue(s[old(i)..i]) == if ok then Some(v) else None
    {
      hide LiteralValue, NumberEnd, Span;
      var start := i;
      NumberEndCases(s, start);
      i := i + 1;
      if i < |s| && s[start] == '0' && (s[i] == 'x' || s[i] == 'X') {
        i := i + 1;
        while i < |s| && Is(HexDigit, s[i])
          invariant start < i <= |s| && Span(s, i, HexDigit) == NumberEnd(s, start)
        {
          SpanStep(s, i, HexDigit);
          i := i + 1;
        }
        SpanStep(s, i, HexDigit);
      } else {
        while i < |s| && '0' <= s[i] <= '9'
          invariant start < i <= |s| && Span(s, i, Digit) == NumberEnd(s, start)
        {
          SpanStep(s, i, Digit);
          i := i + 1;
        }
        SpanStep(s, i, Digit);
      }
      var number := LiteralValue(s[start..i]);
      return if number.Some? then number.value else 0, number.Some?;
    }
  }

  method EvalVirtualArithmetic(expr: string, vars: string -> string) returns (v: int64, ok: bool)
    ensures ok == Evaluate(expr, Values(vars)).Some?
    ensures ok ==> Evaluate(expr, Values(vars)) == Some(v)
  {
    if |expr| > MAX_EXPRESSION {
      return 0, false;
    }
    var p := new Parser(expr, vars);
    v, ok := p.ParseExpr();
    p.SkipBlanks();
    ok := ok && p.i == |expr|;
  }

  lemma EvalBinary(op: Op, left: Expr, right: Expr, env: string -> int64)
    ensures Eval(left, env).Some? && Eval(right, env).Some? ==>
      Eval(Binary(op, left, right), env) == Apply(op, Eval(left, env).value, Eval(right, env).value)
    ensures Eval(left, env) == None || Eval(right, env) == None ==> Eval(Binary(op, left, right), env) == None
  {}

  lemma ExprStarts(s: string, i: nat)
    requires i <= |s|
    ensures ExprAt(s, i) ==
      if TermAt(s, i) == None then None else ExprRest(s, TermAt(s, i).value.0, TermAt(s, i).value.1)
  {
    hide TermAt, ExprRest;
  }

  /** One round of the sum loop. */
  lemma ExprGoesOn(s: string, left: Expr, j: nat)
    requires j <= |s|
    ensures var k := Skip(s, j);
      if k == |s| || !IsSign(s[k]) then ExprRest(s, left, j) == Some((left, k))
      else if TermAt(s, k + 1) == None then ExprRest(s, left, j) == None
      else
        var next := TermAt(s, k + 1).value;
        ExprRest(s, left, j) == ExprRest(s, Binary(OpOf(s[k]), left, next.0), next.1)
  {
    hide TermAt;
  }

  lemma TermStarts(s: string, i: nat)
    requires i <= |s|
    ensures TermAt(s, i) ==
      if FactorAt(s, i) == None then None else TermRest(s, FactorAt(s, i).value.0, FactorAt(s, i).value.1)
  {
    hide FactorAt, TermRest;
  }

  /** One round of the product loop. */
  lemma TermGoesOn(s: string, left: Expr, j: nat)
    requires j <= |s|
    ensures var k := Skip(s, j);
      if k == |s| || !IsMulOp(s[k]) then TermRest(s, left, j) == Some((left, k))
      else if FactorAt(s, k + 1) == None then TermRest(s, left, j) == None
      else
        var next := FactorAt(s, k + 1).value;
        TermRest(s, left, j) == TermRest(s, Binary(OpOf(s[k]), left, next.0), next.1)
  {
    hide FactorAt;
  }

  /** The branches of `FactorAt`, one implication each. */
  lemma FactorCases(s: string, i: nat)
    requires i <= |s|
    ensures var p := Skip(s, i);
      && (p == |s| ==> FactorAt(s, i) == None)
      && (p < |s| && IsSign(s[p]) ==> FactorAt(s, i) == WithSign(s[p] == '-', FactorAt(s, p + 1)))
      && (p < |s| && s[p] == '(' ==> FactorAt(s, i) == Grouped(s, ExprAt(s, p + 1)))
      && (p < |s| && Is(Digit, s[p]) ==> FactorAt(s, i) == Some((Literal(s[p..NumberEnd(s, p)]), NumberEnd(s, p))))
      && (p < |s| && Is(NameChar, s[p]) && !Is(Digit, s[p]) ==>
            FactorAt(s, i) == Some((Variable(s[p..Span(s, p, NameChar)]), Span(s, p, NameChar))))
      && (p < |s| && !IsSign(s[p]) && s[p] != '(' && !Is(NameChar, s[p]) ==> FactorAt(s, i) == None)
  {
    hide ExprAt, ExprRest, TermAt, TermRest;
  }

  lemma EvalToken(token: string, env: string -> int64)
    ensures Eval(Literal(token), env) == LiteralValue(token) && Eval(Variable(token), env) == Some(env(token))
  {
    hide LiteralValue;
  }

  lemma EvalSigned(negative: bool, arg: Expr, env: string -> int64)
    ensures Eval(Signed(negative, arg), env) ==
      match Eval(arg, env) case None => None case Some(v) => Some(if negative then Wrap(-(v as int)) else v)
  {}

  /** A fault in the left operand survives whatever the sum loop reads after it. */
  lemma {:induction false} ExprRestKeepsFault(s: string, left: Expr, j: nat, env: string -> int64)
    requires j <= |s| && Eval(left, env) == None
    ensures ExprRest(s, left, j).Some? ==> Eval(ExprRest(s, left, j).value.0, env) == None
    decreases |s| - j
  {
    hide ExprAt, TermAt, FactorAt, Eval;
    var k := Skip(s, j);
    if k < |s| && IsSign(s[k]) && TermAt(s, k + 1).Some? {
      var (right, m) := TermAt(s, k + 1).value;
      EvalBinary(OpOf(s[k]), left, right, env);
      ExprRestKeepsFault(s, Binary(OpOf(s[k]), left, right), m, env);
    }
  }

  /** The same for the product loop. */
  lemma {:induction false} TermRestKeepsFault(s: string, left: Expr, j: nat, env: string -> int64)
    requires j <= |s| && Eval(left, env) == None
    ensures TermRest(s, left, j).Some? ==> Eval(TermRest(s, left, j).value.0, env) == None
    decreases |s| - j
  {
    hide ExprAt, TermAt, FactorAt, Eval;
    var k := Skip(s, j);
    if k < |s| && IsMulOp(s[k]) && FactorAt(s, k + 1).Some? {
      var (right, m) := FactorAt(s, k + 1).value;
      EvalBinary(OpOf(s[k]), left, right, env);
      TermRestKeepsFault(s, Binary(OpOf(s[k]), left, right), m, env);
    }
  }

  // ----- soundness: whatever is read is spelled ------------------------------

  ghost predicate SpelledBefore(e: Expr, s: string, i: nat, stop: nat)
    requires i <= |s|
  {
    exists j | i <= j <= |s| :: SpellsExpr(e, s, i, j) && Skip(s, j) == stop
  }

  lemma {:induction false} ExprSound(s: string, i: nat)
    requires i <= |s| && ExprAt(s, i).Some?
    ensures SpelledBefore(ExprAt(s, i).value.0, s, i, ExprAt(s, i).value.1)
    decreases |s| - i, 4
  {
    hide TermAt, TermRest, FactorAt, ExprRest, SpellsTerm, SpellsFactor;
    TermSound(s, i);
    var (e, stop) := TermAt(s, i).value;
    var j :| i <= j <= |s| && SpellsTerm(e, s, i, j) && Skip(s, j) == stop;
    ExprRestSound(s, i, e, j, stop);
  }

  lemma {:induction false} ExprRestSound(s: string, i: nat, left: Expr, j: nat, stop: nat)
    requires i <= j <= stop <= |s| && SpellsExpr(left, s, i, j) && Skip(s, j) == stop
    requires ExprRest(s, left, stop).Some?
    ensures SpelledBefore(ExprRest(s, left, stop).value.0, s, i, ExprRest(s, left, stop).value.1)
    decreases |s| - stop, 3
  {
    hide ExprAt, TermAt, TermRest, FactorAt, SpellsTerm, SpellsFactor;
    if stop < |s| && IsSign(s[stop]) {
      TermSound(s, stop + 1);
      var (right, stop') := TermAt(s, stop + 1).value;
      var m :| stop + 1 <= m <= |s| && SpellsTerm(right, s, stop + 1, m) && Skip(s, m) == stop';
      assert SpellsExpr(Binary(OpOf(s[stop]), left, right), s, i, m) by { assert i <= j < m; }
      ExprRestSound(s, i, Binary(OpOf(s[stop]), left, right), m, stop');
    }
  }

  lemma {:induction false} TermSound(s: string, i: nat)
    requires i <= |s| && TermAt(s, i).Some?
    ensures exists j | i <= j <= |s| :: SpellsTerm(TermAt(s, i).value.0, s, i, j) && Skip(s, j) == TermAt(s, i).value.1
    decreases |s| - i, 2
  {
    hide FactorAt, TermRest, ExprAt, SpellsFactor, SpellsExpr;
    FactorSound(s, i);
    var (e, j) := FactorAt(s, i).value;
    TermRestSound(s, i, e, j);
  }

  lemma {:induction false} TermRestSound(s: string, i: nat, left: Expr, j: nat)
    requires i < j <= |s| && SpellsTerm(left, s, i, j)
    requires TermRest(s, left, j).Some?
    ensures exists k | i <= k <= |s| ::
      SpellsTerm(TermRest(s, left, j).value.0, s, i, k) && Skip(s, k) == TermRest(s, left, j).value.1
    decreases |s| - j, 1
  {
    hide FactorAt, ExprAt, TermAt, ExprRest, SpellsFactor, SpellsExpr;
    var k := Skip(s, j);
    if k < |s| && IsMulOp(s[k]) {
      FactorSound(s, k + 1);
      var (right, m) := FactorAt(s, k + 1).value;
      assert SpellsTerm(Binary(OpOf(s[k]), left, right), s, i, m);
      TermRestSound(s, i, Binary(OpOf(s[k]), left, right), m);
    }
  }

  lemma {:induction false} FactorSound(s: string, i: nat)
    requires i <= |s| && FactorAt(s, i).Some?
    ensures SpellsFactor(FactorAt(s, i).value.0, s, i, FactorAt(s, i).value.1)
    decreases |s| - i, 0
  {
    hide TermAt, TermRest, ExprAt, ExprRest, SpellsTerm, SpellsExpr;
    var p := Skip(s, i);
    if IsSign(s[p]) {
      FactorSound(s, p + 1);
    } else if s[p] == '(' {
      ExprSound(s, p + 1);
    }
  }

  // ----- completeness: every spelling is read back ---------------------------

  ghost predicate MulOpFollows(s: string, j: nat)
    requires j <= |s|
  {
    Skip(s, j) < |s| && IsMulOp(s[Skip(s, j)])
  }

  /** Reading a spelled sum brings the loop of `parseExpr` to its end with that tree in hand. */
  lemma {:induction false} ExprComplete(e: Expr, s: string, i: nat, j: nat)
    requires i <= j <= |s| && SpellsExpr(e, s, i, j) && !MulOpFollows(s, j)
    ensures ExprAt(s, i) == ExprRest(s, e, j)
    decreases j - i, 2
  {
    hide TermAt, TermRest, FactorAt, SpellsTerm, SpellsFactor;
    if SpellsTerm(e, s, i, j) {
      TermComplete(e, s, i, j);
      TermRestStops(s, e, j);
    } else {
      var k :| i <= k < j && SpellsExpr(e.left, s, i, k)
        && Skip(s, k) < j && IsSign(s[Skip(s, k)]) && OpOf(s[Skip(s, k)]) == e.op
        && SpellsTerm(e.right, s, Skip(s, k) + 1, j);
      ExprComplete(e.left, s, i, k);
      TermComplete(e.right, s, Skip(s, k) + 1, j);
      TermRestStops(s, e.right, j);
    }
    RestFromBlanks(s, e, j);
  }

  lemma TermRestStops(s: string, e: Expr, j: nat)
    requires j <= |s| && !MulOpFollows(s, j)
    ensures TermRest(s, e, j) == Some((e, Skip(s, j)))
  {}

  /** Blanks before the next operator make no difference to the loop. */
  lemma RestFromBlanks(s: string, e: Expr, j: nat)
    requires j <= |s|
    ensures ExprRest(s, e, Skip(s, j)) == ExprRest(s, e, j)
  {
    assert Skip(s, Skip(s, j)) == Skip(s, j);
  }

  lemma {:induction false} TermComplete(e: Expr, s: string, i: nat, j: nat)
    requires i <= j <= |s| && SpellsTerm(e, s, i, j)
    ensures TermAt(s, i) == TermRest(s, e, j)
    decreases j - i, 1
  {
    hide ExprAt, ExprRest, FactorAt, SpellsExpr, SpellsFactor;
    if SpellsFactor(e, s, i, j) {
      FactorComplete(e, s, i, j);
    } else {
      var k :| i <= k < j && SpellsTerm(e.left, s, i, k)
        && Skip(s, k) < j && IsMulOp(s[Skip(s, k)]) && OpOf(s[Skip(s, k)]) == e.op
        && SpellsFactor(e.right, s, Skip(s, k) + 1, j);
      TermComplete(e.left, s, i, k);
      FactorComplete(e.right, s, Skip(s, k) + 1, j);
    }
  }

  lemma {:induction false} FactorComplete(e: Expr, s: string, i: nat, j: nat)
    requires i <= j <= |s| && SpellsFactor(e, s, i, j)
    ensures FactorAt(s, i) == Some((e, j))
    decreases j - i, 0
  {
    hide TermAt, TermRest, ExprAt, ExprRest, FactorAt, SpellsTerm, SpellsExpr, MulOpFollows;
    var p := Skip(s, i);
    if IsSign(s[p]) {
      FactorComplete(e.arg, s, p + 1, j);
      SignedIsRead(e, s, i, j);
    } else if s[p] == '(' {
      var k :| p < k < j && SpellsExpr(e, s, p + 1, k) && Skip(s, k) == j - 1;
      assert !MulOpFollows(s, k) by { CloseIsNoMulOp(s, k); }
      ExprComplete(e, s, p + 1, k);
      GroupIsRead(e, s, i, k);
    } else {
      TokenIsRead(e, s, i, j);
    }
  }

  lemma CloseIsNoMulOp(s: string, k: nat)
    requires k <= |s| && Skip(s, k) < |s| && s[Skip(s, k)] == ')'
    ensures !MulOpFollows(s, k)
  {}

  lemma SignedIsRead(e: Expr, s: string, i: nat, j: nat)
    requires i <= |s| && Skip(s, i) < |s| && IsSign(s[Skip(s, i)])
    requires e.Signed? && e.negative == (s[Skip(s, i)] == '-') && FactorAt(s, Skip(s, i) + 1) == Some((e.arg, j))
    ensures FactorAt(s, i) == Some((e, j))
  {
    hide TermAt, TermRest, ExprAt;
  }

  lemma TokenIsRead(e: Expr, s: string, i: nat, j: nat)
    requires i <= j <= |s| && SpellsFactor(e, s, i, j) && !IsSign(s[Skip(s, i)]) && s[Skip(s, i)] != '('
    ensures FactorAt(s, i) == Some((e, j))
  {
    hide TermAt, TermRest, ExprAt, SpellsTerm, SpellsExpr;
  }

  lemma GroupIsRead(e: Expr, s: string, i: nat, k: nat)
    requires i <= |s| && Skip(s, i) < k <= |s| && s[Skip(s, i)] == '('
    requires Skip(s, k) < |s| && s[Skip(s, k)] == ')'
    requires ExprAt(s, Skip(s, i) + 1) == ExprRest(s, e, k)
    ensures FactorAt(s, i) == Some((e, Skip(s, k) + 1))
  {
    hide TermAt, TermRest, ExprAt;
    assert Skip(s, Skip(s, k)) == Skip(s, k);
  }

  // ----- main results ---------------------------------------------------------

  /**
   * The evaluator accepts exactly the texts of at most 256 characters that spell
   * an expression, and returns that expression's value.
   */
  lemma EvaluateMeaning(s: string, env: string -> int64, v: int64)
    ensures Evaluate(s, env) == Some(v)
       <==> |s| <= 256 && exists e :: Spells(e, s) && Eval(e, env) == Some(v)
  {
    forall e | Spells(e, s) ensures ExprAt(s, 0) == Some((e, |s|)) { SpelledIsRead(e, s); }
    if ExprAt(s, 0).Some? {
      ExprSound(s, 0);
      var (e, stop) := ExprAt(s, 0).value;
      assert stop == |s| ==> Spells(e, s);
      ReadStopsAfterBlanks(s);
    }
  }

  lemma SpelledIsRead(e: Expr, s: string)
    requires Spells(e, s)
    ensures ExprAt(s, 0) == Some((e, |s|))
  {
    var j :| 0 <= j <= |s| && SpellsExpr(e, s, 0, j) && Skip(s, j) == |s|;
    ExprComplete(e, s, 0, j);
  }

  lemma ReadStopsAfterBlanks(s: string)
    requires ExprAt(s, 0).Some?
    ensures Skip(s, ExprAt(s, 0).value.1) == ExprAt(s, 0).value.1
  {
    ExprSound(s, 0);
  }

  /** No text spells two different expressions. */
  lemma SpellingIsUnambiguous(e: Expr, f: Expr, s: string)
    requires Spells(e, s) && Spells(f, s)
    ensures e == f
  {
    SpelledIsRead(e, s);
    SpelledIsRead(f, s);
  }

  // ----- printing -------------------------------------------------------------

  predicate WellFormed(e: Expr) {
    match e
    case Literal(token) => |token| > 0 && Is(Digit, token[0]) && NumberEnd(token, 0) == |token|
    case Variable(name) =>
      |name| > 0 && !Is(Digit, name[0]) && forall c | c in name :: Is(NameChar, c)
    case Signed(_, arg) => WellFormed(arg)
    case Binary(_, left, right) => WellFormed(left) && WellFormed(right)
  }

  function Symbol(op: Op): char {
    match op
    case Add => '+' case Sub => '-' case Mul => '*' case Div => '/' case Mod => '%'
  }

  function Level(e: Expr): nat {
    if !e.Binary? then 2 else if e.op.Add? || e.op.Sub? then 0 else 1
  }

  /** Prints `e` where an operand of at least `level` is expected, with the fewest parentheses. */
  function Print(e: Expr, level: nat): (s: string)
    decreases e, 1
  {
    if Level(e) < level then "(" + PrintBare(e) + ")" else PrintBare(e)
  }

  function PrintBare(e: Expr): string
    decreases e, 0
  {
    match e
    case Literal(token) => token
    case Variable(name) => name
    case Signed(negative, arg) => [if negative then '-' else '+'] + Print(arg, 2)
    case Binary(op, left, right) => Print(left, Level(e)) + [Symbol(op)] + Print(right, Level(e) + 1)
  }

  lemma SignedBare(negative: bool, arg: Expr)
    ensures PrintBare(Signed(negative, arg)) == [if negative then '-' else '+'] + Print(arg, 2)
  {}

  lemma BinaryBare(op: Op, left: Expr, right: Expr)
    ensures var n := Level(Binary(op, left, right));
      PrintBare(Binary(op, left, right)) == Print(left, n) + [Symbol(op)] + Print(right, n + 1)
  {}

  ghost predicate At(t: string, s: string, i: nat) {
    i + |t| <= |s| && s[i..i + |t|] == t
  }

  /** No token that ends at `j` could be read on past it. */
  ghost predicate Delimited(s: string, j: nat) {
    j < |s| ==> !Is(NameChar, s[j])
  }

  lemma TwoParts(a: string, b: string, s: string, i: nat)
    requires At(a + b, s, i)
    ensures At(a, s, i) && At(b, s, i + |a|)
  {
    var t := s[i..i + |a + b|];
    assert t[..|a|] == a && s[i..i + |a|] == t[..|a|];
    assert t[|a|..] == b && s[i + |a|..i + |a| + |b|] == t[|a|..];
  }

  lemma Parts(a: string, b: string, c: string, s: string, i: nat)
    requires At(a + b + c, s, i)
    ensures At(a, s, i) && At(b, s, i + |a|) && At(c, s, i + |a| + |b|)
  {
    assert a + b + c == a + (b + c);
    TwoParts(a, b + c, s, i);
    TwoParts(b, c, s, i + |a|);
  }

  lemma CharAt(c: char, s: string, i: nat)
    requires At([c], s, i)
    ensures i < |s| && s[i] == c
  {
    assert s[i..i + 1][0] == s[i];
  }

  ghost predicate SpellsAt(e: Expr, level: nat, s: string, i: nat, j: nat)
    requires i <= j <= |s|
  {
    if level == 0 then SpellsExpr(e, s, i, j)
    else if level == 1 then SpellsTerm(e, s, i, j)
    else SpellsFactor(e, s, i, j)
  }

  lemma {:induction false} PrintSpells(e: Expr, level: nat, s: string, i: nat)
    requires WellFormed(e) && level <= 2 && At(Print(e, level), s, i) && Delimited(s, i + |Print(e, level)|)
    ensures SpellsAt(e, level, s, i, i + |Print(e, level)|)
    decreases e, 1
  {
    hide SpellsExpr, SpellsTerm, SpellsFactor, PrintBare;
    if Level(e) < level {
      var t := PrintBare(e);
      Parts("(", t, ")", s, i);
      CharAt('(', s, i);
      CharAt(')', s, i + 1 + |t|);
      PrintBareSpells(e, s, i + 1);
      Weaken(e, s, i + 1, i + 1 + |t|);
      assert SpellsAt(e, 0, s, i + 1, i + 1 + |t|);
      GroupSpells(e, s, i, i + 1 + |t|);
      FactorSpells(e, s, i, i + |t| + 2);
    } else {
      PrintBareSpells(e, s, i);
      Weaken(e, s, i, i + |PrintBare(e)|);
    }
  }

  lemma {:induction false} PrintBareSpells(e: Expr, s: string, i: nat)
    requires WellFormed(e) && At(PrintBare(e), s, i) && Delimited(s, i + |PrintBare(e)|)
    ensures SpellsAt(e, Level(e), s, i, i + |PrintBare(e)|)
    decreases e, 0
  {
    hide SpellsExpr, SpellsTerm, SpellsFactor, At, Print;
    match e
    case Literal(token) => NumberStands(token, s, i);
    case Variable(name) => NameStands(name, s, i);
    case Signed(negative, arg) =>
      var sign, t := if negative then '-' else '+', Print(arg, 2);
      TwoParts([sign], t, s, i);
      CharAt(sign, s, i);
      PrintSpells(arg, 2, s, i + 1);
      SignedSpells(e, s, i, i + 1 + |t|);
    case Binary(op, left, right) =>
      var a, b := Print(left, Level(e)), Print(right, Level(e) + 1);
      Parts(a, [Symbol(op)], b, s, i);
      CharAt(Symbol(op), s, i + |a|);
      PrintSpells(left, Level(e), s, i);
      PrintSpells(right, Level(e) + 1, s, i + |a| + 1);
      BinarySpells(e, s, i, i + |a|, i + |a| + 1 + |b|);
  }

  /** A spelling at one level is a spelling at every lower one. */
  lemma Weaken(e: Expr, s: string, i: nat, j: nat)
    requires i <= j <= |s| && SpellsAt(e, Level(e), s, i, j)
    ensures forall level: nat | level <= Level(e) :: SpellsAt(e, level, s, i, j)
  {
    if Level(e) == 2 { FactorSpells(e, s, i, j); }
  }

  lemma FactorSpells(e: Expr, s: string, i: nat, j: nat)
    requires i <= j <= |s| && SpellsFactor(e, s, i, j)
    ensures SpellsTerm(e, s, i, j) && SpellsExpr(e, s, i, j)
  {
    hide SpellsFactor;
  }

  lemma GroupSpells(e: Expr, s: string, i: nat, k: nat)
    requires i < k < |s| && s[i] == '(' && s[k] == ')' && SpellsExpr(e, s, i + 1, k)
    ensures SpellsFactor(e, s, i, k + 1)
  {
    hide SpellsExpr;
    assert Skip(s, i) == i && Skip(s, k) == k;
  }

  lemma SignedSpells(e: Expr, s: string, i: nat, j: nat)
    requires e.Signed? && i < j <= |s| && s[i] == (if e.negative then '-' else '+') && SpellsFactor(e.arg, s, i + 1, j)
    ensures SpellsFactor(e, s, i, j)
  {
    assert Skip(s, i) == i;
  }

  lemma BinarySpells(e: Expr, s: string, i: nat, k: nat, j: nat)
    requires e.Binary? && i <= k < j <= |s| && s[k] == Symbol(e.op)
    requires SpellsAt(e.left, Level(e), s, i, k) && SpellsAt(e.right, Level(e) + 1, s, k + 1, j)
    ensures SpellsAt(e, Level(e), s, i, j)
  {
    hide SpellsFactor;
    assert Skip(s, k) == k;
  }

  lemma NumberStands(token: string, s: string, i: nat)
    requires WellFormed(Literal(token)) && At(token, s, i) && Delimited(s, i + |token|)
    ensures SpellsFactor(Literal(token), s, i, i + |token|)
  {
    hide SpellsExpr, Span, NumberEnd, At;
    var j := i + |token|;
    TokenBytes(token, s, i);
    NumberEndCases(s, i);
    NumberEndCases(token, 0);
    if |token| > 1 && token[0] == '0' && (token[1] == 'x' || token[1] == 'X') {
      SpanIs(s, i + 2, j, HexDigit);
    } else {
      SpanIs(s, i + 1, j, Digit);
    }
  }

  lemma TokenBytes(token: string, s: string, i: nat)
    requires At(token, s, i)
    ensures i + |token| <= |s| && s[i..i + |token|] == token
    ensures forall k | i <= k < i + |token| :: s[k] == token[k - i]
  {
    var j := i + |token|;
    assert forall k | 0 <= k < |token| :: s[i + k] == token[k] by { assert s[i..j] == token; }
    assert forall k | i <= k < j :: s[i + (k - i)] == s[k];
  }

  lemma NameStands(name: string, s: string, i: nat)
    requires WellFormed(Variable(name)) && At(name, s, i) && Delimited(s, i + |name|)
    ensures SpellsFactor(Variable(name), s, i, i + |name|)
  {
    hide SpellsExpr;
    var j := i + |name|;
    assert forall k | 0 <= k < |name| :: s[i + k] == name[k] by { assert s[i..j] == name; }
    assert s[i + 0] == name[0] && Is(NameChar, name[0]);
    assert Skip(s, i) == i;
    SpanIs(s, i, j, NameChar);
  }

  lemma SpanIs(s: string, i: nat, j: nat, class_: Class)
    requires i <= j <= |s|
    requires forall k | i <= k < j :: Is(class_, s[k])
    requires j < |s| ==> !Is(class_, s[j])
    ensures Span(s, i, class_) == j
  {}

  /**
   * Printing then evaluating: every tree whose text fits the limit evaluates to
   * its own wrapping, truncating value, and fails when that has no value.
   */
  lemma PrintThenEvaluate(e: Expr, env: string -> int64)
    requires WellFormed(e) && |Print(e, 0)| <= MAX_EXPRESSION
    ensures Evaluate(Print(e, 0), env) == Eval(e, env)
  {
    hide Eval, Print;
    var s := Print(e, 0);
    assert s[0..0 + |s|] == s;
    PrintSpells(e, 0, s, 0);
    assert Skip(s, |s|) == |s|;
    assert Spells(e, s);
    SpelledIsRead(e, s);
  }

  predicate LiteralsFit(e: Expr) {
    match e
    case Literal(token) => LiteralValue(token).Some?
    case Variable(_) => true
    case Signed(_, arg) => LiteralsFit(arg)
    case Binary(_, left, right) => LiteralsFit(left) && LiteralsFit(right)
  }

  ghost predicate Subtree(t: Expr, e: Expr) {
    t == e || match e
    case Signed(_, arg) => Subtree(t, arg)
    case Binary(_, left, right) => Subtree(t, left) || Subtree(t, right)
    case _ => false
  }

  /** Some division or remainder anywhere in `e` has a divisor worth zero. */
  ghost predicate DividesByZero(e: Expr, env: string -> int64) {
    exists t :: Subtree(t, e) && IsZeroDivision(t, env)
  }

  ghost predicate IsZeroDivision(t: Expr, env: string -> int64) {
    t.Binary? && (t.op.Div? || t.op.Mod?) && Eval(t.right, env) == Some(0)
  }

  /** With literals in range, division by zero is the only way to have no value. */
  lemma {:induction false} FailsOnlyOnDivisionByZero(e: Expr, env: string -> int64)
    requires LiteralsFit(e)
    ensures Eval(e, env) == None <==> DividesByZero(e, env)
  {
    match e
    case Literal(_) =>
    case Variable(_) =>
    case Signed(_, arg) =>
      FailsOnlyOnDivisionByZero(arg, env);
      assert forall t :: Subtree(t, arg) ==> Subtree(t, e);
    case Binary(_, left, right) =>
      FailsOnlyOnDivisionByZero(left, env);
      FailsOnlyOnDivisionByZero(right, env);
      assert Subtree(e, e);
      assert forall t :: Subtree(t, left) || Subtree(t, right) ==> Subtree(t, e);
  }

  lemma {:induction false} UnfitLiteralFails(e: Expr, env: string -> int64)
    requires !LiteralsFit(e)
    ensures Eval(e, env) == None
  {
    hide LiteralValue, Apply;
    match e
    case Literal(_) =>
    case Variable(_) =>
    case Signed(_, arg) => UnfitLiteralFails(arg, env);
    case Binary(_, left, right) =>
      if LiteralsFit(left) { UnfitLiteralFails(right, env); } else { UnfitLiteralFails(left, env); }
  }

  /** Evaluation fails on a literal that is no int64 in its base, on division by zero, and on nothing else. */
  lemma FailsExactlyWhen(e: Expr, env: string -> int64)
    ensures Eval(e, env) == None <==> !LiteralsFit(e) || DividesByZero(e, env)
  {
    if LiteralsFit(e) { FailsOnlyOnDivisionByZero(e, env); } else { UnfitLiteralFails(e, env); }
  }
}
