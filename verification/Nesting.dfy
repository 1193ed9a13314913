/**
 * Arithmetic expressions inside one another: the case for which the passes replace
 * the last, and so the innermost, expression first. `NestedIsReplacedInsideOut` says
 * what comes out, for any tree of up to twelve of them: the value of an inner
 * expression is passed on as text, and the smallest int64 does not survive that.
 */
module Nesting {
  import opened Arithmetic
  import opened Expansion
  import opened Numbers
  import opened Wrappers

  // ----- trees of nested expressions --------------------------------------------------

  /** An expression with `$((...))` among its operands: around another tree, or around a given closed text. */
  datatype Tree =
    | Plain(leaf: Expr)
    | Sign(negative: bool, arg: Tree)
    | Both(op: Op, left: Tree, right: Tree)
    | Nested(inner: Tree)
    | Given(text: string)

  /** What can be written in `st`: leaves are tokens, and given texts open and close there. */
  ghost predicate Sound(t: Tree, st: Scan) {
    match t
    case Plain(e) => WellFormed(e) && (e.Literal? || e.Variable?)
    case Sign(_, arg) => Sound(arg, st)
    case Both(_, left, right) => Sound(left, st) && Sound(right, st)
    case Nested(inner) => Sound(inner, st)
    case Given(text) => Inner(st, text)
  }

  /** How many expressions are nested in the tree. */
  function Count(t: Tree): nat {
    match t
    case Plain(_) => 0
    case Sign(_, arg) => Count(arg)
    case Both(_, left, right) => Count(left) + Count(right)
    case Nested(inner) => Count(inner) + 1
    case Given(_) => 1
  }

  function TreeLevel(t: Tree): nat {
    if !t.Both? then 2 else if t.op.Add? || t.op.Sub? then 0 else 1
  }

  function Text(t: Tree, level: nat): string
    decreases t, 1
  {
    if TreeLevel(t) < level then "(" + BareText(t) + ")" else BareText(t)
  }

  function BareText(t: Tree): string
    decreases t, 0
  {
    match t
    case Plain(e) => PrintBare(e)
    case Sign(negative, arg) => [if negative then '-' else '+'] + Text(arg, 2)
    case Both(op, left, right) => Text(left, TreeLevel(t)) + [Symbol(op)] + Text(right, TreeLevel(t) + 1)
    case Nested(inner) => Opened(Text(inner, 0))
    case Given(text) => Opened(text)
  }

  /** The tree with its nested expressions replaced by their values. */
  function Flat(t: Tree, env: string -> int64): Expr
    decreases t, 0
  {
    match t
    case Plain(e) => e
    case Sign(negative, arg) => Signed(negative, Flat(arg, env))
    case Both(op, left, right) => Binary(op, Flat(left, env), Flat(right, env))
    case Nested(inner) => Number(Worth(inner, env))
    case Given(text) => Number(ValueOf(text, env))
  }

  /** The value of a tree; one that is passed on must not be the smallest int64. */
  function Meaning(t: Tree, env: string -> int64): Option<int64>
    decreases t, 0
  {
    match t
    case Plain(e) => Eval(e, env)
    case Sign(negative, arg) =>
      (match Meaning(arg, env)
       case None => None
       case Some(v) => Some(if negative then Wrap(-(v as int)) else v))
    case Both(op, left, right) =>
      (match (Meaning(left, env), Meaning(right, env))
       case (Some(a), Some(b)) => Apply(op, a, b)
       case _ => None)
    case Nested(inner) => PassedOn(Worth(inner, env))
    case Given(text) => PassedOn(ValueOf(text, env))
  }

  function PassedOn(v: int64): Option<int64> { if v == MIN_INT64 then None else Some(v) }

  /** What is written for `$((t))`: its value, or 0 if it has none or is too long by the time it is read. */
  function Worth(t: Tree, env: string -> int64): int64
    decreases t, 1
  {
    if |Print(Flat(t, env), 0)| > MAX_EXPRESSION then 0
    else match Meaning(t, env) case Some(v) => v case None => 0
  }

  lemma {:induction false} FlatIsWellFormed(t: Tree, st: Scan, env: string -> int64)
    requires Sound(t, st)
    ensures WellFormed(Flat(t, env)) && Level(Flat(t, env)) == TreeLevel(t)
  {
    hide Number, Worth, ValueOf;
    match t
    case Plain(_) =>
    case Sign(_, arg) => FlatIsWellFormed(arg, st, env);
    case Both(_, left, right) => FlatIsWellFormed(left, st, env); FlatIsWellFormed(right, st, env);
    case Nested(inner) => NumberPrints(Worth(inner, env));
    case Given(text) => NumberPrints(ValueOf(text, env));
  }

  lemma {:induction false} FlatMeansTheSame(t: Tree, env: string -> int64)
    ensures Eval(Flat(t, env), env) == Meaning(t, env)
  {
    hide Number, Worth, ValueOf, Apply;
    match t
    case Plain(_) =>
    case Sign(_, arg) => FlatMeansTheSame(arg, env);
    case Both(_, left, right) => FlatMeansTheSame(left, env); FlatMeansTheSame(right, env);
    case Nested(inner) => NumberValue(Worth(inner, env), env);
    case Given(text) => NumberValue(ValueOf(text, env), env);
  }

  /** The evaluator finds that value in the text that the passes leave. */
  lemma FlatIsWorth(t: Tree, st: Scan, env: string -> int64)
    requires Sound(t, st)
    ensures ValueOf(Print(Flat(t, env), 0), env) == Worth(t, env)
  {
    hide Flat, Meaning, Print, WellFormed, Sound, Eval;
    FlatIsWellFormed(t, st, env);
    FlatMeansTheSame(t, env);
    if |Print(Flat(t, env), 0)| <= MAX_EXPRESSION { PrintThenEvaluate(Flat(t, env), env); }
  }

  /** The tree read as one expression: nesting is grouping. */
  function Grouped(t: Tree, env: string -> int64): Expr {
    match t
    case Plain(e) => e
    case Sign(negative, arg) => Signed(negative, Grouped(arg, env))
    case Both(op, left, right) => Binary(op, Grouped(left, env), Grouped(right, env))
    case Nested(inner) => Grouped(inner, env)
    case Given(text) => Number(ValueOf(text, env))
  }

  /** Every nested tree has a value that can be passed on, and is short enough when it is read. */
  predicate Passes(t: Tree, env: string -> int64) {
    match t
    case Plain(_) => true
    case Sign(_, arg) => Passes(arg, env)
    case Both(_, left, right) => Passes(left, env) && Passes(right, env)
    case Nested(inner) =>
      && Passes(inner, env) && Meaning(inner, env).Some? && Meaning(inner, env) != Some(MIN_INT64)
      && |Print(Flat(inner, env), 0)| <= MAX_EXPRESSION
    case Given(_) => true
  }

  /** Then the passes compute what evaluating the whole at once would. */
  lemma {:induction false} NestingIsGrouping(t: Tree, env: string -> int64)
    requires Passes(t, env)
    ensures Meaning(t, env) == Eval(Grouped(t, env), env)
  {
    hide Number, Print, Flat, ValueOf, Apply;
    match t
    case Plain(_) =>
    case Sign(_, arg) => NestingIsGrouping(arg, env);
    case Both(_, left, right) => NestingIsGrouping(left, env); NestingIsGrouping(right, env);
    case Nested(inner) => NestingIsGrouping(inner, env);
    case Given(text) => NumberValue(ValueOf(text, env), env);
  }

  // ----- printed trees as text ---------------------------------------------------------

  /** No quote, no escape, no dollar. */
  predicate Quiet(s: string) {
    forall i | 0 <= i < |s| :: Ordinary(s[i]) && s[i] != '$'
  }

  lemma QuietParts(a: string, b: string)
    ensures Quiet(a + b) <==> Quiet(a) && Quiet(b)
  {
    assert forall i | 0 <= i < |a| :: (a + b)[i] == a[i];
    assert forall i | 0 <= i < |b| :: (a + b)[|a| + i] == b[i];
  }

  lemma QuietScan(st: Scan, s: string)
    requires Ready(st) && Quiet(s)
    ensures After(st, s) == st && Calm(st, s)
  {
    AfterPlain(st, s);
  }

  /** Text without parentheses keeps the count. */
  lemma {:induction false} FlatBalanced(t: string, rest: string, depth: nat)
    requires '(' !in t && ')' !in t
    ensures Balanced(t + rest, depth) == Balanced(rest, depth)
  {
    if t == "" {
      assert t + rest == rest;
    } else {
      assert (t + rest)[1..] == t[1..] + rest && t[0] in t;
      FlatBalanced(t[1..], rest, depth);
    }
  }

  lemma TokenIsFlat(e: Expr)
    requires WellFormed(e) && (e.Literal? || e.Variable?)
    ensures var t := PrintBare(e); '(' !in t && ')' !in t && Quiet(t)
  {
    if e.Literal? {
      assert forall i | 0 <= i < |e.token| :: Is(NameChar, e.token[i]);
    } else {
      assert forall i | 0 <= i < |e.name| :: e.name[i] in e.name;
    }
  }

  lemma {:induction false} PrintedIsQuiet(e: Expr, level: nat)
    requires WellFormed(e)
    ensures Quiet(Print(e, level))
    decreases e
  {
    hide Quiet, WellFormed;
    WellFormedParts(e);
    SymbolIsQuiet(e);
    match e {
      case Literal(_) => TokenIsFlat(e);
      case Variable(_) => TokenIsFlat(e);
      case Signed(negative, arg) =>
        PrintedIsQuiet(arg, 2);
        QuietParts([if negative then '-' else '+'], Print(arg, 2));
      case Binary(op, left, right) =>
        PrintedIsQuiet(left, Level(e));
        PrintedIsQuiet(right, Level(e) + 1);
        QuietParts(Print(left, Level(e)), [Symbol(op)]);
        QuietParts(Print(left, Level(e)) + [Symbol(op)], Print(right, Level(e) + 1));
    }
    QuietParts("(", PrintBare(e));
    QuietParts("(" + PrintBare(e), ")");
  }

  lemma WellFormedParts(e: Expr)
    requires WellFormed(e)
    ensures e.Signed? ==> WellFormed(e.arg)
    ensures e.Binary? ==> WellFormed(e.left) && WellFormed(e.right)
  {}

  lemma SymbolIsQuiet(e: Expr)
    ensures Quiet("(") && Quiet(")") && Quiet("+") && Quiet("-") && (e.Binary? ==> Quiet([Symbol(e.op)]))
  {}

  lemma {:induction false} PrintedIsBalanced(e: Expr, level: nat, rest: string, depth: nat)
    requires WellFormed(e) && depth >= 1
    ensures Balanced(Print(e, level) + rest, depth) == Balanced(rest, depth)
    decreases e, 1
  {
    hide PrintBare, WellFormed;
    if Level(e) < level {
      var t := PrintBare(e);
      assert (Print(e, level) + rest)[1..] == t + (")" + rest);
      assert (")" + rest)[1..] == rest;
      BareIsBalanced(e, ")" + rest, depth + 1);
    } else {
      BareIsBalanced(e, rest, depth);
    }
  }

  lemma {:induction false} BareIsBalanced(e: Expr, rest: string, depth: nat)
    requires WellFormed(e) && depth >= 1
    ensures Balanced(PrintBare(e) + rest, depth) == Balanced(rest, depth)
    decreases e, 0
  {
    hide Balanced, WellFormed, Print;
    WellFormedParts(e);
    match e
    case Literal(_) => TokenIsFlat(e); FlatBalanced(PrintBare(e), rest, depth);
    case Variable(_) => TokenIsFlat(e); FlatBalanced(PrintBare(e), rest, depth);
    case Signed(negative, arg) =>
      var sign, t := [if negative then '-' else '+'], Print(arg, 2);
      assert sign + t + rest == sign + (t + rest);
      FlatBalanced(sign, t + rest, depth);
      PrintedIsBalanced(arg, 2, rest, depth);
    case Binary(op, left, right) =>
      var a, b := Print(left, Level(e)), Print(right, Level(e) + 1);
      assert a + [Symbol(op)] + b + rest == a + ([Symbol(op)] + (b + rest));
      PrintedIsBalanced(left, Level(e), [Symbol(op)] + (b + rest), depth);
      FlatBalanced([Symbol(op)], b + rest, depth);
      PrintedIsBalanced(right, Level(e) + 1, rest, depth);
  }

  /** A printed tree is the text of an expression wherever one may open. */
  lemma PrintedIsInner(st: Scan, e: Expr)
    requires Ready(st) && WellFormed(e)
    ensures Inner(st, Print(e, 0))
  {
    hide Print, WellFormed, Quiet, After, Calm;
    PrintedIsQuiet(e, 0);
    QuietScan(st, Print(e, 0));
    PrintedIsBalanced(e, 0, "", 1);
    assert Print(e, 0) + "" == Print(e, 0);
  }

  // ----- the passes ------------------------------------------------------------------------

  /** The scan comes out of a tree's text as it went in. */
  lemma {:induction false} TextKeepsScan(t: Tree, level: nat, st: Scan)
    requires Ready(st) && Sound(t, st)
    ensures After(st, Text(t, level)) == st
    decreases t, 1
  {
    hide BareText, Sound, After;
    BareTextKeepsScan(t, st);
    Around(st, "(", BareText(t), ")");
  }

  /** Ordinary text around text that keeps the scan. */
  lemma Around(st: Scan, a: string, s: string, b: string)
    requires Ready(st) && After(st, s) == st
    requires (forall i | 0 <= i < |a| :: Ordinary(a[i])) && forall i | 0 <= i < |b| :: Ordinary(b[i])
    ensures After(st, a + s + b) == st
  {
    hide After;
    AfterConcat(st, a + s, b);
    AfterConcat(st, a, s);
    AfterPlain(st, a);
    AfterPlain(st, b);
  }

  lemma {:induction false} BareTextKeepsScan(t: Tree, st: Scan)
    requires Ready(st) && Sound(t, st)
    ensures After(st, BareText(t)) == st
    decreases t, 0
  {
    hide Text, After, Balanced, Calm, PrintBare;
    match t
    case Plain(e) => TokenIsFlat(e); QuietScan(st, PrintBare(e));
    case Sign(negative, arg) =>
      TextKeepsScan(arg, 2, st);
      Around(st, [if negative then '-' else '+'], Text(arg, 2), "");
      assert BareText(t) + "" == BareText(t);
    case Both(op, left, right) =>
      var a, b := Text(left, TreeLevel(t)), Text(right, TreeLevel(t) + 1);
      TextKeepsScan(left, TreeLevel(t), st);
      TextKeepsScan(right, TreeLevel(t) + 1, st);
      Around(st, "", a, [Symbol(op)]);
      assert "" + a == a;
      AfterConcat(st, a + [Symbol(op)], b);
    case Nested(inner) => TextKeepsScan(inner, 0, st); AfterOpened(st, Text(inner, 0));
    case Given(text) => AfterOpened(st, text);
  }

  /** Nothing opens in quiet text, whatever follows. */
  lemma QuietThenCalm(st: Scan, s: string, post: string)
    requires Ready(st) && Quiet(s) && Calm(st, post)
    ensures Calm(st, s + post)
  {
    hide After;
    QuietScan(st, s);
    forall i: nat | i < |s + post| ensures !Opens(st, s + post, i) {
      if i >= |s| { OpensConcat(st, s, post, i - |s|); }
    }
  }

  /**
   * The passes turn the text of a tree into that of its flat form, one pass for each
   * nested expression, wherever it stands.
   */
  lemma {:induction false} TreeIsFlattened(
    pre: string, t: Tree, level: nat, post: string, n: nat, env: string -> int64)
    requires var st := After(START, pre); Ready(st) && Sound(t, st) && Calm(st, post)
    ensures Expand(pre + Text(t, level) + post, n + Count(t), env)
         == Expand(pre + Print(Flat(t, env), level) + post, n, env)
    decreases t, 2
  {
    hide BareText, PrintBare, Flat, Expand, Count, Sound, After, Calm;
    var st, bare := After(START, pre), PrintBare(Flat(t, env));
    FlatIsWellFormed(t, st, env);
    if TreeLevel(t) < level {
      AfterConcat(START, pre, "(");
      AfterPlain(st, "(");
      QuietThenCalm(st, ")", post);
      BareIsFlattened(pre + "(", t, ")" + post, n, env);
      assert pre + ("(" + BareText(t) + ")") + post == (pre + "(") + BareText(t) + (")" + post);
      assert pre + ("(" + bare + ")") + post == (pre + "(") + bare + (")" + post);
    } else {
      BareIsFlattened(pre, t, post, n, env);
    }
  }

  lemma {:induction false} BareIsFlattened(pre: string, t: Tree, post: string, n: nat, env: string -> int64)
    requires var st := After(START, pre); Ready(st) && Sound(t, st) && Calm(st, post)
    ensures Expand(pre + BareText(t) + post, n + Count(t), env)
         == Expand(pre + PrintBare(Flat(t, env)) + post, n, env)
    decreases t, 1
  {
    hide Text, Print, PrintBare, Expand, After, Calm, Balanced, Worth, ValueOf, FormatInt, Number;
    match t
    case Plain(_) =>
    case Sign(negative, arg) =>
      var sign := [if negative then '-' else '+'];
      AfterConcat(START, pre, sign);
      AfterPlain(After(START, pre), sign);
      TreeIsFlattened(pre + sign, arg, 2, post, n, env);
      SignedBare(negative, Flat(arg, env));
      assert pre + (sign + Text(arg, 2)) + post == (pre + sign) + Text(arg, 2) + post;
      var flat := Print(Flat(arg, env), 2);
      assert pre + (sign + flat) + post == (pre + sign) + flat + post;
    case Both(op, left, right) => BothAreFlattened(pre, t, post, n, env);
    case Nested(inner) => NestedIsFlattened(pre, inner, post, n, env);
    case Given(text) =>
      var num := FormatInt(ValueOf(text, env));
      OneMorePass(pre, text, post, n, env);
      NumberIsBare(ValueOf(text, env));
  }

  /** The right operand comes first. */
  lemma {:induction false} BothAreFlattened(pre: string, t: Tree, post: string, n: nat, env: string -> int64)
    requires t.Both?
    requires var st := After(START, pre); Ready(st) && Sound(t, st) && Calm(st, post)
    ensures Expand(pre + BareText(t) + post, n + Count(t), env)
         == Expand(pre + PrintBare(Flat(t, env)) + post, n, env)
    decreases t, 0
  {
    hide Text, Print, PrintBare, Expand, After, Calm, Balanced, Inner, Worth, ValueOf, FormatInt, Number;
    var st, sym, k := After(START, pre), [Symbol(t.op)], TreeLevel(t);
    var a, b := Text(t.left, k), Text(t.right, k + 1);
    var a', b' := Print(Flat(t.left, env), k), Print(Flat(t.right, env), k + 1);
    TextKeepsScan(t.left, k, st);
    Around(st, "", a, sym);
    assert "" + a == a;
    AfterConcat(START, pre, a + sym);
    TreeIsFlattened(pre + (a + sym), t.right, k + 1, post, n + Count(t.left), env);
    FlatIsWellFormed(t.right, st, env);
    PrintedIsQuiet(Flat(t.right, env), k + 1);
    QuietParts(sym, b');
    SymbolsAreQuiet(t.op);
    QuietThenCalm(st, sym + b', post);
    TreeIsFlattened(pre, t.left, k, sym + b' + post, n, env);
    FlatIsWellFormed(t, st, env);
    BinaryBare(t.op, Flat(t.left, env), Flat(t.right, env));
    assert pre + (a + sym + b) + post == pre + (a + sym) + b + post;
    assert pre + (a + sym) + b' + post == pre + a + (sym + b' + post);
    assert pre + a' + (sym + b' + post) == pre + (a' + sym + b') + post;
  }

  lemma {:induction false} NestedIsFlattened(pre: string, inner: Tree, post: string, n: nat, env: string -> int64)
    requires var st := After(START, pre); Ready(st) && Sound(inner, st) && Calm(st, post)
    ensures Expand(pre + Opened(Text(inner, 0)) + post, n + Count(inner) + 1, env)
         == Expand(pre + PrintBare(Number(Worth(inner, env))) + post, n, env)
    decreases inner, 3
  {
    hide Text, Print, PrintBare, Expand, After, Calm, Balanced, Inner, Worth, ValueOf, FormatInt, Number, Flat,
      Sound, Count;
    var st, text, flat := After(START, pre), Text(inner, 0), Print(Flat(inner, env), 0);
    AfterConcat(START, pre, "$((");
    AfterPlain(st, "$((");
    CalmBehindClose(st, post);
    TreeIsFlattened(pre + "$((", inner, 0, "))" + post, n + 1, env);
    FlatIsWellFormed(inner, st, env);
    PrintedIsInner(st, Flat(inner, env));
    OneMorePass(pre, flat, post, n, env);
    FlatIsWorth(inner, st, env);
    NumberIsBare(Worth(inner, env));
    assert pre + Opened(text) + post == (pre + "$((") + text + ("))" + post);
    assert pre + Opened(flat) + post == (pre + "$((") + flat + ("))" + post);
  }

  lemma OneMorePass(pre: string, e: string, post: string, n: nat, env: string -> int64)
    requires var st := After(START, pre); Ready(st) && Inner(st, e) && Calm(st, post)
    ensures Expand(pre + Opened(e) + post, n + 1, env) == Expand(pre + FormatInt(ValueOf(e, env)) + post, n, env)
  {
    hide Expand, After, Calm, Balanced, ValueOf, FormatInt, OnePass;
    PassReplacesLast(pre, e, post, env);
    ExpandGoesOn(pre + Opened(e) + post, n + 1, env);
  }

  lemma NumberIsBare(v: int64)
    ensures PrintBare(Number(v)) == FormatInt(v)
  {
    hide FormatInt;
    NumberPrints(v);
    assert Print(Number(v), 2) == PrintBare(Number(v));
  }

  lemma SymbolsAreQuiet(op: Op)
    ensures Quiet([Symbol(op)])
  {}

  /**
   * An expression that holds up to eleven others, in a line with no other: each inner
   * one is replaced by its value before the one around it is read, and the whole
   * becomes `Worth(t, env)`. The smallest int64 is replaced by a text that no literal
   * spells, so that nothing around it has a value.
   */
  lemma NestedIsReplacedInsideOut(pre: string, t: Tree, post: string, env: string -> int64)
    requires var st := After(START, pre); Ready(st) && Sound(t, st) && Calm(st, post)
    requires Calm(START, pre) && Count(t) <= 11
    ensures Expand(pre + Opened(Text(t, 0)) + post, MAX_PASSES, env) == pre + FormatInt(Worth(t, env)) + post
  {
    hide Text, PrintBare, Expand, After, Calm, Worth, FormatInt, Number, Sound, OnePass;
    var st, num := After(START, pre), FormatInt(Worth(t, env));
    var left := MAX_PASSES - Count(t) - 1;
    NestedIsFlattened(pre, t, post, left, env);
    NumberIsBare(Worth(t, env));
    CalmNumber(st, Worth(t, env));
    NumberIsQuiet(Worth(t, env));
    QuietThenCalm(st, num, post);
    CalmThenCalm(pre, num, post);
    CalmIsFinal(pre + num + post, env);
    ExpandGoesOn(pre + num + post, left, env);
  }

  lemma NumberIsQuiet(v: int64)
    ensures Quiet(FormatInt(v)) && FormatInt(v) != "" && FormatInt(v)[0] != '('
  {
    var s := FormatInt(v);
    assert forall i | 0 <= i < |s| :: s[i] in s;
  }

  lemma CalmThenCalm(pre: string, num: string, post: string)
    requires Calm(START, pre) && Calm(After(START, pre), num + post) && num != "" && num[0] != '('
    ensures Calm(START, pre + num + post)
  {
    CalmConcat(START, pre, num + post);
    assert pre + num + post == pre + (num + post);
  }

  // ----- the smallest int64 --------------------------------------------------------------------

  /** `-9223372036854775807-1` */
  function SmallestInt(): Tree {
    Both(Sub, Sign(true, Plain(Literal("9223372036854775807"))), Plain(Literal("1")))
  }

  lemma SmallestIntPrints(env: string -> int64)
    ensures var e := Flat(SmallestInt(), env);
      && Text(SmallestInt(), 0) == Print(e, 0) == "-9223372036854775807-1"
      && forall st | Ready(st) :: Sound(SmallestInt(), st)
  {
    hide WellFormed;
    ZeroAndOne();
    LargestToken();
    DifferencePrints("9223372036854775807", "1", env);
    MinusSign();
  }

  lemma DifferencePrints(large: string, one: string, env: string -> int64)
    ensures var t := Both(Sub, Sign(true, Plain(Literal(large))), Plain(Literal(one)));
      Text(t, 0) == Print(Flat(t, env), 0) == "-" + large + "-" + one
  {
    assert Text(Plain(Literal(one)), 1) == Print(Literal(one), 1) == one;
    assert Text(Plain(Literal(large)), 2) == Print(Literal(large), 2) == large;
    var left := Sign(true, Plain(Literal(large)));
    assert Text(left, 0) == Print(Signed(true, Literal(large)), 0) == "-" + large;
    assert Flat(left, env) == Signed(true, Literal(large));
    BinaryBare(Sub, Flat(left, env), Literal(one));
  }

  lemma MinusSign()
    ensures "-" + "9223372036854775807" + "-" + "1" == "-9223372036854775807-1"
  {}

  /** The inner value is computed, the whole comes out as 0. */
  lemma SmallestIntIsLost(env: string -> int64)
    ensures Worth(SmallestInt(), env) == MIN_INT64
    ensures Expand("$(($((-9223372036854775807-1))+0))", MAX_PASSES, env) == "0"
  {
    hide Expand, Worth, Calm, After, Text, Print, Flat, Sound, Evaluate;
    var t := Both(Add, Nested(SmallestInt()), Plain(Literal("0")));
    SmallestIntPrints(env);
    SmallestIntIsComputed(env);
    FlatIsWorth(SmallestInt(), START, env);
    ZeroAdded(SmallestInt(), env);
    EmptyIsCalm(START);
    NestedIsReplacedInsideOut("", t, "", env);
    SmallestIntLine();
    assert FormatInt(Worth(t, env)) == "0";
    NothingAround(Opened(Text(t, 0)));
    NothingAround("0");
  }

  lemma SmallestIntLine()
    ensures Opened(Opened("-9223372036854775807-1") + "+0") == "$(($((-9223372036854775807-1))+0))"
  {
    OpenedTwice("-9223372036854775807-1");
    assert "$(($((" + "-9223372036854775807-1" + "))+0))" == "$(($((-9223372036854775807-1))+0))";
  }

  lemma OpenedTwice(s: string)
    ensures Opened(Opened(s) + "+0") == "$(($((" + s + "))+0))"
  {
    assert "$((" + ("$((" + s + "))" + "+0") + "))" == "$(($((" + s + "))+0))";
  }

  lemma NothingAround(s: string)
    ensures "" + s + "" == s
  {}

  lemma EmptyIsCalm(st: Scan)
    ensures Calm(st, "") && After(st, "") == st
  {}

  /** `$((t))+0`, for a tree worth the smallest int64. */
  lemma ZeroAdded(t: Tree, env: string -> int64)
    requires Sound(t, START)
    ensures var z := Both(Add, Nested(t), Plain(Literal("0")));
      && Sound(z, START) && Count(z) == Count(t) + 1
      && Text(z, 0) == Opened(Text(t, 0)) + "+0"
      && (Worth(t, env) == MIN_INT64 ==> Worth(z, env) == 0)
  {
    hide Worth, Print, WellFormed, LiteralValue, FormatInt, Number;
    var zero := Literal("0");
    ZeroAndOne();
    ZeroIsToken();
    assert Text(Plain(zero), 1) == "0" && Text(Nested(t), 0) == Opened(Text(t, 0));
    assert Opened(Text(t, 0)) + "+" + "0" == Opened(Text(t, 0)) + "+0";
    var z := Both(Add, Nested(t), Plain(zero));
    if Worth(t, env) == MIN_INT64 {
      assert Meaning(Nested(t), env) == None;
      NoMeaningNoWorth(z, env);
    }
  }

  lemma NoMeaningNoWorth(t: Tree, env: string -> int64)
    requires Meaning(t, env) == None
    ensures Worth(t, env) == 0
  {
    hide Print, Flat, Meaning;
  }

  lemma ZeroIsToken()
    ensures WellFormed(Literal("0"))
  {
    SpanIs("0", 1, 1, Digit);
  }

  /** The inner expression. */
  lemma SmallestIntIsComputed(env: string -> int64)
    ensures Evaluate("-9223372036854775807-1", env) == Some(MIN_INT64)
  {
    hide Evaluate, LiteralValue, WellFormed;
    ZeroAndOne();
    LargestToken();
    UnfitLiterals();
    MinusOne("9223372036854775807", "1", env);
    assert "-" + "9223372036854775807" + "-" + "1" == "-9223372036854775807-1";
  }

  /** The text `-large-one`. */
  lemma MinusOne(large: string, one: string, env: string -> int64)
    requires LiteralValue(large) == Some(MAX_INT64) && LiteralValue(one) == Some(1) && |large| + |one| < 30
    requires WellFormed(Literal(large)) && WellFormed(Literal(one))
    ensures Evaluate("-" + large + "-" + one, env) == Some(MIN_INT64)
  {
    hide LiteralValue, Evaluate, WellFormed;
    var e := Binary(Sub, Signed(true, Literal(large)), Literal(one));
    assert WellFormed(e) by { TreeIsWellFormed(large, one); }
    var left := Signed(true, Literal(large));
    BinaryBare(Sub, left, Literal(one));
    SignedBare(true, Literal(large));
    assert Print(Literal(large), 2) == large && Print(Literal(one), 1) == one;
    assert Print(left, 0) == "-" + large && Print(e, 0) == PrintBare(e);
    PrintThenEvaluate(e, env);
    assert Eval(Signed(true, Literal(large)), env) == Some(MIN_INT64 + 1);
  }

  lemma TreeIsWellFormed(large: string, one: string)
    requires WellFormed(Literal(large)) && WellFormed(Literal(one))
    ensures WellFormed(Binary(Sub, Signed(true, Literal(large)), Literal(one)))
  {}

  lemma ZeroAndOne()
    ensures LiteralValue("0") == Some(0) && LiteralValue("1") == Some(1) && WellFormed(Literal("1"))
  {
    assert "0"[1..] == "";
    DigitAppended("", '1');
    assert "" + ['1'] == "1";
    SpanIs("1", 1, 1, Digit);
  }

  lemma LargestToken()
    ensures WellFormed(Literal("9223372036854775807"))
  {
    SpanIs("9223372036854775807", 1, 19, Digit);
  }
}
