/**
 * `expandVirtualArithmetic`: up to twelve passes over a line, each replacing the
 * last `$((...))` that stands outside single quotes and escapes by its value.
 *
 * Main results: `OpensExactlyWhen` (where an expression may open, in terms of the
 * characters before it), `ExpansionReplacesExactly` (on a line woven from text and closed,
 * unnested expressions the last twelve expressions are replaced by their values and
 * not a byte of the rest is touched) and `FormattedReadsBackExactlyWhen` (what a
 * value written into a line reads as in a later pass).
 */
module Expansion {
  import opened Arithmetic
  import opened Numbers
  import opened Quotes
  import opened Wrappers

  const MAX_PASSES := 12

  // ----- numbers put into a line --------------------------------------------------------

  /** The tree a formatted number reads as. */
  function Number(v: int64): Expr {
    if v < 0 then Signed(true, Literal(Decimal(-(v as int)))) else Literal(Decimal(v))
  }

  lemma DecimalToken(n: nat)
    ensures var s := Decimal(n); WellFormed(Literal(s)) && (LiteralValue(s) == if n <= MAX_INT64 then Some(n) else None)
  {
    hide Decimal;
    DecimalMagnitude(n);
    var s := Decimal(n);
    assert forall i | 0 <= i < |s| :: Is(Digit, s[i]) by { assert forall i | 0 <= i < |s| :: s[i] in s; }
    SpanIs(s, 1, |s|, Digit);
    if n == 0 {
      assert s == "0" by { DecimalZero(); }
      assert s[1..] == "";
    } else {
      assert forall c | c in s :: DigitValue(c) < 10;
    }
  }

  lemma NumberPrints(v: int64)
    ensures WellFormed(Number(v)) && Level(Number(v)) == 2 && |FormatInt(v)| <= 20
    ensures forall level: nat | level <= 2 :: Print(Number(v), level) == FormatInt(v)
  {
    hide Decimal;
    var n: nat := if v < 0 then -(v as int) else v;
    DecimalToken(n);
    assert Power10(4) == 10_000 && Power10(8) == 100_000_000 && Power10(12) == 1_000_000_000_000;
    assert Power10(16) == 10_000_000_000_000_000;
    assert Power10(19) == 10_000_000_000_000_000_000;
    DecimalIsShort(n, 19);
    assert Print(Literal(Decimal(n)), 2) == Decimal(n);
  }

  lemma NumberValue(v: int64, env: string -> int64)
    ensures Eval(Number(v), env) == if v == MIN_INT64 then None else Some(v)
  {
    hide Decimal, LiteralValue;
    DecimalToken(if v < 0 then -(v as int) else v);
  }

  /**
   * A number written into a line reads as itself in a later pass - all but the
   * smallest int64, whose magnitude is no int64 literal.
   */
  lemma FormattedReadsBackExactlyWhen(v: int64, env: string -> int64)
    ensures Evaluate(FormatInt(v), env) == if v == MIN_INT64 then None else Some(v)
  {
    hide Evaluate, Print, Eval, FormatInt;
    NumberPrints(v);
    NumberValue(v, env);
    PrintThenEvaluate(Number(v), env);
  }

  // ----- the scan -----------------------------------------------------------------------

  datatype Scan = Scan(quote: Quote, escaped: bool)

  const START := Scan(Bare, false)

  function Step(st: Scan, c: char): Scan {
    if st.escaped then st.(escaped := false)
    else if c == '\\' then st.(escaped := true)
    else if st.quote == Single then (if c == '\'' then START else st)
    else if c == '\'' then Scan(Single, false)
    else if c == '"' then Scan(if st.quote == Double then Bare else Double, false)
    else st
  }

  function After(st: Scan, s: string): Scan {
    if s == "" then st else Step(After(st, s[..|s| - 1]), s[|s| - 1])
  }

  /** An expansion may start in this state. */
  predicate Ready(st: Scan) { !st.escaped && st.quote != Single }

  predicate Dollar(s: string, i: nat) {
    i + 2 < |s| && s[i] == '$' && s[i + 1] == '(' && s[i + 2] == '('
  }

  predicate Opens(st: Scan, s: string, i: nat) {
    Dollar(s, i) && Ready(After(st, s[..i]))
  }

  /** The last opening before `n`. */
  function LastOpen(line: string, n: nat): (r: Option<nat>)
    requires n <= |line|
    ensures r.Some? ==> r.value < n && Opens(START, line, r.value)
    ensures forall i: nat | (if r.Some? then r.value + 1 else 0) <= i < n :: !Opens(START, line, i)
  {
    if n == 0 then None else if Opens(START, line, n - 1) then Some(n - 1) else LastOpen(line, n - 1)
  }

  /** Where the `))` of an expression starts, `depth` parentheses being open. */
  function Close(line: string, i: nat, depth: nat): (r: Option<nat>)
    ensures r.Some? ==> i <= r.value && r.value + 1 < |line|
    decreases |line| - i
  {
    if i + 1 >= |line| then None
    else if line[i] == '(' then Close(line, i + 1, depth + 1)
    else if line[i] == ')' then
      if depth > 1 then Close(line, i + 1, depth - 1)
      else if line[i + 1] == ')' then Some(i) else Close(line, i + 1, depth)
    else Close(line, i + 1, depth)
  }

  function ValueOf(expr: string, env: string -> int64): int64 {
    match Evaluate(expr, env) case Some(v) => v case None => 0
  }

  function OnePass(line: string, env: string -> int64): Option<string> {
    match LastOpen(line, |line|)
    case None => None
    case Some(start) =>
      match Close(line, start + 3, 1)
      case None => None
      case Some(end) => Some(line[..start] + FormatInt(ValueOf(line[start + 3..end], env)) + line[end + 2..])
  }

  function Expand(line: string, passes: nat, env: string -> int64): string
    decreases passes
  {
    if passes == 0 then line else
    match OnePass(line, env)
    case None => line
    case Some(next) => Expand(next, passes - 1, env)
  }

  method ExpandVirtualArithmetic(line: string, vars: string -> string) returns (r: string)
    ensures r == Expand(line, MAX_PASSES, Values(vars))
  {
    hide Expand, OnePass, LastOpen, Close, Evaluate, FormatInt, Values;
    ghost var env := Values(vars);
    r := line;
    for pass := 0 to MAX_PASSES
      invariant Expand(r, MAX_PASSES - pass, env) == Expand(line, MAX_PASSES, env)
    {
      PassUnfolds(r, env);
      ExpandGoesOn(r, MAX_PASSES - pass, env);
      var start := FindStart(r);
      if start < 0 {
        break;
      }
      var end := FindEnd(r, start);
      if end < 0 {
        break;
      }
      var expr := r[start + 3..end];
      var value, ok := EvalVirtualArithmetic(expr, vars);
      if !ok {
        value := 0;
      }
      r := r[..start] + FormatInt(value) + r[end + 2..];
    }
    ExpandGoesOn(r, 0, env);
  }

  lemma ExpandGoesOn(line: string, passes: nat, env: string -> int64)
    ensures passes == 0 || OnePass(line, env) == None ==> Expand(line, passes, env) == line
    ensures passes > 0 && OnePass(line, env).Some? ==>
      Expand(line, passes, env) == Expand(OnePass(line, env).value, passes - 1, env)
  {
    hide OnePass;
  }

  lemma PassUnfolds(line: string, env: string -> int64)
    ensures LastOpen(line, |line|) == None ==> OnePass(line, env) == None
    ensures LastOpen(line, |line|).Some? ==>
      var start := LastOpen(line, |line|).value;
      match Close(line, start + 3, 1)
      case None => OnePass(line, env) == None
      case Some(end) =>
        OnePass(line, env) == Some(line[..start] + FormatInt(ValueOf(line[start + 3..end], env)) + line[end + 2..])
  {
    hide LastOpen, Close, FormatInt, ValueOf;
  }

  /** The first scan of a pass: the last opening, or -1. */
  method FindStart(line: string) returns (start: int)
    ensures if start < 0 then LastOpen(line, |line|) == None else LastOpen(line, |line|) == Some(start)
  {
    start := -1;
    var quote := Bare;
    var i := 0;
    assert line[..0] == "";
    while i + 2 < |line|
      invariant i <= |line|
      invariant i + 2 < |line| ==> After(START, line[..i]) == Scan(quote, false)
      invariant -1 <= start < i && (start >= 0 ==> Opens(START, line, start))
      invariant forall j: nat | start < j < i :: !Opens(START, line, j)
      decreases |line| - i
    {
      var c := line[i];
      AfterGrows(START, line, i);
      if c == '\\' {
        AfterGrows(START, line, i + 1);
        i := i + 2;
        continue;
      }
      if quote == Single {
        if c == '\'' { quote := Bare; }
        i := i + 1;
        continue;
      }
      if c == '\'' {
        quote := Single;
        i := i + 1;
        continue;
      }
      if c == '"' {
        quote := if quote == Double then Bare else Double;
        i := i + 1;
        continue;
      }
      if c == '$' && line[i + 1] == '(' && line[i + 2] == '(' {
        start := i;
      }
      i := i + 1;
    }
    LastOpenIs(line, start);
  }

  lemma LastOpenIs(line: string, start: int)
    requires -1 <= start < |line| && (start >= 0 ==> Opens(START, line, start))
    requires forall j: nat | start < j && j + 2 < |line| :: !Opens(START, line, j)
    ensures LastOpen(line, |line|) == if start < 0 then None else Some(start)
  {}

  lemma AfterGrows(st: Scan, line: string, i: nat)
    requires i < |line|
    ensures After(st, line[..i + 1]) == Step(After(st, line[..i]), line[i])
  {
    assert line[..i + 1][..i] == line[..i];
  }

  /** The second scan of a pass: where the expression ends, or -1. */
  method FindEnd(line: string, start: nat) returns (end: int)
    requires start + 2 < |line|
    ensures if end < 0 then Close(line, start + 3, 1) == None else Close(line, start + 3, 1) == Some(end)
  {
    var depth := 1;
    end := -1;
    var i := start + 3;
    while i + 1 < |line|
      invariant start + 3 <= i && depth >= 1 && end == -1
      invariant Close(line, i, depth) == Close(line, start + 3, 1)
    {
      if line[i] == '(' {
        depth := depth + 1;
        i := i + 1;
        continue;
      }
      if line[i] == ')' {
        if depth > 1 {
          depth := depth - 1;
          i := i + 1;
          continue;
        }
        if line[i + 1] == ')' {
          end := i;
          break;
        }
      }
      i := i + 1;
    }
  }

  // ----- lines woven from text and expressions -----------------------------------------------

  /** Nothing opens in `s` when it is scanned from `st`. */
  ghost predicate Calm(st: Scan, s: string) {
    forall i: nat | i < |s| :: !Opens(st, s, i)
  }

  /**
   * Parentheses match, counted from `depth` open ones; a closing one that matches
   * none is not followed by another.
   */
  predicate Balanced(e: string, depth: nat) {
    if e == "" then depth == 1
    else if e[0] == '(' then Balanced(e[1..], depth + 1)
    else if e[0] == ')' then
      if depth > 1 then Balanced(e[1..], depth - 1) else |e| > 1 && e[1] != ')' && Balanced(e[1..], depth)
    else Balanced(e[1..], depth)
  }

  /**
   * The text of a closed, unnested expression that opens in `st`: its parentheses
   * match, its quotes and escapes are complete, and no expression opens inside it.
   */
  ghost predicate Inner(st: Scan, e: string) {
    Balanced(e, 1) && After(st, e) == st && Calm(st, e)
  }

  function Opened(e: string): string { "$((" + e + "))" }

  /** Text pieces with an item between any two neighbours. */
  function Weave(texts: seq<string>, items: seq<string>): string
    requires |texts| == |items| + 1
    decreases |items|
  {
    if items == [] then texts[0]
    else Weave(texts[..|items|], items[..|items| - 1]) + items[|items| - 1] + texts[|items|]
  }

  function AllOpened(exprs: seq<string>): (items: seq<string>)
    ensures |items| == |exprs|
  {
    seq(|exprs|, i requires 0 <= i < |exprs| => Opened(exprs[i]))
  }

  /** The last `n` expressions by their values, those before them as they stand. */
  function Replaced(exprs: seq<string>, n: nat, env: string -> int64): (items: seq<string>)
    ensures |items| == |exprs|
  {
    seq(|exprs|, i requires 0 <= i < |exprs| =>
      if i + n < |exprs| then Opened(exprs[i]) else FormatInt(ValueOf(exprs[i], env)))
  }

  /** Every expression opens outside single quotes and escapes, and no text opens another. */
  ghost predicate Proper(texts: seq<string>, exprs: seq<string>)
    requires |texts| == |exprs| + 1
    decreases |exprs|
  {
    if exprs == [] then Calm(START, texts[0])
    else
      var n := |exprs| - 1;
      var st := After(START, Weave(texts[..n + 1], AllOpened(exprs[..n])));
      Proper(texts[..n + 1], exprs[..n]) && Ready(st) && Inner(st, exprs[n]) && Calm(st, texts[n + 1])
  }

  lemma {:induction false} AfterConcat(st: Scan, a: string, b: string)
    ensures After(st, a + b) == After(After(st, a), b)
    decreases |b|
  {
    if b == "" {
      assert a + b == a;
    } else {
      AfterConcat(st, a, b[..|b| - 1]);
      assert (a + b)[..|a + b| - 1] == a + b[..|b| - 1];
    }
  }

  /** Neither a quote nor an escape. */
  predicate Ordinary(c: char) { c != '\\' && c != '\'' && c != '"' }

  lemma {:induction false} AfterPlain(st: Scan, s: string)
    requires Ready(st) && forall i | 0 <= i < |s| :: Ordinary(s[i])
    ensures After(st, s) == st
  {
    if s != "" {
      AfterPlain(st, s[..|s| - 1]);
    }
  }

  lemma OpensConcat(st: Scan, a: string, b: string, i: nat)
    ensures i + 2 < |a| ==> Opens(st, a + b, i) == Opens(st, a, i)
    ensures Opens(st, a + b, |a| + i) == Opens(After(st, a), b, i)
  {
    if i + 2 < |a| { assert (a + b)[..i] == a[..i]; }
    if i <= |b| {
      assert (a + b)[..|a| + i] == a + b[..i];
      AfterConcat(st, a, b[..i]);
    }
  }

  /** Nothing opens across a seam behind which no parenthesis stands. */
  lemma CalmConcat(st: Scan, a: string, b: string)
    requires Calm(st, a) && Calm(After(st, a), b) && (b == "" || b[0] != '(')
    ensures Calm(st, a + b)
  {
    forall i: nat | i < |a + b| ensures !Opens(st, a + b, i) {
      if i + 2 < |a| {
        OpensConcat(st, a, b, i);
      } else if i >= |a| {
        OpensConcat(st, a, b, i - |a|);
      } else if b != "" {
        assert (a + b)[|a|] == b[0];
      }
    }
  }

  lemma CalmNumber(st: Scan, v: int)
    requires Ready(st)
    ensures Calm(st, FormatInt(v)) && After(st, FormatInt(v)) == st && FormatInt(v)[0] != '('
    ensures forall c | c in FormatInt(v) :: c != '$'
  {
    var s := FormatInt(v);
    assert forall i | 0 <= i < |s| :: s[i] in s;
    AfterPlain(st, s);
  }

  lemma {:induction false} CloseSkips(line: string, i: nat, e: string, depth: nat)
    requires i + |e| + 2 <= |line| && line[i..i + |e|] == e && line[i + |e|] == ')' && line[i + |e| + 1] == ')'
    requires Balanced(e, depth) && depth >= 1
    ensures Close(line, i, depth) == Some(i + |e|)
    decreases |e|
  {
    if e != "" {
      assert line[i] == line[i..i + |e|][0] == e[0];
      assert line[i + 1..i + |e|] == e[1..];
      var next := if e[0] == '(' then depth + 1 else if e[0] == ')' && depth > 1 then depth - 1 else depth;
      CloseSkips(line, i + 1, e[1..], next);
    }
  }

  /** One pass over a line whose last opening is known. */
  lemma PassReplacesLast(pre: string, e: string, post: string, env: string -> int64)
    requires Ready(After(START, pre)) && Inner(After(START, pre), e) && Calm(After(START, pre), post)
    ensures OnePass(pre + Opened(e) + post, env) == Some(pre + FormatInt(ValueOf(e, env)) + post)
  {
    hide FormatInt, ValueOf, LastOpen, Close, After;
    var line, k := pre + Opened(e) + post, |pre|;
    OnlyFirstOpens(After(START, pre), e, post);
    assert line == pre + (Opened(e) + post);
    forall j: nat | k < j && j + 2 < |line| ensures !Opens(START, line, j) {
      OpensConcat(START, pre, Opened(e) + post, j - k);
    }
    LastOpenIs(line, k);
    CloseSkips(line, k + 3, e, 1);
  }

  /** The scan comes out of an expression as it went in. */
  lemma AfterOpened(st: Scan, e: string)
    requires Ready(st) && After(st, e) == st
    ensures After(st, Opened(e)) == st
  {
    hide After;
    assert Opened(e) == "$((" + e + "))";
    AfterConcat(st, "$((" + e, "))");
    AfterConcat(st, "$((", e);
    AfterPlain(st, "$((");
    AfterPlain(st, "))");
  }

  /** Nothing opens across or inside a closing pair. */
  lemma CalmBehindClose(st: Scan, post: string)
    requires Ready(st) && Calm(st, post)
    ensures Calm(st, "))" + post)
  {
    hide After;
    AfterPlain(st, "))");
    forall i: nat | i < |"))" + post| ensures !Opens(st, "))" + post, i) {
      if i >= 2 { OpensConcat(st, "))", post, i - 2); }
    }
  }

  lemma OnlyFirstOpens(st: Scan, e: string, post: string)
    requires Ready(st) && Inner(st, e) && Calm(st, post)
    ensures forall j: nat | j > 0 :: !Opens(st, Opened(e) + post, j)
  {
    hide After;
    var rest := e + ("))" + post);
    CalmBehindClose(st, post);
    CalmConcat(st, e, "))" + post);
    AfterPlain(st, "$((");
    assert Opened(e) + post == "$((" + rest;
    forall j: nat | j > 0 ensures !Opens(st, "$((" + rest, j) {
      if j >= 3 { OpensConcat(st, "$((", rest, j - 3); }
    }
  }

  lemma AfterWoven(pre: string, e: string, text: string)
    requires Ready(After(START, pre)) && After(After(START, pre), e) == After(START, pre)
    ensures After(START, pre + Opened(e) + text) == After(After(START, pre), text)
  {
    assert pre + Opened(e) + text == pre + (Opened(e) + text);
    AfterConcat(START, pre, Opened(e) + text);
    AfterConcat(After(START, pre), Opened(e), text);
    AfterOpened(After(START, pre), e);
  }

  lemma {:induction false} ExpandWoven(texts: seq<string>, exprs: seq<string>, tail: string, n: nat,
      env: string -> int64)
    requires |texts| == |exprs| + 1 && Proper(texts, exprs)
    requires Calm(After(START, Weave(texts, AllOpened(exprs))), tail) && (tail == "" || tail[0] != '(')
    ensures Expand(Weave(texts, AllOpened(exprs)) + tail, n, env) == Weave(texts, Replaced(exprs, n, env)) + tail
    decreases |exprs|
  {
    hide FormatInt, ValueOf, OnePass, After, Calm, Weave, AllOpened, Replaced, Balanced;
    if n == 0 {
      NothingReplaced(exprs, env);
    } else if exprs == [] {
      WeaveNothing(texts, n, env);
      CalmConcat(START, texts[0], tail);
      CalmIsFinal(texts[0] + tail, env);
    } else {
      var k := |exprs| - 1;
      var front, pre, e, text := exprs[..k], Weave(texts[..k + 1], AllOpened(exprs[..k])), exprs[k], texts[k + 1];
      var st, num := After(START, pre), FormatInt(ValueOf(e, env));
      WeaveLast(texts, exprs, n, env);
      AfterWoven(pre, e, text);
      CalmConcat(st, text, tail);
      assert pre + Opened(e) + text + tail == pre + Opened(e) + (text + tail);
      PassReplacesLast(pre, e, text + tail, env);
      CalmNumber(st, ValueOf(e, env));
      NumberThenText(st, num, text, tail);
      var tail' := num + text + tail;
      assert pre + num + (text + tail) == pre + tail';
      ExpandWoven(texts[..k + 1], front, tail', n - 1, env);
      var done := Weave(texts[..k + 1], Replaced(front, n - 1, env));
      assert done + tail' == done + num + text + tail;
    }
  }

  lemma NothingReplaced(exprs: seq<string>, env: string -> int64)
    ensures Replaced(exprs, 0, env) == AllOpened(exprs)
  {}

  lemma WeaveNothing(texts: seq<string>, n: nat, env: string -> int64)
    requires |texts| == 1
    ensures Weave(texts, AllOpened([])) == texts[0] == Weave(texts, Replaced([], n, env))
  {}

  /** The last item of a woven line, before and after replacing. */
  lemma WeaveLast(texts: seq<string>, exprs: seq<string>, n: nat, env: string -> int64)
    requires |texts| == |exprs| + 1 && exprs != [] && n > 0
    ensures var k := |exprs| - 1;
      && Weave(texts, AllOpened(exprs))
           == Weave(texts[..k + 1], AllOpened(exprs[..k])) + Opened(exprs[k]) + texts[k + 1]
      && Weave(texts, Replaced(exprs, n, env))
           == Weave(texts[..k + 1], Replaced(exprs[..k], n - 1, env)) + FormatInt(ValueOf(exprs[k], env)) + texts[k + 1]
  {
    hide FormatInt, ValueOf, Opened, Weave;
    var k := |exprs| - 1;
    var before, after := AllOpened(exprs), Replaced(exprs, n, env);
    assert before[..k] == AllOpened(exprs[..k]) && before[k] == Opened(exprs[k]);
    assert after[..k] == Replaced(exprs[..k], n - 1, env) && after[k] == FormatInt(ValueOf(exprs[k], env));
    WeaveStep(texts, before);
    WeaveStep(texts, after);
  }

  lemma WeaveStep(texts: seq<string>, items: seq<string>)
    requires |texts| == |items| + 1 && items != []
    ensures var k := |items| - 1; Weave(texts, items) == Weave(texts[..k + 1], items[..k]) + items[k] + texts[k + 1]
  {}

  /** A number changes nothing for the text behind it. */
  lemma NumberThenText(st: Scan, num: string, text: string, tail: string)
    requires num != "" && num[0] != '(' && Calm(st, num) && After(st, num) == st && Calm(st, text + tail)
    requires forall c | c in num :: c != '$'
    ensures Calm(st, num + text + tail) && (num + text + tail)[0] != '('
  {
    var b := text + tail;
    assert num + text + tail == num + b;
    forall i: nat | i < |num + b| ensures !Opens(st, num + b, i) {
      if i < |num| { assert (num + b)[i] == num[i] && num[i] in num; } else { OpensConcat(st, num, b, i - |num|); }
    }
  }

  lemma CalmIsFinal(line: string, env: string -> int64)
    requires Calm(START, line)
    ensures OnePass(line, env) == None
  {}

  /**
   * On a proper line the last twelve expressions are replaced by their values (0
   * where evaluation fails), and all the text is kept as it stands.
   */
  lemma ExpansionReplacesExactly(texts: seq<string>, exprs: seq<string>, env: string -> int64)
    requires |texts| == |exprs| + 1 && Proper(texts, exprs)
    ensures Expand(Weave(texts, AllOpened(exprs)), MAX_PASSES, env) == Weave(texts, Replaced(exprs, 12, env))
  {
    var line := Weave(texts, AllOpened(exprs));
    assert line + "" == line;
    ExpandWoven(texts, exprs, "", MAX_PASSES, env);
    assert Weave(texts, Replaced(exprs, MAX_PASSES, env)) + "" == Weave(texts, Replaced(exprs, MAX_PASSES, env));
  }

  // ----- quotes and backslashes, by counting --------------------------------------------------

  /** How many backslashes stand right before position `i`. */
  function Backslashes(s: string, i: nat): nat
    requires i <= |s|
  {
    if i > 0 && s[i - 1] == '\\' then Backslashes(s, i - 1) + 1 else 0
  }

  /** How many single quotes before `i` have an even number of backslashes right before them. */
  function SingleQuotes(s: string, i: nat): nat
    requires i <= |s|
  {
    if i == 0 then 0
    else SingleQuotes(s, i - 1) + if s[i - 1] == '\'' && Backslashes(s, i - 1) % 2 == 0 then 1 else 0
  }

  lemma {:induction false} ScanCounts(s: string, i: nat)
    requires i <= |s|
    ensures var st := After(START, s[..i]);
      && (st.escaped <==> Backslashes(s, i) % 2 == 1)
      && (st.quote == Single <==> SingleQuotes(s, i) % 2 == 1)
  {
    if i > 0 {
      ScanCounts(s, i - 1);
      assert s[..i][..i - 1] == s[..i - 1];
    }
  }

  /**
   * An expression may open at `$((` iff it stands behind an even number of
   * backslashes and of single quotes; double quotes make no difference.
   */
  lemma OpensExactlyWhen(s: string, i: nat)
    ensures Opens(START, s, i) <==>
      && i + 2 < |s| && s[i] == '$' && s[i + 1] == '(' && s[i + 2] == '('
      && Backslashes(s, i) % 2 == 0 && SingleQuotes(s, i) % 2 == 0
  {
    if i <= |s| { ScanCounts(s, i); }
  }

  /** A line in which no expression may open is left as it is. */
  lemma UnopenedIsKept(line: string, passes: nat, env: string -> int64)
    requires forall i: nat | i < |line| && line[i] == '$' ::
      Backslashes(line, i) % 2 == 1 || SingleQuotes(line, i) % 2 == 1
    ensures Expand(line, passes, env) == line
  {
    forall i: nat | i < |line| ensures !Opens(START, line, i) { OpensExactlyWhen(line, i); }
    CalmIsFinal(line, env);
  }

  lemma {:induction false} NoneCounted(s: string, i: nat)
    requires i <= |s| && forall k | 0 <= k < i :: s[k] != '\\' && s[k] != '\''
    ensures Backslashes(s, i) == 0 && SingleQuotes(s, i) == 0
  {
    if i > 0 { NoneCounted(s, i - 1); }
  }

  lemma {:induction false} OneCounted(s: string, k: nat, i: nat)
    requires k < i <= |s| && SingleQuotes(s, k) == 0 && Backslashes(s, k) == 0
    requires s[k] == '\'' && forall j | k < j < i :: s[j] != '\''
    ensures SingleQuotes(s, i) == 1
  {
    if k + 1 < i { OneCounted(s, k, i - 1); }
  }

  /** Nothing between single quotes is expanded. */
  lemma SingleQuotesProtect(pre: string, s: string, env: string -> int64)
    requires (forall c | c in pre :: c !in ['\\', '\'', '"', '$']) && '\'' !in s
    ensures var line := pre + "'" + s + "'"; Expand(line, MAX_PASSES, env) == line
  {
    var line, k := pre + "'" + s + "'", |pre|;
    assert forall i | 0 <= i < k :: line[i] == pre[i] && pre[i] in pre;
    assert forall i | k < i < |line| - 1 :: line[i] == s[i - k - 1] && s[i - k - 1] in s;
    NoneCounted(line, k);
    forall i: nat | i < |line| && line[i] == '$' ensures SingleQuotes(line, i) % 2 == 1 { OneCounted(line, k, i); }
    UnopenedIsKept(line, MAX_PASSES, env);
  }

  /** Nor is what follows a backslash. */
  lemma BackslashProtects(pre: string, s: string, env: string -> int64)
    requires (forall c | c in pre :: c !in ['\\', '\'', '"', '$']) && '$' !in s
    ensures var line := pre + "\\$((" + s; Expand(line, MAX_PASSES, env) == line
  {
    var line, k := pre + "\\$((" + s, |pre|;
    assert forall i | 0 <= i < k :: line[i] == pre[i] && pre[i] in pre;
    assert forall i | k + 4 <= i < |line| :: line[i] == s[i - k - 4] && s[i - k - 4] in s;
    NoneCounted(line, k);
    assert Backslashes(line, k + 1) == 1;
    UnopenedIsKept(line, MAX_PASSES, env);
  }

  /** If the last expression is not closed, expansion stops there, and nothing before it is expanded either. */
  lemma UnclosedIsKept(pre: string, s: string, passes: nat, env: string -> int64)
    requires '$' !in s && forall i | 0 <= i < |s| - 1 :: s[i] == ')' ==> s[i + 1] != ')'
    requires var line := pre + "$((" + s; Backslashes(line, |pre|) % 2 == 0 && SingleQuotes(line, |pre|) % 2 == 0
    ensures var line := pre + "$((" + s; Expand(line, passes, env) == line
  {
    hide Backslashes, SingleQuotes, Opens;
    var line, k := pre + "$((" + s, |pre|;
    OpensExactlyWhen(line, k);
    forall i: nat | k < i < |line| ensures !Opens(START, line, i) {
      OpensExactlyWhen(line, i);
      assert i > k + 2 ==> line[i] == s[i - k - 3] && s[i - k - 3] in s;
    }
    assert line[k + 3..] == s;
    CloseNever(line, k + 3, 1);
    assert LastOpen(line, |line|) == Some(k);
  }

  lemma {:induction false} CloseNever(line: string, i: nat, depth: nat)
    requires forall k | i <= k < |line| - 1 :: line[k] == ')' ==> line[k + 1] != ')'
    ensures Close(line, i, depth) == None
    decreases |line| - i
  {
    if i + 1 < |line| {
      CloseNever(line, i + 1, depth);
      CloseNever(line, i + 1, depth + 1);
      if depth > 1 { CloseNever(line, i + 1, depth - 1); }
    }
  }

  /** Text without parentheses is closed. */
  lemma {:induction false} FlatIsBalanced(e: string)
    requires '(' !in e && ')' !in e
    ensures Balanced(e, 1)
  {
    if e != "" { FlatIsBalanced(e[1..]); }
  }

  lemma InDoubleQuotes(pre: string, e: string)
    requires (forall c | c in pre :: c !in ['\\', '\'', '"', '$'])
    requires (forall c | c in e :: c !in ['\\', '\'', '"', '$', '(', ')'])
    ensures var st := After(START, pre + "\""); st == Scan(Double, false) && Inner(st, e) && Calm(st, "\"")
  {
    var front, st := pre + "\"", Scan(Double, false);
    assert front[..|pre|] == pre && forall i | 0 <= i < |pre| :: pre[i] in pre;
    AfterPlain(START, pre);
    assert forall i | 0 <= i < |e| :: e[i] in e;
    AfterPlain(st, e);
    FlatIsBalanced(e);
  }

  lemma NumberIsFinal(pre: string, v: int64, passes: nat, env: string -> int64)
    requires '$' !in pre
    ensures var line := pre + "\"" + FormatInt(v) + "\""; Expand(line, passes, env) == line
  {
    hide FormatInt, Expand, SingleQuotes, Backslashes;
    var num := FormatInt(v);
    var line := pre + "\"" + num + "\"";
    CalmNumber(START, v);
    forall i: nat | i < |line| ensures line[i] != '$' {
      if i < |pre| {
        assert line[i] == pre[i] && pre[i] in pre;
      } else if |pre| < i < |line| - 1 {
        assert line[i] == num[i - |pre| - 1] && num[i - |pre| - 1] in num;
      }
    }
    UnopenedIsKept(line, passes, env);
  }

  /** In double quotes an expression is expanded. */
  lemma DoubleQuotesDoNotProtect(pre: string, e: string, env: string -> int64)
    requires (forall c | c in pre :: c !in ['\\', '\'', '"', '$'])
    requires (forall c | c in e :: c !in ['\\', '\'', '"', '$', '(', ')'])
    ensures Expand(pre + "\"$((" + e + "))\"", MAX_PASSES, env) == pre + "\"" + FormatInt(ValueOf(e, env)) + "\""
  {
    hide ValueOf, FormatInt, Expand, After, Calm, Balanced;
    var front := pre + "\"";
    var line := front + Opened(e) + "\"";
    InDoubleQuotes(pre, e);
    PassReplacesLast(front, e, "\"", env);
    ExpandGoesOn(line, MAX_PASSES, env);
    NumberIsFinal(pre, ValueOf(e, env), MAX_PASSES - 1, env);
    assert pre + "\"$((" + e + "))\"" == line;
  }
}
