/**
 * Arithmetic expressions as they are written: numbers, names, signs, parentheses and
 * operators with blanks and tabs anywhere between them. How an expression is laid
 * out does not matter (`LayoutDoesNotMatter`), and no other character is accepted
 * (`ForeignCharactersFail`).
 */
module Layouts {
  import opened Arithmetic
  import opened Numbers
  import opened Wrappers

  /** Every token has a gap in front of it; a closing parenthesis has one too. */
  datatype Layout =
    | Number(gap: string, token: string)
    | Name(gap: string, name: string)
    | Sign(gap: string, negative: bool, arg: Layout)
    | Group(gap: string, inner: Layout, end: string)
    | Infix(op: Op, left: Layout, gap: string, right: Layout)

  function TextOf(l: Layout): string {
    match l
    case Number(gap, token) => gap + token
    case Name(gap, name) => gap + name
    case Sign(gap, negative, arg) => gap + [if negative then '-' else '+'] + TextOf(arg)
    case Group(gap, inner, end) => gap + "(" + TextOf(inner) + end + ")"
    case Infix(op, left, gap, right) => TextOf(left) + gap + [Symbol(op)] + TextOf(right)
  }

  function TreeOf(l: Layout): Expr {
    match l
    case Number(_, token) => Literal(token)
    case Name(_, name) => Variable(name)
    case Sign(_, negative, arg) => Signed(negative, TreeOf(arg))
    case Group(_, inner, _) => TreeOf(inner)
    case Infix(op, left, _, right) => Binary(op, TreeOf(left), TreeOf(right))
  }

  predicate Blanks(gap: string) { forall c | c in gap :: c == ' ' || c == '\t' }

  predicate IsLetter(c: char) { 'a' <= c <= 'z' || 'A' <= c <= 'Z' || c == '_' }

  predicate IsName(name: string) {
    name != "" && IsLetter(name[0]) && forall c | c in name :: IsLetter(c) || c in DECIMAL
  }

  predicate IsNumber(token: string) {
    || (token != "" && forall c | c in token :: c in DECIMAL)
    || (|token| >= 2 && token[..2] in ["0x", "0X"] && forall c | c in token[2..] :: c in LOWER_HEX + UPPER_HEX)
  }

  function Rank(op: Op): nat { if op.Add? || op.Sub? then 0 else 1 }

  /** Sums are made of products and products of factors; all else needs parentheses. */
  predicate LaidOut(l: Layout, level: nat) {
    Blanks(l.gap) &&
    match l
    case Number(_, token) => IsNumber(token)
    case Name(_, name) => IsName(name)
    case Sign(_, _, arg) => LaidOut(arg, 2)
    case Group(_, inner, end) => LaidOut(inner, 0) && Blanks(end)
    case Infix(op, left, _, right) => level <= Rank(op) && LaidOut(left, Rank(op)) && LaidOut(right, Rank(op) + 1)
  }

  /** Blanks, tabs and spare parentheses change no value. */
  lemma LayoutDoesNotMatter(l: Layout, end: string, env: string -> int64)
    requires LaidOut(l, 0) && Blanks(end) && |TextOf(l) + end| <= 256
    ensures Evaluate(TextOf(l) + end, env) == Eval(TreeOf(l), env)
  {
    hide Eval, TextOf, LaidOut, SpellsExpr;
    var s, j := TextOf(l) + end, |TextOf(l)|;
    assert s[0..j] == TextOf(l) && s[j..] == end;
    assert j < |s| ==> s[j] == end[0] && end[0] in end;
    LayoutSpells(l, 0, s, 0);
    assert s[j..j + |end|] == end;
    GapIsSkipped(end, s, j);
    assert Spells(TreeOf(l), s);
    SpelledIsRead(TreeOf(l), s);
  }

  lemma GapIsSkipped(gap: string, s: string, i: nat)
    requires Blanks(gap) && At(gap, s, i) && (i + |gap| < |s| ==> s[i + |gap|] !in [' ', '\t'])
    ensures Skip(s, i) == i + |gap|
  {
    TokenBytes(gap, s, i);
    assert forall k | i <= k < i + |gap| :: s[k] == gap[k - i] && gap[k - i] in gap;
    SpanIs(s, i, i + |gap|, Blank);
  }

  /** A factor may have a gap in front of it. */
  lemma GapInFront(e: Expr, gap: string, s: string, i: nat, j: nat)
    requires Blanks(gap) && At(gap, s, i) && i + |gap| < j <= |s| && s[i + |gap|] !in [' ', '\t']
    requires SpellsFactor(e, s, i + |gap|, j)
    ensures SpellsFactor(e, s, i, j) && SpellsTerm(e, s, i, j) && SpellsExpr(e, s, i, j)
  {
    hide SpellsExpr, SpellsTerm;
    GapIsSkipped(gap, s, i);
    assert Skip(s, i + |gap|) == i + |gap|;
    FactorSpells(e, s, i, j);
  }

  lemma GapDelimits(gap: string, c: char, s: string, i: nat)
    requires Blanks(gap) && At(gap, s, i) && i + |gap| < |s| && s[i + |gap|] == c && !Is(NameChar, c)
    ensures Delimited(s, i)
  {
    TokenBytes(gap, s, i);
    assert gap != "" ==> gap[0] in gap;
  }

  lemma {:induction false} LayoutSpells(l: Layout, level: nat, s: string, i: nat)
    requires LaidOut(l, level) && level <= 2 && At(TextOf(l), s, i) && Delimited(s, i + |TextOf(l)|)
    ensures SpellsAt(TreeOf(l), level, s, i, i + |TextOf(l)|)
    decreases l, 1
  {
    hide SpellsExpr, SpellsTerm, SpellsFactor, At, Blanks, IsName, IsNumber, Delimited;
    var j := i + |TextOf(l)|;
    match l
    case Number(gap, token) =>
      TwoParts(gap, token, s, i);
      NumberIsToken(token);
      NumberStands(token, s, i + |gap|);
      TokenBytes(token, s, i + |gap|);
      assert s[i + |gap|] == token[0];
      GapInFront(TreeOf(l), gap, s, i, j);
    case Name(gap, name) =>
      TwoParts(gap, name, s, i);
      NameIsToken(name);
      NameStands(name, s, i + |gap|);
      TokenBytes(name, s, i + |gap|);
      assert s[i + |gap|] == name[0];
      GapInFront(TreeOf(l), gap, s, i, j);
    case Sign(gap, negative, arg) =>
      var sign := if negative then '-' else '+';
      Parts(gap, [sign], TextOf(arg), s, i);
      CharAt(sign, s, i + |gap|);
      LayoutSpells(arg, 2, s, i + |gap| + 1);
      SignedSpells(TreeOf(l), s, i + |gap|, j);
      GapInFront(TreeOf(l), gap, s, i, j);
    case Group(gap, inner, end) =>
      GroupIsLaidOut(gap, inner, end, s, i);
    case Infix(op, left, gap, right) =>
      InfixIsLaidOut(op, left, gap, right, level, s, i);
  }

  lemma {:induction false} GroupIsLaidOut(gap: string, inner: Layout, end: string, s: string, i: nat)
    requires var l := Group(gap, inner, end); LaidOut(l, 0) && At(TextOf(l), s, i) && Delimited(s, i + |TextOf(l)|)
    ensures var l := Group(gap, inner, end); var j := i + |TextOf(l)|;
      SpellsFactor(TreeOf(l), s, i, j) && SpellsTerm(TreeOf(l), s, i, j) && SpellsExpr(TreeOf(l), s, i, j)
    decreases Group(gap, inner, end), 0
  {
    hide SpellsExpr, SpellsTerm, SpellsFactor, At, Blanks, Delimited;
    var l := Group(gap, inner, end);
    var p := i + |gap|;
    var k := p + 1 + |TextOf(inner)|;
    var q := k + |end|;
    assert TextOf(l) == (gap + "(" + TextOf(inner)) + end + ")";
    Parts(gap + "(" + TextOf(inner), end, ")", s, i);
    Parts(gap, "(", TextOf(inner), s, i);
    CharAt('(', s, p);
    CharAt(')', s, q);
    GapDelimits(end, ')', s, k);
    LayoutSpells(inner, 0, s, p + 1);
    GapIsSkipped(end, s, k);
    SpacedGroup(TreeOf(inner), s, p, k, q);
    GapInFront(TreeOf(l), gap, s, i, q + 1);
  }

  lemma SpacedGroup(e: Expr, s: string, p: nat, k: nat, q: nat)
    requires p < k <= q < |s| && s[p] == '(' && s[q] == ')' && SpellsExpr(e, s, p + 1, k) && Skip(s, k) == q
    ensures SpellsFactor(e, s, p, q + 1)
  {
    hide SpellsExpr;
    assert Skip(s, p) == p;
  }

  lemma {:induction false} InfixIsLaidOut(op: Op, left: Layout, gap: string, right: Layout, level: nat,
      s: string, i: nat)
    requires var l := Infix(op, left, gap, right);
      LaidOut(l, level) && At(TextOf(l), s, i) && Delimited(s, i + |TextOf(l)|)
    ensures var l := Infix(op, left, gap, right); SpellsAt(TreeOf(l), level, s, i, i + |TextOf(l)|)
    decreases Infix(op, left, gap, right), 0
  {
    hide SpellsExpr, SpellsTerm, SpellsFactor, At, Blanks, Delimited;
    var l := Infix(op, left, gap, right);
    var k := i + |TextOf(left)|;
    var p := k + |gap|;
    var j := i + |TextOf(l)|;
    assert TextOf(l) == (TextOf(left) + gap) + [Symbol(op)] + TextOf(right);
    Parts(TextOf(left) + gap, [Symbol(op)], TextOf(right), s, i);
    TwoParts(TextOf(left), gap, s, i);
    CharAt(Symbol(op), s, p);
    GapDelimits(gap, Symbol(op), s, k);
    GapIsSkipped(gap, s, k);
    LayoutSpells(left, Rank(op), s, i);
    LayoutSpells(right, Rank(op) + 1, s, p + 1);
    SpacedInfix(TreeOf(l), s, i, k, p, j);
  }

  lemma SpacedInfix(e: Expr, s: string, i: nat, k: nat, p: nat, j: nat)
    requires e.Binary? && i <= k <= p < j <= |s| && Skip(s, k) == p && s[p] == Symbol(e.op)
    requires SpellsAt(e.left, Rank(e.op), s, i, k) && SpellsAt(e.right, Rank(e.op) + 1, s, p + 1, j)
    ensures forall level: nat | level <= Rank(e.op) :: SpellsAt(e, level, s, i, j)
  {
    hide SpellsFactor;
    assert OpOf(s[Skip(s, k)]) == e.op;
    if Rank(e.op) == 0 {
      assert SpellsExpr(e, s, i, j);
    } else {
      assert SpellsTerm(e, s, i, j);
      hide SpellsTerm;
      assert SpellsExpr(e, s, i, j);
    }
  }

  lemma NumberIsToken(token: string)
    requires IsNumber(token)
    ensures WellFormed(Literal(token)) && token[0] !in [' ', '\t']
  {
    DigitsAccepted();
    hide DECIMAL, LOWER_HEX, UPPER_HEX, Span;
    if token != "" && forall c | c in token :: c in DECIMAL {
      assert forall i | 0 <= i < |token| :: token[i] in token;
      assert |token| > 1 ==> token[1] in token;
      SpanIs(token, 1, |token|, Digit);
    } else {
      assert token[0] == token[..2][0] && token[1] == token[..2][1];
      assert forall i | 2 <= i < |token| :: token[i] == token[2..][i - 2] && token[2..][i - 2] in token[2..];
      SpanIs(token, 2, |token|, HexDigit);
    }
  }

  lemma NameIsToken(name: string)
    requires IsName(name)
    ensures WellFormed(Variable(name)) && name[0] !in [' ', '\t']
  {}

  // ----- nothing else is accepted ------------------------------------------------------

  predicate Accepted(c: char) { IsLetter(c) || c in DECIMAL || c in " \t+-*/%()" }

  predicate AllAccepted(s: string, i: nat, j: nat)
    requires i <= j <= |s|
  {
    forall k | i <= k < j :: Accepted(s[k])
  }

  /** A text with any other character in it has no value. */
  lemma ForeignCharactersFail(s: string, c: char, env: string -> int64)
    requires c in s && !(IsLetter(c) || c in DECIMAL || c in " \t+-*/%()")
    ensures Evaluate(s, env) == None
  {
    hide Evaluate, SpellsExpr;
    if Evaluate(s, env).Some? {
      EvaluateMeaning(s, env, Evaluate(s, env).value);
      var e :| Spells(e, s);
      var j :| 0 <= j <= |s| && SpellsExpr(e, s, 0, j) && Skip(s, j) == |s|;
      ExprAccepted(e, s, 0, j);
      SkipAccepted(s, j);
    }
  }

  lemma SkipAccepted(s: string, i: nat)
    requires i <= |s|
    ensures AllAccepted(s, i, Skip(s, i))
  {}

  lemma {:induction false} ExprAccepted(e: Expr, s: string, i: nat, j: nat)
    requires i <= j <= |s| && SpellsExpr(e, s, i, j)
    ensures AllAccepted(s, i, j)
    decreases j - i, 2
  {
    hide SpellsTerm, SpellsFactor, Span, OpOf, Accepted;
    if SpellsTerm(e, s, i, j) {
      TermAccepted(e, s, i, j);
    } else {
      var k :| i <= k < j && SpellsExpr(e.left, s, i, k) && Skip(s, k) < j && IsSign(s[Skip(s, k)])
        && OpOf(s[Skip(s, k)]) == e.op && SpellsTerm(e.right, s, Skip(s, k) + 1, j);
      ExprAccepted(e.left, s, i, k);
      SkipAccepted(s, k);
      SignsAccepted(s[Skip(s, k)]);
      TermAccepted(e.right, s, Skip(s, k) + 1, j);
    }
  }

  lemma {:induction false} TermAccepted(e: Expr, s: string, i: nat, j: nat)
    requires i <= j <= |s| && SpellsTerm(e, s, i, j)
    ensures AllAccepted(s, i, j)
    decreases j - i, 1
  {
    hide SpellsExpr, SpellsFactor, Span, OpOf, Accepted;
    if SpellsFactor(e, s, i, j) {
      FactorAccepted(e, s, i, j);
    } else {
      var k :| i <= k < j && SpellsTerm(e.left, s, i, k) && Skip(s, k) < j && IsMulOp(s[Skip(s, k)])
        && OpOf(s[Skip(s, k)]) == e.op && SpellsFactor(e.right, s, Skip(s, k) + 1, j);
      TermAccepted(e.left, s, i, k);
      SkipAccepted(s, k);
      SignsAccepted(s[Skip(s, k)]);
      FactorAccepted(e.right, s, Skip(s, k) + 1, j);
    }
  }

  lemma {:induction false} FactorAccepted(e: Expr, s: string, i: nat, j: nat)
    requires i <= j <= |s| && SpellsFactor(e, s, i, j)
    ensures AllAccepted(s, i, j)
    decreases j - i, 0
  {
    hide SpellsExpr, SpellsTerm, Span, NumberEnd, DECIMAL;
    var p := Skip(s, i);
    SkipAccepted(s, i);
    if IsSign(s[p]) {
      SignsAccepted(s[p]);
      FactorAccepted(e.arg, s, p + 1, j);
    } else if s[p] == '(' {
      var k :| p < k < j && SpellsExpr(e, s, p + 1, k) && Skip(s, k) == j - 1;
      ExprAccepted(e, s, p + 1, k);
      SkipAccepted(s, k);
      SignsAccepted('(');
    } else if Is(Digit, s[p]) {
      NumberAccepted(s, p);
    } else {
      NameAccepted(s, p);
    }
  }

  lemma SignsAccepted(c: char)
    ensures c in "+-*/%()" ==> Accepted(c)
    ensures IsSign(c) || IsMulOp(c) || c == '(' || c == ')' ==> Accepted(c)
  {}

  lemma NumberAccepted(s: string, p: nat)
    requires p < |s| && Is(Digit, s[p])
    ensures AllAccepted(s, p, NumberEnd(s, p))
  {
    hide Span;
    DigitsAccepted();
  }

  lemma NameAccepted(s: string, p: nat)
    requires p < |s|
    ensures AllAccepted(s, p, Span(s, p, NameChar))
  {
    hide Span;
    DigitsAccepted();
  }

  lemma DigitsAccepted()
    ensures forall c :: c in DECIMAL <==> '0' <= c <= '9'
    ensures forall c | c in LOWER_HEX + UPPER_HEX :: Is(HexDigit, c)
    ensures Accepted('x') && Accepted('X')
  {}
}
