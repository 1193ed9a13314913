/**
 * Compound commands in a list: what stands between `for`, `while` or `until` and
 * `done`, between `if` and `fi`, and between `case` and `esac`, nested in any way,
 * is not cut by `splitVirtualChain`, and behind the closing word cutting goes on
 * (`CompoundIsNeutral`, `CompoundListSplitsBack`).
 */
module Compound {
  import opened Chain
  import opened Spaces
  import opened Wrappers
  import Split

  // ----- commands as trees ----------------------------------------------------------

  datatype Kind = For | While | Until | If | Case

  function Opening(k: Kind): string {
    match k case For => "for" case While => "while" case Until => "until" case If => "if" case Case => "case"
  }

  function Closing(k: Kind): string {
    match k case For => "done" case While => "done" case Until => "done" case If => "fi" case Case => "esac"
  }

  /** Text and compound commands, one after the other; a compound command holds such a body itself. */
  datatype Body = End | Text(s: string, rest: Body) | Compound(kind: Kind, inner: Body, rest: Body)

  function Written(b: Body): string {
    match b
    case End => ""
    case Text(s, rest) => s + Written(rest)
    case Compound(kind, inner, rest) => Opening(kind) + Written(inner) + Closing(kind) + Written(rest)
  }

  // ----- scanning from any state -------------------------------------------------------

  function AfterFrom(st: State, s: string): State {
    if s == "" then st else Advance(AfterFrom(st, s[..|s| - 1]), s[|s| - 1])
  }

  lemma {:induction false} FromStart(s: string)
    ensures AfterFrom(START, s) == After(s)
  {
    if s != "" { FromStart(s[..|s| - 1]); }
  }

  lemma {:induction false} FromConcat(st: State, a: string, b: string)
    ensures AfterFrom(st, a + b) == AfterFrom(AfterFrom(st, a), b)
    decreases |b|
  {
    hide Advance;
    if b == "" {
      assert a + b == a;
    } else {
      FromConcat(st, a, b[..|b| - 1]);
      assert (a + b)[..|a + b| - 1] == a + b[..|b| - 1];
    }
  }

  /** No operator is met in `w`, whatever stands before it and behind it. */
  ghost predicate QuietFrom(st: State, w: string) {
    forall k, next | 0 <= k < |w| :: QuietByte(st, w, k, next)
  }

  ghost predicate QuietByte(st: State, w: string, k: nat, next: Option<char>)
    requires k < |w|
  {
    (k + 1 < |w| ==> next == Some(w[k + 1])) ==>
      Operator(AfterFrom(st, w[..k]), w[k], next, ByteAt(w, k - 1)) == ""
  }

  /** A byte before can only keep `&` from being an operator. */
  lemma PrevOnlyHides(st: State, c: char, next: Option<char>, prev: Option<char>)
    requires Operator(st, c, next, None) == ""
    ensures Operator(st, c, next, prev) == ""
  {
    hide EndWord;
  }

  lemma QuietConcat(st: State, a: string, b: string)
    requires QuietFrom(st, a) && QuietFrom(AfterFrom(st, a), b)
    ensures QuietFrom(st, a + b)
  {
    hide AfterFrom, Operator;
    var w := a + b;
    forall k, next | 0 <= k < |w| ensures QuietByte(st, w, k, next) {
      if k < |a| {
        assert w[..k] == a[..k] && ByteAt(w, k - 1) == ByteAt(a, k - 1);
        assert QuietByte(st, a, k, next);
        if k + 1 < |a| { assert w[k + 1] == a[k + 1]; }
      } else {
        var i := k - |a|;
        assert w[..k] == a + b[..i];
        FromConcat(st, a, b[..i]);
        assert QuietByte(AfterFrom(st, a), b, i, next);
        if i == 0 && (k + 1 < |w| ==> next == Some(w[k + 1])) {
          assert b[..0] == "" && ByteAt(b, -1) == None;
          PrevOnlyHides(AfterFrom(st, a), b[0], next, ByteAt(w, k - 1));
        }
      }
    }
  }

  // ----- words --------------------------------------------------------------------------

  /** A byte that ends the word before it. */
  predicate Ender(c: char) { !IsLetter(c) && c !in ['\\', '\'', '"', '(', ')', '{', '}'] }

  /** A pending word is read at the next byte that ends it. */
  lemma EnderEndsWord(st: State, c: char)
    requires st.scan == Split.START && Ender(c)
    ensures Advance(st, c) == EndWord(st) == Advance(EndWord(st), c)
  {
    hide EndWord;
    EndWordAgain(st);
  }

  lemma {:induction false} EnderThenSame(st: State, s: string, k: nat)
    requires st.scan == Split.START && 0 < k <= |s| && Ender(s[0])
    ensures AfterFrom(st, s[..k]) == AfterFrom(EndWord(st), s[..k])
  {
    hide Advance, EndWord;
    assert s[..k][..k - 1] == s[..k - 1];
    if k == 1 { EnderEndsWord(st, s[0]); } else { EnderThenSame(st, s, k - 1); }
  }

  /** One of each kind of compound command is open: whatever a keyword does shows. */
  const ONES := State(Split.START, "", 1, 1, 1)

  /** No keyword is read anywhere in the text, nor at its end, and quotes and brackets are closed. */
  ghost predicate Silent(s: string) {
    && (forall k | 0 <= k <= |s| :: Counts(AfterFrom(ONES, s[..k]), 1, 1, 1))
    && Counts(EndWord(AfterFrom(ONES, s)), 1, 1, 1) && AfterFrom(ONES, s).scan == Split.START
  }

  predicate Counts(st: State, cases: nat, ifs: nat, loops: nat) {
    st.cases == cases && st.ifs == ifs && st.loops == loops
  }

  /** The word that the text leaves pending. */
  function LastWord(s: string): string { AfterFrom(ONES, s).word }

  /** The same scan and word, with the counters of another state. */
  predicate SameButCounts(x: State, y: State) { x.scan == y.scan && x.word == y.word }

  lemma SameStep(x: State, y: State, c: char)
    requires SameButCounts(x, y) && Counts(x, 1, 1, 1) && Counts(Advance(x, c), 1, 1, 1)
    ensures SameButCounts(Advance(x, c), Advance(y, c))
    ensures var z := Advance(y, c); Counts(z, y.cases, y.ifs, y.loops)
  {
    hide Trim, KeywordOf;
  }

  lemma SameEnd(x: State, y: State)
    requires SameButCounts(x, y) && Counts(x, 1, 1, 1) && Counts(EndWord(x), 1, 1, 1)
    ensures EndWord(y) == y.(word := "")
  {
    hide Trim, KeywordOf;
  }

  /** Silent text changes no counter, whatever the counters are. */
  lemma {:induction false} SilentFrom(st: State, s: string, k: nat)
    requires st.scan == Split.START && st.word == "" && Silent(s) && k <= |s|
    ensures var x := AfterFrom(st, s[..k]);
      SameButCounts(x, AfterFrom(ONES, s[..k])) && Counts(x, st.cases, st.ifs, st.loops)
  {
    hide Advance, EndWord;
    if k > 0 {
      SilentFrom(st, s, k - 1);
      assert s[..k][..k - 1] == s[..k - 1];
      assert Counts(AfterFrom(ONES, s[..k - 1]), 1, 1, 1) && Counts(AfterFrom(ONES, s[..k]), 1, 1, 1);
      SameStep(AfterFrom(ONES, s[..k - 1]), AfterFrom(st, s[..k - 1]), s[k - 1]);
    }
  }

  /** Silent text behind a word that it ends, or behind none. */
  lemma SilentText(st: State, s: string)
    requires st.scan == Split.START && Silent(s) && s != "" && (st.word != "" ==> Ender(s[0]))
    ensures var x := AfterFrom(st, s);
      x.scan == Split.START && EndWord(x) == EndWord(st) && x.word == LastWord(s)
    ensures forall k | 0 < k <= |s| :: AfterFrom(st, s[..k]) == AfterFrom(EndWord(st), s[..k])
  {
    hide AfterFrom, EndWord, Counts, Advance;
    var e := EndWord(st);
    EndWordAgain(st);
    forall k | 0 < k <= |s| ensures AfterFrom(st, s[..k]) == AfterFrom(e, s[..k]) {
      if st.word != "" { EnderThenSame(st, s, k); }
    }
    assert s[..|s|] == s;
    EndedWord(st);
    SilentFrom(e, s, |s|);
    SilentEnd(e, s);
  }

  lemma EndedWord(st: State)
    ensures EndWord(st).word == "" && EndWord(st).scan == st.scan
  {
    hide Trim, KeywordOf;
  }

  lemma SilentEnd(e: State, s: string)
    requires Silent(s) && e.word == ""
    requires var x := AfterFrom(e, s); SameButCounts(x, AfterFrom(ONES, s)) && Counts(x, e.cases, e.ifs, e.loops)
    requires e.scan == Split.START
    ensures EndWord(AfterFrom(e, s)) == e
  {
    hide AfterFrom, EndWord;
    assert s[..|s|] == s;
    assert Counts(AfterFrom(ONES, s[..|s|]), 1, 1, 1);
    SameEnd(AfterFrom(ONES, s), AfterFrom(e, s));
  }

  /** Inside a compound command silent text meets no operator. */
  lemma SilentIsQuiet(st: State, s: string)
    requires st.scan == Split.START && Silent(s) && s != "" && (st.word != "" ==> Ender(s[0]))
    requires EndWord(st).Nested()
    ensures QuietFrom(st, s)
  {
    hide AfterFrom, EndWord, Advance, Operator, Silent;
    EndedWord(st);
    SilentText(st, s);
    forall k, next | 0 <= k < |s| ensures QuietByte(st, s, k, next) {
      if k == 0 {
        assert s[..0] == "" && AfterFrom(st, "") == st by { FromNothing(st); }
        NestedIsQuiet(st, s[0], next, None);
      } else {
        SilentByte(EndWord(st), s, k);
        NestedIsQuiet(AfterFrom(st, s[..k]), s[k], next, ByteAt(s, k - 1));
      }
    }
  }

  lemma FromNothing(st: State)
    ensures AfterFrom(st, "") == st
  {}

  lemma NestedIsQuiet(st: State, c: char, next: Option<char>, prev: Option<char>)
    requires c in [';', '&', '|'] && st.scan == Split.START ==> EndWord(st).Nested()
    ensures st.scan == Split.START || !st.Bare() || !st.AtTop() ==> Operator(st, c, next, prev) == ""
  {
    hide EndWord;
  }

  /** At an operator byte of silent text the word before it is no keyword. */
  lemma SilentByte(e: State, s: string, k: nat)
    requires e.scan == Split.START && e.word == "" && Silent(s) && k < |s|
    ensures var x := AfterFrom(e, s[..k]);
      s[k] in [';', '&', '|'] && x.scan == Split.START ==> EndWord(x) == e.(word := "")
  {
    hide AfterFrom, EndWord, Advance;
    SilentFrom(e, s, k);
    var x, y := AfterFrom(e, s[..k]), AfterFrom(ONES, s[..k]);
    assert Counts(y, 1, 1, 1);
    if s[k] in [';', '&', '|'] && x.scan == Split.START {
      OneMore(ONES, s, k);
      EnderEndsWord(y, s[k]);
      assert Counts(AfterFrom(ONES, s[..k + 1]), 1, 1, 1);
      SameEnd(y, x);
    }
  }

  lemma OneMore(st: State, s: string, k: nat)
    requires k < |s|
    ensures AfterFrom(st, s[..k + 1]) == Advance(AfterFrom(st, s[..k]), s[k])
  {
    hide Advance;
    assert s[..k + 1][..k] == s[..k];
  }

  // ----- bodies ---------------------------------------------------------------------------

  /** Whether a word is pending behind the body, given whether one is pending before it. */
  predicate Pending(b: Body, before: bool) {
    match b
    case End => before
    case Text(s, rest) => Pending(rest, LastWord(s) != "")
    case Compound(_, _, rest) => Pending(rest, true)
  }

  /**
   * Text is silent and ends the word before it; a keyword stands behind no pending
   * word, and so does a closing word. At the top level no text meets an operator.
   */
  ghost predicate Tidy(b: Body, before: bool, top: bool) {
    match b
    case End => true
    case Text(s, rest) =>
      && s != "" && Silent(s) && (before ==> Ender(s[0])) && (top ==> Uncut(s)) && Tidy(rest, LastWord(s) != "", top)
    case Compound(_, inner, rest) =>
      && !before && Tidy(inner, true, false) && !Pending(inner, true) && Tidy(rest, true, top)
  }

  lemma {:induction false} Letters(st: State, w: string)
    requires st.scan == Split.START && forall c | c in w :: IsLetter(c)
    ensures AfterFrom(st, w) == st.(word := st.word + w)
    ensures QuietFrom(st, w)
  {
    hide EndWord, IsLetter;
    if w == "" {
      assert st.word + w == st.word;
    } else {
      var n := |w| - 1;
      Letters(st, w[..n]);
      assert w[n] in w;
      LetterStep(AfterFrom(st, w[..n]), w[n]);
      assert st.word + w[..n] + [w[n]] == st.word + w;
      forall k, next | 0 <= k < |w| ensures QuietByte(st, w, k, next) {
        assert w[k] in w;
        LetterIsNoOperator(AfterFrom(st, w[..k]), w[k], next, ByteAt(w, k - 1));
      }
    }
  }

  lemma LetterStep(st: State, c: char)
    requires st.scan == Split.START && IsLetter(c)
    ensures Advance(st, c) == st.(word := st.word + [c])
  {
    hide EndWord;
  }

  lemma LetterIsNoOperator(st: State, c: char, next: Option<char>, prev: Option<char>)
    requires IsLetter(c)
    ensures Operator(st, c, next, prev) == ""
  {}

  /** The state inside a compound command. */
  function Inside(st: State, k: Kind): State {
    match k
    case For => st.(loops := st.loops + 1)
    case While => st.(loops := st.loops + 1)
    case Until => st.(loops := st.loops + 1)
    case If => st.(ifs := st.ifs + 1)
    case Case => st.(cases := st.cases + 1)
  }

  lemma KeywordsOpen(st: State, k: Kind)
    requires st.word == ""
    ensures EndWord(st.(word := Opening(k))) == Inside(st, k)
  {
    hide Trim;
    TrimKeeps(Opening(k));
  }

  lemma KeywordsClose(st: State, k: Kind)
    requires st.word == ""
    ensures EndWord(Inside(st, k).(word := Closing(k))) == st
  {
    hide Trim;
    TrimKeeps(Closing(k));
  }

  lemma KeywordsAreLetters(k: Kind)
    ensures forall c | c in Opening(k) + Closing(k) :: IsLetter(c)
    ensures Opening(k) != "" && Closing(k) != ""
  {}

  /** What a body does to the scan: nothing, and no operator is met. */
  ghost predicate Passes(st: State, b: Body) {
    var x := AfterFrom(st, Written(b));
    && x.scan == Split.START && EndWord(x) == EndWord(st) && (x.word != "" ==> Pending(b, st.word != ""))
    && QuietFrom(st, Written(b))
  }

  lemma {:induction false} BodyPasses(st: State, b: Body, top: bool)
    requires st.scan == Split.START && Tidy(b, st.word != "", top)
    requires if top then EndWord(st) == START else EndWord(st).Nested()
    ensures Passes(st, b)
    decreases b, 1
  {
    hide AfterFrom, EndWord, QuietFrom, Silent, Uncut, Ender, LastWord;
    match b
    case End => EndPasses(st);
    case Text(s, rest) =>
      SilentText(st, s);
      if top { UncutIsQuiet(st, s); } else { SilentIsQuiet(st, s); }
      BodyPasses(AfterFrom(st, s), rest, top);
      FromConcat(st, s, Written(rest));
      QuietConcat(st, s, Written(rest));
    case Compound(k, inner, rest) => CompoundPasses(st, k, inner, rest, top);
  }

  lemma EndPasses(st: State)
    requires st.scan == Split.START
    ensures Passes(st, End)
  {
    hide EndWord;
  }

  /** A compound command keeps the scan: the keyword opens, the body passes, the closing word closes. */
  lemma {:induction false} CompoundPasses(st: State, k: Kind, inner: Body, rest: Body, top: bool)
    requires st.scan == Split.START && Tidy(Compound(k, inner, rest), st.word != "", top)
    requires if top then EndWord(st) == START else EndWord(st).Nested()
    ensures Passes(st, Compound(k, inner, rest))
    decreases Compound(k, inner, rest), 0
  {
    hide AfterFrom, EndWord, QuietFrom, Silent, Uncut, Ender, LastWord, Opening, Closing, Written, Pending;
    EndWordAgain(st);
    KeywordsAreLetters(k);
    Letters(st, Opening(k));
    var reading := st.(word := Opening(k));
    assert st.word + Opening(k) == Opening(k);
    KeywordsOpen(st, k);
    BodyPasses(reading, inner, false);
    var closing := AfterFrom(reading, Written(inner));
    EndWordAgain(closing);
    assert closing == Inside(st, k);
    Letters(closing, Closing(k));
    var closed := closing.(word := Closing(k));
    assert closing.word + Closing(k) == Closing(k);
    KeywordsClose(st, k);
    BodyPasses(closed, rest, top);
    var a, w, c, r := Opening(k), Written(inner), Closing(k), Written(rest);
    InFourParts(st, a, w, c, r);
    WrittenCompound(k, inner, rest);
  }

  lemma WrittenCompound(k: Kind, inner: Body, rest: Body)
    ensures Written(Compound(k, inner, rest)) == Opening(k) + Written(inner) + Closing(k) + Written(rest)
    ensures forall before :: Pending(Compound(k, inner, rest), before) == Pending(rest, true)
  {}

  lemma InFourParts(st: State, a: string, w: string, c: string, r: string)
    requires var x := AfterFrom(st, a); var y := AfterFrom(x, w); var z := AfterFrom(y, c);
      QuietFrom(st, a) && QuietFrom(x, w) && QuietFrom(y, c) && QuietFrom(z, r)
    ensures AfterFrom(st, a + w + c + r) == AfterFrom(AfterFrom(AfterFrom(AfterFrom(st, a), w), c), r)
    ensures QuietFrom(st, a + w + c + r)
  {
    hide AfterFrom, QuietFrom;
    FromConcat(st, a, w);
    FromConcat(st, a + w, c);
    FromConcat(st, a + w + c, r);
    QuietConcat(st, a, w);
    QuietConcat(st, a + w, c);
    QuietConcat(st, a + w + c, r);
  }

  /** At the top level what is uncut by itself is uncut behind anything that is closed. */
  lemma UncutIsQuiet(st: State, s: string)
    requires st.scan == Split.START && EndWord(st) == START && Silent(s) && Uncut(s) && s != ""
    requires st.word != "" ==> Ender(s[0])
    ensures QuietFrom(st, s)
  {
    hide AfterFrom, EndWord, Advance, Operator, Silent, After;
    SilentText(st, s);
    forall k, next | 0 <= k < |s| ensures QuietByte(st, s, k, next) {
      assert QuietAt(s, k, next);
      FromStart(s[..k]);
      if k == 0 {
        assert s[..0] == "";
        FromNothing(st);
        FromNothing(START);
        OperatorEndsWord(st, s[0], next);
      }
    }
  }

  lemma OperatorEndsWord(st: State, c: char, next: Option<char>)
    requires st.scan == Split.START
    ensures Operator(st, c, next, None) == Operator(EndWord(st), c, next, None)
  {
    hide EndWord;
    EndWordAgain(st);
  }

  // ----- compound commands in lists ---------------------------------------------------------

  /** A command made of text and compound commands is not cut, and leaves nothing open. */
  lemma CompoundIsNeutral(b: Body)
    requires Tidy(b, false, true)
    ensures Uncut(Written(b)) && Settled(Written(b))
  {
    hide AfterFrom, EndWord, After, Operator;
    EndWordAgain(START);
    BodyPasses(START, b, true);
    var w := Written(b);
    FromStart(w);
    forall k, next | 0 <= k < |w| ensures QuietAt(w, k, next) {
      assert QuietByte(START, w, k, next);
      FromStart(w[..k]);
    }
  }

  function AllWritten(bs: seq<Body>): (pieces: seq<string>)
    ensures |pieces| == |bs|
  {
    seq(|bs|, i requires 0 <= i < |bs| => Written(bs[i]))
  }

  /**
   * A list of such commands is read back command by command: no compound command is
   * cut at the operators inside it, and cutting goes on behind its closing word.
   */
  lemma CompoundListSplitsBack(bs: seq<Body>, ops: seq<string>)
    requires IsList(AllWritten(bs), ops) && forall b | b in bs :: Tidy(b, false, true) && Trim(Written(b)) != ""
    requires forall i | 0 <= i < |ops| ::
      Separates(Written(bs[i]), ops[i], Printed(AllWritten(bs)[i + 1..], ops[i + 1..]))
    ensures ChainParts(Printed(AllWritten(bs), ops)) == Listed("", AllWritten(bs), ops)
  {
    hide Tidy, Trim, Uncut, Settled, Separates, Printed, Listed, ChainParts;
    var pieces := AllWritten(bs);
    forall i | 0 <= i < |bs| ensures Uncut(pieces[i]) && Settled(pieces[i]) && Trim(pieces[i]) != "" {
      assert bs[i] in bs;
      CompoundIsNeutral(bs[i]);
    }
    PrintedListSplitsBack(pieces, ops);
  }

  // ----- ordinary text ------------------------------------------------------------------------

  predicate IsKeyword(w: string) { w in ["case", "esac", "if", "fi", "for", "while", "until", "done"] }

  predicate Ordinary(w: string) { (forall c | c in w :: IsLetter(c)) && !IsKeyword(w) }

  /** Words, each with the byte that ends it. */
  function Spelled(words: seq<(string, char)>): string {
    if words == [] then "" else Spelled(words[..|words| - 1]) + words[|words| - 1].0 + [words[|words| - 1].1]
  }

  predicate AllOrdinary(words: seq<(string, char)>) {
    forall w | w in words :: Ordinary(w.0) && Ender(w.1)
  }

  lemma OrdinaryEnds(st: State, w: string)
    requires st.word == "" && Ordinary(w)
    ensures EndWord(st.(word := w)) == st
  {
    hide Trim;
    assert forall i | 0 <= i < |w| :: w[i] in w;
    if w == "" { TrimNothing(); } else { TrimKeeps(w); }
  }

  /** All the states while a word and the byte that ends it are read. */
  lemma OrdinaryWord(pre: string, w: string, c: char)
    requires AfterFrom(ONES, pre) == ONES && Ordinary(w) && Ender(c)
    ensures forall k | 0 <= k <= |w| :: AfterFrom(ONES, pre + w[..k]) == ONES.(word := w[..k])
    ensures AfterFrom(ONES, pre + w + [c]) == ONES
  {
    hide AfterFrom, EndWord, Advance, Ordinary;
    forall k | 0 <= k <= |w| ensures AfterFrom(ONES, pre + w[..k]) == ONES.(word := w[..k]) {
      assert forall x | x in w[..k] :: x in w;
      assert forall x | x in w :: IsLetter(x) by { OrdinaryLetters(w); }
      Letters(ONES, w[..k]);
      FromConcat(ONES, pre, w[..k]);
      assert "" + w[..k] == w[..k];
    }
    assert w[..|w|] == w;
    OneMore(ONES, pre + w + [c], |pre + w|);
    assert (pre + w + [c])[..|pre + w|] == pre + w && (pre + w + [c])[..|pre + w| + 1] == pre + w + [c];
    EnderEndsWord(AfterFrom(ONES, pre + w), c);
    OrdinaryEnds(ONES, w);
  }

  lemma OrdinaryLetters(w: string)
    requires Ordinary(w)
    ensures forall c | c in w :: IsLetter(c)
  {}

  lemma NothingIsOrdinary()
    ensures Ordinary("") && Ender(' ')
  {}

  /** Text all of whose words are other words than the eight keywords is silent. */
  lemma {:induction false} OrdinaryTextIsSilent(words: seq<(string, char)>, last: string)
    requires AllOrdinary(words) && Ordinary(last)
    ensures Silent(Spelled(words) + last) && LastWord(Spelled(words) + last) == last
    ensures AfterFrom(ONES, Spelled(words)) == ONES
  {
    hide AfterFrom, EndWord, Advance, Ordinary, Ender;
    var pre := Spelled(words);
    NothingIsOrdinary();
    if words == [] {
      FromNothing(ONES);
    } else {
      var n := |words| - 1;
      var front := Spelled(words[..n]);
      assert words[n] in words;
      OrdinaryTextIsSilent(words[..n], words[n].0);
      OrdinaryWord(front, words[n].0, words[n].1);
    }
    OrdinaryWord(pre, last, ' ');
    OrdinaryEnds(ONES, last);
    assert last[..|last|] == last;
    forall k | 0 <= k <= |pre + last| ensures Counts(AfterFrom(ONES, (pre + last)[..k]), 1, 1, 1) {
      if k >= |pre| {
        assert (pre + last)[..k] == pre + last[..k - |pre|];
      } else {
        var n := |words| - 1;
        var front := Spelled(words[..n]) + words[n].0;
        assert pre == front + [words[n].1] && k <= |front|;
        assert (pre + last)[..k] == front[..k];
      }
    }
  }

  /** No `;`, no doubled `|`, and `&` only in `>&`, `<&` and `&>`. */
  predicate OperatorFree(s: string) {
    && ';' !in s && (s != "" ==> s[|s| - 1] !in ['&', '|'])
    && forall k | 0 <= k < |s| - 1 ::
         && (s[k] == '|' ==> s[k + 1] != '|')
         && (s[k] == '&' ==> s[k + 1] != '&' && (s[k + 1] == '>' || (k > 0 && s[k - 1] in ['>', '<'])))
  }

  lemma FreeByte(st: State, c: char, next: Option<char>, prev: Option<char>)
    requires c != ';' && (c == '|' ==> next != Some('|'))
    requires c == '&' ==> next != Some('&') && (next == Some('>') || prev == Some('>') || prev == Some('<'))
    ensures Operator(st, c, next, prev) == ""
  {
    hide EndWord;
  }

  /** Such text is uncut, whatever else it holds. */
  lemma OperatorFreeIsUncut(s: string)
    requires OperatorFree(s)
    ensures Uncut(s)
  {
    hide After;
    forall k, next | 0 <= k < |s| && (k + 1 < |s| ==> next == Some(s[k + 1])) ensures QuietAt(s, k, next) {
      assert s[k] in s && (k > 0 ==> ByteAt(s, k - 1) == Some(s[k - 1]));
      if k + 1 == |s| {
        assert s[k] !in ['&', '|'];
      } else {
        assert next == Some(s[k + 1]) && (s[k] == '|' ==> s[k + 1] != '|');
        assert s[k] == '&' ==> s[k + 1] != '&' && (s[k + 1] == '>' || (k > 0 && s[k - 1] in ['>', '<']));
      }
      FreeByte(After(s[..k]), s[k], next, ByteAt(s, k - 1));
    }
    assert forall k, next | 0 <= k < |s| && k + 1 < |s| && next != Some(s[k + 1]) :: QuietAt(s, k, next);
  }

  /** A compound command behind another command, with any ordinary text for the command, the header and the body. */
  lemma CompoundIsOnePart(kind: Kind, command: seq<(string, char)>, last: string, inner: seq<(string, char)>)
    requires AllOrdinary(command) && Ordinary(last) && AllOrdinary(inner) && inner != [] && inner[0].0 == ""
    requires var c := Spelled(command) + last;
      Trim(c) != "" && OperatorFree(c)
    ensures var c, compound := Spelled(command) + last, Opening(kind) + Spelled(inner) + Closing(kind);
      ChainParts(c + "; " + compound) == [Part("", Trim(c), false), Part(";", compound, false)]
  {
    hide Spelled, Tidy, Trim, Silent, Uncut, LastWord, Ordinary, Ender, Opening, Closing, Written, ChainParts;
    var c, body := Spelled(command) + last, Spelled(inner);
    var b1, b2 := Text(c, End), Text(" ", Compound(kind, Text(body, End), End));
    NothingIsOrdinary();
    OrdinaryTextIsSilent(command, last);
    OrdinaryTextIsSilent(inner, "");
    assert body + "" == body;
    OperatorFreeIsUncut(c);
    BlankIsSilent();
    SpelledFront(inner);
    NothingTrimmed();
    CompoundIsTidy(c, kind, body);
    CompoundIsText(c, kind, body);
    TwoCommands(b1, b2);
    var compound := Opening(kind) + body + Closing(kind);
    assert c + ";" + (" " + compound) == c + "; " + compound;
  }

  lemma NothingTrimmed()
    ensures Trim("") == ""
  {}

  lemma TwoCommands(a: Body, b: Body)
    requires Tidy(a, false, true) && Tidy(b, false, true) && Trim(Written(a)) != "" && Trim(Written(b)) != ""
    ensures ChainParts(Written(a) + ";" + Written(b))
         == [Part("", Trim(Written(a)), false), Part(";", Trim(Written(b)), false)]
  {
    hide Tidy, Trim, Written, ChainParts, Printed, Listed;
    var pieces := AllWritten([a, b]);
    assert pieces == [Written(a), Written(b)];
    TwoPrinted(Written(a), Written(b));
    CompoundListSplitsBack([a, b], [";"]);
    TwoListed(Written(a), Written(b));
  }

  lemma BlankIsSilent()
    ensures Silent(" ") && LastWord(" ") == "" && Uncut(" ")
  {
    hide AfterFrom, Uncut, Ordinary;
    NothingIsOrdinary();
    assert [("", ' ')][..0] == [] && Spelled([("", ' ')]) + "" == " ";
    OrdinaryTextIsSilent([("", ' ')], "");
    OperatorFreeIsUncut(" ");
  }

  lemma {:induction false} SpelledFront(words: seq<(string, char)>)
    requires AllOrdinary(words) && words != [] && words[0].0 == ""
    ensures Spelled(words) != "" && Ender(Spelled(words)[0])
  {
    hide Ordinary, Ender;
    var n := |words| - 1;
    assert words[0] in words;
    if n > 0 {
      assert forall w | w in words[..n] :: w in words;
      SpelledFront(words[..n]);
    } else {
      assert words[..0] == [] && Spelled(words) == [words[0].1];
    }
  }

  lemma CompoundIsTidy(c: string, kind: Kind, inner: string)
    requires Silent(c) && Uncut(c) && c != "" && Silent(" ") && LastWord(" ") == "" && Uncut(" ")
    requires Silent(inner) && LastWord(inner) == "" && inner != "" && Ender(inner[0])
    ensures Tidy(Text(c, End), false, true)
    ensures Tidy(Text(" ", Compound(kind, Text(inner, End), End)), false, true)
  {
    hide Silent, Uncut, LastWord, Ender;
    var body := Text(inner, End);
    assert Tidy(End, false, false) && Tidy(body, true, false) && !Pending(body, true);
    assert Tidy(Compound(kind, body, End), false, true);
  }

  lemma CompoundIsText(c: string, kind: Kind, inner: string)
    ensures Written(Text(c, End)) == c
    ensures var compound := Opening(kind) + inner + Closing(kind);
      Written(Text(" ", Compound(kind, Text(inner, End), End))) == " " + compound && Trim(" " + compound) == compound
  {
    hide Opening, Closing, Trim;
    var compound := Opening(kind) + inner + Closing(kind);
    assert c + "" == c && inner + "" == inner && compound + "" == compound;
    assert Written(Text(inner, End)) == inner && Written(End) == "";
    WrittenCompound(kind, Text(inner, End), End);
    KeywordEnds(kind);
    assert compound[|compound| - 1] == Closing(kind)[|Closing(kind)| - 1];
    TrimAround(" ", compound, "");
    assert " " + compound + "" == " " + compound;
  }

  lemma KeywordEnds(kind: Kind)
    ensures Opening(kind) != "" && IsPrintable(Opening(kind)[0])
    ensures var c := Closing(kind); c != "" && IsPrintable(c[|c| - 1])
  {}

  lemma TwoPrinted(a: string, b: string)
    ensures Printed([a, b], [";"]) == a + ";" + b
  {
    assert [a, b][1..] == [b] && [";"][1..] == [];
  }

  lemma TwoListed(a: string, b: string)
    ensures Listed("", [a, b], [";"]) == [Part("", Trim(a), false), Part(";", Trim(b), false)]
  {
    hide Trim;
    assert [a, b][1..] == [b] && [";"][1..] == [];
  }
}
