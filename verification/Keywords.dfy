/**
 * Which keywords `splitVirtualChain` sees: a word is letters and escaped characters,
 * quoted text is passed over inside a word, and what stands in brackets is no word.
 * Behind any text of such chunks an operator cuts iff every compound command that
 * the words open is closed again (`CutExactlyWhen`).
 */
module Keywords {
  import opened Chain
  import opened Compound
  import opened Spaces
  import opened Wrappers
  import Split

  datatype Chunk =
    | Letter(c: char)
    | Backslashed(c: char)
    | Quoted(double: bool, s: string)
    | Grouped(round: bool, s: string)
    | Between(c: char)

  function Mark(double: bool): char { if double then '"' else '\'' }

  function Spelling(k: Chunk): string {
    match k
    case Letter(c) => [c]
    case Backslashed(c) => ['\\', c]
    case Quoted(double, s) => [Mark(double)] + s + [Mark(double)]
    case Grouped(round, s) => (if round then "(" else "{") + s + (if round then ")" else "}")
    case Between(c) => [c]
  }

  predicate Sound(k: Chunk) {
    match k
    case Letter(c) => 'a' <= c <= 'z' || 'A' <= c <= 'Z' || c == '-'
    case Backslashed(_) => true
    case Quoted(double, s) => forall c | c in s :: c != '\\' && c != Mark(double)
    case Grouped(_, s) => forall c | c in s :: c !in ['\\', '\'', '"', '(', ')', '{', '}']
    case Between(c) => !('a' <= c <= 'z' || 'A' <= c <= 'Z') && c !in "-\\'\"(){};&|"
  }

  function Line(ks: seq<Chunk>): string {
    if ks == [] then "" else Line(ks[..|ks| - 1]) + Spelling(ks[|ks| - 1])
  }

  /** The words read so far; the last one may still go on. */
  function WordsOf(ks: seq<Chunk>): (words: seq<string>)
    ensures words != []
  {
    if ks == [] then [""] else
    var words, k := WordsOf(ks[..|ks| - 1]), ks[|ks| - 1];
    if k.Quoted? then words
    else if k.Grouped? || k.Between? then words + [""]
    else words[|words| - 1 := words[|words| - 1] + [k.c]]
  }

  /** How many of the commands that one of `openers` starts are not closed. */
  function Depth(words: seq<string>, openers: seq<string>, closer: string): nat {
    if words == [] then 0 else
    var n, w := Depth(words[..|words| - 1], openers, closer), Trim(words[|words| - 1]);
    if w in openers then n + 1 else if w == closer && n > 0 then n - 1 else n
  }

  predicate Closed(words: seq<string>) {
    && Depth(words, ["case"], "esac") == 0 && Depth(words, ["if"], "fi") == 0
    && Depth(words, ["for", "while", "until"], "done") == 0
  }

  /**
   * A text of chunks and a command behind it: cut apart iff the words close every
   * compound command they open, one part otherwise.
   */
  lemma CutExactlyWhen(ks: seq<Chunk>, op: string)
    requires (forall k | k in ks :: Sound(k)) && op in [";", "&", "&&", "||"]
    requires var line := Line(ks);
      line != "" && IsPrintable(line[0]) && IsPrintable(line[|line| - 1]) && line[|line| - 1] !in ['>', '<']
    ensures var line := Line(ks);
      ChainParts(line + op + "b") ==
        if Closed(WordsOf(ks)) then [Part("", line, op == "&"), Part(if op == "&" then ";" else op, "b", false)]
        else [Part("", line + op + "b", false)]
  {
    hide Trim, Line, WordsOf, Closed, IsPrintable, ChainParts, Printed, Listed, Sound;
    var line := Line(ks);
    Reading(ks);
    QuietIsUncut(line);
    TrimKeeps(line);
    CommandB(line, op);
    if Closed(WordsOf(ks)) {
      TwoPieces(line, "b", op);
      PrintedListSplitsBack([line, "b"], [op]);
    } else {
      OpenIsUncut(line, op);
      OnePiece(line + op + "b");
      PrintedListSplitsBack([line + op + "b"], []);
    }
  }

  lemma CommandB(line: string, op: string)
    requires line != "" && IsPrintable(line[0])
    ensures Trim("b") == "b" && Uncut("b") && Trim(line + op + "b") == line + op + "b"
  {
    hide IsPrintable, EndWord, After;
    assert IsPrintable('b') by { Printable('b'); }
    TrimKeeps("b");
    TrimKeeps(line + op + "b");
  }

  lemma Printable(c: char)
    requires c == 'b'
    ensures IsPrintable(c)
  {}

  lemma TwoPieces(a: string, b: string, op: string)
    requires Uncut(a) && Settled(a) && Uncut(b) && b == "b" && a != "" && a[|a| - 1] !in ['>', '<']
    requires op in [";", "&", "&&", "||"]
    ensures Neutral([a, b], [op]) && Printed([a, b], [op]) == a + op + b
    ensures Listed("", [a, b], [op])
         == [Part("", Trim(a), op == "&"), Part(if op == "&" then ";" else op, Trim(b), false)]
  {
    hide Uncut, Settled, Trim;
    assert [a, b][1..] == [b] && [op][1..] == [];
    assert Printed([b], []) == b;
  }

  lemma OnePiece(a: string)
    requires Uncut(a)
    ensures Neutral([a], []) && Printed([a], []) == a && Listed("", [a], []) == [Part("", Trim(a), false)]
  {
    hide Uncut, Settled, Trim;
  }

  lemma QuietIsUncut(line: string)
    requires QuietFrom(START, line)
    ensures Uncut(line) && AfterFrom(START, line) == After(line)
  {
    hide AfterFrom, After, Operator;
    FromStart(line);
    forall k, next | 0 <= k < |line| ensures QuietAt(line, k, next) {
      assert QuietByte(START, line, k, next);
      FromStart(line[..k]);
    }
  }

  /** Inside a compound command neither the operator nor the `b` is cut off. */
  lemma OpenIsUncut(line: string, op: string)
    requires QuietFrom(START, line) && op in [";", "&", "&&", "||"]
    requires var st := AfterFrom(START, line); st.scan == Split.START && EndWord(st).Nested()
    ensures Uncut(line + op + "b")
  {
    hide AfterFrom, QuietFrom, EndWord;
    var st := AfterFrom(START, line);
    OperatorIsQuiet(st, op);
    QuietConcat(START, line, op);
    FromConcat(START, line, op);
    FromLetter(AfterFrom(st, op), 'b');
    QuietConcat(START, line + op, "b");
    QuietIsUncut(line + op + "b");
  }

  lemma FromOne(st: State, c: char)
    ensures AfterFrom(st, [c]) == Advance(st, c)
    ensures (forall next :: Operator(st, c, next, None) == "") ==> QuietFrom(st, [c])
  {
    hide Advance, Operator;
    assert [c][..0] == "" && AfterFrom(st, "") == st;
    forall k, next | 0 <= k < 1 && (forall n :: Operator(st, c, n, None) == "") ensures QuietByte(st, [c], k, next) {
      assert ByteAt([c], -1) == None;
    }
  }

  lemma OperatorIsQuiet(st: State, op: string)
    requires op in [";", "&", "&&", "||"] && st.scan == Split.START && EndWord(st).Nested()
    ensures QuietFrom(st, op) && AfterFrom(st, op) == EndWord(st)
  {
    hide EndWord, AfterFrom, QuietFrom, Operator, Advance;
    var c, e := op[0], EndWord(st);
    EndWordAgain(st);
    EnderEndsWord(st, c);
    EnderEndsWord(e, c);
    forall next ensures Operator(st, c, next, None) == "" { NestedIsQuiet(st, c, next, None); }
    forall next ensures Operator(e, c, next, None) == "" { NestedIsQuiet(e, c, next, None); }
    FromOne(st, c);
    FromOne(e, c);
    if |op| == 1 {
      assert op == [c];
    } else {
      assert op == [c] + [c];
      FromConcat(st, [c], [c]);
      QuietConcat(st, [c], [c]);
    }
  }

  lemma FromLetter(st: State, c: char)
    requires IsLetter(c)
    ensures QuietFrom(st, [c])
  {
    hide Advance, Operator, QuietFrom;
    forall next ensures Operator(st, c, next, None) == "" { LetterIsNoOperator(st, c, next, None); }
    FromOne(st, c);
  }

  // ----- reading chunk by chunk ------------------------------------------------------------

  /** The counters say how deep all words but the last lead. */
  ghost predicate Holds(st: State, words: seq<string>)
    requires words != []
  {
    var n := |words| - 1;
    && st.scan == Split.START && st.word == words[n]
    && Counts(st, Depth(words[..n], ["case"], "esac"), Depth(words[..n], ["if"], "fi"),
              Depth(words[..n], ["for", "while", "until"], "done"))
  }

  lemma {:induction false} Reading(ks: seq<Chunk>)
    requires forall k | k in ks :: Sound(k)
    ensures QuietFrom(START, Line(ks))
    ensures var st := AfterFrom(START, Line(ks));
      && Holds(st, WordsOf(ks)) && (EndWord(st).Nested() <==> !Closed(WordsOf(ks)))
      && st.Bare() && st.AtTop()
  {
    hide AfterFrom, QuietFrom, EndWord, Holds, Sound, Spelling, Closed;
    if ks == [] {
      NothingRead();
    } else {
      var n := |ks| - 1;
      assert ks[n] in ks && forall k | k in ks[..n] :: k in ks;
      Reading(ks[..n]);
      ChunkIsRead(AfterFrom(START, Line(ks[..n])), WordsOf(ks[..n]), ks[n]);
      FromConcat(START, Line(ks[..n]), Spelling(ks[n]));
      QuietConcat(START, Line(ks[..n]), Spelling(ks[n]));
    }
    WordsEnd(AfterFrom(START, Line(ks)), WordsOf(ks));
  }

  lemma NothingRead()
    ensures QuietFrom(START, "") && AfterFrom(START, "") == START && Holds(START, [""])
  {}

  /** At the end of a word all words count. */
  lemma WordsEnd(st: State, words: seq<string>)
    requires words != [] && Holds(st, words)
    ensures st.Bare() && st.AtTop() && Holds(EndWord(st), words + [""])
    ensures EndWord(st).Nested() <==> !Closed(words)
  {
    hide Trim;
    assert (words + [""])[..|words|] == words;
  }

  lemma ChunkIsRead(st: State, words: seq<string>, k: Chunk)
    requires words != [] && Holds(st, words) && Sound(k)
    ensures QuietFrom(st, Spelling(k))
    ensures var more := if k.Quoted? then words else if k.Grouped? || k.Between? then words + [""]
        else words[|words| - 1 := words[|words| - 1] + [k.c]];
      Holds(AfterFrom(st, Spelling(k)), more)
  {
    hide AfterFrom, QuietFrom, EndWord, Depth;
    match k
    case Letter(c) =>
      FromLetter(st, c);
      FromOne(st, c);
      LetterStep(st, c);
      LongerWord(st, words, c);
    case Backslashed(c) =>
      BackslashedIsRead(st, c);
      LongerWord(st, words, c);
    case Quoted(double, s) => QuotedIsRead(st, double, s);
    case Grouped(round, s) =>
      GroupedIsRead(st, round, s);
      WordsEnd(st, words);
    case Between(c) =>
      BetweenIsRead(st, c);
      WordsEnd(st, words);
  }

  lemma LongerWord(st: State, words: seq<string>, c: char)
    requires words != [] && Holds(st, words)
    ensures Holds(st.(word := st.word + [c]), words[|words| - 1 := words[|words| - 1] + [c]])
  {
    hide Depth;
    var n := |words| - 1;
    assert words[n := words[n] + [c]][..n] == words[..n];
  }

  lemma BetweenIsRead(st: State, c: char)
    requires st.scan == Split.START && Sound(Between(c))
    ensures QuietFrom(st, [c]) && AfterFrom(st, [c]) == EndWord(st)
  {
    hide EndWord, AfterFrom, QuietFrom;
    EnderEndsWord(st, c);
    FromOne(st, c);
  }

  lemma BackslashedIsRead(st: State, c: char)
    requires st.scan == Split.START
    ensures QuietFrom(st, ['\\', c]) && AfterFrom(st, ['\\', c]) == st.(word := st.word + [c])
  {
    hide AfterFrom, QuietFrom, EndWord;
    var escaped := st.(scan := Split.START.(escaped := true));
    FromOne(st, '\\');
    FromOne(escaped, c);
    assert ['\\', c] == ['\\'] + [c];
    FromConcat(st, ['\\'], [c]);
    QuietConcat(st, ['\\'], [c]);
  }

  lemma QuotedIsRead(st: State, double: bool, s: string)
    requires st.scan == Split.START && Sound(Quoted(double, s))
    ensures QuietFrom(st, Spelling(Quoted(double, s))) && AfterFrom(st, Spelling(Quoted(double, s))) == st
  {
    hide AfterFrom, QuietFrom, EndWord;
    var q := Mark(double);
    var inside := st.(scan := Split.START.(quote := Some(q)));
    FromOne(st, q);
    StaysInside(inside, s);
    FromOne(inside, q);
    FromConcat(st, [q], s);
    QuietConcat(st, [q], s);
    FromConcat(st, [q] + s, [q]);
    QuietConcat(st, [q] + s, [q]);
  }

  lemma GroupedIsRead(st: State, round: bool, s: string)
    requires st.scan == Split.START && Sound(Grouped(round, s))
    ensures QuietFrom(st, Spelling(Grouped(round, s))) && AfterFrom(st, Spelling(Grouped(round, s))) == EndWord(st)
  {
    hide AfterFrom, QuietFrom, EndWord;
    var a, b := if round then '(' else '{', if round then ')' else '}';
    var inside := st.(scan := if round then Split.START.(paren := 1) else Split.START.(brace := 1));
    FromOne(st, a);
    StaysInside(inside, s);
    FromOne(inside, b);
    FromConcat(st, [a], s);
    QuietConcat(st, [a], s);
    FromConcat(st, [a] + s, [b]);
    QuietConcat(st, [a] + s, [b]);
  }

  /** A byte that changes nothing in quotes or brackets. */
  predicate Inert(st: State, c: char) {
    && !st.scan.escaped && c != '\\'
    && if st.scan.quote.Some? then c != st.scan.quote.value
       else !st.AtTop() && c !in ['\'', '"', '(', ')', '{', '}']
  }

  lemma InertIsKept(st: State, c: char)
    requires Inert(st, c)
    ensures Advance(st, c) == st && forall next :: Operator(st, c, next, None) == ""
  {
    hide EndWord;
  }

  lemma {:induction false} StaysInside(st: State, s: string)
    requires forall c | c in s :: Inert(st, c)
    ensures AfterFrom(st, s) == st && QuietFrom(st, s)
  {
    hide Inert, Advance, Operator, QuietFrom;
    if s == "" {
      QuietNothing(st);
    } else {
      var n := |s| - 1;
      StaysInside(st, s[..n]);
      assert s[n] in s;
      InertIsKept(st, s[n]);
      FromOne(st, s[n]);
      FromConcat(st, s[..n], [s[n]]);
      QuietConcat(st, s[..n], [s[n]]);
      assert s == s[..n] + [s[n]];
    }
  }

  lemma QuietNothing(st: State)
    ensures QuietFrom(st, "") && AfterFrom(st, "") == st
  {}
}
