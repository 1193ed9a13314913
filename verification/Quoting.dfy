/**
 * Every way of quoting: words made of plain bytes, backslashes, single and double
 * quotes, one behind the other, are read back by both word scanners as what they
 * mean (`MixedWordsReadBack`). What is special is written out here once more, on
 * characters, and does not use the scanners' own notions.
 */
module Quoting {
  import opened Spaces
  import opened Words
  import opened Wrappers
  import Quotes

  datatype Chunk = Plain(c: char) | Backslashed(c: char) | InSingle(s: string) | InDouble(s: string)

  /** A plain byte is no blank, line break, quote or backslash; single quotes hold no single quote. */
  predicate Fits(ch: Chunk) {
    match ch
    case Plain(c) => c !in [' ', '\t', '\r', '\n', '\'', '"', '\\']
    case Backslashed(_) => true
    case InSingle(s) => '\'' !in s
    case InDouble(_) => true
  }

  /** In double quotes five bytes are written with a backslash. */
  function Protected(c: char): string {
    if c in ['$', '`', '"', '\\', '\n'] then ['\\', c] else [c]
  }

  function DoubleText(s: string): string { if s == "" then "" else Protected(s[0]) + DoubleText(s[1..]) }

  function ChunkText(ch: Chunk): string {
    match ch
    case Plain(c) => [c]
    case Backslashed(c) => ['\\', c]
    case InSingle(s) => "'" + s + "'"
    case InDouble(s) => "\"" + DoubleText(s) + "\""
  }

  function ChunkMeaning(ch: Chunk): string {
    match ch case Plain(c) => [c] case Backslashed(c) => [c] case InSingle(s) => s case InDouble(s) => s
  }

  function WordText(w: seq<Chunk>): string { if w == [] then "" else ChunkText(w[0]) + WordText(w[1..]) }

  function Meaning(w: seq<Chunk>): string { if w == [] then "" else ChunkMeaning(w[0]) + Meaning(w[1..]) }

  /** Words with a gap between any two. */
  function LineText(words: seq<seq<Chunk>>, gap: string): string {
    if words == [] then "" else if |words| == 1 then WordText(words[0])
    else WordText(words[0]) + gap + LineText(words[1..], gap)
  }

  /** What separates words: blanks and tabs, and for the second scanner line breaks too. */
  predicate IsGap(gap: string, lineBreaks: bool) {
    gap != "" && forall c | c in gap :: c in [' ', '\t'] || (lineBreaks && c in ['\r', '\n'])
  }

  function Meanings(words: seq<seq<Chunk>>): (ms: seq<string>)
    ensures |ms| == |words|
  {
    if words == [] then [] else [Meaning(words[0])] + Meanings(words[1..])
  }

  predicate AllFit(words: seq<seq<Chunk>>) {
    forall w | w in words :: Meaning(w) != "" && forall ch | ch in w :: Fits(ch)
  }

  // ----- one chunk ----------------------------------------------------------------------

  /** `text` stands at `i`, and `rest` behind it. */
  predicate Stands(s: string, i: nat, text: string, rest: string) { i <= |s| && s[i..] == text + rest }

  lemma StandsBehind(s: string, i: nat, a: string, b: string, rest: string)
    requires Stands(s, i, a + b, rest)
    ensures Stands(s, i, a, b + rest) && Stands(s, i + |a|, b, rest) && Stands(s, i + |a| + |b|, "", rest)
  {
    assert a + b + rest == a + (b + rest);
    assert s[i + |a|..] == s[i..][|a|..] == b + rest;
    assert s[i + |a| + |b|..] == s[i..][|a| + |b|..] == rest;
    assert "" + rest == rest;
  }

  lemma ByteAtFront(s: string, i: nat, c: char, rest: string)
    requires Stands(s, i, [c], rest)
    ensures i < |s| && s[i] == c && s[i + 1..] == rest
  {
    assert s[i] == s[i..][0];
    assert s[i + 1..] == s[i..][1..];
  }

  lemma QuoteCloses(s: string, i: nat, l: bool, p: string)
    requires i < |s|
    ensures s[i] == '"' ==> FieldsFrom(s, i, Quotes.Double, l, p) == FieldsFrom(s, i + 1, Quotes.Bare, l, p)
    ensures s[i] == '\'' ==> FieldsFrom(s, i, Quotes.Single, l, p) == FieldsFrom(s, i + 1, Quotes.Bare, l, p)
    ensures s[i] != '\'' ==> FieldsFrom(s, i, Quotes.Single, l, p) == FieldsFrom(s, i + 1, Quotes.Single, l, p + [s[i]])
  {
    hide Fields;
    FieldsByte(s[i], Emit(s, i + 1, Quotes.Single, l), p);
  }

  /** A byte inside double quotes, protected where it has to be. */
  lemma ProtectedField(s: string, i: nat, c: char, rest: string, l: bool, p: string)
    requires Stands(s, i, Protected(c), rest)
    ensures FieldsFrom(s, i, Quotes.Double, l, p) == FieldsFrom(s, i + |Protected(c)|, Quotes.Double, l, p + [c])
  {
    hide Fields;
    var j := i + |Protected(c)|;
    assert s[i] == s[i..][0] == Protected(c)[0];
    if |Protected(c)| == 2 { assert s[i + 1] == s[i..][1] == c; }
    FieldsByte(c, Emit(s, j, Quotes.Double, l), p);
  }

  lemma {:induction false} DoubleField(s: string, i: nat, t: string, rest: string, l: bool, p: string)
    requires Stands(s, i, DoubleText(t) + "\"", rest)
    ensures var j := i + |DoubleText(t)| + 1;
      j <= |s| && FieldsFrom(s, i, Quotes.Double, l, p) == FieldsFrom(s, j, Quotes.Bare, l, p + t)
    decreases |t|
  {
    hide FieldsFrom, Protected;
    if t == "" {
      assert DoubleText(t) + "\"" == "\"" && p + t == p;
      ByteAtFront(s, i, '"', rest);
      QuoteCloses(s, i, l, p);
    } else {
      var a, b := Protected(t[0]), DoubleText(t[1..]) + "\"";
      assert DoubleText(t) + "\"" == a + b;
      StandsBehind(s, i, a, b, rest);
      ProtectedField(s, i, t[0], b + rest, l, p);
      DoubleField(s, i + |a|, t[1..], rest, l, p + [t[0]]);
      assert p + [t[0]] + t[1..] == p + t;
    }
  }

  lemma {:induction false} SingleField(s: string, i: nat, t: string, rest: string, l: bool, p: string)
    requires Stands(s, i, t + "'", rest) && '\'' !in t
    ensures var j := i + |t| + 1;
      j <= |s| && FieldsFrom(s, i, Quotes.Single, l, p) == FieldsFrom(s, j, Quotes.Bare, l, p + t)
    decreases |t|
  {
    hide FieldsFrom;
    if t == "" {
      assert t + "'" == "'" && p + t == p;
      ByteAtFront(s, i, '\'', rest);
      QuoteCloses(s, i, l, p);
    } else {
      assert t + "'" == [t[0]] + (t[1..] + "'") && t[0] in t;
      StandsBehind(s, i, [t[0]], t[1..] + "'", rest);
      ByteAtFront(s, i, t[0], t[1..] + "'" + rest);
      QuoteCloses(s, i, l, p);
      SingleField(s, i + 1, t[1..], rest, l, p + [t[0]]);
      assert p + [t[0]] + t[1..] == p + t;
    }
  }

  /** One step outside quotes. */
  lemma BareStep(s: string, i: nat, l: bool, p: string)
    requires i < |s|
    ensures s[i] == '\'' ==> FieldsFrom(s, i, Quotes.Bare, l, p) == FieldsFrom(s, i + 1, Quotes.Single, l, p)
    ensures s[i] == '"' ==> FieldsFrom(s, i, Quotes.Bare, l, p) == FieldsFrom(s, i + 1, Quotes.Double, l, p)
    ensures s[i] == '\\' && i + 1 < |s| ==>
      FieldsFrom(s, i, Quotes.Bare, l, p) == FieldsFrom(s, i + 2, Quotes.Bare, l, p + [s[i + 1]])
    ensures s[i] !in [' ', '\t', '\r', '\n', '\'', '"', '\\'] ==>
      FieldsFrom(s, i, Quotes.Bare, l, p) == FieldsFrom(s, i + 1, Quotes.Bare, l, p + [s[i]])
    ensures s[i] in [' ', '\t'] || (l && s[i] in ['\r', '\n']) ==>
      FieldsFrom(s, i, Quotes.Bare, l, p) == NonEmpty(p) + FieldsFrom(s, i + 1, Quotes.Bare, l, "")
  {
    hide Fields;
    FieldsBreak(s[i], Emit(s, i + 1, Quotes.Bare, l), p);
    FieldsByte(s[i], Emit(s, i + 1, Quotes.Bare, l), p);
    if i + 1 < |s| { FieldsByte(s[i + 1], Emit(s, i + 2, Quotes.Bare, l), p); }
  }

  lemma ChunkField(s: string, i: nat, ch: Chunk, rest: string, l: bool, p: string)
    requires Stands(s, i, ChunkText(ch), rest) && Fits(ch)
    ensures var j := i + |ChunkText(ch)|;
      && j <= |s| && s[j..] == rest
      && FieldsFrom(s, i, Quotes.Bare, l, p) == FieldsFrom(s, j, Quotes.Bare, l, p + ChunkMeaning(ch))
  {
    hide FieldsFrom, DoubleText;
    var j, text := i + |ChunkText(ch)|, ChunkText(ch);
    assert text + "" == text && s[i] == s[i..][0] == text[0] by { assert text != ""; }
    StandsBehind(s, i, text, "", rest);
    BareStep(s, i, l, p);
    match ch
    case Plain(c) =>
    case Backslashed(c) => assert s[i + 1] == s[i..][1] == c;
    case InSingle(t) =>
      assert text == "'" + (t + "'");
      StandsBehind(s, i, "'", t + "'", rest);
      SingleField(s, i + 1, t, rest, l, p);
    case InDouble(t) =>
      assert text == "\"" + (DoubleText(t) + "\"");
      StandsBehind(s, i, "\"", DoubleText(t) + "\"", rest);
      DoubleField(s, i + 1, t, rest, l, p);
  }

  // ----- words and lines -------------------------------------------------------------------

  lemma {:induction false} WordField(s: string, i: nat, w: seq<Chunk>, rest: string, l: bool, p: string)
    requires Stands(s, i, WordText(w), rest) && forall ch | ch in w :: Fits(ch)
    ensures var j := i + |WordText(w)|;
      && j <= |s| && s[j..] == rest
      && FieldsFrom(s, i, Quotes.Bare, l, p) == FieldsFrom(s, j, Quotes.Bare, l, p + Meaning(w))
    decreases |w|
  {
    hide FieldsFrom, Fits, ChunkText, ChunkMeaning;
    if w == [] {
      assert p + Meaning(w) == p && "" + rest == rest;
    } else {
      var a, b := ChunkText(w[0]), WordText(w[1..]);
      assert w[0] in w && forall ch | ch in w[1..] :: ch in w;
      StandsBehind(s, i, a, b, rest);
      ChunkField(s, i, w[0], b + rest, l, p);
      WordField(s, i + |a|, w[1..], rest, l, p + ChunkMeaning(w[0]));
      assert p + ChunkMeaning(w[0]) + Meaning(w[1..]) == p + Meaning(w);
    }
  }

  lemma {:induction false} GapField(s: string, i: nat, gap: string, rest: string, l: bool, w: string)
    requires Stands(s, i, gap, rest) && IsGap(gap, l)
    ensures var j := i + |gap|;
      && j <= |s| && s[j..] == rest
      && FieldsFrom(s, i, Quotes.Bare, l, w) == NonEmpty(w) + FieldsFrom(s, j, Quotes.Bare, l, "")
    decreases |gap|
  {
    hide FieldsFrom;
    assert gap == [gap[0]] + gap[1..] && gap[0] in gap;
    StandsBehind(s, i, [gap[0]], gap[1..], rest);
    ByteAtFront(s, i, gap[0], gap[1..] + rest);
    BareStep(s, i, l, w);
    if |gap| > 1 {
      assert forall c | c in gap[1..] :: c in gap;
      GapField(s, i + 1, gap[1..], rest, l, "");
      var behind := FieldsFrom(s, i + |gap|, Quotes.Bare, l, "");
      assert NonEmpty("") + behind == behind;
    } else {
      assert gap[1..] + rest == rest;
    }
  }

  lemma {:induction false} LineFields(s: string, i: nat, words: seq<seq<Chunk>>, gap: string, l: bool)
    requires i <= |s| && s[i..] == LineText(words, gap) && AllFit(words) && IsGap(gap, l)
    ensures FieldsFrom(s, i, Quotes.Bare, l, "") == Meanings(words)
    decreases |words|
  {
    hide Fits, WordText, Meaning, FieldsFrom, IsGap;
    if words == [] {
      LineEnds(s, i, "", l);
    } else {
      var w, rest := words[0], words[1..];
      assert w in words && forall x | x in rest :: x in words;
      var n := |WordText(w)|;
      assert "" + Meaning(w) == Meaning(w);
      if |words| == 1 {
        assert WordText(w) + "" == WordText(w);
        WordField(s, i, w, "", l, "");
        LineEnds(s, i + n, Meaning(w), l);
        assert Meanings(words) == [Meaning(w)];
      } else {
        var tail := LineText(rest, gap);
        assert WordText(w) + gap + tail == WordText(w) + (gap + tail);
        WordField(s, i, w, gap + tail, l, "");
        GapField(s, i + n, gap, tail, l, Meaning(w));
        LineFields(s, i + n + |gap|, rest, gap, l);
      }
    }
  }

  lemma LineEnds(s: string, i: nat, p: string, l: bool)
    requires i <= |s| && s[i..] == ""
    ensures FieldsFrom(s, i, Quotes.Bare, l, p) == NonEmpty(p)
  {
    assert i == |s|;
  }

  /** Words with some meaning, quoted in any way, are read back as what they mean. */
  lemma MixedWordsReadBack(words: seq<seq<Chunk>>, gap: string)
    requires AllFit(words)
    ensures IsGap(gap, true) ==> AllWords(LineText(words, gap), 0) == Meanings(words)
    ensures var line := LineText(words, gap);
      IsGap(gap, false) && Trim(line) == line ==>
        FieldsFrom(Trim(line), 0, Quotes.Bare, false, "") == Meanings(words)
  {
    hide FieldsFrom, Trim, AllWords, LineText, Meanings, AllFit;
    var line := LineText(words, gap);
    assert line[0..] == line;
    if IsGap(gap, false) { LineFields(line, 0, words, gap, false); }
    if IsGap(gap, true) { LineFields(line, 0, words, gap, true); }
    AllWordsAreFields(line, 0);
  }

  /** In double quotes a backslash before any other byte stands for itself, and so does the byte. */
  lemma BackslashInDoubleQuotes(c: char)
    requires c !in ['$', '`', '"', '\\', '\n']
    ensures AllWords(['"', '\\', c, '"'], 0) == [['\\', c]]
  {
    hide Fields;
    var line := ['"', '\\', c, '"'];
    AllWordsAreFields(line, 0);
    assert Emit(line, 3, Quotes.Double, true) == Emit(line, 4, Quotes.Bare, true) == [];
    assert Emit(line, 2, Quotes.Double, true) == [Byte(c)];
    assert Emit(line, 1, Quotes.Double, true) == [Byte('\\')] + [Byte(c)];
    FieldsByte('\\', [Byte(c)], "");
    FieldsByte(c, [], "" + ['\\']);
    assert [Byte(c)] + [] == [Byte(c)] && "" + ['\\'] + [c] == ['\\', c];
    LineEnds(line, 4, ['\\', c], true);
  }
}
