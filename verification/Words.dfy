/**
 * The two word scanners of the shell: `virtualWords`, which splits a whole line
 * in one sweep, and `nextVirtualShellWord`, which finds one word at a time.
 * They were written independently; both are proved against one reference, the
 * stream of bytes and separators a line stands for (`Emit`).
 *
 * Main results: `ScannersAgreeExactlyWhen` and `QuotedWordsReadBack`.
 * A `char` stands for a byte.
 */
module Words {
  import opened Quotes
  import opened Spaces
  import opened Wrappers

  /** What scanning produces: a byte of the current word, or a separator that was crossed. */
  datatype Out = Byte(c: char) | Break(c: char)

  predicate IsLineBreak(c: char) { c == '\r' || c == '\n' }
  predicate IsSeparator(c: char, lineBreaks: bool) { c == ' ' || c == '\t' || (lineBreaks && IsLineBreak(c)) }
  predicate Escapable(c: char) { c == '$' || c == '`' || c == '"' || c == '\\' || c == '\n' }

  // ----- the reference: what a line stands for --------------------------------

  function Emit(v: string, i: nat, q: Quote, lineBreaks: bool): seq<Out>
    requires i <= |v|
    decreases |v| - i
  {
    if i == |v| then [] else
    var c := v[i];
    match q
    case Single =>
      if c == '\'' then Emit(v, i + 1, Bare, lineBreaks) else [Byte(c)] + Emit(v, i + 1, Single, lineBreaks)
    case Double =>
      if c == '"' then Emit(v, i + 1, Bare, lineBreaks)
      else if c == '\\' && i + 1 < |v| && Escapable(v[i + 1]) then [Byte(v[i + 1])] + Emit(v, i + 2, Double, lineBreaks)
      else [Byte(c)] + Emit(v, i + 1, Double, lineBreaks)
    case Bare =>
      if c == '\'' then Emit(v, i + 1, Single, lineBreaks)
      else if c == '"' then Emit(v, i + 1, Double, lineBreaks)
      else if c == '\\' && i + 1 < |v| then [Byte(v[i + 1])] + Emit(v, i + 2, Bare, lineBreaks)
      else if IsSeparator(c, lineBreaks) then [Break(c)] + Emit(v, i + 1, Bare, lineBreaks)
      else [Byte(c)] + Emit(v, i + 1, Bare, lineBreaks)
  }

  function NonEmpty(w: string): seq<string> { if w == "" then [] else [w] }

  /** The non-empty runs of bytes between separators; `pending` is the run in progress. */
  function Fields(out: seq<Out>, pending: string): seq<string> {
    if out == [] then NonEmpty(pending)
    else match out[0]
      case Byte(c) => Fields(out[1..], pending + [c])
      case Break(_) => NonEmpty(pending) + Fields(out[1..], "")
  }

  function FieldsFrom(v: string, i: nat, q: Quote, lineBreaks: bool, pending: string): seq<string>
    requires i <= |v|
  {
    Fields(Emit(v, i, q, lineBreaks), pending)
  }

  /** One more byte of the pending run. */
  lemma FieldsByte(c: char, rest: seq<Out>, pending: string)
    ensures Fields([Byte(c)] + rest, pending) == Fields(rest, pending + [c])
  {
    assert ([Byte(c)] + rest)[1..] == rest;
  }

  lemma FieldsBreak(c: char, rest: seq<Out>, pending: string)
    ensures Fields([Break(c)] + rest, pending) == NonEmpty(pending) + Fields(rest, "")
  {
    assert ([Break(c)] + rest)[1..] == rest;
  }

  // ----- the whole-line scanner -----------------------------------------------

  method VirtualWords(raw: string) returns (out: seq<string>)
    ensures out == FieldsFrom(Trim(raw), 0, Bare, false, "")
  {
    hide Fields, Trim;
    out := [];
    var b := "";
    var quote := Bare;
    var v := Trim(raw);
    var i := 0;
    while i < |v|
      invariant i <= |v|
      invariant out + FieldsFrom(v, i, quote, false, b) == FieldsFrom(v, 0, Bare, false, "")
    {
      var c := v[i];
      ghost var rest := Emit(v, i, quote, false);
      if quote == Single {
        if c == '\'' {
          quote := Bare;
        } else {
          FieldsByte(c, rest[1..], b);
          b := b + [c];
        }
        i := i + 1;
        continue;
      }
      if quote == Double {
        if c == '"' {
          quote := Bare;
          i := i + 1;
          continue;
        }
        if c == '\\' && i + 1 < |v| {
          var n := v[i + 1];
          if n == '$' || n == '`' || n == '"' || n == '\\' || n == '\n' {
            FieldsByte(n, rest[1..], b);
            b := b + [n];
            i := i + 2;
            continue;
          }
          FieldsByte('\\', rest[1..], b);
          b := b + ['\\'];
          i := i + 1;
          continue;
        }
        FieldsByte(c, rest[1..], b);
        b := b + [c];
        i := i + 1;
        continue;
      }
      if c == '\'' || c == '"' {
        quote := if c == '\'' then Single else Double;
        i := i + 1;
        continue;
      }
      if c == '\\' && i + 1 < |v| {
        FieldsByte(v[i + 1], rest[1..], b);
        b := b + [v[i + 1]];
        i := i + 2;
        continue;
      }
      if c == ' ' || c == '\t' {
        FieldsBreak(c, rest[1..], b);
        if |b| > 0 {
          out := out + [b];
          b := "";
        }
        i := i + 1;
        continue;
      }
      FieldsByte(c, rest[1..], b);
      b := b + [c];
      i := i + 1;
    }
    FieldsEnd(v, quote, b);
    if |b| > 0 {
      out := out + [b];
    }
  }

  lemma FieldsEnd(v: string, q: Quote, pending: string)
    ensures FieldsFrom(v, |v|, q, false, pending) == NonEmpty(pending)
  {}

  // ----- the word-at-a-time scanner --------------------------------------------

  function SkipSeparators(raw: string, pos: nat): (r: nat)
    requires pos <= |raw|
    ensures pos <= r <= |raw| && (r < |raw| ==> !IsSeparator(raw[r], true))
    decreases |raw| - pos
  {
    if pos < |raw| && IsSeparator(raw[pos], true) then SkipSeparators(raw, pos + 1) else pos
  }

  /** The bytes up to the next bare separator, and where that is. */
  function WordFrom(raw: string, pos: nat, q: Quote): (r: (string, nat))
    requires pos <= |raw|
    ensures pos <= r.1 <= |raw|
    ensures q == Bare && pos < |raw| && !IsSeparator(raw[pos], true) ==> pos < r.1
    decreases |raw| - pos
  {
    if pos == |raw| then ("", pos) else
    var c := raw[pos];
    match q
    case Single =>
      if c == '\'' then WordFrom(raw, pos + 1, Bare) else Prepend(c, WordFrom(raw, pos + 1, Single))
    case Double =>
      if c == '"' then WordFrom(raw, pos + 1, Bare)
      else if c == '\\' && pos + 1 < |raw| && Escapable(raw[pos + 1])
      then Prepend(raw[pos + 1], WordFrom(raw, pos + 2, Double))
      else Prepend(c, WordFrom(raw, pos + 1, Double))
    case Bare =>
      if c == '\'' then WordFrom(raw, pos + 1, Single)
      else if c == '"' then WordFrom(raw, pos + 1, Double)
      else if c == '\\' && pos + 1 < |raw| then Prepend(raw[pos + 1], WordFrom(raw, pos + 2, Bare))
      else if IsSeparator(c, true) then ("", pos)
      else Prepend(c, WordFrom(raw, pos + 1, Bare))
  }

  function Prepend(c: char, w: (string, nat)): (string, nat) { ([c] + w.0, w.1) }

  function NextWord(raw: string, pos: nat): (r: Option<(string, nat, nat)>)
    requires pos <= |raw|
    ensures r.Some? ==> pos <= r.value.1 < r.value.2 <= |raw|
  {
    var start := SkipSeparators(raw, pos);
    if start == |raw| then None
    else var (word, end) := WordFrom(raw, start, Bare); Some((word, start, end))
  }

  method NextVirtualShellWord(raw: string, pos: nat) returns (word: string, start: nat, end: nat, ok: bool)
    requires pos <= |raw|
    ensures NextWord(raw, pos) == if ok then Some((word, start, end)) else None
  {
    var p := pos;
    while p < |raw| && (raw[p] == ' ' || raw[p] == '\t' || raw[p] == '\r' || raw[p] == '\n')
      invariant pos <= p <= |raw| && SkipSeparators(raw, p) == SkipSeparators(raw, pos)
    {
      p := p + 1;
    }
    if p >= |raw| {
      return "", 0, 0, false;
    }
    start := p;
    var b := "";
    var quote := Bare;
    assert "" + WordFrom(raw, start, Bare).0 == WordFrom(raw, start, Bare).0;
    while p < |raw|
      invariant start <= p <= |raw|
      invariant Joined(b, WordFrom(raw, p, quote)) == WordFrom(raw, start, Bare)
      decreases |raw| - p
    {
      var c := raw[p];
      JoinedPrepend(b, WordFrom(raw, p, quote));
      if quote == Single {
        if c == '\'' { quote := Bare; } else { b := b + [c]; }
        p := p + 1;
        continue;
      }
      if quote == Double {
        if c == '"' {
          quote := Bare;
          p := p + 1;
          continue;
        }
        if c == '\\' && p + 1 < |raw| {
          var n := raw[p + 1];
          if n == '$' || n == '`' || n == '"' || n == '\\' || n == '\n' {
            b := b + [n];
            p := p + 2;
            continue;
          }
        }
        b := b + [c];
        p := p + 1;
        continue;
      }
      if c == '\'' || c == '"' {
        quote := if c == '\'' then Single else Double;
        p := p + 1;
        continue;
      }
      if c == '\\' && p + 1 < |raw| {
        b := b + [raw[p + 1]];
        p := p + 2;
        continue;
      }
      if c == ' ' || c == '\t' || c == '\r' || c == '\n' {
        break;
      }
      b := b + [c];
      p := p + 1;
    }
    assert b + "" == b;
    return b, start, p, true;
  }

  function Joined(b: string, w: (string, nat)): (string, nat) { (b + w.0, w.1) }

  lemma JoinedPrepend(b: string, w: (string, nat))
    ensures w.0 != "" ==> b + w.0 == (b + [w.0[0]]) + w.0[1..]
    ensures b + "" == b
  {}

  /** Taking words one at a time from `pos`, dropping the empty ones. */
  function AllWords(raw: string, pos: nat): seq<string>
    requires pos <= |raw|
    decreases |raw| - pos
  {
    match NextWord(raw, pos)
    case None => []
    case Some((word, _, end)) => NonEmpty(word) + AllWords(raw, end)
  }

  lemma {:induction false} SkippingEmitsNothing(raw: string, pos: nat)
    requires pos <= |raw|
    ensures FieldsFrom(raw, pos, Bare, true, "") == FieldsFrom(raw, SkipSeparators(raw, pos), Bare, true, "")
    decreases |raw| - pos
  {
    if pos < |raw| && IsSeparator(raw[pos], true) {
      FieldsBreak(raw[pos], Emit(raw, pos + 1, Bare, true), "");
      SkippingEmitsNothing(raw, pos + 1);
    }
  }

  /** One word, then whatever its end stands for. */
  lemma {:induction false} WordIsField(raw: string, pos: nat, q: Quote, pending: string)
    requires pos <= |raw|
    ensures var (w, end) := WordFrom(raw, pos, q);
      FieldsFrom(raw, pos, q, true, pending) == NonEmpty(pending + w) + FieldsFrom(raw, end, Bare, true, "")
    decreases |raw| - pos
  {
    hide Fields, Emit;
    if pos == |raw| {
      EmitEnd(raw, q);
      EmitEnd(raw, Bare);
      FieldsNil(pending);
      FieldsNil("");
      assert pending + "" == pending;
    } else {
      var c := raw[pos];
      match StepOf(raw, pos, q)
      case Into(q') => WordIsField(raw, pos + 1, q', pending);
      case Writes(b, len) =>
        FieldsByte(b, Emit(raw, pos + len, q, true), pending);
        WordIsField(raw, pos + len, q, pending + [b]);
        var w := WordFrom(raw, pos + len, q).0;
        assert (pending + [b]) + w == pending + ([b] + w);
      case Stops =>
        FieldsBreak(c, Emit(raw, pos + 1, Bare, true), pending);
        FieldsBreak(c, Emit(raw, pos + 1, Bare, true), "");
        assert pending + "" == pending;
    }
  }

  lemma FieldsNil(pending: string)
    ensures Fields([], pending) == NonEmpty(pending)
  {}

  /** The move a scanner makes at `pos`: change quoting, write a byte, or stop. */
  datatype Step = Into(q: Quote) | Writes(b: char, len: nat) | Stops

  /** A separator of the finer scanner, as the coarser one sees it. */
  function AsByte(c: char): Out { if IsLineBreak(c) then Byte(c) else Break(c) }

  function StepOf(raw: string, pos: nat, q: Quote): (s: Step)
    requires pos < |raw|
    ensures s.Into? ==> WordFrom(raw, pos, q) == WordFrom(raw, pos + 1, s.q)
    ensures s.Into? ==> forall l :: Emit(raw, pos, q, l) == Emit(raw, pos + 1, s.q, l)
    ensures s.Writes? ==> 1 <= s.len <= 2 && pos + s.len <= |raw|
    ensures s.Writes? ==> WordFrom(raw, pos, q) == Prepend(s.b, WordFrom(raw, pos + s.len, q))
    ensures s.Writes? ==> forall l :: Emit(raw, pos, q, l) == [Byte(s.b)] + Emit(raw, pos + s.len, q, l)
    ensures s.Stops? ==> q == Bare && IsSeparator(raw[pos], true) && WordFrom(raw, pos, q) == ("", pos)
    ensures s.Stops? ==> Emit(raw, pos, q, true) == [Break(raw[pos])] + Emit(raw, pos + 1, Bare, true)
    ensures s.Stops? ==> Emit(raw, pos, q, false) == [AsByte(raw[pos])] + Emit(raw, pos + 1, Bare, false)
  {
    var c := raw[pos];
    if q == Single then (if c == '\'' then Into(Bare) else Writes(c, 1))
    else if q == Double then
      if c == '"' then Into(Bare)
      else if c == '\\' && pos + 1 < |raw| && Escapable(raw[pos + 1]) then Writes(raw[pos + 1], 2)
      else Writes(c, 1)
    else if c == '\'' then Into(Single)
    else if c == '"' then Into(Double)
    else if c == '\\' && pos + 1 < |raw| then Writes(raw[pos + 1], 2)
    else if IsSeparator(c, true) then Stops
    else Writes(c, 1)
  }

  lemma {:induction false} AllWordsAreFields(raw: string, pos: nat)
    requires pos <= |raw|
    ensures AllWords(raw, pos) == FieldsFrom(raw, pos, Bare, true, "")
    decreases |raw| - pos
  {
    SkippingEmitsNothing(raw, pos);
    match NextWord(raw, pos)
    case None => FieldsNil("");
    case Some((word, start, end)) =>
      WordIsField(raw, start, Bare, "");
      assert "" + word == word;
      AllWordsAreFields(raw, end);
  }

  // ----- when the two scanners agree -------------------------------------------

  /** The scan of `v` crosses a CR or LF outside quotes and escapes. */
  ghost predicate MeetsLineBreak(v: string) {
    LineBreaks(Emit(v, 0, Bare, true)) > 0
  }

  function LineBreaks(out: seq<Out>): nat {
    if out == [] then 0 else (if out[0].Break? && IsLineBreak(out[0].c) then 1 else 0) + LineBreaks(out[1..])
  }

  function Bytes(out: seq<Out>): nat {
    if out == [] then 0 else (if out[0].Byte? then 1 else 0) + Bytes(out[1..])
  }

  function TextSize(words: seq<string>): nat {
    if words == [] then 0 else |words[0]| + TextSize(words[1..])
  }

  lemma {:induction false} SizeOfFields(out: seq<Out>, pending: string)
    ensures TextSize(Fields(out, pending)) == |pending| + Bytes(out)
  {
    if out != [] {
      match out[0]
      case Byte(c) => SizeOfFields(out[1..], pending + [c]);
      case Break(_) =>
        SizeOfFields(out[1..], "");
        if pending != "" { assert ([pending] + Fields(out[1..], ""))[1..] == Fields(out[1..], ""); }
        else { assert [] + Fields(out[1..], "") == Fields(out[1..], ""); }
    }
  }

  /** A line break is a separator to one scanner and an ordinary byte to the other. */
  lemma {:induction false} LineBreaksBecomeBytes(v: string, i: nat, q: Quote)
    requires i <= |v|
    ensures Bytes(Emit(v, i, q, false)) == Bytes(Emit(v, i, q, true)) + LineBreaks(Emit(v, i, q, true))
    ensures LineBreaks(Emit(v, i, q, true)) == 0 ==> Emit(v, i, q, true) == Emit(v, i, q, false)
    decreases |v| - i
  {
    hide Emit;
    if i == |v| {
      EmitEnd(v, q);
    } else {
      match StepOf(v, i, q)
      case Into(q') => LineBreaksBecomeBytes(v, i + 1, q');
      case Writes(b, len) => LineBreaksBecomeBytes(v, i + len, q);
      case Stops => LineBreaksBecomeBytes(v, i + 1, Bare);
    }
  }

  lemma EmitEnd(v: string, q: Quote)
    ensures forall l :: Emit(v, |v|, q, l) == []
  {}

  /** On a trimmed line both scanners give the same words iff no bare CR or LF is met. */
  lemma ScannersAgreeExactlyWhen(v: string)
    requires Trim(v) == v
    ensures AllWords(v, 0) == FieldsFrom(Trim(v), 0, Bare, false, "") <==> !MeetsLineBreak(v)
  {
    AllWordsAreFields(v, 0);
    LineBreaksBecomeBytes(v, 0, Bare);
    SizeOfFields(Emit(v, 0, Bare, true), "");
    SizeOfFields(Emit(v, 0, Bare, false), "");
  }

  /** On `a`, line feed, `b` one scanner finds two words and the other one. */
  lemma ScannersDisagree()
    ensures var v := "a\nb"; Trim(v) == v && AllWords(v, 0) != FieldsFrom(Trim(v), 0, Bare, false, "")
  {
    hide Trim, AllWords, FieldsFrom;
    TrimKeeps("a\nb");
    assert MeetsLineBreak("a\nb");
    ScannersAgreeExactlyWhen("a\nb");
  }

  // ----- quoting ---------------------------------------------------------------

  function Quoted(w: string): string { "'" + w + "'" }

  function JoinQuoted(words: seq<string>): string {
    if words == [] then ""
    else if |words| == 1 then Quoted(words[0])
    else Quoted(words[0]) + " " + JoinQuoted(words[1..])
  }

  predicate Quotable(words: seq<string>) {
    forall w | w in words :: w != "" && '\'' !in w
  }

  /** Inside single quotes every byte stands for itself. */
  lemma {:induction false} SingleQuotedField(s: string, i: nat, j: nat, pending: string, l: bool)
    requires i <= j < |s| && s[j] == '\'' && forall k | i <= k < j :: s[k] != '\''
    ensures FieldsFrom(s, i, Single, l, pending) == FieldsFrom(s, j + 1, Bare, l, pending + s[i..j])
    decreases j - i
  {
    if i == j {
      assert pending + s[i..j] == pending;
    } else {
      FieldsByte(s[i], Emit(s, i + 1, Single, l), pending);
      SingleQuotedField(s, i + 1, j, pending + [s[i]], l);
      assert pending + [s[i]] + s[i + 1..j] == pending + s[i..j];
    }
  }

  /** Where the parts of a quoted word stand in `s`. */
  lemma QuotedStands(w: string, rest: string, s: string, i: nat)
    requires i <= |s| && s[i..] == Quoted(w) + rest
    ensures var j := i + 1 + |w|;
      j < |s| && s[i] == '\'' && s[j] == '\'' && s[i + 1..j] == w && s[j + 1..] == rest
  {
    var t, j := s[i..], i + 1 + |w|;
    assert t[0] == '\'' && t[1 + |w|] == '\'';
    assert t[1..1 + |w|] == w && s[i + 1..j] == t[1..1 + |w|];
    assert t[2 + |w|..] == rest && s[j + 1..] == t[2 + |w|..];
  }

  lemma QuotedField(w: string, rest: string, s: string, i: nat, l: bool)
    requires i <= |s| && s[i..] == Quoted(w) + rest && '\'' !in w
    ensures i + |w| + 2 <= |s| && s[i + |w| + 2..] == rest
    ensures FieldsFrom(s, i, Bare, l, "") == FieldsFrom(s, i + |w| + 2, Bare, l, w)
  {
    hide Fields;
    var j := i + 1 + |w|;
    QuotedStands(w, rest, s, i);
    forall k | i + 1 <= k < j ensures s[k] != '\'' { assert s[k] == s[i + 1..j][k - (i + 1)]; }
    SingleQuotedField(s, i + 1, j, "", l);
    assert "" + w == w;
  }

  lemma BlankField(rest: string, s: string, i: nat, l: bool, w: string)
    requires i <= |s| && s[i..] == " " + rest && w != ""
    ensures i < |s| && s[i + 1..] == rest
    ensures FieldsFrom(s, i, Bare, l, w) == [w] + FieldsFrom(s, i + 1, Bare, l, "")
  {
    hide Fields;
    assert s[i..][0] == s[i] == ' ';
    assert s[i + 1..] == s[i..][1..] == rest;
    FieldsBreak(' ', Emit(s, i + 1, Bare, l), w);
  }

  lemma {:induction false} JoinedFields(words: seq<string>, s: string, i: nat, l: bool)
    requires Quotable(words) && i <= |s| && s[i..] == JoinQuoted(words)
    ensures FieldsFrom(s, i, Bare, l, "") == words
  {
    hide Fields, Quoted, Emit;
    if words == [] {
      EmitEnd(s, Bare);
      FieldsNil("");
    } else {
      var w := words[0];
      assert w in words;
      if |words| == 1 {
        assert Quoted(w) + "" == Quoted(w);
        QuotedField(w, "", s, i, l);
        assert i + |w| + 2 == |s| by { assert |s[i + |w| + 2..]| == 0; }
        EmitEnd(s, Bare);
        FieldsNil(w);
        assert words == [w] && w != "";
      } else {
        var tail := JoinQuoted(words[1..]);
        var rest := " " + tail;
        assert Quoted(w) + " " + tail == Quoted(w) + rest;
        QuotedField(w, rest, s, i, l);
        var k := i + |w| + 2;
        assert s[k..] == rest && w != "";
        BlankField(tail, s, k, l, w);
        assert forall u | u in words[1..] :: u in words;
        JoinedFields(words[1..], s, k + 1, l);
      }
    }
  }

  lemma {:induction false} JoinedEnds(words: seq<string>)
    requires words != []
    ensures var s := JoinQuoted(words); |s| >= 2 && s[0] == '\'' && s[|s| - 1] == '\''
  {
    if |words| > 1 { JoinedEnds(words[1..]); }
  }

  /** Single-quoting words and joining them with blanks is undone by both scanners. */
  lemma QuotedWordsReadBack(words: seq<string>)
    requires Quotable(words)
    ensures FieldsFrom(Trim(JoinQuoted(words)), 0, Bare, false, "") == words
    ensures AllWords(JoinQuoted(words), 0) == words
  {
    var s := JoinQuoted(words);
    if words != [] { JoinedEnds(words); }
    TrimKeeps(s);
    assert s[0..] == s;
    JoinedFields(words, s, 0, false);
    JoinedFields(words, s, 0, true);
    AllWordsAreFields(s, 0);
  }
}
