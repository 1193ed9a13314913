/**
 * The list splitter and the word scanners together: a script of single-quoted
 * words is read back through both layers as the argument lists it was made of
 * (`ScriptReadsBack`).
 *
 * The layers do not agree on everything: to the splitter a backslash escapes
 * inside single quotes too, to the word scanners it does not.
 * `SeparatorIsSeenExactlyWhen` says which words that matters for.
 */
module Script {
  import opened Quotes
  import opened Wrappers
  import Spaces
  import Split
  import Words
  import opened Chain

  /** `w` ends in a backslash that is not itself escaped. */
  predicate Pending(w: string) {
    w != "" && !Pending(w[..|w| - 1]) && w[|w| - 1] == '\\'
  }

  /** The splitter inside a single-quoted word at the front level. */
  function Inside(escaped: bool): State {
    START.(scan := Split.Scan(escaped, Some('\''), 0, 0))
  }

  /** No operator can be met in this state at this byte. */
  predicate Quiet(st: State, c: char) { st.scan.quote.Some? || c !in [';', '&', '|'] }

  lemma AfterAppend(pre: string, s: string, k: nat)
    requires k < |s|
    ensures After(pre + s[..k + 1]) == Advance(After(pre + s[..k]), s[k])
  {
    assert pre + s[..k + 1] == (pre + s[..k]) + [s[k]];
    AfterGrows(pre + s[..k], s[k]);
  }

  /** Up to the closing quote only the escape flag changes. */
  lemma {:induction false} WordStates(pre: string, w: string, k: nat)
    requires After(pre) == START && '\'' !in w && k <= |w|
    ensures After(pre + Words.Quoted(w)[..k + 1]) == Inside(Pending(w[..k]))
  {
    hide After, EndWord;
    var q := Words.Quoted(w);
    if k == 0 {
      assert pre + q[..0] == pre;
      AfterAppend(pre, q, 0);
    } else {
      WordStates(pre, w, k - 1);
      AfterAppend(pre, q, k);
      assert q[k] == w[k - 1] && w[k - 1] in w;
      assert w[..k][..k - 1] == w[..k - 1];
    }
  }

  /** The closing quote leads back to the initial state iff it is not escaped. */
  lemma WordCloses(pre: string, w: string)
    requires After(pre) == START && '\'' !in w
    ensures After(pre + Words.Quoted(w)) == if Pending(w) then Inside(false) else START
  {
    hide After, EndWord;
    var q := Words.Quoted(w);
    WordStates(pre, w, |w|);
    assert w[..|w|] == w && q[..|q|] == q;
    AfterAppend(pre, q, |w| + 1);
  }

  /** Every word can be quoted, and its closing quote closes. */
  predicate Printable(words: seq<string>) {
    Words.Quotable(words) && forall w | w in words :: !Pending(w)
  }

  lemma {:induction false} QuotedStates(pre: string, w: string, k: nat)
    requires After(pre) == START && '\'' !in w && k < |Words.Quoted(w)|
    ensures Quiet(After(pre + Words.Quoted(w)[..k]), Words.Quoted(w)[k])
  {
    var q := Words.Quoted(w);
    if k == 0 {
      assert pre + q[..0] == pre;
    } else {
      WordStates(pre, w, k - 1);
    }
  }

  lemma BlankKeepsStart(pre: string)
    requires After(pre) == START
    ensures After(pre + " ") == START
  {
    AfterGrows(pre, ' ');
    EndWordAgain(START);
  }

  lemma {:induction false} JoinedStates(pre: string, words: seq<string>)
    requires After(pre) == START && Printable(words)
    ensures After(pre + Words.JoinQuoted(words)) == START
    ensures forall k | 0 <= k < |Words.JoinQuoted(words)| :: QuietAfter(pre, Words.JoinQuoted(words), k)
    decreases |words|
  {
    hide After, Quiet, Words.Quoted, Pending;
    var s := Words.JoinQuoted(words);
    if words == [] {
      assert pre + s == pre;
    } else {
      var w := words[0];
      var q := Words.Quoted(w);
      assert w in words;
      WordCloses(pre, w);
      forall k | 0 <= k < |q| ensures QuietAfter(pre, q, k) { QuotedStates(pre, w, k); }
      if |words| > 1 {
        var rest := Words.JoinQuoted(words[1..]);
        BlankKeepsStart(pre + q);
        assert forall u | u in words[1..] :: u in words;
        JoinedStates(pre + q + " ", words[1..]);
        assert s == q + " " + rest;
        assert pre + s == pre + q + " " + rest;
        forall k | 0 <= k < |s| ensures QuietAfter(pre, s, k) { QuietInParts(pre, q, rest, k); }
      }
    }
  }

  ghost predicate QuietAfter(pre: string, s: string, k: nat)
    requires k < |s|
  {
    Quiet(After(pre + s[..k]), s[k])
  }

  /** A quoted word, a blank, and the words after it. */
  lemma QuietInParts(pre: string, q: string, rest: string, k: nat)
    requires k < |q + " " + rest|
    requires forall i | 0 <= i < |q| :: QuietAfter(pre, q, i)
    requires forall i | 0 <= i < |rest| :: QuietAfter(pre + q + " ", rest, i)
    ensures QuietAfter(pre, q + " " + rest, k)
  {
    hide After;
    var s := q + " " + rest;
    if k < |q| {
      assert s[..k] == q[..k] && QuietAfter(pre, q, k);
    } else if k > |q| {
      var i := k - |q| - 1;
      assert pre + s[..k] == pre + q + " " + rest[..i] && QuietAfter(pre + q + " ", rest, i);
    }
  }

  /** A command of quoted words is neutral to the splitter. */
  lemma CommandIsNeutral(words: seq<string>)
    requires Printable(words)
    ensures Uncut(Words.JoinQuoted(words)) && Settled(Words.JoinQuoted(words))
  {
    hide After;
    var s := Words.JoinQuoted(words);
    EmptyIsStart();
    JoinedStates("", words);
    assert "" + s == s;
    forall k, next | 0 <= k < |s| ensures QuietAt(s, k, next) {
      assert "" + s[..k] == s[..k] && QuietAfter("", s, k);
    }
    EndWordAgain(START);
  }

  lemma EmptyIsStart()
    ensures After("") == START
  {}

  // ----- whole scripts ------------------------------------------------------------

  function Commands(script: seq<seq<string>>): (pieces: seq<string>)
    ensures |pieces| == |script|
  {
    seq(|script|, i requires 0 <= i < |script| => Words.JoinQuoted(script[i]))
  }

  /** A quoted command begins and ends with a quote, so trimming leaves it alone. */
  lemma CommandStands(words: seq<string>)
    requires words != []
    ensures var s := Words.JoinQuoted(words);
      |s| >= 2 && s[0] == '\'' && s[|s| - 1] == '\'' && Spaces.Trim(s) == s
  {
    Words.JoinedEnds(words);
    Spaces.TrimKeeps(Words.JoinQuoted(words));
  }

  ghost predicate IsScript(script: seq<seq<string>>, ops: seq<string>) {
    && |script| == |ops| + 1 && (forall op | op in ops :: op in [";", "&", "&&", "||"])
    && (forall c | c in script :: c != [] && Printable(c))
  }

  lemma {:induction false} PrintedFront(pieces: seq<string>, ops: seq<string>)
    requires |pieces| == |ops| + 1 && pieces[0] != ""
    ensures Printed(pieces, ops) != "" && Printed(pieces, ops)[0] == pieces[0][0]
  {}

  lemma ScriptIsNeutral(script: seq<seq<string>>, ops: seq<string>)
    requires IsScript(script, ops)
    ensures Neutral(Commands(script), ops)
    ensures forall p | p in Commands(script) :: Spaces.Trim(p) != ""
  {
    hide Uncut, Settled, Spaces.Trim, Words.JoinQuoted, Printed, Printable;
    var pieces := Commands(script);
    forall i | 0 <= i < |pieces|
      ensures Uncut(pieces[i]) && Settled(pieces[i]) && Spaces.Trim(pieces[i]) == pieces[i]
      ensures |pieces[i]| >= 2 && pieces[i][0] == '\'' && pieces[i][|pieces[i]| - 1] == '\''
    {
      assert script[i] in script;
      CommandIsNeutral(script[i]);
      CommandStands(script[i]);
    }
    forall i | 0 <= i < |ops| ensures Separates(pieces[i], ops[i], Printed(pieces[i + 1..], ops[i + 1..])) {
      PrintedFront(pieces[i + 1..], ops[i + 1..]);
    }
  }

  lemma {:induction false} ListedAt(before: string, pieces: seq<string>, ops: seq<string>, i: nat)
    requires |pieces| == |ops| + 1 && i < |pieces|
    ensures |Listed(before, pieces, ops)| == |pieces|
    ensures Listed(before, pieces, ops)[i] ==
      Part(if i == 0 then before else Carried(ops[i - 1]), Spaces.Trim(pieces[i]), i < |ops| && ops[i] == "&")
    decreases |ops|
  {
    hide Spaces.Trim;
    if ops != [] {
      ListedAt(Carried(ops[0]), pieces[1..], ops[1..], if i == 0 then 0 else i - 1);
    }
  }

  /**
   * Splitting a printed script and scanning its parts, with either word scanner,
   * gives back every command's words, the operator before it and its background mark.
   */
  lemma ScriptReadsBack(script: seq<seq<string>>, ops: seq<string>, i: nat)
    requires IsScript(script, ops) && i < |script|
    ensures var parts := ChainParts(Printed(Commands(script), ops));
      && |parts| == |script|
      && Words.FieldsFrom(Spaces.Trim(parts[i].command), 0, Bare, false, "") == script[i]
      && Words.AllWords(parts[i].command, 0) == script[i]
      && parts[i].before == (if i == 0 then "" else Carried(ops[i - 1]))
      && parts[i].background == (i < |ops| && ops[i] == "&")
  {
    hide Spaces.Trim, Words.JoinQuoted, Words.FieldsFrom, Words.AllWords, Pending, Words.Quotable, ChainParts, Neutral;
    var pieces := Commands(script);
    ScriptIsNeutral(script, ops);
    PrintedListSplitsBack(pieces, ops);
    ListedAt("", pieces, ops, i);
    assert script[i] in script;
    CommandStands(script[i]);
    Words.QuotedWordsReadBack(script[i]);
  }

  /**
   * An operator right behind a quoted word is seen iff the word does not end in an
   * unpaired backslash: in any line, wherever the piece with the word starts, and
   * whatever stands before the word in it, as long as that leaves the splitter in its
   * initial state. A single `&` must not be followed by `&`, which would make it
   * another operator, or by `>`, which makes it none.
   */
  lemma SeparatorIsSeenExactlyWhen(front: string, pre: string, w: string, op: string, rest: string)
    requires After(pre) == START && '\'' !in w && op in [";", "&", "&&", "||"]
    requires op == "&" && rest != "" ==> rest[0] !in ['&', '>']
    ensures var piece := pre + Words.Quoted(w);
      OperatorAt(front + piece + op + rest, |front|, |front + piece|) == if Pending(w) then "" else op
  {
    hide After, EndWord, OperatorAt, Pending;
    var piece := pre + Words.Quoted(w);
    WordCloses(pre, w);
    assert piece[|piece| - 1] == '\'';
    OperatorBehind(front, piece, op, rest);
  }

  lemma OperatorBehind(front: string, piece: string, op: string, rest: string)
    requires op in [";", "&", "&&", "||"] && (op == "&" && rest != "" ==> rest[0] !in ['&', '>'])
    requires piece != "" && piece[|piece| - 1] == '\'' && After(piece) in [START, Inside(false)]
    ensures OperatorAt(front + piece + op + rest, |front|, |front + piece|)
         == if After(piece) == START then op else ""
  {
    hide After, EndWord;
    var line, k := front + piece + op + rest, |front + piece|;
    assert line[|front|..k] == piece && line[k - 1] == '\'' && line[k] == op[0];
    assert |op| == 2 ==> line[k + 1] == op[1];
    assert |op| == 1 && rest != "" ==> line[k + 1] == rest[0];
    EndWordAgain(START);
  }

  /** `'a\'` and any operator: it is not seen. */
  lemma BackslashHidesSeparator(op: string, rest: string)
    requires op in [";", "&", "&&", "||"] && (op == "&" && rest != "" ==> rest[0] !in ['&', '>'])
    ensures OperatorAt("'a\\'" + op + rest, 0, 4) == ""
  {
    hide OperatorAt, After;
    assert Pending("a\\") by { assert "a\\"[..1] == "a"; }
    assert Words.Quoted("a\\") == "'a\\'" == "" + ("" + Words.Quoted("a\\"));
    EmptyIsStart();
    SeparatorIsSeenExactlyWhen("", "", "a\\", op, rest);
  }
}
