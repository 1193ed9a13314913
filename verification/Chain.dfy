/**
 * `splitVirtualChain`: cutting a command line at `;`, `&`, `&&` and `||`, outside
 * quotes, escapes, brackets and the compound commands `case`, `if` and loops.
 *
 * `Parts` is the scan as a function; `PrintedListSplitsBack` is the main result:
 * a list of neutral commands printed with its operators is read back as that
 * list, and `PiecesRebuildTheLine` says that no cut loses a byte.
 */
module Chain {
  import opened Spaces
  import opened Wrappers
  import Split

  datatype Part = Part(before: string, command: string, background: bool)

  /** The scanner between two cuts; `word` is the bare word in progress. */
  datatype State = State(scan: Split.Scan, word: string, cases: nat, ifs: nat, loops: nat) {
    predicate Nested() { cases > 0 || ifs > 0 || loops > 0 }
    predicate Bare() { !scan.escaped && scan.quote.None? }
    predicate AtTop() { scan.paren == 0 && scan.brace == 0 }
  }

  const START := State(Split.START, "", 0, 0, 0)

  predicate IsLetter(c: char) { 'a' <= c <= 'z' || 'A' <= c <= 'Z' || c == '-' }

  datatype Keyword = Case | Esac | If | Fi | Loop | Done | Other

  function KeywordOf(w: string): Keyword {
    if w == "case" then Case
    else if w == "esac" then Esac
    else if w == "if" then If
    else if w == "fi" then Fi
    else if w == "for" || w == "while" || w == "until" then Loop
    else if w == "done" then Done
    else Other
  }

  /** Shell keywords open and close compound commands. */
  function Counted(st: State, k: Keyword): State {
    match k
    case Case => st.(cases := st.cases + 1)
    case Esac => st.(cases := Split.Down(st.cases))
    case If => st.(ifs := st.ifs + 1)
    case Fi => st.(ifs := Split.Down(st.ifs))
    case Loop => st.(loops := st.loops + 1)
    case Done => st.(loops := Split.Down(st.loops))
    case Other => st
  }

  /** The word ends here. */
  function EndWord(st: State): State {
    Counted(st.(word := ""), KeywordOf(Trim(st.word)))
  }

  /** One byte that is kept in the current piece. */
  function Advance(st: State, c: char): State {
    var next := st.(scan := Split.Step(st.scan, c));
    if st.scan.escaped then (if st.scan.quote.None? then next.(word := st.word + [c]) else next)
    else if !st.Bare() || c == '\\' || Split.IsQuote(c) || !next.AtTop() then next
    else if IsLetter(c) then next.(word := st.word + [c])
    else EndWord(next)
  }

  function After(piece: string): State {
    if piece == "" then START else Advance(After(piece[..|piece| - 1]), piece[|piece| - 1])
  }

  /**
   * The operator at which the line is cut in state `st` at byte `c`, or "" if it
   * is not: `next` and `prev` are the neighbours of `c`, if any.
   */
  function Operator(st: State, c: char, next: Option<char>, prev: Option<char>): (op: string)
    ensures op in ["", ";", "&", "&&", "||"]
  {
    if !st.Bare() || !st.AtTop() || EndWord(st).Nested() then ""
    else if c == ';' then ";"
    else if c == '&' && next == Some('&') then "&&"
    else if c == '|' && next == Some('|') then "||"
    else if c == '&' && next != Some('>') && prev != Some('>') && prev != Some('<') then "&"
    else ""
  }

  function ByteAt(line: string, i: int): Option<char> {
    if 0 <= i < |line| then Some(line[i]) else None
  }

  function OperatorAt(line: string, from: nat, k: nat): (op: string)
    requires from <= k < |line|
    ensures k + |op| <= |line|
  {
    Operator(After(line[from..k]), line[k], ByteAt(line, k + 1), ByteAt(line, k - 1))
  }

  // ----- flushing -------------------------------------------------------------------

  /** What has been collected, and the operator the next command will carry. */
  datatype Found = Found(out: seq<Part>, before: string)

  function Flush(f: Found, piece: string, next: string): Found {
    if Trim(piece) == "" then f
    else Found(f.out + [Part(f.before, Trim(piece), false)], next)
  }

  function MarkBackground(f: Found): Found {
    if f.out == [] then f
    else f.(out := f.out[|f.out| - 1 := f.out[|f.out| - 1].(background := true)])
  }

  function CutAt(f: Found, piece: string, op: string): Found {
    if op == "&" then MarkBackground(Flush(f, piece, ";")) else Flush(f, piece, op)
  }

  /** The scan from `k`, inside the piece that started at `from`. */
  function Parts(line: string, from: nat, k: nat, f: Found): seq<Part>
    requires from <= k <= |line|
    decreases |line| - k
  {
    if k == |line| then Flush(f, line[from..], "").out
    else
      var op := OperatorAt(line, from, k);
      if op == "" then Parts(line, from, k + 1, f)
      else Parts(line, k + |op|, k + |op|, CutAt(f, line[from..k], op))
  }

  function ChainParts(line: string): seq<Part> {
    Parts(line, 0, 0, Found([], ""))
  }

  // ----- the imperative scanner ---------------------------------------------------------

  class Splitter {
    var out: seq<Part>
    var b: string
    var word: string
    var quote: Option<char>
    var escaped: bool
    var parenDepth: nat
    var braceDepth: nat
    var caseDepth: nat
    var ifDepth: nat
    var loopDepth: nat
    var before: string

    ghost function View(): State
      reads this
    {
      State(Split.Scan(escaped, quote, parenDepth, braceDepth), word, caseDepth, ifDepth, loopDepth)
    }

    constructor ()
      ensures View() == START && b == "" && Found(out, before) == Found([], "")
    {
      out, b, word, before := [], "", "", "";
      quote, escaped, parenDepth, braceDepth := None, false, 0, 0;
      caseDepth, ifDepth, loopDepth := 0, 0, 0;
    }

    method ProcessWord()
      modifies this`word, this`caseDepth, this`ifDepth, this`loopDepth
      ensures View() == EndWord(old(View())) && word == ""
    {
      hide Trim;
      var w := Trim(word);
      word := "";
      match w {
        case "case" => caseDepth := caseDepth + 1;
        case "esac" => if caseDepth > 0 { caseDepth := caseDepth - 1; }
        case "if" => ifDepth := ifDepth + 1;
        case "fi" => if ifDepth > 0 { ifDepth := ifDepth - 1; }
        case "for" => loopDepth := loopDepth + 1;
        case "while" => loopDepth := loopDepth + 1;
        case "until" => loopDepth := loopDepth + 1;
        case "done" => if loopDepth > 0 { loopDepth := loopDepth - 1; }
        case _ =>
      }
    }

    method FlushPiece(next: string)
      modifies this`word, this`caseDepth, this`ifDepth, this`loopDepth, this`out, this`before, this`b
      ensures View() == EndWord(old(View())) && b == ""
      ensures Found(out, before) == Flush(old(Found(out, before)), old(b), next)
    {
      hide Trim, EndWord;
      ProcessWord();
      var cmd := Trim(b);
      if cmd != "" {
        out := out + [Part(before, cmd, false)];
        before := next;
      }
      b := "";
    }

    /** Between bytes: `b` is the piece so far and the rest of the scan is still to come. */
    ghost predicate Scanning(line: string, from: nat, i: nat)
      reads this
    {
      && from <= i <= |line| && b == line[from..i] && View() == After(b)
      && Parts(line, from, i, Found(out, before)) == ChainParts(line)
    }

    /** The loop of the scanner. */
    method Run(line: string)
      requires View() == START && b == "" && Found(out, before) == Found([], "")
      modifies this
      ensures out == ChainParts(line)
    {
      hide EndWord, Trim, Flush, CutAt, OperatorAt;
      ghost var from: nat := 0;
      var i: nat := 0;
      assert line[0..0] == "";
      while i < |line|
        invariant Scanning(line, from, i)
        decreases |line| - i
      {
        i, from := ScanByte(line, i, from);
      }
      assert line[from..i] == line[from..];
      FlushPiece("");
    }

    /** One round of the loop; `from'` is where the current piece starts afterwards. */
    method ScanByte(line: string, i: nat, ghost from: nat) returns (i': nat, ghost from': nat)
      requires i < |line| && Scanning(line, from, i)
      modifies this
      ensures i < i' && Scanning(line, from', i')
    {
      hide EndWord, Trim, Parts, Flush, After;
      var c := line[i];
      ghost var st, found := View(), Found(out, before);
      i', from' := i + 1, from;
      KeepByte(line, from, i, found);
      if escaped {
        b := b + [c];
        if quote == None { word := word + [c]; }
        escaped := false;
        return;
      }
      if c == '\\' {
        escaped := true;
        b := b + [c];
        return;
      }
      if quote != None {
        b := b + [c];
        if c == quote.value { quote := None; }
        return;
      }
      if c == '\'' || c == '"' {
        quote := Some(c);
        b := b + [c];
        return;
      }
      match c {
        case '(' => parenDepth := parenDepth + 1;
        case ')' => if parenDepth > 0 { parenDepth := parenDepth - 1; }
        case '{' => braceDepth := braceDepth + 1;
        case '}' => if braceDepth > 0 { braceDepth := braceDepth - 1; }
        case _ =>
      }
      if parenDepth == 0 && braceDepth == 0 {
        i', from' := ScanTop(line, i, from, c, st, found);
        return;
      }
      b := b + [c];
    }

    /** The part of the round that is reached outside quotes and brackets. */
    method ScanTop(line: string, i: nat, ghost from: nat, c: char, ghost st: State, ghost found: Found)
        returns (i': nat, ghost from': nat)
      requires from <= i < |line| && b == line[from..i] && c == line[i] && st == After(b) && found == Found(out, before)
      requires Parts(line, from, i, found) == ChainParts(line)
      requires st.Bare() && c != '\\' && !Split.IsQuote(c)
      requires View() == st.(scan := Split.Nest(st.scan, c)) && View().AtTop()
      modifies this
      ensures i < i' && Scanning(line, from', i')
    {
      hide EndWord, Trim, Parts, Flush, After, Operator, OperatorAt, SymbolAt;
      i', from' := i + 1, from;
      KeepByte(line, from, i, found);
      OperatorCases(line, from, i);
      if c == ' ' || c == '\t' || c == '\n' || c == '\r' {
        ProcessWord();
        b := b + [c];
        return;
      }
      var op := OperatorHere(line, i);
      if op != "" {
        i', from' := ScanOperator(line, i, from, op, st, found);
        return;
      }
      ScanWordByte(c);
    }

    /** The four tests for an operator, in the source's order. */
    method OperatorHere(line: string, i: nat) returns (op: string)
      requires i < |line|
      ensures op == SymbolAt(line, i)
    {
      var c := line[i];
      if c == ';' {
        return ";";
      }
      if c == '&' && i + 1 < |line| && line[i + 1] == '&' {
        return "&&";
      }
      if c == '|' && i + 1 < |line| && line[i + 1] == '|' {
        return "||";
      }
      if c == '&'
        && !((i + 1 < |line| && line[i + 1] == '>') || (i > 0 && (line[i - 1] == '>' || line[i - 1] == '<')))
      {
        return "&";
      }
      return "";
    }

    /** A byte that is no operator: it continues the word, or ends it. */
    method ScanWordByte(c: char)
      modifies this`word, this`caseDepth, this`ifDepth, this`loopDepth, this`b
      ensures View() == if IsLetter(c) then old(View()).(word := old(word) + [c]) else EndWord(old(View()))
      ensures b == old(b) + [c]
    {
      hide EndWord;
      if 'a' <= c <= 'z' || 'A' <= c <= 'Z' || c == '-' {
        word := word + [c];
      } else {
        EndWordAgain(View());
        if |word| > 0 {
          ProcessWord();
        }
      }
      b := b + [c];
    }

    /** The four operator branches: kept inside a compound command, a cut outside. */
    method ScanOperator(line: string, i: nat, ghost from: nat, op: string, ghost st: State, ghost found: Found)
        returns (i': nat, ghost from': nat)
      requires from <= i && 1 <= |op| <= 2 && i + |op| <= |line| && line[i..i + |op|] == op
      requires op in [";", "&", "&&", "||"]
      requires b == line[from..i] && st == View() == After(b) && found == Found(out, before)
      requires Parts(line, from, i, found) == ChainParts(line)
      requires st.Bare() && st.AtTop() && OperatorAt(line, from, i) == if EndWord(st).Nested() then "" else op
      modifies this
      ensures i < i' && Scanning(line, from', i')
    {
      hide EndWord, Trim, Parts, Flush, After, OperatorAt;
      EndWordAgain(st);
      ProcessWord();
      i', from' := i + |op|, from;
      if caseDepth > 0 || ifDepth > 0 || loopDepth > 0 {
        if |op| == 2 { KeepTwoBytes(line, from, i, op[0], found); } else { KeepOneByte(line, from, i, found); }
        b := b + op;
        return;
      }
      CutPiece(if op == "&" then ";" else op);
      if op == "&" && |out| > 0 {
        out := out[|out| - 1 := out[|out| - 1].(background := true)];
      }
      from' := i';
      RestartAfter(line, from, i, op, found);
    }

    /** A flush at a cut, where the scanner is outside everything. */
    method CutPiece(next: string)
      requires View().Bare() && View().AtTop() && !View().Nested() && word == ""
      modifies this`word, this`caseDepth, this`ifDepth, this`loopDepth, this`out, this`before, this`b
      ensures View() == START && b == ""
      ensures Found(out, before) == Flush(old(Found(out, before)), old(b), next)
    {
      EndWordAgain(View());
      FlushPiece(next);
    }
  }

  method SplitVirtualChain(line: string) returns (out: seq<Part>)
    ensures out == ChainParts(line)
  {
    var s := new Splitter();
    s.Run(line);
    out := s.out;
  }

  /** The operator that starts at `i`, wherever that is. */
  function SymbolAt(line: string, i: nat): (op: string)
    requires i < |line|
    ensures op != "" ==> i + |op| <= |line| && line[i..i + |op|] == op && op in [";", "&", "&&", "||"]
  {
    var next, prev := ByteAt(line, i + 1), ByteAt(line, i - 1);
    if line[i] == ';' then ";"
    else if line[i] == '&' && next == Some('&') then "&&"
    else if line[i] == '|' && next == Some('|') then "||"
    else if line[i] == '&' && next != Some('>') && prev != Some('>') && prev != Some('<') then "&"
    else ""
  }

  /** It is met where the scanner is outside quotes, brackets and compound commands. */
  lemma OperatorCases(line: string, from: nat, i: nat)
    requires from <= i < |line|
    ensures var st := After(line[from..i]);
      OperatorAt(line, from, i) ==
        if st.Bare() && st.AtTop() && !EndWord(st).Nested() then SymbolAt(line, i) else ""
  {
    hide After, EndWord;
  }

  lemma EndWordAgain(st: State)
    ensures st.word == "" ==> EndWord(st) == st
    ensures EndWord(EndWord(st)) == EndWord(st) && EndWord(st).scan == st.scan
  {
    hide Trim;
    TrimNothing();
    assert KeywordOf("") == Other;
  }

  lemma AfterGrows(piece: string, c: char)
    ensures After(piece + [c]) == Advance(After(piece), c)
  {
    assert (piece + [c])[..|piece|] == piece;
  }

  /** A byte at which the line is not cut. */
  lemma KeepByte(line: string, from: nat, i: nat, f: Found)
    requires from <= i < |line|
    ensures line[from..i + 1] == line[from..i] + [line[i]]
    ensures After(line[from..i + 1]) == Advance(After(line[from..i]), line[i])
    ensures OperatorAt(line, from, i) == "" ==> Parts(line, from, i, f) == Parts(line, from, i + 1, f)
  {
    hide Advance, Operator;
    assert line[from..i + 1] == line[from..i] + [line[i]];
    AfterGrows(line[from..i], line[i]);
  }

  /** An operator byte inside a compound command. */
  lemma KeepOneByte(line: string, from: nat, i: nat, f: Found)
    requires from <= i < |line| && line[i] in [';', '&', '|'] && OperatorAt(line, from, i) == ""
    requires After(line[from..i]).Bare() && After(line[from..i]).AtTop()
    ensures line[from..i + 1] == line[from..i] + [line[i]]
    ensures After(line[from..i + 1]) == EndWord(After(line[from..i]))
    ensures Parts(line, from, i, f) == Parts(line, from, i + 1, f)
  {
    hide Parts, EndWord, After, OperatorAt;
    var st := After(line[from..i]);
    KeepByte(line, from, i, f);
    assert Split.Step(st.scan, line[i]) == st.scan && st.(scan := st.scan) == st;
  }

  /** Both bytes of `&&` or `||` inside a compound command. */
  lemma KeepTwoBytes(line: string, from: nat, i: nat, c: char, f: Found)
    requires from <= i && i + 1 < |line| && line[i..i + 2] == [c, c] && (c == '&' || c == '|')
    requires var st := After(line[from..i]); st.Bare() && st.AtTop() && EndWord(st).Nested()
    ensures line[from..i + 2] == line[from..i] + [c, c]
    ensures After(line[from..i + 2]) == EndWord(After(line[from..i]))
    ensures Parts(line, from, i, f) == Parts(line, from, i + 2, f)
  {
    hide Parts, EndWord, After;
    assert line[i] == line[i..i + 2][0] && line[i + 1] == line[i..i + 2][1];
    EndWordAgain(After(line[from..i]));
    KeepOneByte(line, from, i, f);
    KeepOneByte(line, from, i + 1, f);
  }

  /** A cut: the scan restarts behind the operator. */
  lemma RestartAfter(line: string, from: nat, i: nat, op: string, f: Found)
    requires from <= i < |line| && OperatorAt(line, from, i) == op != ""
    ensures var j := i + |op|;
      && line[j..j] == "" && After("") == START
      && Parts(line, from, i, f) == Parts(line, j, j, CutAt(f, line[from..i], op))
  {
    hide OperatorAt, CutAt;
  }

  // ----- printed lists ----------------------------------------------------------------

  /** Pieces with an operator between any two neighbours. */
  predicate IsList(pieces: seq<string>, ops: seq<string>) {
    |pieces| == |ops| + 1 && forall op | op in ops :: op in [";", "&", "&&", "||"]
  }

  function Printed(pieces: seq<string>, ops: seq<string>): string
    requires |pieces| == |ops| + 1
  {
    if ops == [] then pieces[0] else pieces[0] + ops[0] + Printed(pieces[1..], ops[1..])
  }

  /** What flushing the pieces one after the other collects. */
  function Collect(f: Found, pieces: seq<string>, ops: seq<string>): seq<Part>
    requires |pieces| == |ops| + 1
    decreases |ops|
  {
    if ops == [] then Flush(f, pieces[0], "").out
    else Collect(CutAt(f, pieces[0], ops[0]), pieces[1..], ops[1..])
  }

  /** Whatever follows the piece, no operator is met inside it. */
  ghost predicate Uncut(piece: string) {
    forall k, next | 0 <= k < |piece| :: QuietAt(piece, k, next)
  }

  /** `next` is what follows byte `k`; it is free only behind the last byte. */
  ghost predicate QuietAt(piece: string, k: nat, next: Option<char>)
    requires k < |piece|
  {
    (k + 1 < |piece| ==> next == Some(piece[k + 1])) ==>
      Operator(After(piece[..k]), piece[k], next, ByteAt(piece, k - 1)) == ""
  }

  /** The scanner is back outside quotes, brackets and compound commands after the piece. */
  ghost predicate Settled(piece: string) {
    After(piece).Bare() && After(piece).AtTop() && !EndWord(After(piece)).Nested()
  }

  /** A lone `&` must not read as part of `>&`, `<&`, `&>` or `&&`. */
  predicate Separates(piece: string, op: string, tail: string) {
    op == "&" ==>
      && (piece == "" || piece[|piece| - 1] !in ['>', '<'])
      && (tail == "" || tail[0] !in ['&', '>'])
  }

  ghost predicate Neutral(pieces: seq<string>, ops: seq<string>) {
    && IsList(pieces, ops)
    && (forall p | p in pieces :: Uncut(p))
    && (forall i | 0 <= i < |ops| ::
          Settled(pieces[i]) && Separates(pieces[i], ops[i], Printed(pieces[i + 1..], ops[i + 1..])))
  }

  lemma {:induction false} UncutIsScanned(line: string, from: nat, k: nat, j: nat, f: Found)
    requires from <= k <= j <= |line| && Uncut(line[from..j])
    requires from > 0 ==> line[from - 1] !in ['>', '<']
    ensures Parts(line, from, k, f) == Parts(line, from, j, f)
    decreases j - k
  {
    hide After, EndWord, Flush, Operator, OperatorAt, Uncut;
    if k < j {
      UncutHasNoOperator(line, from, k, j);
      UncutIsScanned(line, from, k + 1, j, f);
    }
  }

  lemma UncutHasNoOperator(line: string, from: nat, k: nat, j: nat)
    requires from <= k < j <= |line| && Uncut(line[from..j])
    requires from > 0 ==> line[from - 1] !in ['>', '<']
    ensures OperatorAt(line, from, k) == ""
  {
    hide After, Operator;
    var piece, i := line[from..j], k - from;
    assert piece[..i] == line[from..k] && piece[i] == line[k];
    assert k + 1 < j ==> piece[i + 1] == line[k + 1];
    assert i > 0 ==> piece[i - 1] == line[k - 1];
    assert QuietAt(piece, i, ByteAt(line, k + 1));
    if i == 0 { FirstByte(After(line[from..k]), line[k], ByteAt(line, k + 1), ByteAt(line, k - 1)); }
  }

  /** Before the first byte of a piece only `<` and `>` matter. */
  lemma FirstByte(st: State, c: char, next: Option<char>, prev: Option<char>)
    requires prev != Some('>') && prev != Some('<')
    ensures Operator(st, c, next, prev) == Operator(st, c, next, None)
  {}

  lemma SettledIsCut(line: string, from: nat, j: nat, op: string)
    requires from <= j && j + |op| <= |line| && op in [";", "&", "&&", "||"] && line[j..j + |op|] == op
    requires Settled(line[from..j]) && Separates(line[from..j], op, line[j + |op|..])
    requires from > 0 ==> line[from - 1] !in ['>', '<']
    ensures OperatorAt(line, from, j) == op
  {
    hide After, EndWord;
    assert line[j] == line[j..j + |op|][0] && (|op| == 2 ==> line[j + 1] == line[j..j + |op|][1]);
    if op == "&" {
      assert j + 1 < |line| ==> line[j + 1] == line[j + 1..][0];
      assert from < j ==> line[j - 1] == line[from..j][j - from - 1];
    }
  }

  lemma {:induction false} PrintedScans(pieces: seq<string>, ops: seq<string>, line: string, from: nat, f: Found)
    requires Neutral(pieces, ops) && from <= |line| && line[from..] == Printed(pieces, ops)
    requires from > 0 ==> line[from - 1] !in ['>', '<']
    ensures Parts(line, from, from, f) == Collect(f, pieces, ops)
    decreases |ops|
  {
    hide After, EndWord, Flush, CutAt, OperatorAt, Uncut, Settled, Separates;
    var piece, j := pieces[0], from + |pieces[0]|;
    assert piece in pieces;
    if ops == [] {
      assert j == |line| && line[from..j] == piece == line[from..];
      UncutIsScanned(line, from, from, j, f);
    } else {
      var op, tail := ops[0], Printed(pieces[1..], ops[1..]);
      assert op in ops;
      PrintedStands(piece, op, tail, line, from);
      UncutIsScanned(line, from, from, j, f);
      SettledIsCut(line, from, j, op);
      var n := j + |op|;
      assert Parts(line, from, j, f) == Parts(line, n, n, CutAt(f, piece, op));
      NeutralTail(pieces, ops);
      assert line[n - 1] == line[j..n][|op| - 1] == op[|op| - 1];
      PrintedScans(pieces[1..], ops[1..], line, n, CutAt(f, piece, op));
    }
  }

  lemma PrintedStands(piece: string, op: string, tail: string, line: string, from: nat)
    requires from <= |line| && line[from..] == piece + op + tail
    ensures var j := from + |piece|;
      j + |op| <= |line| && line[from..j] == piece && line[j..j + |op|] == op && line[j + |op|..] == tail
  {
    var t, n := line[from..], |piece|;
    assert t[..n] == piece && line[from..from + n] == t[..n];
    assert t[n..][..|op|] == op && line[from + n..from + n + |op|] == t[n..][..|op|];
    assert t[n..][|op|..] == tail && line[from + n + |op|..] == t[n..][|op|..];
  }

  lemma NeutralTail(pieces: seq<string>, ops: seq<string>)
    requires Neutral(pieces, ops) && ops != []
    ensures Neutral(pieces[1..], ops[1..])
  {
    hide Uncut, Settled, Separates, Printed;
    var ps, os := pieces[1..], ops[1..];
    assert forall p | p in ps :: p in pieces;
    assert forall op | op in os :: op in ops;
    forall i | 0 <= i < |os| ensures Settled(ps[i]) && Separates(ps[i], os[i], Printed(ps[i + 1..], os[i + 1..])) {
      assert ps[i] == pieces[i + 1] && os[i] == ops[i + 1];
      assert ps[i + 1..] == pieces[i + 1 + 1..] && os[i + 1..] == ops[i + 1 + 1..];
    }
  }

  function Carried(op: string): string { if op == "&" then ";" else op }

  /** The list that pieces with some text stand for. */
  function Listed(before: string, pieces: seq<string>, ops: seq<string>): seq<Part>
    requires |pieces| == |ops| + 1
    decreases |ops|
  {
    if ops == [] then [Part(before, Trim(pieces[0]), false)]
    else [Part(before, Trim(pieces[0]), ops[0] == "&")] + Listed(Carried(ops[0]), pieces[1..], ops[1..])
  }

  lemma {:induction false} CollectIsListed(f: Found, pieces: seq<string>, ops: seq<string>)
    requires |pieces| == |ops| + 1 && forall p | p in pieces :: Trim(p) != ""
    ensures Collect(f, pieces, ops) == f.out + Listed(f.before, pieces, ops)
    decreases |ops|
  {
    hide Trim;
    assert pieces[0] in pieces;
    if ops != [] {
      var p := Part(f.before, Trim(pieces[0]), ops[0] == "&");
      assert CutAt(f, pieces[0], ops[0]) == Found(f.out + [p], Carried(ops[0]));
      CollectIsListed(Found(f.out + [p], Carried(ops[0])), pieces[1..], ops[1..]);
    }
  }

  /**
   * Printing and splitting: neutral pieces with some text, joined by their
   * operators, are read back in order, trimmed, each with the operator before it
   * (`;` after a background command) and its background mark.
   */
  lemma PrintedListSplitsBack(pieces: seq<string>, ops: seq<string>)
    requires Neutral(pieces, ops) && forall p | p in pieces :: Trim(p) != ""
    ensures ChainParts(Printed(pieces, ops)) == Listed("", pieces, ops)
  {
    hide Neutral, Trim, Parts, Collect, Listed, Printed;
    NeutralIsList(pieces, ops);
    var line := Printed(pieces, ops);
    assert line[0..] == line;
    PrintedScans(pieces, ops, line, 0, Found([], ""));
    CollectIsListed(Found([], ""), pieces, ops);
    assert [] + Listed("", pieces, ops) == Listed("", pieces, ops);
  }

  // ----- empty pieces ---------------------------------------------------------------------

  /** Whether an `&` comes before the next piece with some text. */
  predicate AmpersandNext(pieces: seq<string>, ops: seq<string>)
    requires |pieces| == |ops| + 1
    decreases |ops|
  {
    ops != [] && (ops[0] == "&" || (Trim(pieces[1]) == "" && AmpersandNext(pieces[1..], ops[1..])))
  }

  /**
   * The list without its empty pieces: a command stands under the operator right
   * behind the command before it, and any `&` before the next one sends it to the
   * background.
   */
  function Gathered(before: string, pieces: seq<string>, ops: seq<string>): seq<Part>
    requires |pieces| == |ops| + 1
    decreases |ops|
  {
    if Trim(pieces[0]) == "" then (if ops == [] then [] else Gathered(before, pieces[1..], ops[1..]))
    else
      [Part(before, Trim(pieces[0]), AmpersandNext(pieces, ops))]
      + if ops == [] then [] else Gathered(Carried(ops[0]), pieces[1..], ops[1..])
  }

  function Marked(out: seq<Part>, mark: bool): seq<Part> {
    if mark && out != [] then out[|out| - 1 := out[|out| - 1].(background := true)] else out
  }

  lemma {:induction false} CollectIsGathered(f: Found, pieces: seq<string>, ops: seq<string>)
    requires |pieces| == |ops| + 1
    ensures Collect(f, pieces, ops)
         == Marked(f.out, Trim(pieces[0]) == "" && AmpersandNext(pieces, ops)) + Gathered(f.before, pieces, ops)
    decreases |ops|
  {
    hide Trim;
    if ops != [] {
      CollectIsGathered(CutAt(f, pieces[0], ops[0]), pieces[1..], ops[1..]);
      if Trim(pieces[0]) != "" {
        var p := Part(f.before, Trim(pieces[0]), ops[0] == "&");
        assert CutAt(f, pieces[0], ops[0]) == Found(f.out + [p], Carried(ops[0]));
        var mark := Trim(pieces[1]) == "" && AmpersandNext(pieces[1..], ops[1..]);
        assert Marked(f.out + [p], mark) == f.out + [p.(background := AmpersandNext(pieces, ops))];
      }
    }
  }

  /** Neutral pieces, empty ones among them, are read back as the list without the empty ones. */
  lemma EmptyPiecesAreSkipped(pieces: seq<string>, ops: seq<string>)
    requires Neutral(pieces, ops)
    ensures ChainParts(Printed(pieces, ops)) == Gathered("", pieces, ops)
  {
    hide Neutral, Trim, Parts, Collect, Gathered, Printed;
    NeutralIsList(pieces, ops);
    var line := Printed(pieces, ops);
    assert line[0..] == line;
    PrintedScans(pieces, ops, line, 0, Found([], ""));
    CollectIsGathered(Found([], ""), pieces, ops);
    assert [] + Gathered("", pieces, ops) == Gathered("", pieces, ops);
  }

  lemma NeutralIsList(pieces: seq<string>, ops: seq<string>)
    requires Neutral(pieces, ops)
    ensures |pieces| == |ops| + 1
  {}

  /**
   * Every line is its pieces and operators, byte for byte, and its parts are what
   * flushing those pieces collects.
   */
  lemma {:induction false} PiecesRebuildTheLine(line: string, from: nat, k: nat, f: Found)
      returns (pieces: seq<string>, ops: seq<string>)
    requires from <= k <= |line|
    ensures IsList(pieces, ops) && Printed(pieces, ops) == line[from..]
    ensures Parts(line, from, k, f) == Collect(f, pieces, ops)
    decreases |line| - k
  {
    hide After, Flush, CutAt, OperatorAt;
    if k == |line| {
      return [line[from..]], [];
    }
    var op := OperatorAt(line, from, k);
    if op == "" {
      pieces, ops := PiecesRebuildTheLine(line, from, k + 1, f);
    } else {
      OperatorStands(line, from, k);
      var n := k + |op|;
      var ps, os := PiecesRebuildTheLine(line, n, n, CutAt(f, line[from..k], op));
      pieces, ops := [line[from..k]] + ps, [op] + os;
      assert pieces[1..] == ps && ops[1..] == os;
      assert line[from..] == line[from..k] + line[k..n] + line[n..];
    }
  }

  lemma OperatorStands(line: string, from: nat, k: nat)
    requires from <= k < |line| && OperatorAt(line, from, k) != ""
    ensures var op := OperatorAt(line, from, k);
      op in [";", "&", "&&", "||"] && k + |op| <= |line| && line[k..k + |op|] == op
  {
    hide After, EndWord;
  }
}
