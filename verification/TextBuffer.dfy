/**
 * The text buffer behind the vim and nano screens: lines, a cursor, one level of
 * undo and a yanked line. A line is bytes; the cursor counts runes, and an edit
 * decodes the line, changes its runes and encodes it again.
 *
 * Main results: `RuneEditsAtTheCursor` and `LineEditsAtTheCursor` (what each edit does
 * to the text around the cursor), `SessionStaysInBoundsExactlyWhen`, `UndoRevertsOneEdit`,
 * `BackspaceRestoresExactlyWhen` and `LoadsBackExactlyWhen`.
 */
module TextBuffer {
  import opened Wrappers
  import opened Utf8

  const LF: byte := 0x0A
  const CR: byte := 0x0D

  /** `row` and `col` may leave the text for a moment while a key is handled. */
  datatype Buffer = Buffer(
    lines: seq<bytes>, row: int, col: int, modified: bool, yank: bytes, undo: Option<seq<bytes>>)

  predicate InBounds(b: Buffer) {
    && 0 <= b.row < |b.lines| && 0 <= b.col <= |Runes(b.lines[b.row])|
    && (b.undo.Some? ==> b.undo.value != [])
  }

  // ----- loading and saving -------------------------------------------------------------

  /** `strings.ReplaceAll(s, "\r\n", "\n")` */
  function WithoutCrLf(s: bytes): bytes {
    if |s| < 2 then s
    else if s[0] == CR && s[1] == LF then [LF] + WithoutCrLf(s[2..])
    else [s[0]] + WithoutCrLf(s[1..])
  }

  /** `strings.ReplaceAll(s, "\r", "\n")` */
  function WithoutCr(s: bytes): bytes {
    if s == [] then [] else [if s[0] == CR then LF else s[0]] + WithoutCr(s[1..])
  }

  /** `strings.Split(s, "\n")` */
  function SplitLines(s: bytes): (lines: seq<bytes>)
    ensures lines != []
  {
    if s == [] then [[]]
    else
      var rest := SplitLines(s[1..]);
      if s[0] == LF then [[]] + rest else [[s[0]] + rest[0]] + rest[1..]
  }

  /** Every line followed by a line feed. */
  function JoinLines(lines: seq<bytes>): bytes {
    if lines == [] then [] else lines[0] + [LF] + JoinLines(lines[1..])
  }

  function Load(content: bytes): (lines: seq<bytes>)
    ensures lines != []
  {
    var lines := SplitLines(WithoutCr(WithoutCrLf(content)));
    if |lines| > 1 && lines[|lines| - 1] == [] then lines[..|lines| - 1] else lines
  }

  /** `strings.Join(lines, "\n")` */
  function Joined(lines: seq<bytes>): bytes {
    if lines == [] then [] else if |lines| == 1 then lines[0] else lines[0] + [LF] + Joined(lines[1..])
  }

  function Content(lines: seq<bytes>): bytes { Joined(lines) + [LF] }

  lemma {:induction false} ContentTerminatesLines(lines: seq<bytes>)
    requires lines != []
    ensures Content(lines) == JoinLines(lines)
  {
    if |lines| > 1 { ContentTerminatesLines(lines[1..]); }
  }

  /** The buffer of a freshly loaded file. */
  function Opened(content: bytes): (b: Buffer)
    ensures InBounds(b)
  {
    Buffer(Load(content), 0, 0, false, [], None)
  }

  // ----- operations on values --------------------------------------------------------------

  function Clamp(b: Buffer): (r: Buffer)
    ensures (b.undo.Some? ==> b.undo.value != []) ==> InBounds(r)
  {
    var lines := if b.lines == [] then [[]] else b.lines;
    var row := if b.row < 0 then 0 else if b.row >= |lines| then |lines| - 1 else b.row;
    var max := |Runes(lines[row])|;
    var col := if b.col < 0 then 0 else if b.col > max then max else b.col;
    b.(lines := lines, row := row, col := col)
  }

  function Snapshot(b: Buffer): Buffer { b.(undo := Some(b.lines)) }

  function InsertRune(b: Buffer, c: char): Buffer
    requires InBounds(b)
  {
    var line := Runes(b.lines[b.row]);
    Snapshot(b).(
      lines := b.lines[b.row := Encode(line[..b.col] + [c] + line[b.col..])], col := b.col + 1, modified := true)
  }

  function Newline(b: Buffer): Buffer
    requires InBounds(b)
  {
    var line := Runes(b.lines[b.row]);
    Snapshot(b).(
      lines := b.lines[..b.row] + [Encode(line[..b.col]), Encode(line[b.col..])] + b.lines[b.row + 1..],
      row := b.row + 1, col := 0, modified := true)
  }

  function Backspace(b: Buffer): Buffer
    requires InBounds(b)
  {
    if b.col > 0 then
      var line := Runes(b.lines[b.row]);
      Snapshot(b).(
        lines := b.lines[b.row := Encode(line[..b.col - 1] + line[b.col..])], col := b.col - 1, modified := true)
    else if b.row > 0 then
      Snapshot(b).(
        lines := b.lines[..b.row - 1] + [b.lines[b.row - 1] + b.lines[b.row]] + b.lines[b.row + 1..],
        row := b.row - 1, col := |Runes(b.lines[b.row - 1])|, modified := true)
    else b
  }

  function DeleteAt(b: Buffer): Buffer
    requires InBounds(b)
  {
    var line := Runes(b.lines[b.row]);
    if b.col < |line| then
      Snapshot(b).(lines := b.lines[b.row := Encode(line[..b.col] + line[b.col + 1..])], modified := true)
    else b
  }

  function DeleteLine(b: Buffer): Buffer
    requires InBounds(b)
  {
    var lines := if |b.lines| == 1 then [[]] else b.lines[..b.row] + b.lines[b.row + 1..];
    Clamp(Snapshot(b).(yank := b.lines[b.row], lines := lines, col := 0, modified := true))
  }

  function PasteLine(b: Buffer): Buffer
    requires InBounds(b)
  {
    if b.yank == [] then b
    else Snapshot(b).(
      lines := b.lines[..b.row + 1] + [b.yank] + b.lines[b.row + 1..], row := b.row + 1, col := 0, modified := true)
  }

  function OpenAbove(b: Buffer): Buffer
    requires InBounds(b)
  {
    Snapshot(b).(lines := b.lines[..b.row] + [[]] + b.lines[b.row..], col := 0, modified := true)
  }

  function ClearAll(b: Buffer): Buffer {
    Snapshot(b).(lines := [[]], row := 0, col := 0, modified := true)
  }

  function RestoreUndo(b: Buffer): Buffer {
    match b.undo
    case None => b
    case Some(lines) => Clamp(b.(lines := lines, undo := Some(b.lines))).(modified := true)
  }

  // ----- the imperative buffer --------------------------------------------------------------

  class VirtualTextBuffer {
    var lines: seq<bytes>
    var row: int
    var col: int
    var modified: bool
    var yank: bytes
    var undo: Option<seq<bytes>>

    function View(): Buffer
      reads this
    {
      Buffer(lines, row, col, modified, yank, undo)
    }

    constructor (content: bytes)
      ensures View() == Opened(content)
    {
      lines, row, col, modified, yank, undo := Load(content), 0, 0, false, [], None;
    }

    method TakeSnapshot()
      modifies this`undo
      ensures View() == Snapshot(old(View()))
    {
      undo := Some(lines);
    }

    method ClampCursor()
      modifies this`lines, this`row, this`col
      ensures View() == Clamp(old(View()))
    {
      if |lines| == 0 {
        lines := [[]];
      }
      if row < 0 {
        row := 0;
      }
      if row >= |lines| {
        row := |lines| - 1;
      }
      var max := |Runes(lines[row])|;
      if col < 0 {
        col := 0;
      }
      if col > max {
        col := max;
      }
    }

    method DoInsertRune(r: char)
      requires InBounds(View())
      modifies this
      ensures View() == InsertRune(old(View()), r)
    {
      TakeSnapshot();
      var line := Runes(lines[row]);
      lines := lines[row := Encode(line[..col] + [r] + line[col..])];
      col := col + 1;
      modified := true;
    }

    method DoNewline()
      requires InBounds(View())
      modifies this
      ensures View() == Newline(old(View()))
    {
      TakeSnapshot();
      var line := Runes(lines[row]);
      var left, right := Encode(line[..col]), Encode(line[col..]);
      lines := lines[row := left];
      lines := lines[..row + 1] + [right] + lines[row + 1..];
      assert lines == old(lines)[..row] + [left, right] + old(lines)[row + 1..];
      row := row + 1;
      col := 0;
      modified := true;
    }

    method DoBackspace()
      requires InBounds(View())
      modifies this
      ensures View() == Backspace(old(View()))
    {
      if col > 0 {
        TakeSnapshot();
        var line := Runes(lines[row]);
        lines := lines[row := Encode(line[..col - 1] + line[col..])];
        col := col - 1;
        modified := true;
        return;
      }
      if row > 0 {
        TakeSnapshot();
        var prev := Runes(lines[row - 1]);
        col := |prev|;
        lines := lines[row - 1 := lines[row - 1] + lines[row]];
        lines := lines[..row] + lines[row + 1..];
        assert lines == old(lines)[..row - 1] + [old(lines)[row - 1] + old(lines)[row]] + old(lines)[row + 1..];
        row := row - 1;
        modified := true;
      }
    }

    method DoDeleteAt()
      requires InBounds(View())
      modifies this
      ensures View() == DeleteAt(old(View()))
    {
      var line := Runes(lines[row]);
      if col < |line| {
        TakeSnapshot();
        lines := lines[row := Encode(line[..col] + line[col + 1..])];
        modified := true;
      }
    }

    method DoDeleteLine()
      requires InBounds(View())
      modifies this
      ensures View() == DeleteLine(old(View()))
    {
      TakeSnapshot();
      yank := lines[row];
      if |lines| == 1 {
        lines := [[]];
      } else {
        lines := lines[..row] + lines[row + 1..];
      }
      col := 0;
      modified := true;
      ClampCursor();
    }

    method DoPasteLine()
      requires InBounds(View())
      modifies this
      ensures View() == PasteLine(old(View()))
    {
      if yank == [] {
        return;
      }
      TakeSnapshot();
      var idx := row + 1;
      lines := lines[..idx] + [yank] + lines[idx..];
      row := idx;
      col := 0;
      modified := true;
    }

    method DoRestoreUndo()
      modifies this
      ensures View() == RestoreUndo(old(View()))
    {
      if undo == None {
        return;
      }
      lines, undo := undo.value, Some(lines);
      ClampCursor();
      modified := true;
    }

    /** One round of an editor's key loop. */
    method HandleKey(k: Key)
      requires InBounds(View())
      modifies this
      ensures View() == Handle(old(View()), k)
    {
      hide InsertRune, Newline, Backspace, DeleteAt, DeleteLine, PasteLine, RestoreUndo, Clamp;
      match k.edit {
        case Type(c) => DoInsertRune(c);
        case Enter => DoNewline();
        case Erase => DoBackspace();
        case EraseAt => DoDeleteAt();
        case CutLine => DoDeleteLine();
        case PutLine => DoPasteLine();
        case OpenLine =>
          TakeSnapshot();
          lines := lines[..row] + [[]] + lines[row..];
          col := 0;
          modified := true;
        case Clear =>
          TakeSnapshot();
          lines := [[]];
          row, col, modified := 0, 0, true;
        case Undo => DoRestoreUndo();
        case YankLine => yank := lines[row];
        case Jump(r, c) => row, col := r, c;
      }
      if !k.Unclamped() {
        ClampCursor();
      }
    }
  }

  // ----- key loops ------------------------------------------------------------------------------

  /** What a key does to the buffer. */
  datatype Edit =
    | Type(c: char) | Enter | Erase | EraseAt | CutLine | PutLine | OpenLine | Clear | Undo | YankLine
    | Jump(row: int, col: int)

  datatype Key = Key(edit: Edit, insert: bool) {
    /** Vim's insert mode ends a round without `clamp` after these three; every other round ends with it. */
    predicate Unclamped() { insert && (edit.Type? || edit.Enter? || edit.Erase?) }

    /** Carriage return and line feed are keys of their own and are never typed into a line. */
    predicate Typeable() { edit.Type? ==> edit.c != '\n' && edit.c != '\r' }
  }

  function Apply(b: Buffer, e: Edit): Buffer
    requires InBounds(b)
  {
    match e
    case Type(c) => InsertRune(b, c)
    case Enter => Newline(b)
    case Erase => Backspace(b)
    case EraseAt => DeleteAt(b)
    case CutLine => DeleteLine(b)
    case PutLine => PasteLine(b)
    case OpenLine => OpenAbove(b)
    case Clear => ClearAll(b)
    case Undo => RestoreUndo(b)
    case YankLine => b.(yank := b.lines[b.row])
    case Jump(row, col) => b.(row := row, col := col)
  }

  function Handle(b: Buffer, k: Key): Buffer
    requires InBounds(b)
  {
    if k.Unclamped() then Apply(b, k.edit) else Clamp(Apply(b, k.edit))
  }

  // ----- the cursor in insert mode --------------------------------------------------------------

  /** Joining `line` to `above` leaves fewer runes than `above` had: the character at the seam swallows too many. */
  predicate Swallows(above: bytes, line: bytes) {
    var k := Bridge(above, line);
    |Runes(above[|above| - k..] + line)| < k
  }

  /** Vim's insert mode takes back a line break there. */
  predicate JoinSwallows(b: Buffer, k: Key)
    requires InBounds(b)
  {
    k.insert && k.edit.Erase? && b.col == 0 && b.row > 0 && Swallows(b.lines[b.row - 1], b.lines[b.row])
  }

  /** A round leaves the cursor in the text, but for one join in insert mode. */
  lemma HandleStaysInBoundsExactlyWhen(b: Buffer, k: Key)
    requires InBounds(b)
    ensures InBounds(Handle(b, k)) <==> !JoinSwallows(b, k)
  {
    hide Runes, Encode, Bridge;
    if k.Unclamped() {
      var line := Runes(b.lines[b.row]);
      if k.edit.Type? {
        EncodedReadsBack(line[..b.col] + [k.edit.c] + line[b.col..]);
      } else if k.edit.Erase? && b.col > 0 {
        EncodedReadsBack(line[..b.col - 1] + line[b.col..]);
      } else if k.edit.Erase? && b.row > 0 {
        JoinLosesExactlyWhen(b.lines[b.row - 1], b.lines[b.row]);
      }
    }
  }

  /** The buffer at the last loop head, provided that the cursor was in the text at every one. */
  function Session(b: Buffer, ks: seq<Key>): (r: Option<Buffer>)
    ensures r.Some? ==> InBounds(r.value)
  {
    if ks == [] then Checked(b) else
    match Session(b, ks[..|ks| - 1])
    case None => None
    case Some(c) => Checked(Handle(c, ks[|ks| - 1]))
  }

  function Checked(b: Buffer): Option<Buffer> { if InBounds(b) then Some(b) else None }

  predicate SwallowsAt(b: Buffer, ks: seq<Key>, i: nat)
    requires i < |ks|
  {
    Session(b, ks[..i]).Some? && JoinSwallows(Session(b, ks[..i]).value, ks[i])
  }

  /** The cursor stays in the text of a session iff no join of insert mode swallows too many runes. */
  lemma {:induction false} SessionStaysInBoundsExactlyWhen(b: Buffer, ks: seq<Key>)
    requires InBounds(b)
    ensures Session(b, ks).Some? <==> forall i: nat | i < |ks| :: !SwallowsAt(b, ks, i)
  {
    hide Handle, JoinSwallows;
    if ks != [] {
      var n := |ks| - 1;
      SessionStaysInBoundsExactlyWhen(b, ks[..n]);
      assert forall i: nat | i < n :: ks[..n][..i] == ks[..i];
      assert forall i: nat | i < n :: SwallowsAt(b, ks[..n], i) == SwallowsAt(b, ks, i);
      if Session(b, ks[..n]).Some? { HandleStaysInBoundsExactlyWhen(Session(b, ks[..n]).value, ks[n]); }
      assert Session(b, ks).Some? <==> Session(b, ks[..n]).Some? && !SwallowsAt(b, ks, n);
    }
  }

  // ----- what the lines hold ----------------------------------------------------------------------

  /** A line holds no line break. */
  predicate Clean(line: bytes) { LF !in line && CR !in line }

  /** With `utf8`, it is valid UTF-8 besides. */
  predicate Proper(line: bytes, utf8: bool) { Clean(line) && (utf8 ==> Valid(line)) }

  predicate AllProper(lines: seq<bytes>, utf8: bool) { forall l | l in lines :: Proper(l, utf8) }

  predicate ProperBuffer(b: Buffer, utf8: bool) {
    AllProper(b.lines, utf8) && Proper(b.yank, utf8) && (b.undo.Some? ==> AllProper(b.undo.value, utf8))
  }

  /** No key brings a line break, or bytes that are no text, into any line. */
  lemma HandleStaysProper(b: Buffer, k: Key, utf8: bool)
    requires InBounds(b) && ProperBuffer(b, utf8) && k.Typeable()
    ensures ProperBuffer(Handle(b, k), utf8)
  {
    hide ProperBuffer, Runes;
    ApplyStaysProper(b, k.edit, utf8);
    SameText(Apply(b, k.edit), Clamp(Apply(b, k.edit)), utf8);
  }

  lemma SameText(b: Buffer, c: Buffer, utf8: bool)
    requires ProperBuffer(b, utf8) && c.yank == b.yank && c.undo == b.undo
    requires c.lines == b.lines || c.lines == [[]]
    ensures ProperBuffer(c, utf8)
  {}

  lemma ApplyStaysProper(b: Buffer, e: Edit, utf8: bool)
    requires InBounds(b) && ProperBuffer(b, utf8) && (e.Type? ==> e.c != '\n' && e.c != '\r')
    ensures ProperBuffer(Apply(b, e), utf8)
  {
    hide Proper, AllProper, InsertRune, Newline, Backspace, DeleteAt, DeleteLine, Runes;
    EmptyIsProper(utf8);
    match e
    case Type(c) => TypeStaysProper(b, c, utf8);
    case Enter => EnterStaysProper(b, utf8);
    case Erase => EraseStaysProper(b, utf8);
    case EraseAt => EraseAtStaysProper(b, utf8);
    case CutLine => CutStaysProper(b, utf8);
    case PutLine => ProperSplice(b.lines, b.row + 1, [b.yank], b.row + 1, utf8);
    case OpenLine => ProperSplice(b.lines, b.row, [[]], b.row, utf8);
    case Clear => OneLineIsProper([], utf8);
    case Undo => UndoStaysProper(b, utf8);
    case YankLine => LinesAreProper(b.lines, b.row, utf8);
    case Jump(_, _) =>
  }

  lemma TypeStaysProper(b: Buffer, c: char, utf8: bool)
    requires InBounds(b) && ProperBuffer(b, utf8) && c != '\n' && c != '\r'
    ensures ProperBuffer(InsertRune(b, c), utf8)
  {
    hide Proper, AllProper, Runes;
    LinesAreProper(b.lines, b.row, utf8);
    var line := Runes(b.lines[b.row]);
    ProperParts(b.lines[b.row], b.col, utf8);
    ProperRunes([c], utf8);
    ProperJoin(line[..b.col], [c], utf8);
    ProperJoin(line[..b.col] + [c], line[b.col..], utf8);
    ProperUpdate(b.lines, b.row, Encode(line[..b.col] + [c] + line[b.col..]), utf8);
  }

  lemma EnterStaysProper(b: Buffer, utf8: bool)
    requires InBounds(b) && ProperBuffer(b, utf8)
    ensures ProperBuffer(Newline(b), utf8)
  {
    hide Proper, AllProper, Runes;
    LinesAreProper(b.lines, b.row, utf8);
    var line := Runes(b.lines[b.row]);
    ProperParts(b.lines[b.row], b.col, utf8);
    ProperSplice(b.lines, b.row, [Encode(line[..b.col]), Encode(line[b.col..])], b.row + 1, utf8);
  }

  lemma EraseStaysProper(b: Buffer, utf8: bool)
    requires InBounds(b) && ProperBuffer(b, utf8)
    ensures ProperBuffer(Backspace(b), utf8)
  {
    hide Proper, AllProper, Runes;
    LinesAreProper(b.lines, b.row, utf8);
    if b.col > 0 {
      var line := Runes(b.lines[b.row]);
      ProperParts(b.lines[b.row], b.col - 1, utf8);
      ProperParts(b.lines[b.row], b.col, utf8);
      ProperJoin(line[..b.col - 1], line[b.col..], utf8);
      ProperUpdate(b.lines, b.row, Encode(line[..b.col - 1] + line[b.col..]), utf8);
    } else if b.row > 0 {
      LinesAreProper(b.lines, b.row - 1, utf8);
      ProperConcat(b.lines[b.row - 1], b.lines[b.row], utf8);
      ProperSplice(b.lines, b.row - 1, [b.lines[b.row - 1] + b.lines[b.row]], b.row + 1, utf8);
    }
  }

  lemma EraseAtStaysProper(b: Buffer, utf8: bool)
    requires InBounds(b) && ProperBuffer(b, utf8)
    ensures ProperBuffer(DeleteAt(b), utf8)
  {
    hide Proper, AllProper, Runes;
    LinesAreProper(b.lines, b.row, utf8);
    var line := Runes(b.lines[b.row]);
    if b.col < |line| {
      ProperParts(b.lines[b.row], b.col, utf8);
      ProperParts(b.lines[b.row], b.col + 1, utf8);
      ProperJoin(line[..b.col], line[b.col + 1..], utf8);
      ProperUpdate(b.lines, b.row, Encode(line[..b.col] + line[b.col + 1..]), utf8);
    }
  }

  lemma CutStaysProper(b: Buffer, utf8: bool)
    requires InBounds(b) && ProperBuffer(b, utf8)
    ensures ProperBuffer(DeleteLine(b), utf8)
  {
    hide Proper, AllProper, Runes;
    LinesAreProper(b.lines, b.row, utf8);
    EmptyIsProper(utf8);
    OneLineIsProper([], utf8);
    ProperSplice(b.lines, b.row, [], b.row + 1, utf8);
    assert b.lines[..b.row] + [] + b.lines[b.row + 1..] == b.lines[..b.row] + b.lines[b.row + 1..];
  }

  lemma UndoStaysProper(b: Buffer, utf8: bool)
    requires InBounds(b) && ProperBuffer(b, utf8)
    ensures ProperBuffer(RestoreUndo(b), utf8)
  {
    hide AllProper, Runes;
  }

  lemma OneLineIsProper(line: bytes, utf8: bool)
    requires Proper(line, utf8)
    ensures AllProper([line], utf8)
  {
    hide Proper;
  }

  lemma LinesAreProper(lines: seq<bytes>, i: nat, utf8: bool)
    requires AllProper(lines, utf8) && i < |lines|
    ensures Proper(lines[i], utf8)
  {
    assert lines[i] in lines;
  }

  lemma ProperUpdate(lines: seq<bytes>, i: nat, line: bytes, utf8: bool)
    requires AllProper(lines, utf8) && i < |lines| && Proper(line, utf8)
    ensures AllProper(lines[i := line], utf8)
  {
    hide Proper;
    assert forall l | l in lines[i := line] :: l in lines || l == line;
  }

  /** Lines `i..j` replaced by others. */
  lemma ProperSplice(lines: seq<bytes>, i: nat, mid: seq<bytes>, j: nat, utf8: bool)
    requires AllProper(lines, utf8) && i <= j <= |lines|
    requires |mid| <= 2 && forall k | 0 <= k < |mid| :: Proper(mid[k], utf8)
    ensures AllProper(lines[..i] + mid + lines[j..], utf8)
  {
    hide Proper;
    forall l | l in lines[..i] + mid + lines[j..] ensures Proper(l, utf8) {
      if l in lines[..i] { assert l in lines; } else if l in lines[j..] { assert l in lines; }
    }
  }

  lemma EmptyIsProper(utf8: bool)
    ensures Proper([], utf8)
  {}

  lemma ProperConcat(a: bytes, b: bytes, utf8: bool)
    requires Proper(a, utf8) && Proper(b, utf8)
    ensures Proper(a + b, utf8)
  {
    if utf8 { ValidJoin(a, b); }
  }

  lemma ProperJoin(a: string, b: string, utf8: bool)
    requires Proper(Encode(a), utf8) && Proper(Encode(b), utf8)
    ensures Proper(Encode(a + b), utf8)
  {
    hide Proper;
    EncodeJoins(a, b);
    ProperConcat(Encode(a), Encode(b), utf8);
  }

  /** Runes without line breaks are encoded without line breaks. */
  lemma {:induction false} ProperRunes(text: string, utf8: bool)
    requires '\n' !in text && '\r' !in text
    ensures Proper(Encode(text), utf8)
  {
    if text != "" {
      ProperRunes(text[1..], utf8);
      BreaksAreThemselves(text[0]);
    }
    EncodedReadsBack(text);
  }

  lemma BreaksAreThemselves(c: char)
    ensures (LF in EncodeRune(c) <==> c == '\n') && (CR in EncodeRune(c) <==> c == '\r')
  {}

  /** A line without line breaks has no line breaks among its runes. */
  lemma {:induction false} CleanRunes(line: bytes)
    requires Clean(line)
    ensures '\n' !in Runes(line) && '\r' !in Runes(line)
  {
    hide CharLength, Rune, EncodeRune;
    if line != [] {
      var n := Width(line);
      CleanRunes(line[n..]);
      if CharLength(line) > 0 {
        CharLengthLocal(line, n);
        RuneIsEncoded(line[..n]);
        BreaksAreThemselves(Rune(line[..n]));
      }
    }
  }

  lemma ProperParts(line: bytes, i: nat, utf8: bool)
    requires Proper(line, utf8) && i <= |Runes(line)|
    ensures Proper(Encode(Runes(line)[..i]), utf8) && Proper(Encode(Runes(line)[i..]), utf8)
  {
    hide Runes, Encode;
    CleanRunes(line);
    ProperRunes(Runes(line)[..i], utf8);
    ProperRunes(Runes(line)[i..], utf8);
  }

  // ----- loading ----------------------------------------------------------------------------------

  lemma {:induction false} SplitIsClean(s: bytes)
    requires CR !in s
    ensures AllProper(SplitLines(s), false)
  {
    hide Proper, Clean;
    EmptyIsProper(false);
    if s != [] {
      SplitIsClean(s[1..]);
      var rest := SplitLines(s[1..]);
      assert rest[0] in rest;
      assert forall l | l in rest[1..] :: l in rest;
      if s[0] != LF {
        OneByteIsClean(s[0]);
        ProperConcat([s[0]], rest[0], false);
      }
    }
  }

  lemma OneByteIsClean(b: byte)
    requires b != LF && b != CR
    ensures Proper([b], false)
  {}

  lemma {:induction false} NoCrLeft(s: bytes)
    ensures CR !in WithoutCr(s)
    ensures CR !in s ==> WithoutCr(s) == s && WithoutCrLf(s) == s
  {
    if s != [] { NoCrLeft(s[1..]); }
  }

  /** Bytes that are no line break pass through unchanged, and stay in one line. */
  lemma {:induction false} PassesThrough(p: bytes, s: bytes)
    requires Clean(p)
    ensures WithoutCrLf(p + s) == p + WithoutCrLf(s) && WithoutCr(p + s) == p + WithoutCr(s)
  {
    hide WithoutCr, WithoutCrLf;
    if p == [] {
      assert p + s == s;
    } else {
      PassesThrough(p[1..], s);
      OnePassesThrough(p[0], p[1..] + s);
      assert p + s == [p[0]] + (p[1..] + s);
      assert p + WithoutCrLf(s) == [p[0]] + (p[1..] + WithoutCrLf(s));
      assert p + WithoutCr(s) == [p[0]] + (p[1..] + WithoutCr(s));
    }
  }

  lemma OnePassesThrough(b: byte, s: bytes)
    requires b != CR
    ensures WithoutCrLf([b] + s) == [b] + WithoutCrLf(s) && WithoutCr([b] + s) == [b] + WithoutCr(s)
  {
    assert ([b] + s)[1..] == s;
  }

  /** `head` in front of the first line. */
  function Before(head: bytes, lines: seq<bytes>): seq<bytes>
    requires lines != []
  {
    [head + lines[0]] + lines[1..]
  }

  lemma {:induction false} SplitPrefix(p: bytes, s: bytes)
    requires LF !in p
    ensures SplitLines(p + s) == Before(p, SplitLines(s))
  {
    if p == [] {
      assert p + s == s && [] + SplitLines(s)[0] == SplitLines(s)[0];
    } else {
      SplitPrefix(p[1..], s);
      assert (p + s)[1..] == p[1..] + s;
      assert [p[0]] + (p[1..] + SplitLines(s)[0]) == p + SplitLines(s)[0];
    }
  }

  /** Valid text starts with a line break or with a character that passes through. */
  lemma FirstChar(s: bytes) returns (p: bytes, t: bytes)
    requires Valid(s) && s != []
    ensures p != [] && s == p + t && Valid(p) && Valid(t) && (p == [LF] || p == [CR] || Clean(p))
  {
    var n := CharLength(s);
    p, t := s[..n], s[n..];
    CharLengthLocal(s, n);
    assert s[..n] + s[n..] == s;
  }

  lemma BreaksAreValid()
    ensures Valid([LF]) && Valid([CR])
  {}

  /** Loading valid UTF-8 gives lines of valid UTF-8. */
  lemma {:induction false} WithoutCrLfStaysValid(s: bytes)
    requires Valid(s)
    ensures Valid(WithoutCrLf(s))
    decreases |s|
  {
    hide Valid;
    if s != [] {
      BreaksAreValid();
      var p, t := FirstChar(s);
      WithoutCrLfStaysValid(t);
      if Clean(p) {
        PassesThrough(p, t);
        ValidJoin(p, WithoutCrLf(t));
      } else if |s| > 1 && s[0] == CR && s[1] == LF {
        var q, u := FirstChar(t);
        assert s[2..] == u;
        WithoutCrLfStaysValid(u);
        ValidJoin([LF], WithoutCrLf(u));
      } else {
        assert s[1..] == t;
        if |s| > 1 { ValidJoin(p, WithoutCrLf(t)); }
      }
    }
  }

  lemma {:induction false} WithoutCrStaysValid(s: bytes)
    requires Valid(s)
    ensures Valid(WithoutCr(s))
    decreases |s|
  {
    hide Valid;
    if s != [] {
      BreaksAreValid();
      var p, t := FirstChar(s);
      WithoutCrStaysValid(t);
      if Clean(p) {
        PassesThrough(p, t);
        ValidJoin(p, WithoutCr(t));
      } else {
        assert s[1..] == t;
        ValidJoin([LF], WithoutCr(t));
      }
    }
  }

  lemma {:induction false} SplitStaysValid(s: bytes)
    requires Valid(s)
    ensures forall l | l in SplitLines(s) :: Valid(l)
    decreases |s|
  {
    if s == [] {
    } else {
      hide Valid;
      var p, t := FirstChar(s);
      SplitStaysValid(t);
      var rest := SplitLines(t);
      assert rest[0] in rest && forall l | l in rest[1..] :: l in rest;
      if p == [LF] {
        assert s[1..] == t;
        EmptyIsValid();
      } else {
        SplitPrefix(p, t);
        ValidJoin(p, rest[0]);
      }
    }
  }

  lemma EmptyIsValid()
    ensures Valid([])
  {}

  lemma LoadIsProper(content: bytes)
    ensures AllProper(Load(content), Valid(content))
  {
    hide SplitLines, WithoutCr, WithoutCrLf, Valid;
    NoCrLeft(WithoutCrLf(content));
    SplitIsClean(WithoutCr(WithoutCrLf(content)));
    if Valid(content) {
      WithoutCrLfStaysValid(content);
      WithoutCrStaysValid(WithoutCrLf(content));
      SplitStaysValid(WithoutCr(WithoutCrLf(content)));
    }
    assert forall l | l in Load(content) :: l in SplitLines(WithoutCr(WithoutCrLf(content)));
    assert forall l | l in SplitLines(WithoutCr(WithoutCrLf(content))) :: Proper(l, false);
  }

  /** At every loop head of a session from a loaded file, no line holds a line break, and valid text stays valid. */
  lemma {:induction false} SessionStaysProper(content: bytes, ks: seq<Key>)
    requires forall k | k in ks :: k.Typeable()
    ensures var r := Session(Opened(content), ks); r.Some? ==> ProperBuffer(r.value, Valid(content))
  {
    hide Handle, Load, Proper, Valid;
    if ks == [] {
      LoadIsProper(content);
      EmptyIsProper(Valid(content));
    } else {
      var n := |ks| - 1;
      assert ks[n] in ks;
      SessionStaysProper(content, ks[..n]);
      var c := Session(Opened(content), ks[..n]);
      if c.Some? { HandleStaysProper(c.value, ks[n], Valid(content)); }
    }
  }

  /** In a file of valid UTF-8 the cursor never leaves the text. */
  lemma {:induction false} ValidTextStaysInBounds(content: bytes, ks: seq<Key>)
    requires Valid(content) && forall k | k in ks :: k.Typeable()
    ensures Session(Opened(content), ks).Some?
  {
    hide Handle, JoinSwallows;
    if ks != [] {
      var n := |ks| - 1;
      ValidTextStaysInBounds(content, ks[..n]);
      SessionStaysProper(content, ks[..n]);
      var c := Session(Opened(content), ks[..n]).value;
      NothingSwallowed(c, ks[n]);
      HandleStaysInBoundsExactlyWhen(c, ks[n]);
    }
  }

  lemma NothingSwallowed(b: Buffer, k: Key)
    requires InBounds(b) && ProperBuffer(b, true)
    ensures !JoinSwallows(b, k)
  {
    hide Runes, Bridge;
    if b.row > 0 {
      LinesAreProper(b.lines, b.row - 1, true);
      JoinedRunes(b.lines[b.row - 1], b.lines[b.row]);
    }
  }

  /** A line break, and what is behind it. */
  lemma SplitAtBreak(line: bytes, rest: bytes)
    requires LF !in line
    ensures SplitLines(line + [LF] + rest) == [line] + SplitLines(rest)
  {
    var tail := [LF] + rest;
    assert tail[1..] == rest;
    assert line + [LF] + rest == line + tail;
    SplitPrefix(line, tail);
    assert line + [] == line;
  }

  lemma LoadsTwoLines(a: bytes, b: bytes)
    requires Clean(a) && Clean(b) && b != []
    ensures Load(a + [LF] + b) == [a, b]
  {
    hide WithoutCr, WithoutCrLf;
    var s := a + [LF] + b;
    NoCrLeft(s);
    SplitAtBreak(a, b);
    SplitPrefix(b, []);
    assert b + [] == b;
  }

  /**
   * Vim, the cursor at the front of the second of two lines, Backspace in insert mode:
   * if the join swallows too many runes the cursor stands behind the text.
   */
  lemma JoinLeavesTheText(above: bytes, line: bytes)
    requires Clean(above) && Clean(line) && Swallows(above, line)
    ensures Session(Opened(above + [LF] + line), [Key(Jump(1, 0), false), Key(Erase, true)]) == None
  {
    hide Runes, Bridge, Load;
    var b, ks := Opened(above + [LF] + line), [Key(Jump(1, 0), false), Key(Erase, true)];
    if line == [] { NothingToJoin(above); }
    LoadsTwoLines(above, line);
    var c := Handle(b, ks[0]);
    assert c == b.(row := 1);
    OneKey(b, ks[0]);
    assert ks[..1] == [ks[0]] && JoinSwallows(c, ks[1]);
    HandleStaysInBoundsExactlyWhen(c, ks[1]);
  }

  lemma OneKey(b: Buffer, k: Key)
    requires InBounds(b) && InBounds(Handle(b, k))
    ensures Session(b, [k]) == Some(Handle(b, k))
  {
    hide Handle, InBounds;
    assert [k][..0] == [];
  }

  lemma {:induction false} NothingToJoin(above: bytes)
    ensures Bridge(above, []) == 0
  {
    if above != [] {
      assert above + [] == above;
      NothingToJoin(above[Width(above)..]);
    }
  }

  /** Two bytes, each a rune, and the byte below are one character. */
  lemma SeamCharacter()
    ensures Swallows([0xE2, 0x82], [0xAC])
  {
    assert CharLength([0xE2, 0x82]) == 0 && CharLength([0xE2, 0x82] + [0xAC]) == 3;
    assert Bridge([0xE2, 0x82], [0xAC]) == 2;
    var seam := [0xE2, 0x82][0..] + [0xAC];
    assert seam[3..] == [];
    NoRunes();
  }

  // ----- inverses --------------------------------------------------------------------------------

  /** The text after an edit was taken back: the line at the cursor was decoded and encoded again. */
  predicate Rewritten(b: Buffer, r: Buffer)
    requires InBounds(b)
  {
    r.lines == b.lines[b.row := Encode(Runes(b.lines[b.row]))] && r.row == b.row && r.col == b.col
  }

  /**
   * Backspace takes back a typed rune, and joins what Enter split, in either editor: the
   * cursor is back, and the text iff the line at the cursor is valid UTF-8.
   */
  lemma BackspaceRestoresExactlyWhen(b: Buffer, c: char, insert: bool)
    requires InBounds(b)
    ensures var t := Handle(b, Key(Type(c), insert));
      && InBounds(t) && Rewritten(b, Handle(t, Key(Erase, insert)))
      && (Handle(t, Key(Erase, insert)).lines == b.lines <==> Valid(b.lines[b.row]))
    ensures var n := Handle(b, Key(Enter, insert));
      && InBounds(n) && Rewritten(b, Handle(n, Key(Erase, insert)))
      && (Handle(n, Key(Erase, insert)).lines == b.lines <==> Valid(b.lines[b.row]))
  {
    hide Handle, Valid;
    EncodesBackExactlyWhen(b.lines[b.row]);
    TypeThenErase(b, c, insert);
    EnterThenErase(b, insert);
  }

  lemma TypeThenErase(b: Buffer, c: char, insert: bool)
    requires InBounds(b)
    ensures var t := Handle(b, Key(Type(c), insert));
      InBounds(t) && Rewritten(b, Handle(t, Key(Erase, insert)))
  {
    hide Runes, Encode;
    var line := Runes(b.lines[b.row]);
    var typed := line[..b.col] + [c] + line[b.col..];
    EncodedReadsBack(typed);
    EncodedReadsBack(line);
    assert typed[..b.col] + typed[b.col + 1..] == line;
    assert b.lines[b.row := Encode(typed)][b.row := Encode(line)] == b.lines[b.row := Encode(line)];
  }

  lemma EnterThenErase(b: Buffer, insert: bool)
    requires InBounds(b)
    ensures var n := Handle(b, Key(Enter, insert));
      InBounds(n) && Rewritten(b, Handle(n, Key(Erase, insert)))
  {
    hide Runes, Encode;
    var n := Newline(b);
    var line := Runes(b.lines[b.row]);
    assert n.lines[b.row] == Encode(line[..b.col]) && n.lines[b.row + 1] == Encode(line[b.col..]);
    assert Clamp(n) == n;
    assert line[..b.col] + line[b.col..] == line;
    EncodeJoins(line[..b.col], line[b.col..]);
    EncodedReadsBack(line[..b.col]);
    EncodedReadsBack(line);
    assert n.lines[..b.row] == b.lines[..b.row] && n.lines[b.row + 2..] == b.lines[b.row + 1..];
    assert b.lines[..b.row] + [Encode(line)] + b.lines[b.row + 1..] == b.lines[b.row := Encode(line)];
  }

  /** On the line with the one byte 0xFF they leave U+FFFD. */
  lemma TypingRewritesInvalidBytes(c: char)
    ensures var b := Opened([0xFF]); var t := Handle(b, Key(Type(c), true));
      && b.lines == [[0xFF]]
      && InBounds(t) && Handle(t, Key(Erase, true)).lines == [[0xEF, 0xBF, 0xBD]]
  {
    PassesThrough([0xFF], []);
    SplitPrefix([0xFF], []);
    assert [0xFF] + [] == [0xFF] && Opened([0xFF]).lines == [[0xFF]];
    TypeThenErase(Opened([0xFF]), c, true);
    InvalidByteDecodes();
  }

  /** One undo takes back any single edit that changed the text; undoing twice changes no line. */
  lemma UndoRevertsOneEdit(b: Buffer, k: Key)
    requires InBounds(b)
    ensures var r := Handle(b, k); r.lines != b.lines && !k.edit.Undo? ==> RestoreUndo(r).lines == b.lines
    ensures RestoreUndo(RestoreUndo(b)).lines == b.lines
  {
    hide Runes, Encode;
    if !k.edit.Undo? { SnapshotsTheText(b, k); }
    if b.undo.Some? { assert RestoreUndo(b).lines == b.undo.value && RestoreUndo(b).undo == Some(b.lines); }
  }

  lemma SnapshotsTheText(b: Buffer, k: Key)
    requires InBounds(b) && !k.edit.Undo?
    ensures Handle(b, k).lines == b.lines || Handle(b, k).undo == Some(b.lines)
  {
    hide Runes, Encode;
  }

  /** A key that changes the text marks the buffer; nothing takes the mark back, and only two keys fill the yank. */
  lemma ChangesAreMarked(b: Buffer, k: Key)
    requires InBounds(b)
    ensures var r := Handle(b, k);
      && (r.lines != b.lines ==> r.modified) && (b.modified ==> r.modified)
      && (r.yank == if k.edit.CutLine? || k.edit.YankLine? then b.lines[b.row] else b.yank)
      && (!k.edit.Undo? && !r.modified ==> r.lines == b.lines && r.undo == b.undo)
  {
    hide Runes, Encode;
  }

  /** A jump ends at the place in the text that is nearest to its goal. */
  lemma JumpsToTheNearest(b: Buffer, row: int, col: int, insert: bool)
    requires InBounds(b)
    ensures var r := Handle(b, Key(Jump(row, col), insert));
      && r == b.(row := r.row, col := r.col) && 0 <= r.row < |b.lines|
      && (forall i | 0 <= i < |b.lines| :: Distance(r.row, row) <= Distance(i, row))
      && 0 <= r.col <= |Runes(b.lines[r.row])|
      && forall j | 0 <= j <= |Runes(b.lines[r.row])| :: Distance(r.col, col) <= Distance(j, col)
  {
    hide Runes, Encode;
  }

  function Distance(x: int, y: int): nat { if x < y then y - x else x - y }

  // ----- saving and loading again ------------------------------------------------------------------

  lemma {:induction false} JoinHasNoCr(lines: seq<bytes>)
    requires AllProper(lines, false)
    ensures CR !in JoinLines(lines)
  {
    if lines != [] {
      assert Proper(lines[0], false) by { assert lines[0] in lines; }
      assert forall l | l in lines[1..] :: l in lines;
      JoinHasNoCr(lines[1..]);
    }
  }

  lemma {:induction false} SplitJoined(lines: seq<bytes>)
    requires AllProper(lines, false)
    ensures SplitLines(JoinLines(lines)) == lines + [[]]
  {
    if lines != [] {
      assert Clean(lines[0]) by { assert lines[0] in lines; }
      assert forall l | l in lines[1..] :: l in lines;
      SplitJoined(lines[1..]);
      SplitAtBreak(lines[0], JoinLines(lines[1..]));
      assert lines == [lines[0]] + lines[1..];
    }
  }

  /** Loading what was saved gives the same lines iff none of them holds a line break. */
  lemma LoadsBackExactlyWhen(lines: seq<bytes>)
    requires lines != []
    ensures Load(Content(lines)) == lines <==> forall l | l in lines :: Clean(l)
  {
    ContentTerminatesLines(lines);
    if forall l | l in lines :: Clean(l) {
      JoinHasNoCr(lines);
      NoCrLeft(JoinLines(lines));
      SplitJoined(lines);
      assert (lines + [[]])[..|lines|] == lines;
    } else {
      LoadIsProper(Content(lines));
    }
  }

  // ----- edits, by the text around the cursor --------------------------------------------------------

  /** The cursor stands on `line`, which lies between the lines `above` and `below`. */
  predicate On(b: Buffer, above: seq<bytes>, line: bytes, below: seq<bytes>, col: nat) {
    b.lines == above + [line] + below && b.row == |above| && b.col == col
  }

  /** Cutting, putting and opening lines, and taking back a line break. */
  lemma LineEditsAtTheCursor(b: Buffer, above: seq<bytes>, line: bytes, below: seq<bytes>, col: nat)
    requires InBounds(b) && On(b, above, line, below, col)
    ensures var r := Apply(b, CutLine);
      && r.yank == line && r.col == 0
      && (if above + below == [] then On(r, [], [], [], 0)
          else r.lines == above + below && r.row == if below == [] then |above| - 1 else |above|)
    ensures b.yank != [] ==> On(Apply(b, PutLine), above + [line], b.yank, below, 0)
    ensures b.yank == [] ==> Apply(b, PutLine) == b
    ensures On(Apply(b, OpenLine), above, [], [line] + below, 0)
    ensures On(Apply(b, Clear), [], [], [], 0) && Apply(b, YankLine) == b.(yank := line)
  {
    hide Runes, Encode;
    assert b.lines[..|above|] == above && b.lines[|above|] == line && b.lines[|above| + 1..] == below;
    assert b.lines[..|above| + 1] == above + [line] && b.lines[|above|..] == [line] + below;
    LinesAround(above, line, below, b.yank);
  }

  lemma LinesAround(above: seq<bytes>, line: bytes, below: seq<bytes>, other: bytes)
    ensures above + [[]] + ([line] + below) == above + [[]] + [line] + below
    ensures above + [line] + [other] + below == (above + [line]) + [other] + below
  {}

  /** Typing, breaking and deleting between the runes `x` and `y` of the line. */
  lemma RuneEditsAtTheCursor(b: Buffer, above: seq<bytes>, line: bytes, below: seq<bytes>,
      x: string, y: string, c: char)
    requires InBounds(b) && On(b, above, line, below, |x|) && Runes(line) == x + y
    ensures On(Apply(b, Type(c)), above, Encode(x + [c] + y), below, |x| + 1)
    ensures On(Apply(b, Enter), above + [Encode(x)], Encode(y), below, 0)
    ensures x != "" ==> On(Apply(b, Erase), above, Encode(x[..|x| - 1] + y), below, |x| - 1)
    ensures y != "" ==> On(Apply(b, EraseAt), above, Encode(x + y[1..]), below, |x|)
    ensures y == "" ==> Apply(b, EraseAt) == b
  {
    hide Runes, Encode;
    assert b.lines[..|above|] == above && b.lines[|above|] == line && b.lines[|above| + 1..] == below;
    assert (x + y)[..|x|] == x && (x + y)[|x|..] == y;
    Updated(above, line, below, Encode(x + [c] + y));
    assert above + [Encode(x), Encode(y)] + below == above + [Encode(x)] + [Encode(y)] + below;
    if x != "" {
      assert (x + y)[..|x| - 1] == x[..|x| - 1];
      Updated(above, line, below, Encode(x[..|x| - 1] + y));
    }
    if y != "" {
      assert (x + y)[|x| + 1..] == y[1..];
      Updated(above, line, below, Encode(x + y[1..]));
    }
  }

  lemma Updated(above: seq<bytes>, line: bytes, below: seq<bytes>, other: bytes)
    ensures (above + [line] + below)[|above| := other] == above + [other] + below
  {}

  /** Backspace at the front of a line joins it to the one above, bytes to bytes. */
  lemma JoinAtTheFront(b: Buffer, above: seq<bytes>, prev: bytes, line: bytes, below: seq<bytes>)
    requires InBounds(b) && On(b, above + [prev], line, below, 0)
    ensures On(Apply(b, Erase), above, prev + line, below, |Runes(prev)|)
  {
    hide Runes, Encode;
    assert b.lines[|above|] == prev && b.lines[|above| + 1] == line;
    assert b.lines[..|above|] == above && b.lines[|above| + 2..] == below;
  }

  /** Every line followed by the same line ending. */
  function Terminated(lines: seq<bytes>, end: bytes): bytes {
    if lines == [] then [] else lines[0] + (end + Terminated(lines[1..], end))
  }

  /** A file is loaded as its lines, whether they end in LF, in CR LF or in CR. */
  lemma EveryLineEndingLoads(lines: seq<bytes>, end: bytes)
    requires lines != [] && (forall l | l in lines :: Clean(l)) && end in [[LF], [CR, LF], [CR]]
    ensures Load(Terminated(lines, end)) == lines
  {
    hide WithoutCr, WithoutCrLf, SplitLines, Clean;
    EndingsBecomeLf(lines, end);
    assert AllProper(lines, false);
    SplitJoined(lines);
    assert (lines + [[]])[..|lines|] == lines;
  }

  lemma {:induction false} EndingsBecomeLf(lines: seq<bytes>, end: bytes)
    requires (forall l | l in lines :: Clean(l)) && end in [[LF], [CR, LF], [CR]]
    ensures WithoutCr(WithoutCrLf(Terminated(lines, end))) == JoinLines(lines)
    ensures WithoutCrLf(Terminated(lines, end)) == [] || WithoutCrLf(Terminated(lines, end))[0] != LF || end != [CR]
  {
    hide WithoutCr, WithoutCrLf, Clean;
    if lines == [] {
      NothingNormalized();
    } else {
      var line, rest := lines[0], Terminated(lines[1..], end);
      assert line in lines && forall l | l in lines[1..] :: l in lines;
      EndingsBecomeLf(lines[1..], end);
      NoLfInFront(lines[1..], end);
      EndingBecomesLf(end, rest);
      PassesThrough(line, end + rest);
      PassesThrough(line, WithoutCrLf(end + rest));
      assert line + [LF] + JoinLines(lines[1..]) == line + ([LF] + JoinLines(lines[1..]));
      CleanFront(line, WithoutCrLf(end + rest));
    }
  }

  lemma NothingNormalized()
    ensures WithoutCr([]) == [] && WithoutCrLf([]) == []
  {}

  lemma CleanFront(line: bytes, rest: bytes)
    requires Clean(line)
    ensures line != [] ==> (line + rest)[0] != LF
    ensures line == [] ==> line + rest == rest
  {}

  lemma NoLfInFront(lines: seq<bytes>, end: bytes)
    requires forall l | l in lines :: Clean(l)
    ensures end == [CR] ==> Terminated(lines, end) == [] || Terminated(lines, end)[0] != LF
  {
    if lines != [] { assert lines[0] in lines; }
  }

  lemma EndingBecomesLf(end: bytes, rest: bytes)
    requires end in [[LF], [CR, LF], [CR]] && (end == [CR] ==> rest == [] || rest[0] != LF)
    ensures WithoutCr(WithoutCrLf(end + rest)) == [LF] + WithoutCr(WithoutCrLf(rest))
    ensures end == [CR] ==> WithoutCrLf(end + rest)[0] == CR
  {
    var s, r := end + rest, WithoutCrLf(rest);
    if end == [CR, LF] {
      assert s[2..] == rest;
      assert WithoutCrLf(s) == [LF] + r;
      assert ([LF] + r)[1..] == r;
    } else {
      assert s[1..] == rest;
      if rest != [] { assert WithoutCrLf(s) == [s[0]] + r; } else { assert WithoutCrLf(s) == s == [s[0]] + r; }
      assert ([s[0]] + r)[1..] == r;
    }
  }
}
