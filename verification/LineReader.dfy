/**
 * The readline-style editor behind the SSH prompt: a text, a cursor, history
 * browsing with a draft, a kill buffer and repeated reverse search.
 *
 * Main results: `TypingAtTheCursor` and what follows it (what the keys do to the text on
 * both sides of the cursor), `RunStaysInBounds`, `UpsThenDownsRestore`,
 * `KillThenYankRestoresExactlyWhen` and `ReverseSearchVisitsTheMatches`.
 * A `char` stands for a rune.
 */
module LineReader {
  import opened Spaces
  import opened Substrings
  import opened Wrappers
  import Utf8

  type byte = Utf8.byte
  type bytes = seq<byte>

  /** The key read from the terminal; for Tab, the names found for the word at the cursor. */
  datatype Key =
    | Home | Left | Right | End | Delete | Backspace | Redraw
    | Up | Down | ReverseSearch
    | KillToEnd | KillToStart | KillWordBack | KillWordForward | Yank
    | WordBack | WordForward
    | Tab(matches: seq<bytes>)
    | Insert(c: char)

  datatype Line = Line(
    buf: string, cursor: nat, historyIndex: nat, draft: string, kill: string,
    reverseIndex: nat, reverseQuery: string, reverseActive: bool)

  function Fresh(history: seq<string>): Line {
    Line("", 0, |history|, "", "", |history|, "", false)
  }

  // ----- word boundaries, search and prefixes -------------------------------------------

  function BackOver(buf: string, i: nat, spaces: bool): (j: nat)
    requires i <= |buf|
    ensures j <= i && (forall k | j <= k < i :: IsSpace(buf[k]) == spaces)
    ensures j > 0 ==> IsSpace(buf[j - 1]) != spaces
  {
    if i > 0 && IsSpace(buf[i - 1]) == spaces then BackOver(buf, i - 1, spaces) else i
  }

  function Over(buf: string, i: nat, spaces: bool): (j: nat)
    requires i <= |buf|
    ensures i <= j <= |buf| && (forall k | i <= k < j :: IsSpace(buf[k]) == spaces)
    ensures j < |buf| ==> IsSpace(buf[j]) != spaces
    decreases |buf| - i
  {
    if i < |buf| && IsSpace(buf[i]) == spaces then Over(buf, i + 1, spaces) else i
  }

  function PreviousWord(buf: string, cursor: nat): (j: nat)
    requires cursor <= |buf|
    ensures j <= cursor && (cursor > 0 ==> j < cursor)
  {
    BackOver(buf, BackOver(buf, cursor, true), false)
  }

  function NextWord(buf: string, cursor: nat): (j: nat)
    requires cursor <= |buf|
    ensures cursor <= j <= |buf| && (cursor < |buf| ==> cursor < j)
  {
    Over(buf, Over(buf, cursor, false), true)
  }

  method PreviousWordBoundary(buf: string, from: nat) returns (cursor: nat)
    requires from <= |buf|
    ensures cursor == PreviousWord(buf, from)
  {
    cursor := from;
    while cursor > 0 && IsSpace(buf[cursor - 1])
      invariant cursor <= from && BackOver(buf, cursor, true) == BackOver(buf, from, true)
    {
      cursor := cursor - 1;
    }
    while cursor > 0 && !IsSpace(buf[cursor - 1])
      invariant cursor <= from && BackOver(buf, cursor, false) == PreviousWord(buf, from)
    {
      cursor := cursor - 1;
    }
  }

  method NextWordBoundary(buf: string, from: nat) returns (cursor: nat)
    requires from <= |buf|
    ensures cursor == NextWord(buf, from)
  {
    cursor := from;
    while cursor < |buf| && !IsSpace(buf[cursor])
      invariant from <= cursor <= |buf| && Over(buf, cursor, false) == Over(buf, from, false)
    {
      cursor := cursor + 1;
    }
    while cursor < |buf| && IsSpace(buf[cursor])
      invariant from <= cursor <= |buf| && Over(buf, cursor, true) == NextWord(buf, from)
    {
      cursor := cursor + 1;
    }
  }

  /** The newest entry older than `from` that contains `q`. */
  function FindBack(history: seq<string>, q: string, from: nat): (r: Option<nat>)
    requires from <= |history|
    ensures r.Some? ==> r.value < from && Contains(history[r.value], q)
    ensures forall i | (if r.Some? then r.value + 1 else 0) <= i < from :: !Contains(history[i], q)
  {
    if from == 0 then None
    else if Contains(history[from - 1], q) then Some(from - 1)
    else FindBack(history, q, from - 1)
  }

  predicate PrefixOf(p: bytes, v: bytes) { p <= v }

  function Shared(p: bytes, v: bytes): bytes
    decreases |p|
  {
    if PrefixOf(p, v) || p == [] then p else Shared(p[..|p| - 1], v)
  }

  function CommonPrefix(values: seq<bytes>): bytes {
    if values == [] then []
    else if |values| == 1 then values[0]
    else Shared(CommonPrefix(values[..|values| - 1]), values[|values| - 1])
  }

  method CommonStringPrefix(values: seq<bytes>) returns (prefix: bytes)
    ensures prefix == CommonPrefix(values)
  {
    if |values| == 0 {
      return [];
    }
    prefix := values[0];
    for i := 1 to |values|
      invariant prefix == CommonPrefix(values[..i])
    {
      var v := values[i];
      assert values[..i + 1][..i] == values[..i];
      while !PrefixOf(prefix, v) && prefix != []
        invariant Shared(prefix, v) == CommonPrefix(values[..i + 1])
        decreases |prefix|
      {
        prefix := prefix[..|prefix| - 1];
      }
    }
    assert values[..|values|] == values;
  }

  lemma {:induction false} SharedIsLongest(p: bytes, v: bytes)
    ensures PrefixOf(Shared(p, v), p) && PrefixOf(Shared(p, v), v)
    ensures forall q | PrefixOf(q, p) && PrefixOf(q, v) :: PrefixOf(q, Shared(p, v))
    decreases |p|
  {
    if !PrefixOf(p, v) && p != [] {
      SharedIsLongest(p[..|p| - 1], v);
      forall q | PrefixOf(q, p) && PrefixOf(q, v) ensures PrefixOf(q, p[..|p| - 1]) {
        assert q != p;
      }
    }
  }

  ghost predicate PrefixOfAll(p: bytes, values: seq<bytes>) {
    forall v | v in values :: PrefixOf(p, v)
  }

  /** What completion inserts is the longest prefix shared by all matches. */
  lemma {:induction false} CommonPrefixIsLongest(values: seq<bytes>)
    requires values != []
    ensures PrefixOfAll(CommonPrefix(values), values)
    ensures forall p | PrefixOfAll(p, values) :: PrefixOf(p, CommonPrefix(values))
  {
    assert values[0] in values;
    if |values| > 1 {
      var front, v := values[..|values| - 1], values[|values| - 1];
      CommonPrefixIsLongest(front);
      SharedIsLongest(CommonPrefix(front), v);
      assert values == front + [v];
      forall p | PrefixOfAll(p, values) ensures PrefixOf(p, CommonPrefix(values)) {
        assert PrefixOfAll(p, front) && PrefixOf(p, v);
      }
    } else {
      assert values == [values[0]];
    }
  }

  // ----- one key ----------------------------------------------------------------------------

  predicate InBounds(l: Line, history: seq<string>) {
    l.cursor <= |l.buf| && l.historyIndex <= |history| && l.reverseIndex <= |history|
  }

  function SetBuffer(l: Line, v: string, max: nat): Line {
    var buf := if |v| > max then v[..max] else v;
    l.(buf := buf, cursor := |buf|)
  }

  function Replace(l: Line, start: nat, end: nat, text: string): Line
    requires start <= end <= |l.buf|
  {
    l.(buf := l.buf[..start] + text + l.buf[end..], cursor := start + |text|)
  }

  /** The word that the cursor is in or behind. */
  function WordAt(l: Line): (r: (nat, nat))
    requires l.cursor <= |l.buf|
    ensures r.0 <= l.cursor <= r.1 <= |l.buf|
  {
    (BackOver(l.buf, l.cursor, false), Over(l.buf, l.cursor, false))
  }

  predicate IsDirectory(name: bytes) { name != [] && name[|name| - 1] == 0x2F }

  function Complete(l: Line, matches: seq<bytes>): Line
    requires l.cursor <= |l.buf|
  {
    var (start, end) := WordAt(l);
    if matches == [] then l
    else if |matches| == 1 then
      var m := Replace(l, start, end, Utf8.Runes(matches[0]));
      if m.cursor == |m.buf| && !IsDirectory(matches[0]) then m.(buf := m.buf + " ", cursor := m.cursor + 1) else m
    else
      var prefix := CommonPrefix(matches);
      if |prefix| > |Utf8.Encode(l.buf[start..end])| then Replace(l, start, end, Utf8.Runes(prefix)) else l
  }

  function Press(line: Line, k: Key, history: seq<string>, max: nat): (r: Line)
    requires InBounds(line, history)
    ensures InBounds(r, history)
  {
    Act(if k.ReverseSearch? then line else line.(reverseActive := false), k, history, max)
  }

  function Act(l: Line, k: Key, history: seq<string>, max: nat): (r: Line)
    requires InBounds(l, history)
    ensures InBounds(r, history)
  {
    match k
    case Home => l.(cursor := 0)
    case Left => if l.cursor > 0 then l.(cursor := l.cursor - 1) else l
    case Right => if l.cursor < |l.buf| then l.(cursor := l.cursor + 1) else l
    case End => l.(cursor := |l.buf|)
    case Delete => if l.cursor < |l.buf| then l.(buf := l.buf[..l.cursor] + l.buf[l.cursor + 1..]) else l
    case Backspace =>
      if l.cursor > 0 then l.(buf := l.buf[..l.cursor - 1] + l.buf[l.cursor..], cursor := l.cursor - 1) else l
    case Redraw => l
    case Up => Older(l, history, max)
    case Down => Newer(l, history, max)
    case ReverseSearch => Searched(l, history, max)
    case KillToEnd => Killed(l, k)
    case KillToStart => Killed(l, k)
    case KillWordBack => Killed(l, k)
    case KillWordForward => Killed(l, k)
    case Yank =>
      if |l.kill| > 0 && |l.buf| + |l.kill| <= max then Replace(l, l.cursor, l.cursor, l.kill) else l
    case WordBack => l.(cursor := PreviousWord(l.buf, l.cursor))
    case WordForward => l.(cursor := NextWord(l.buf, l.cursor))
    case Tab(matches) => Complete(l, matches)
    case Insert(c) =>
      if |l.buf| < max then l.(buf := l.buf[..l.cursor] + [c] + l.buf[l.cursor..], cursor := l.cursor + 1) else l
  }

  function Older(l: Line, history: seq<string>, max: nat): (r: Line)
    requires InBounds(l, history)
    ensures InBounds(r, history)
  {
    if history == [] then l else
    var m := if l.historyIndex == |history| then l.(draft := l.buf) else l;
    if m.historyIndex > 0
    then SetBuffer(m.(historyIndex := m.historyIndex - 1), history[m.historyIndex - 1], max) else m
  }

  function Newer(l: Line, history: seq<string>, max: nat): (r: Line)
    requires InBounds(l, history)
    ensures InBounds(r, history)
  {
    if l.historyIndex + 1 < |history|
    then SetBuffer(l.(historyIndex := l.historyIndex + 1), history[l.historyIndex + 1], max)
    else if l.historyIndex + 1 == |history|
    then l.(historyIndex := |history|, buf := l.draft, cursor := |l.draft|)
    else l
  }

  function Searched(l: Line, history: seq<string>, max: nat): (r: Line)
    requires InBounds(l, history)
    ensures InBounds(r, history)
  {
    var m := if l.reverseActive then l
      else l.(reverseQuery := l.buf, reverseIndex := |history|, reverseActive := true);
    match FindBack(history, m.reverseQuery, m.reverseIndex)
    case Some(i) => SetBuffer(m.(reverseIndex := i, historyIndex := i), history[i], max)
    case None => m
  }

  predicate IsKill(k: Key) { k.KillToEnd? || k.KillToStart? || k.KillWordBack? || k.KillWordForward? }

  /** What a kill takes out. */
  function KillRange(l: Line, k: Key): (r: (nat, nat))
    requires l.cursor <= |l.buf| && IsKill(k)
    ensures r.0 <= l.cursor <= r.1 <= |l.buf|
  {
    if k.KillToEnd? then (l.cursor, |l.buf|)
    else if k.KillToStart? then (0, l.cursor)
    else if k.KillWordBack? then (PreviousWord(l.buf, l.cursor), l.cursor)
    else (l.cursor, NextWord(l.buf, l.cursor))
  }

  function Killed(l: Line, k: Key): (r: Line)
    requires l.cursor <= |l.buf| && IsKill(k)
    ensures r.cursor <= |r.buf| && r.historyIndex == l.historyIndex && r.reverseIndex == l.reverseIndex
  {
    var (i, j) := KillRange(l, k);
    if i == j then l else l.(kill := l.buf[i..j], buf := l.buf[..i] + l.buf[j..], cursor := i)
  }

  /** Every other key ends a reverse search first. */
  lemma PressIgnoresSearch(l: Line, k: Key, history: seq<string>, max: nat)
    requires InBounds(l, history)
    ensures !k.ReverseSearch? ==> Press(l, k, history, max) == Press(l.(reverseActive := false), k, history, max)
    ensures k.Tab? ==> Press(l, k, history, max) == Complete(l.(reverseActive := false), k.matches)
  {
    hide Act;
    TabCompletes(l.(reverseActive := false), k, history, max);
  }

  lemma TabCompletes(l: Line, k: Key, history: seq<string>, max: nat)
    requires InBounds(l, history)
    ensures k.Tab? ==> Act(l, k, history, max) == Complete(l, k.matches)
  {
    hide Complete, FindBack, PreviousWord, NextWord;
  }

  // ----- the imperative reader ---------------------------------------------------------------

  class VirtualSSHLineReader {
    var buf: string
    var cursor: nat
    var historyIndex: nat
    var draft: string
    var killBuffer: string
    var reverseIndex: nat
    var reverseQuery: string
    var reverseActive: bool
    const history: seq<string>
    const max: nat

    function View(): Line
      reads this
    {
      Line(buf, cursor, historyIndex, draft, killBuffer, reverseIndex, reverseQuery, reverseActive)
    }

    constructor (history: seq<string>, max: nat)
      ensures this.history == history && this.max == max && View() == Fresh(history)
      ensures buf == "" && killBuffer == "" && historyIndex == |history| && !reverseActive
    {
      this.history, this.max := history, max;
      buf, cursor, historyIndex, draft, killBuffer := "", 0, |history|, "", "";
      reverseIndex, reverseQuery, reverseActive := |history|, "", false;
    }

    method SetBufferTo(v: string)
      modifies this`buf, this`cursor
      ensures View() == SetBuffer(old(View()), v, max)
    {
      buf := v;
      if |buf| > max {
        buf := buf[..max];
      }
      cursor := |buf|;
    }

    /** One round of the key loop. */
    method HandleKey(k: Key)
      requires InBounds(View(), history)
      modifies this
      ensures View() == Press(old(View()), k, history, max)
    {
      hide Press;
      PressIgnoresSearch(View(), k, history, max);
      if !k.ReverseSearch? {
        reverseActive := false;
      }
      if k.Up? {
        HistoryPrevious();
      } else if k.Down? {
        HistoryNext();
      } else if k.ReverseSearch? {
        SearchBack();
      } else if k.Tab? {
        CompleteWith(k.matches);
      } else if k.Insert? || k.Delete? || k.Backspace? || k.Yank? {
        Edit(k);
      } else if IsKill(k) {
        Kill(k);
      } else {
        MoveCursor(k);
      }
    }

    method MoveCursor(k: Key)
      requires InBounds(View(), history) && !reverseActive
      requires k.Home? || k.Left? || k.Right? || k.End? || k.Redraw? || k.WordBack? || k.WordForward?
      modifies this`cursor
      ensures View() == Press(old(View()), k, history, max)
    {
      match k {
        case Home => cursor := 0;
        case Left => if cursor > 0 { cursor := cursor - 1; }
        case Right => if cursor < |buf| { cursor := cursor + 1; }
        case End => cursor := |buf|;
        case WordBack => cursor := PreviousWordBoundary(buf, cursor);
        case WordForward => cursor := NextWordBoundary(buf, cursor);
        case Redraw =>
      }
    }

    method Edit(k: Key)
      requires InBounds(View(), history) && !reverseActive
      requires k.Insert? || k.Delete? || k.Backspace? || k.Yank?
      modifies this`buf, this`cursor
      ensures View() == Press(old(View()), k, history, max)
    {
      match k {
        case Delete => if cursor < |buf| { buf := buf[..cursor] + buf[cursor + 1..]; }
        case Backspace =>
          if cursor > 0 {
            buf := buf[..cursor - 1] + buf[cursor..];
            cursor := cursor - 1;
          }
        case Yank =>
          if |killBuffer| > 0 && |buf| + |killBuffer| <= max {
            var left, right := buf[..cursor], buf[cursor..];
            buf := left + killBuffer;
            cursor := |buf|;
            buf := buf + right;
          }
        case Insert(c) =>
          if |buf| < max {
            buf := buf[..cursor] + [c] + buf[cursor..];
            cursor := cursor + 1;
          }
      }
    }

    method Kill(k: Key)
      requires InBounds(View(), history) && !reverseActive
      requires IsKill(k)
      modifies this`buf, this`cursor, this`killBuffer
      ensures View() == Press(old(View()), k, history, max)
    {
      match k {
        case KillToEnd => if cursor < |buf| { CutOut(cursor, |buf|); }
        case KillToStart => if cursor > 0 { CutOut(0, cursor); }
        case KillWordBack =>
          if cursor > 0 {
            var start := PreviousWordBoundary(buf, cursor);
            CutOut(start, cursor);
          }
        case KillWordForward =>
          var end := NextWordBoundary(buf, cursor);
          if end > cursor { CutOut(cursor, end); }
      }
    }

    /** What the four kills have in common. */
    method CutOut(start: nat, end: nat)
      requires start <= cursor <= end <= |buf|
      modifies this`buf, this`cursor, this`killBuffer
      ensures View() == old(View()).(
        kill := old(buf)[start..end], buf := old(buf)[..start] + old(buf)[end..], cursor := start)
    {
      killBuffer := buf[start..end];
      buf := buf[..start] + buf[end..];
      cursor := start;
    }

    method HistoryPrevious()
      requires InBounds(View(), history) && !reverseActive
      modifies this`buf, this`cursor, this`historyIndex, this`draft
      ensures View() == Press(old(View()), Up, history, max)
    {
      if |history| == 0 {
        return;
      }
      if historyIndex == |history| {
        draft := buf;
      }
      if historyIndex > 0 {
        historyIndex := historyIndex - 1;
        SetBufferTo(history[historyIndex]);
      }
    }

    method HistoryNext()
      requires InBounds(View(), history) && !reverseActive
      modifies this`buf, this`cursor, this`historyIndex
      ensures View() == Press(old(View()), Down, history, max)
    {
      if historyIndex < |history| - 1 {
        historyIndex := historyIndex + 1;
        SetBufferTo(history[historyIndex]);
      } else if historyIndex == |history| - 1 {
        historyIndex := |history|;
        buf := draft;
        cursor := |buf|;
      }
    }

    /** The newest entry before `reverseIndex` that contains the query, or -1. */
    method FindOlder() returns (found: int)
      requires reverseIndex <= |history|
      ensures FindBack(history, reverseQuery, reverseIndex) == if found >= 0 then Some(found) else None
    {
      hide Contains;
      found := -1;
      var i := reverseIndex - 1;
      while i >= 0
        invariant -1 <= i < reverseIndex && found == -1
        invariant FindBack(history, reverseQuery, i + 1) == FindBack(history, reverseQuery, reverseIndex)
      {
        if Contains(history[i], reverseQuery) {
          found := i;
          break;
        }
        i := i - 1;
      }
    }

    method SearchBack()
      requires InBounds(View(), history)
      modifies this`buf, this`cursor, this`historyIndex, this`reverseIndex, this`reverseQuery, this`reverseActive
      ensures View() == Press(old(View()), ReverseSearch, history, max)
    {
      hide FindBack, PreviousWord, NextWord, Complete;
      if !reverseActive {
        reverseQuery := buf;
        reverseIndex := |history|;
        reverseActive := true;
      }
      var found := FindOlder();
      if found >= 0 {
        reverseIndex := found;
        historyIndex := found;
        SetBufferTo(history[found]);
      }
    }

    /** The bounds of the word, as completion finds them. */
    method FindWord() returns (start: nat, end: nat)
      requires cursor <= |buf|
      ensures (start, end) == WordAt(View())
    {
      start, end := cursor, cursor;
      while start > 0 && !IsSpace(buf[start - 1])
        invariant start <= cursor && BackOver(buf, start, false) == BackOver(buf, cursor, false)
      {
        start := start - 1;
      }
      while end < |buf| && !IsSpace(buf[end])
        invariant cursor <= end <= |buf| && Over(buf, end, false) == Over(buf, cursor, false)
      {
        end := end + 1;
      }
    }

    method CompleteWith(matches: seq<bytes>)
      requires cursor <= |buf|
      modifies this`buf, this`cursor
      ensures View() == Complete(old(View()), matches)
    {
      hide IsSpace, Utf8.Runes, Utf8.Encode, CommonPrefix, BackOver, Over, WordAt;
      var start, end := FindWord();
      if |matches| == 0 {
        return;
      }
      if |matches| == 1 {
        ReplaceWord(start, end, Utf8.Runes(matches[0]));
        if cursor == |buf| && !IsDirectory(matches[0]) {
          buf := buf + " ";
          cursor := cursor + 1;
        }
        return;
      }
      var prefix := CommonStringPrefix(matches);
      if |prefix| > |Utf8.Encode(buf[start..end])| {
        ReplaceWord(start, end, Utf8.Runes(prefix));
      }
    }

    method ReplaceWord(start: nat, end: nat, repl: string)
      requires start <= end <= |buf|
      modifies this`buf, this`cursor
      ensures View() == Replace(old(View()), start, end, repl)
    {
      var left, right := buf[..start], buf[end..];
      buf := left + repl;
      cursor := |left| + |repl|;
      buf := buf + right;
    }
  }

  // ----- whole sessions -------------------------------------------------------------------------

  ghost predicate Session(ls: seq<Line>, ks: seq<Key>, history: seq<string>, max: nat) {
    && |ls| == |ks| + 1 && ls[0] == Fresh(history)
    && forall i | 0 <= i < |ks| :: InBounds(ls[i], history) ==> ls[i + 1] == Press(ls[i], ks[i], history, max)
  }

  /** After every key cursor and history index are in range; without completion the text fits the limit. */
  lemma {:induction false} RunStaysInBounds(ls: seq<Line>, ks: seq<Key>, history: seq<string>, max: nat, n: nat)
    requires Session(ls, ks, history, max) && n <= |ks|
    ensures InBounds(ls[n], history)
    ensures (forall i | 0 <= i < n :: !ks[i].Tab?) ==> |ls[n].buf| <= max && |ls[n].draft| <= max
  {
    hide Press;
    if n > 0 {
      RunStaysInBounds(ls, ks, history, max, n - 1);
      if !ks[n - 1].Tab? && |ls[n - 1].buf| <= max && |ls[n - 1].draft| <= max {
        PressFits(ls[n - 1], ks[n - 1], history, max);
      }
    }
  }

  lemma PressFits(l: Line, k: Key, history: seq<string>, max: nat)
    requires InBounds(l, history) && !k.Tab? && |l.buf| <= max && |l.draft| <= max
    ensures |Press(l, k, history, max).buf| <= max && |Press(l, k, history, max).draft| <= max
  {
    hide FindBack, PreviousWord, NextWord;
  }

  function Pressed(l: Line, k: Key, times: nat, history: seq<string>, max: nat): (r: Line)
    requires InBounds(l, history) && !k.Tab?
    ensures InBounds(r, history)
  {
    if times == 0 then l else Press(Pressed(l, k, times - 1, history, max), k, history, max)
  }

  lemma {:induction false} UpsKeepDraft(l: Line, n: nat, history: seq<string>, max: nat)
    requires InBounds(l, history) && l.historyIndex == |history|
    ensures var r := Pressed(l, Up, n, history, max);
      && r.historyIndex == (if n <= |history| then |history| - n else 0)
      && (if n == 0 || history == [] then r.buf == l.buf else r.draft == l.buf)
  {
    if n > 0 { UpsKeepDraft(l, n - 1, history, max); }
  }

  lemma {:induction false} DownsReachDraft(l: Line, n: nat, history: seq<string>, max: nat)
    requires InBounds(l, history)
    ensures var r := Pressed(l, Down, n, history, max);
      && r.historyIndex == (if l.historyIndex + n <= |history| then l.historyIndex + n else |history|)
      && r.draft == l.draft
      && (l.historyIndex == |history| ==> r.buf == l.buf)
      && (l.historyIndex < |history| <= l.historyIndex + n ==> r.buf == l.draft)
  {
    if n > 0 { DownsReachDraft(l, n - 1, history, max); }
  }

  /** Browsing back any number of entries and forward as many restores the typed text. */
  lemma UpsThenDownsRestore(l: Line, k: nat, history: seq<string>, max: nat)
    requires InBounds(l, history) && l.historyIndex == |history|
    ensures var r := Pressed(Pressed(l, Up, k, history, max), Down, k, history, max);
      r.buf == l.buf && r.historyIndex == |history|
  {
    UpsKeepDraft(l, k, history, max);
    DownsReachDraft(Pressed(l, Up, k, history, max), k, history, max);
  }

  /** The key has something to kill. */
  predicate Kills(l: Line, k: Key) {
    match k
    case KillToEnd => l.cursor < |l.buf|
    case KillWordForward => l.cursor < |l.buf|
    case KillToStart => l.cursor > 0
    case KillWordBack => l.cursor > 0
    case _ => false
  }

  /**
   * Killing and yanking gives the text back iff something was killed and the text
   * fitted the limit - or nothing was killed and there was nothing to yank.
   */
  lemma KillThenYankRestoresExactlyWhen(l: Line, k: Key, history: seq<string>, max: nat)
    requires InBounds(l, history) && IsKill(k)
    ensures Press(Press(l, k, history, max), Yank, history, max).buf == l.buf <==>
      if Kills(l, k) then |l.buf| <= max else l.kill == "" || |l.buf| + |l.kill| > max
  {
    hide Press;
    KillKeepsText(l, k, history, max);
    YankMeaning(Press(l, k, history, max), history, max);
  }

  /** A kill splits the text at the cursor it leaves; with nothing to kill it keeps everything. */
  lemma KillKeepsText(l: Line, k: Key, history: seq<string>, max: nat)
    requires InBounds(l, history) && IsKill(k)
    ensures var m := Press(l, k, history, max);
      if Kills(l, k) then m.kill != "" && l.buf == m.buf[..m.cursor] + m.kill + m.buf[m.cursor..]
      else m.buf == l.buf && m.kill == l.kill
  {
    hide Killed;
    KilledSplits(l.(reverseActive := false), k);
  }

  lemma KilledSplits(l: Line, k: Key)
    requires l.cursor <= |l.buf| && IsKill(k)
    ensures var m := Killed(l, k);
      if Kills(l, k) then m.kill != "" && l.buf == m.buf[..m.cursor] + m.kill + m.buf[m.cursor..]
      else m.buf == l.buf && m.kill == l.kill
  {
    hide PreviousWord, NextWord;
    var (i, j) := KillRange(l, k);
    CutText(l.buf, i, j);
  }

  lemma CutText(buf: string, i: nat, j: nat)
    requires i <= j <= |buf|
    ensures var rest := buf[..i] + buf[j..]; buf == rest[..i] + buf[i..j] + rest[i..]
  {
    var rest := buf[..i] + buf[j..];
    assert rest[..i] == buf[..i] && rest[i..] == buf[j..];
  }

  lemma YankMeaning(m: Line, history: seq<string>, max: nat)
    requires InBounds(m, history)
    ensures var r := Press(m, Yank, history, max);
      && (m.kill != "" && |m.buf| + |m.kill| <= max ==>
            |r.buf| > |m.buf| && r.buf == m.buf[..m.cursor] + m.kill + m.buf[m.cursor..])
      && (m.kill == "" || |m.buf| + |m.kill| > max ==> r.buf == m.buf)
  {}

  /** All matching entries older than `n`, newest first. */
  function Matches(history: seq<string>, q: string, n: nat): seq<nat>
    requires n <= |history|
  {
    if n == 0 then []
    else (if Contains(history[n - 1], q) then [n - 1] else []) + Matches(history, q, n - 1)
  }

  /** The list is complete, strictly descending, and holds nothing else. */
  lemma {:induction false} MatchesMeaning(history: seq<string>, q: string, n: nat)
    requires n <= |history|
    ensures forall i :: i in Matches(history, q, n) <==> 0 <= i < n && Contains(history[i], q)
    ensures forall a, b | 0 <= a < b < |Matches(history, q, n)| :: Matches(history, q, n)[a] > Matches(history, q, n)[b]
  {
    if n > 0 {
      MatchesMeaning(history, q, n - 1);
      var older := Matches(history, q, n - 1);
      assert forall b | 0 <= b < |older| :: older[b] in older;
    }
  }

  lemma {:induction false} FindBackIsFirst(history: seq<string>, q: string, n: nat)
    requires n <= |history|
    ensures var ms := Matches(history, q, n);
      if ms == [] then FindBack(history, q, n) == None
      else FindBack(history, q, n) == Some(ms[0]) && ms[0] < n && Matches(history, q, ms[0]) == ms[1..]
  {
    if n > 0 && !Contains(history[n - 1], q) {
      FindBackIsFirst(history, q, n - 1);
      assert [] + Matches(history, q, n - 1) == Matches(history, q, n - 1);
    }
  }

  /** Where the search stands after `j` presses, `ms` being the matches. */
  ghost predicate Searching(r: Line, l: Line, j: nat, ms: seq<nat>, history: seq<string>, max: nat)
    requires j > 0 && InBounds(r, history)
  {
    r.reverseActive && r.reverseQuery == l.buf &&
    if ms == [] then r.buf == l.buf && r.historyIndex == l.historyIndex && r.reverseIndex == |history|
    else
      var seen := if j <= |ms| then j else |ms|;
      && ms[seen - 1] < |history| && r.historyIndex == r.reverseIndex == ms[seen - 1]
      && r.buf == SetBuffer(l, history[ms[seen - 1]], max).buf
      && Matches(history, l.buf, r.reverseIndex) == ms[seen..]
  }

  lemma SearchStep(r: Line, history: seq<string>, max: nat)
    requires InBounds(r, history)
    ensures var q := if r.reverseActive then r.reverseQuery else r.buf;
      var from := if r.reverseActive then r.reverseIndex else |history|;
      var s := Press(r, ReverseSearch, history, max);
      && s.reverseActive && s.reverseQuery == q
      && match FindBack(history, q, from)
         case None => s.buf == r.buf && s.historyIndex == r.historyIndex && s.reverseIndex == from
         case Some(i) => s.historyIndex == s.reverseIndex == i && s.buf == SetBuffer(r, history[i], max).buf
  {}

  /**
   * Pressing Ctrl+R again and again visits exactly the matching entries, newest
   * first and each once, and then stays on the oldest.
   */
  lemma {:induction false} ReverseSearchVisitsTheMatches(l: Line, j: nat, history: seq<string>, max: nat)
    requires InBounds(l, history) && !l.reverseActive && j > 0
    ensures var r := Pressed(l, ReverseSearch, j, history, max);
      Searching(r, l, j, Matches(history, l.buf, |history|), history, max)
  {
    hide Press, FindBack, Matches;
    if j == 1 {
      FindBackIsFirst(history, l.buf, |history|);
      SearchStep(l, history, max);
      assert Pressed(l, ReverseSearch, 0, history, max) == l;
    } else {
      var r := Pressed(l, ReverseSearch, j - 1, history, max);
      ReverseSearchVisitsTheMatches(l, j - 1, history, max);
      FindBackIsFirst(history, l.buf, r.reverseIndex);
      SearchStep(r, history, max);
    }
  }

  /** With nothing behind the cursor, Ctrl+K and Ctrl+Y put in what an earlier key had killed. */
  lemma OlderKillIsYanked(history: seq<string>)
    ensures var l := Line("ab", 2, |history|, "", "x", |history|, "", false);
      Press(Press(l, KillToEnd, history, 10), Yank, history, 10).buf == "abx"
  {
    var l := Line("ab", 2, |history|, "", "x", |history|, "", false);
    assert l.buf[..2] + "x" + l.buf[2..] == "abx";
  }

  // ----- keys, by the text on both sides of the cursor -------------------------------------------

  /** The text is `a` and `b`, with the cursor between them. */
  predicate Around(l: Line, a: string, b: string) { l.buf == a + b && l.cursor == |a| }

  lemma TypingAtTheCursor(l: Line, a: string, b: string, c: char, history: seq<string>, max: nat)
    requires InBounds(l, history) && Around(l, a, b)
    ensures Around(Press(l, Insert(c), history, max), if |a + b| < max then a + [c] else a, b)
    ensures Around(Press(l, Yank, history, max), if |a + b| + |l.kill| <= max then a + l.kill else a, b)
  {
    hide FindBack, PreviousWord, NextWord, Complete, Killed;
    assert l.buf[..|a|] == a && l.buf[|a|..] == b;
  }

  /** One rune before the cursor, or one behind it. */
  lemma DeletingAtTheCursor(l: Line, a: string, c: char, b: string, history: seq<string>, max: nat)
    requires InBounds(l, history)
    ensures Around(l, a + [c], b) ==> Around(Press(l, Backspace, history, max), a, b)
    ensures Around(l, a, [c] + b) ==> Around(Press(l, Delete, history, max), a, b)
    ensures Around(l, "", b) ==> Around(Press(l, Backspace, history, max), "", b)
    ensures Around(l, a, "") ==> Around(Press(l, Delete, history, max), a, "")
  {
    hide FindBack, PreviousWord, NextWord, Complete, Killed;
    if Around(l, a + [c], b) { assert l.buf[..|a|] == a && l.buf[|a| + 1..] == b; }
    if Around(l, a, [c] + b) { assert l.buf[..|a|] == a && l.buf[|a| + 1..] == b; }
  }

  lemma MovingTheCursor(l: Line, a: string, c: char, b: string, history: seq<string>, max: nat)
    requires InBounds(l, history)
    ensures Around(l, a + [c], b) ==> Around(Press(l, Left, history, max), a, [c] + b)
    ensures Around(l, a, [c] + b) ==> Around(Press(l, Right, history, max), a + [c], b)
    ensures Around(l, "", b) ==> Around(Press(l, Left, history, max), "", b)
    ensures Around(l, a, "") ==> Around(Press(l, Right, history, max), a, "")
    ensures Around(l, a, b) ==>
      Around(Press(l, Home, history, max), "", a + b) && Around(Press(l, End, history, max), a + b, "")
  {
    hide FindBack, PreviousWord, NextWord, Complete, Killed;
    assert a + [c] + b == a + ([c] + b) && "" + (a + b) == a + b == a + b + "";
  }

  lemma KillingAtTheCursor(l: Line, a: string, b: string, history: seq<string>, max: nat)
    requires InBounds(l, history) && Around(l, a, b)
    ensures var m := Press(l, KillToEnd, history, max); Around(m, a, "") && m.kill == if b == "" then l.kill else b
    ensures var m := Press(l, KillToStart, history, max); Around(m, "", b) && m.kill == if a == "" then l.kill else a
  {
    hide FindBack, PreviousWord, NextWord, Complete;
    assert l.buf[..|a|] == a && l.buf[|a|..] == b && a + "" == a && "" + b == b;
  }

  /** Cutting out `w` between `a` and `b`. */
  lemma KilledParts(l: Line, k: Key, a: string, w: string, b: string, history: seq<string>, max: nat)
    requires InBounds(l, history) && IsKill(k) && l.buf == a + w + b && KillRange(l, k) == (|a|, |a| + |w|)
    ensures var m := Press(l, k, history, max);
      && m.buf == a + b && m.kill == (if w == "" then l.kill else w)
      && m.cursor == if w == "" then l.cursor else |a|
  {
    hide FindBack, PreviousWord, NextWord, Complete, KillRange;
    KillRangeIgnoresSearch(l, k);
    assert l.buf[..|a|] == a && l.buf[|a|..|a| + |w|] == w && l.buf[|a| + |w|..] == b;
    if w == "" { assert a + w + b == a + b; }
  }

  lemma KillRangeIgnoresSearch(l: Line, k: Key)
    requires l.cursor <= |l.buf| && IsKill(k)
    ensures KillRange(l.(reverseActive := false), k) == KillRange(l, k)
  {}

  lemma WordMoves(l: Line, history: seq<string>, max: nat)
    requires InBounds(l, history)
    ensures var m := Press(l, WordBack, history, max); m.buf == l.buf && m.cursor == PreviousWord(l.buf, l.cursor)
    ensures var m := Press(l, WordForward, history, max); m.buf == l.buf && m.cursor == NextWord(l.buf, l.cursor)
  {
    hide FindBack, PreviousWord, NextWord, Complete, Killed;
  }

  lemma BackOverIs(buf: string, i: nat, spaces: bool, j: nat)
    requires j <= i <= |buf| && (forall k | j <= k < i :: IsSpace(buf[k]) == spaces)
    requires j > 0 ==> IsSpace(buf[j - 1]) != spaces
    ensures BackOver(buf, i, spaces) == j
  {
    hide IsSpace;
  }

  lemma OverIs(buf: string, i: nat, spaces: bool, j: nat)
    requires i <= j <= |buf| && (forall k | i <= k < j :: IsSpace(buf[k]) == spaces)
    requires j < |buf| ==> IsSpace(buf[j]) != spaces
    ensures Over(buf, i, spaces) == j
  {
    hide IsSpace;
  }

  predicate Spaced(s: string) { forall c | c in s :: IsSpace(c) }
  predicate Solid(s: string) { forall c | c in s :: !IsSpace(c) }

  /** Before the cursor: a word and the white space behind it, with nothing or white space before the word. */
  lemma WordKeysBack(l: Line, p: string, w: string, gap: string, b: string, history: seq<string>, max: nat)
    requires InBounds(l, history) && Around(l, p + w + gap, b)
    requires Solid(w) && Spaced(gap) && (p != "" ==> w != "" && IsSpace(p[|p| - 1]))
    ensures Around(Press(l, WordBack, history, max), p, w + gap + b)
    ensures Around(Press(l, KillWordBack, history, max), p, b)
    ensures Press(l, KillWordBack, history, max).kill == if w + gap == "" then l.kill else w + gap
  {
    hide Press;
    WordBefore(l.buf, p, w, gap, b);
    WordMoves(l, history, max);
    assert p + (w + gap) + b == l.buf == p + (w + gap + b);
    KilledParts(l, KillWordBack, p, w + gap, b, history, max);
  }

  lemma WordBefore(buf: string, p: string, w: string, gap: string, b: string)
    requires buf == p + w + gap + b && Solid(w) && Spaced(gap) && (p != "" ==> w != "" && IsSpace(p[|p| - 1]))
    ensures PreviousWord(buf, |p + w + gap|) == |p|
  {
    hide IsSpace, BackOver;
    var n, m := |p + w + gap|, if w == "" then 0 else |p + w|;
    assert forall i | |p + w| <= i < n :: buf[i] == gap[i - |p + w|] && gap[i - |p + w|] in gap;
    assert forall i | |p| <= i < |p + w| :: buf[i] == w[i - |p|] && w[i - |p|] in w;
    assert w != "" ==> buf[|p + w| - 1] == w[|w| - 1];
    BackOverIs(buf, n, true, m);
    assert p != "" ==> buf[|p| - 1] == p[|p| - 1];
    BackOverIs(buf, m, false, |p|);
  }

  /** Behind the cursor: a word and the white space behind it, and then nothing or another word. */
  lemma WordKeysForward(l: Line, a: string, w: string, gap: string, q: string, history: seq<string>, max: nat)
    requires InBounds(l, history) && Around(l, a, w + gap + q)
    requires Solid(w) && Spaced(gap) && (q != "" ==> gap != "" && !IsSpace(q[0]))
    ensures Around(Press(l, WordForward, history, max), a + w + gap, q)
    ensures Around(Press(l, KillWordForward, history, max), a, q)
    ensures Press(l, KillWordForward, history, max).kill == if w + gap == "" then l.kill else w + gap
  {
    hide Press;
    WordBehind(l.buf, a, w, gap, q);
    WordMoves(l, history, max);
    assert a + (w + gap) + q == l.buf == a + w + gap + q;
    KilledParts(l, KillWordForward, a, w + gap, q, history, max);
  }

  lemma WordBehind(buf: string, a: string, w: string, gap: string, q: string)
    requires buf == a + (w + gap + q) && Solid(w) && Spaced(gap) && (q != "" ==> gap != "" && !IsSpace(q[0]))
    ensures NextWord(buf, |a|) == |a + w + gap|
  {
    hide IsSpace, Over;
    var n := |a + w|;
    assert forall i | |a| <= i < n :: buf[i] == w[i - |a|] && w[i - |a|] in w;
    assert forall i | n <= i < n + |gap| :: buf[i] == gap[i - n] && gap[i - n] in gap;
    assert gap != "" ==> buf[n] == gap[0] && gap[0] in gap;
    assert q != "" ==> buf[n + |gap|] == q[0];
    OverIs(buf, |a|, false, n);
    OverIs(buf, n, true, n + |gap|);
  }

  /** Completion replaces the word at the cursor, `v + w`, by the one match. */
  lemma OneMatchCompletes(l: Line, p: string, v: string, w: string, q: string, name: bytes,
      history: seq<string>, max: nat)
    requires InBounds(l, history) && Around(l, p + v, w + q) && Solid(v) && Solid(w)
    requires (p != "" ==> IsSpace(p[|p| - 1])) && (q != "" ==> IsSpace(q[0]))
    ensures var r := Press(l, Tab([name]), history, max);
      if q == "" && (name == [] || name[|name| - 1] != 0x2F)
      then Around(r, p + Utf8.Runes(name) + " ", "") else Around(r, p + Utf8.Runes(name), q)
  {
    hide Press, WordAt, Utf8.Runes;
    PressIgnoresSearch(l, Tab([name]), history, max);
    var m := l.(reverseActive := false);
    WordIs(m, p, v, w, q);
    assert m.buf[..|p|] == p && m.buf[|p + v + w|..] == q;
    assert p + Utf8.Runes(name) + "" == p + Utf8.Runes(name);
  }

  /** Several matches replace it by what they share, if that is more bytes. */
  lemma ManyMatchesComplete(l: Line, p: string, v: string, w: string, q: string, names: seq<bytes>,
      history: seq<string>, max: nat)
    requires InBounds(l, history) && Around(l, p + v, w + q) && Solid(v) && Solid(w)
    requires (p != "" ==> IsSpace(p[|p| - 1])) && (q != "" ==> IsSpace(q[0])) && |names| >= 2
    ensures var r, shared := Press(l, Tab(names), history, max), CommonPrefix(names);
      if |shared| > |Utf8.Encode(v + w)| then Around(r, p + Utf8.Runes(shared), q) else Around(r, p + v, w + q)
  {
    hide Press, Complete, WordAt, IsSpace, Utf8.Runes, Utf8.Encode, CommonPrefix;
    PressIgnoresSearch(l, Tab(names), history, max);
    var m := l.(reverseActive := false);
    WordIs(m, p, v, w, q);
    assert p + v + w == p + (v + w);
    assert m.buf == p + (v + w) + q;
    SharedIsInserted(m, names, p, v + w, q);
  }

  lemma SharedIsInserted(l: Line, names: seq<bytes>, p: string, word: string, q: string)
    requires l.buf == p + word + q && l.cursor <= |l.buf| && |names| >= 2 && WordAt(l) == (|p|, |p + word|)
    ensures var shared := CommonPrefix(names);
      if |shared| > |Utf8.Encode(word)| then Around(Complete(l, names), p + Utf8.Runes(shared), q)
      else Complete(l, names) == l
  {
    hide WordAt, IsSpace, Utf8.Runes, Utf8.Encode, CommonPrefix, Replace, Around;
    assert l.buf[|p|..|p + word|] == word;
    Replaced(l, p, word, q, Utf8.Runes(CommonPrefix(names)));
  }

  lemma Replaced(l: Line, p: string, word: string, q: string, text: string)
    requires l.buf == p + word + q
    ensures Around(Replace(l, |p|, |p + word|, text), p + text, q)
  {
    assert l.buf[..|p|] == p && l.buf[|p + word|..] == q;
  }

  lemma WordIs(l: Line, p: string, v: string, w: string, q: string)
    requires Around(l, p + v, w + q) && Solid(v) && Solid(w)
    requires (p != "" ==> IsSpace(p[|p| - 1])) && (q != "" ==> IsSpace(q[0]))
    ensures WordAt(l) == (|p|, |p + v + w|)
  {
    hide IsSpace, BackOver, Over;
    var buf, n := l.buf, |p + v|;
    assert forall i | |p| <= i < n :: buf[i] == v[i - |p|] && v[i - |p|] in v;
    assert forall i | n <= i < n + |w| :: buf[i] == w[i - n] && w[i - n] in w;
    assert p != "" ==> buf[|p| - 1] == p[|p| - 1];
    assert q != "" ==> buf[n + |w|] == q[0];
    BackOverIs(buf, n, false, |p|);
    OverIs(buf, n, false, n + |w|);
  }

  /** What history browsing shows of an entry. */
  function Cut(entry: string, max: nat): string { if |entry| > max then entry[..max] else entry }

  /** The n-th Up from the typed text shows the n-th entry from the end of history, and stays on the first. */
  lemma {:induction false} UpsShowHistory(l: Line, n: nat, history: seq<string>, max: nat)
    requires InBounds(l, history) && l.historyIndex == |history| && history != [] && n > 0
    ensures var r := Pressed(l, Up, n, history, max);
      r.buf == Cut(history[if n <= |history| then |history| - n else 0], max) && r.cursor == |r.buf|
  {
    hide Press;
    UpsKeepDraft(l, n - 1, history, max);
    UpShows(Pressed(l, Up, n - 1, history, max), history, max);
    if n > |history| { UpsShowHistory(l, n - 1, history, max); }
  }

  lemma UpShows(l: Line, history: seq<string>, max: nat)
    requires InBounds(l, history) && history != []
    ensures var r := Press(l, Up, history, max);
      if l.historyIndex > 0 then r.buf == Cut(history[l.historyIndex - 1], max) && r.cursor == |r.buf|
      else r.buf == l.buf && r.cursor == l.cursor
  {
    hide FindBack, PreviousWord, NextWord, Complete;
  }

  /** And each Down the entry after the one shown, up to the typed text. */
  lemma DownShowsNext(l: Line, history: seq<string>, max: nat)
    requires InBounds(l, history) && l.historyIndex < |history|
    ensures var r := Press(l, Down, history, max);
      && r.historyIndex == l.historyIndex + 1 && r.cursor == |r.buf|
      && r.buf == if l.historyIndex + 1 < |history| then Cut(history[l.historyIndex + 1], max) else l.draft
  {
    hide FindBack, PreviousWord, NextWord, Complete;
  }
}
