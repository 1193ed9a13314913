/**
 * Where `splitOutsideQuotes` cuts, on characters: a line written from pieces of
 * plain text, escapes, quoted text and bracketed text, joined by a delimiter, is cut
 * into exactly those pieces (`WrittenPiecesAreCut`).
 */
module Pieces {
  import opened Split
  import opened Wrappers
  import Utf8

  /**
   * A quoted text holds neither its own quote nor a backslash; a bracketed one may
   * hold anything but a lone bracket.
   */
  datatype Text =
    | End
    | Plain(c: char, rest: Text)
    | Backslashed(c: char, rest: Text)
    | Quoted(double: bool, s: string, rest: Text)
    | Grouped(round: bool, inner: Text, rest: Text)

  function Mark(double: bool): char { if double then '"' else '\'' }

  function Written(t: Text): string {
    match t
    case End => ""
    case Plain(c, rest) => [c] + Written(rest)
    case Backslashed(c, rest) => ['\\', c] + Written(rest)
    case Quoted(double, s, rest) => [Mark(double)] + s + [Mark(double)] + Written(rest)
    case Grouped(round, inner, rest) =>
      (if round then "(" else "{") + Written(inner) + (if round then ")" else "}") + Written(rest)
  }

  predicate IsSpecial(c: char) { c in ['\\', '\'', '"', '(', ')', '{', '}'] }

  /** The delimiter stands plainly only inside brackets. */
  predicate Sound(t: Text, delim: char, top: bool) {
    match t
    case End => true
    case Plain(c, rest) => !IsSpecial(c) && (top ==> c != delim) && Sound(rest, delim, top)
    case Backslashed(_, rest) => Sound(rest, delim, top)
    case Quoted(double, s, rest) => Mark(double) !in s && '\\' !in s && Sound(rest, delim, top)
    case Grouped(_, inner, rest) => Sound(inner, delim, false) && Sound(rest, delim, top)
  }

  // ----- scanning from any state ---------------------------------------------------------

  function From(st: Scan, s: string): Scan {
    if s == "" then st else Step(From(st, s[..|s| - 1]), s[|s| - 1])
  }

  lemma {:induction false} FromStart(s: string)
    ensures From(START, s) == State(s)
  {
    if s != "" { FromStart(s[..|s| - 1]); }
  }

  lemma {:induction false} FromConcat(st: Scan, a: string, b: string)
    ensures From(st, a + b) == From(From(st, a), b)
    decreases |b|
  {
    hide Step;
    if b == "" {
      assert a + b == a;
    } else {
      FromConcat(st, a, b[..|b| - 1]);
      assert (a + b)[..|a + b| - 1] == a + b[..|b| - 1];
    }
  }

  /** Scanning `w` leaves the state as it was, and the line is not cut in it. */
  ghost predicate Kept(st: Scan, w: string, delim: char) {
    From(st, w) == st && Uncut(st, w, delim)
  }

  ghost predicate Uncut(st: Scan, w: string, delim: char) {
    forall k | 0 <= k < |w| :: !Cuts(From(st, w[..k]), w[k], delim)
  }

  lemma UncutConcat(st: Scan, a: string, b: string, delim: char)
    requires Uncut(st, a, delim) && Uncut(From(st, a), b, delim)
    ensures Uncut(st, a + b, delim)
  {
    hide From, Cuts;
    var w := a + b;
    forall k | 0 <= k < |w| ensures !Cuts(From(st, w[..k]), w[k], delim) {
      if k < |a| {
        assert w[..k] == a[..k];
      } else {
        assert w[..k] == a + b[..k - |a|];
        FromConcat(st, a, b[..k - |a|]);
      }
    }
  }

  lemma KeptConcat(st: Scan, a: string, b: string, delim: char)
    requires Kept(st, a, delim) && Kept(st, b, delim)
    ensures Kept(st, a + b, delim)
  {
    hide From, Uncut;
    FromConcat(st, a, b);
    UncutConcat(st, a, b, delim);
  }

  lemma OneByte(st: Scan, c: char, delim: char)
    ensures From(st, [c]) == Step(st, c)
    ensures !Cuts(st, c, delim) ==> Uncut(st, [c], delim)
  {
    hide Step, Cuts;
    assert [c][..0] == "";
    assert From(st, "") == st;
  }

  /** `a`, whatever is in the middle, and `b`. */
  lemma Wrapped(st: Scan, a: char, in_: Scan, mid: string, out: Scan, b: char, delim: char)
    requires Step(st, a) == in_ && From(in_, mid) == out && Step(out, b) == st
    requires !Cuts(st, a, delim) && Uncut(in_, mid, delim) && !Cuts(out, b, delim)
    ensures Kept(st, [a] + mid + [b], delim)
  {
    hide From, Uncut, Step, Cuts;
    OneByte(st, a, delim);
    OneByte(out, b, delim);
    FromConcat(st, [a], mid);
    FromConcat(st, [a] + mid, [b]);
    UncutConcat(st, [a], mid, delim);
    UncutConcat(st, [a] + mid, [b], delim);
  }

  // ----- the kinds of text -------------------------------------------------------------------

  predicate Open(st: Scan) { !st.escaped && st.quote.None? }

  /** At the top level nothing is bracketed; inside something is. */
  predicate Level(st: Scan, top: bool) { top == (st.paren == 0 && st.brace == 0) }

  lemma {:induction false} InQuotes(st: Scan, double: bool, s: string, delim: char)
    requires !st.escaped && st.quote == Some(Mark(double)) && Mark(double) !in s && '\\' !in s
    ensures Kept(st, s, delim)
  {
    hide Uncut;
    if s == "" {
      assert Uncut(st, "", delim) by { NothingUncut(st, delim); }
    } else {
      var n := |s| - 1;
      assert s[n] in s && forall c | c in s[..n] :: c in s;
      InQuotes(st, double, s[..n], delim);
      OneByte(st, s[n], delim);
      KeptConcat(st, s[..n], [s[n]], delim);
      assert s[..n] + [s[n]] == s;
    }
  }

  lemma NothingUncut(st: Scan, delim: char)
    ensures Uncut(st, "", delim)
  {}

  lemma {:induction false} TextIsKept(st: Scan, t: Text, delim: char, top: bool)
    requires Open(st) && Level(st, top) && Sound(t, delim, top) && !IsSpecial(delim)
    ensures Kept(st, Written(t), delim)
    decreases t, 0
  {
    hide From, Uncut;
    match t
    case End => NothingUncut(st, delim); NothingScanned(st);
    case Plain(c, rest) =>
      OneByte(st, c, delim);
      TextIsKept(st, rest, delim, top);
      KeptConcat(st, [c], Written(rest), delim);
    case Backslashed(c, rest) =>
      BackslashedIsKept(st, c, delim);
      TextIsKept(st, rest, delim, top);
      KeptConcat(st, ['\\', c], Written(rest), delim);
    case Quoted(double, s, rest) =>
      var in_ := st.(quote := Some(Mark(double)));
      InQuotes(in_, double, s, delim);
      Wrapped(st, Mark(double), in_, s, in_, Mark(double), delim);
      TextIsKept(st, rest, delim, top);
      KeptConcat(st, [Mark(double)] + s + [Mark(double)], Written(rest), delim);
    case Grouped(round, inner, rest) =>
      GroupIsKept(st, round, inner, delim);
      TextIsKept(st, rest, delim, top);
      var group := (if round then "(" else "{") + Written(inner) + (if round then ")" else "}");
      KeptConcat(st, group, Written(rest), delim);
  }

  lemma NothingScanned(st: Scan)
    ensures From(st, "") == st
  {}

  lemma BackslashedIsKept(st: Scan, c: char, delim: char)
    requires Open(st)
    ensures Kept(st, ['\\', c], delim)
  {
    hide From, Uncut;
    NothingScanned(st.(escaped := true));
    NothingUncut(st.(escaped := true), delim);
    Wrapped(st, '\\', st.(escaped := true), "", st.(escaped := true), c, delim);
    assert ['\\'] + "" + [c] == ['\\', c];
  }

  lemma {:induction false} GroupIsKept(st: Scan, round: bool, inner: Text, delim: char)
    requires Open(st) && Sound(inner, delim, false) && !IsSpecial(delim)
    ensures Kept(st, (if round then "(" else "{") + Written(inner) + (if round then ")" else "}"), delim)
    decreases inner, 1
  {
    hide From, Uncut, Written;
    var in_ := if round then st.(paren := st.paren + 1) else st.(brace := st.brace + 1);
    TextIsKept(in_, inner, delim, false);
    if round {
      Wrapped(st, '(', in_, Written(inner), in_, ')', delim);
    } else {
      Wrapped(st, '{', in_, Written(inner), in_, '}', delim);
    }
  }

  // ----- lines ---------------------------------------------------------------------------------

  function AllWritten(ts: seq<Text>): (pieces: seq<string>)
    ensures |pieces| == |ts|
  {
    seq(|ts|, i requires 0 <= i < |ts| => Written(ts[i]))
  }

  lemma WrittenIsPiece(t: Text, delim: char)
    requires Sound(t, delim, true) && !IsSpecial(delim)
    ensures Whole(Written(t), delim) && Cuts(State(Written(t)), delim, delim)
  {
    hide From;
    TextIsKept(START, t, delim, true);
    var w := Written(t);
    FromStart(w);
    forall k | 0 <= k < |w| ensures !Cuts(State(w[..k]), w[k], delim) { FromStart(w[..k]); }
  }

  /** The pieces, joined and encoded, are what the line is cut into. */
  lemma WrittenPiecesAreCut(ts: seq<Text>, delim: char, out: seq<bytes>)
    requires ts != [] && !IsSpecial(delim) && forall t | t in ts :: Sound(t, delim, true)
    requires IsByteSplit(Utf8.Encode(Join(AllWritten(ts), [delim])), delim, out)
    ensures |out| == |ts| && forall i | 0 <= i < |ts| :: out[i] == Utf8.Encode(Written(ts[i]))
  {
    hide Written, Whole, Cuts, Sound, Join;
    var pieces := AllWritten(ts);
    var line := Join(pieces, [delim]);
    forall i | 0 <= i < |ts| ensures Whole(pieces[i], delim) && Cuts(State(pieces[i]), delim, delim) {
      assert ts[i] in ts;
      WrittenIsPiece(ts[i], delim);
    }
    assert IsSplit(line, delim, pieces);
    Utf8.EncodedReadsBack(line);
    SplitIsUnique(line, delim, Decoded(out), pieces);
    forall i | 0 <= i < |ts| ensures out[i] == Utf8.Encode(pieces[i]) {
      assert out[i] in out && Decoded(out)[i] == pieces[i];
      Utf8.ValidEncodesBack(out[i]);
    }
  }
}
