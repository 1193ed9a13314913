/**
 * `splitOutsideQuotes`: cutting a line at a delimiter wherever it stands outside
 * quotes, escapes, parentheses and braces. The line is bytes; the loop goes over its
 * runes and writes them out again.
 *
 * The result is characterised completely: `SplitOutsideQuotes` returns a list that
 * satisfies `IsByteSplit`, and no other list does (`ByteSplitIsUnique`). It joins back
 * to the line iff the line is valid UTF-8 (`JoinsBackExactlyWhen`).
 */
module Split {
  import opened Wrappers
  import Utf8

  type bytes = Utf8.bytes

  datatype Scan = Scan(escaped: bool, quote: Option<char>, paren: nat, brace: nat)

  const START := Scan(false, None, 0, 0)

  predicate IsQuote(c: char) { c == '\'' || c == '"' }

  function Down(n: nat): nat { if n > 0 then n - 1 else 0 }

  /** The scanner's state after one more rune that is not cut at. */
  function Step(st: Scan, c: char): Scan {
    if st.escaped then st.(escaped := false)
    else if c == '\\' then st.(escaped := true)
    else if st.quote.Some? then (if c == st.quote.value then st.(quote := None) else st)
    else if IsQuote(c) then st.(quote := Some(c))
    else Nest(st, c)
  }

  function Nest(st: Scan, c: char): Scan {
    match c
    case '(' => st.(paren := st.paren + 1)
    case ')' => st.(paren := Down(st.paren))
    case '{' => st.(brace := st.brace + 1)
    case '}' => st.(brace := Down(st.brace))
    case _ => st
  }

  function State(s: string): Scan {
    if s == "" then START else Step(State(s[..|s| - 1]), s[|s| - 1])
  }

  /** The line is cut at `c` when the scanner stands in `st`. */
  predicate Cuts(st: Scan, c: char, delim: char) {
    && !st.escaped && st.quote.None? && c != '\\' && !IsQuote(c)
    && c == delim && Nest(st, c).paren == 0 && Nest(st, c).brace == 0
  }

  function Join<T>(pieces: seq<seq<T>>, delim: seq<T>): seq<T>
    requires pieces != []
  {
    if |pieces| == 1 then pieces[0] else Join(pieces[..|pieces| - 1], delim) + delim + pieces[|pieces| - 1]
  }

  /** No cut falls inside the piece. */
  ghost predicate Whole(piece: string, delim: char) {
    forall k | 0 <= k < |piece| :: !Cuts(State(piece[..k]), piece[k], delim)
  }

  ghost predicate IsSplit(v: string, delim: char, pieces: seq<string>) {
    && pieces != [] && Join(pieces, [delim]) == v
    && (forall p | p in pieces :: Whole(p, delim))
    && (forall p | p in pieces[..|pieces| - 1] :: Cuts(State(p), delim, delim))
  }

  function Decoded(out: seq<bytes>): (pieces: seq<string>)
    ensures |pieces| == |out| && forall i | 0 <= i < |out| :: pieces[i] == Utf8.Runes(out[i])
  {
    seq(|out|, i requires 0 <= i < |out| => Utf8.Runes(out[i]))
  }

  /** `out` holds the encoded pieces of the runes of `v`. */
  ghost predicate IsByteSplit(v: bytes, delim: char, out: seq<bytes>) {
    && (forall p | p in out :: Utf8.Valid(p))
    && IsSplit(Utf8.Runes(v), delim, Decoded(out))
  }

  method SplitOutsideQuotes(v: bytes, delim: char) returns (out: seq<bytes>)
    ensures IsByteSplit(v, delim, out)
  {
    hide InStep, IsByteSplit, State;
    out := [];
    var b: bytes := [];
    ghost var pieces: seq<string>, piece := [], "";
    var quote: Option<char> := None;
    var escaped := false;
    var parenDepth, braceDepth := 0, 0;
    var runes := Utf8.Runes(v);
    NothingDone(delim);
    for i := 0 to |runes|
      invariant State(piece) == Scan(escaped, quote, parenDepth, braceDepth)
      invariant InStep(runes[..i], delim, out, pieces, b, piece)
    {
      var r := runes[i];
      assert runes[..i + 1] == runes[..i] + [r];
      if Cuts(State(piece), r, delim) {
        CutKeepsStep(runes[..i], delim, out, pieces, b, piece);
      } else {
        RuneKeepsStep(runes[..i], delim, out, pieces, b, piece, r);
      }
      if escaped {
        b, piece := b + Utf8.EncodeRune(r), piece + [r];
        escaped := false;
        continue;
      }
      if r == '\\' {
        b, piece := b + Utf8.EncodeRune(r), piece + [r];
        escaped := true;
        continue;
      }
      if quote != None {
        b, piece := b + Utf8.EncodeRune(r), piece + [r];
        if r == quote.value { quote := None; }
        continue;
      }
      if r == '\'' || r == '"' {
        quote := Some(r);
        b, piece := b + Utf8.EncodeRune(r), piece + [r];
        continue;
      }
      match r {
        case '(' => parenDepth := parenDepth + 1;
        case ')' => if parenDepth > 0 { parenDepth := parenDepth - 1; }
        case '{' => braceDepth := braceDepth + 1;
        case '}' => if braceDepth > 0 { braceDepth := braceDepth - 1; }
        case _ =>
      }
      if r == delim && parenDepth == 0 && braceDepth == 0 {
        out, pieces := out + [b], pieces + [piece];
        b, piece := [], "";
        continue;
      }
      b, piece := b + Utf8.EncodeRune(r), piece + [r];
    }
    assert runes[..|runes|] == runes;
    AllDone(v, delim, out, pieces, b, piece);
    out := out + [b];
  }

  /** What the loop has written of the runes `done`: `pieces` and `piece` are the runes of `out` and `b`. */
  ghost predicate InStep(
    done: string, delim: char, out: seq<bytes>, pieces: seq<string>, b: bytes, piece: string)
  {
    && Whole(piece, delim) && Join(pieces + [piece], [delim]) == done
    && (forall p | p in pieces :: Whole(p, delim) && Cuts(State(p), delim, delim))
    && b == Utf8.Encode(piece) && Encodes(out, pieces)
  }

  lemma NothingDone(delim: char)
    ensures InStep("", delim, [], [], [], "") && State("") == START
  {}

  lemma AllDone(v: bytes, delim: char, out: seq<bytes>, pieces: seq<string>, b: bytes, piece: string)
    requires InStep(Utf8.Runes(v), delim, out, pieces, b, piece)
    ensures IsByteSplit(v, delim, out + [b])
  {
    hide Cuts, Whole;
    EncodedPieces(out + [b], pieces + [piece]);
    assert (pieces + [piece])[..|pieces|] == pieces;
  }

  lemma RuneKeepsStep(
    done: string, delim: char, out: seq<bytes>, pieces: seq<string>, b: bytes, piece: string, r: char)
    requires InStep(done, delim, out, pieces, b, piece) && !Cuts(State(piece), r, delim)
    ensures InStep(done + [r], delim, out, pieces, b + Utf8.EncodeRune(r), piece + [r])
    ensures State(piece + [r]) == Step(State(piece), r)
  {
    hide Cuts, Whole, State, Join, Step;
    StateGrows(piece, r);
    WholeGrows(piece, r, delim);
    JoinGrows(pieces, piece, r, delim);
    EncodeGrows(piece, r);
  }

  lemma CutKeepsStep(done: string, delim: char, out: seq<bytes>, pieces: seq<string>, b: bytes, piece: string)
    requires InStep(done, delim, out, pieces, b, piece) && Cuts(State(piece), delim, delim)
    ensures InStep(done + [delim], delim, out + [b], pieces + [piece], [], "")
  {
    hide Cuts, State;
    JoinGrows(pieces, piece, delim, delim);
  }

  ghost predicate Encodes(out: seq<bytes>, pieces: seq<string>) {
    |out| == |pieces| && forall i | 0 <= i < |out| :: out[i] == Utf8.Encode(pieces[i])
  }

  lemma EncodedPieces(out: seq<bytes>, pieces: seq<string>)
    requires Encodes(out, pieces)
    ensures Decoded(out) == pieces && forall p | p in out :: Utf8.Valid(p)
  {
    forall i | 0 <= i < |out| ensures Decoded(out)[i] == pieces[i] && Utf8.Valid(out[i]) {
      Utf8.EncodedReadsBack(pieces[i]);
    }
  }

  lemma EncodeGrows(b: string, r: char)
    ensures Utf8.Encode(b + [r]) == Utf8.Encode(b) + Utf8.EncodeRune(r)
  {
    Utf8.EncodeJoins(b, [r]);
    Utf8.EncodeFirst(r, "");
    assert [r] + "" == [r];
  }


  lemma StateGrows(b: string, r: char)
    ensures State(b + [r]) == Step(State(b), r)
  {
    assert (b + [r])[..|b|] == b;
  }

  lemma WholeGrows(b: string, r: char, delim: char)
    requires Whole(b, delim) && !Cuts(State(b), r, delim)
    ensures Whole(b + [r], delim)
  {
    forall k | 0 <= k < |b + [r]| ensures !Cuts(State((b + [r])[..k]), (b + [r])[k], delim) {
      assert (b + [r])[..k] == b[..k];
    }
    assert b[..|b|] == b;
  }

  lemma JoinGrows(out: seq<string>, b: string, r: char, delim: char)
    ensures Join(out + [b + [r]], [delim]) == Join(out + [b], [delim]) + [r]
    ensures Join(out + [b] + [""], [delim]) == Join(out + [b], [delim]) + [delim]
  {
    assert (out + [b])[..|out|] == out && (out + [b + [r]])[..|out|] == out;
    assert (out + [b] + [""])[..|out + [b]|] == out + [b];
    if out != [] { assert Join(out, [delim]) + [delim] + (b + [r]) == Join(out, [delim]) + [delim] + b + [r]; }
  }

  // ----- uniqueness ---------------------------------------------------------------

  /** Joining, seen from the front. */
  lemma {:induction false} JoinFront<T>(pieces: seq<seq<T>>, delim: seq<T>)
    requires |pieces| > 1
    ensures Join(pieces, delim) == pieces[0] + delim + Join(pieces[1..], delim)
  {
    var n := |pieces| - 1;
    if n > 1 {
      JoinFront(pieces[..n], delim);
      assert pieces[..n][1..] == pieces[1..][..n - 1];
      assert Join(pieces, delim) == pieces[0] + delim + Join(pieces[1..][..n - 1], delim) + delim + pieces[n];
    } else {
      assert pieces[..n] == [pieces[0]] && pieces[1..] == [pieces[1]];
    }
  }

  /** Where the first piece lies in the line. */
  lemma FirstPiece(v: string, delim: char, a: seq<string>)
    requires IsSplit(v, delim, a)
    ensures |a[0]| <= |v| && v[..|a[0]|] == a[0] && Whole(a[0], delim)
    ensures if |a| == 1 then |v| == |a[0]| else |v| > |a[0]| && v[|a[0]|] == delim && Cuts(State(a[0]), delim, delim)
  {
    assert a[0] in a;
    if |a| > 1 {
      JoinFront(a, [delim]);
      assert a[0] == a[..|a| - 1][0];
    }
  }

  lemma FirstNotShorter(v: string, delim: char, a: seq<string>, b: seq<string>)
    requires IsSplit(v, delim, a) && IsSplit(v, delim, b)
    ensures |a[0]| >= |b[0]|
  {
    FirstPiece(v, delim, a);
    FirstPiece(v, delim, b);
    NoCutInside(v, delim, a[0], b[0]);
  }

  /** A piece followed by a cut is not a proper prefix of a whole piece. */
  lemma NoCutInside(v: string, delim: char, a: string, b: string)
    requires |a| <= |v| && |b| <= |v| && v[..|a|] == a && v[..|b|] == b && Whole(b, delim)
    requires |a| < |v| ==> v[|a|] == delim && Cuts(State(a), delim, delim)
    ensures |a| >= |b|
  {
    var k := if |a| < |b| then |a| else |b|;
    assert b[..k] == v[..k];
  }

  lemma TailIsSplit(v: string, delim: char, a: seq<string>)
    requires IsSplit(v, delim, a) && |a| > 1
    ensures |v| > |a[0]| && IsSplit(v[|a[0]| + 1..], delim, a[1..])
  {
    JoinFront(a, [delim]);
    assert v[|a[0]| + 1..] == Join(a[1..], [delim]);
    assert forall p | p in a[1..] :: p in a;
    assert a[1..][..|a| - 2] == a[..|a| - 1][1..];
  }

  /** At most one list is a split of a line. */
  lemma {:induction false} SplitIsUnique(v: string, delim: char, a: seq<string>, b: seq<string>)
    requires IsSplit(v, delim, a) && IsSplit(v, delim, b)
    ensures a == b
    decreases |a|
  {
    FirstNotShorter(v, delim, a, b);
    FirstNotShorter(v, delim, b, a);
    FirstPiece(v, delim, a);
    FirstPiece(v, delim, b);
    if |a| > 1 {
      TailIsSplit(v, delim, a);
      TailIsSplit(v, delim, b);
      SplitIsUnique(v[|a[0]| + 1..], delim, a[1..], b[1..]);
      assert a == [a[0]] + a[1..] && b == [b[0]] + b[1..];
    }
  }

  /** At most one list of byte strings is a split of a line. */
  lemma ByteSplitIsUnique(v: bytes, delim: char, a: seq<bytes>, b: seq<bytes>)
    requires IsByteSplit(v, delim, a) && IsByteSplit(v, delim, b)
    ensures a == b
  {
    SplitIsUnique(Utf8.Runes(v), delim, Decoded(a), Decoded(b));
    forall i | 0 <= i < |a| ensures a[i] == b[i] {
      assert a[i] in a && b[i] in b && Decoded(a)[i] == Decoded(b)[i];
      Utf8.ValidEncodesBack(a[i]);
      Utf8.ValidEncodesBack(b[i]);
    }
  }

  /** Splitting a piece again gives that piece alone. */
  lemma PiecesSplitToThemselves(v: bytes, delim: char, out: seq<bytes>, p: bytes, again: seq<bytes>)
    requires IsByteSplit(v, delim, out) && p in out && IsByteSplit(p, delim, again)
    ensures again == [p]
  {
    assert Utf8.Runes(p) in Decoded(out) by { IsDecoded(out, p); }
    assert Decoded([p]) == [Utf8.Runes(p)];
    assert IsSplit(Utf8.Runes(p), delim, [Utf8.Runes(p)]);
    ByteSplitIsUnique(p, delim, again, [p]);
  }

  lemma IsDecoded(out: seq<bytes>, p: bytes)
    requires p in out
    ensures Utf8.Runes(p) in Decoded(out)
  {
    var i :| 0 <= i < |out| && out[i] == p;
    assert Decoded(out)[i] == Utf8.Runes(p);
  }

  /** Every cut at an ordinary delimiter falls where the scanner is back in its initial state. */
  lemma OrdinaryCutsAtStart(v: string, delim: char, pieces: seq<string>, i: nat)
    requires IsSplit(v, delim, pieces) && i < |pieces| - 1
    requires delim !in ['(', ')', '{', '}']
    ensures State(pieces[i]) == START
  {
    assert pieces[i] in pieces[..|pieces| - 1];
  }

  // ----- joining back ---------------------------------------------------------------

  lemma {:induction false} EncodedJoin(out: seq<bytes>, pieces: seq<string>, delim: char)
    requires Encodes(out, pieces) && out != []
    ensures Join(out, Utf8.EncodeRune(delim)) == Utf8.Encode(Join(pieces, [delim]))
  {
    var n := |out| - 1;
    if n > 0 {
      var front := Join(pieces[..n], [delim]);
      EncodedJoin(out[..n], pieces[..n], delim);
      EncodeGrows(front, delim);
      Utf8.EncodeJoins(front + [delim], pieces[n]);
    }
  }

  /** Joining the pieces again gives the line with its runes encoded anew: the line itself iff it is valid UTF-8. */
  lemma JoinsBackExactlyWhen(v: bytes, delim: char, out: seq<bytes>)
    requires IsByteSplit(v, delim, out)
    ensures Join(out, Utf8.EncodeRune(delim)) == Utf8.Encode(Utf8.Runes(v))
    ensures Join(out, Utf8.EncodeRune(delim)) == v <==> Utf8.Valid(v)
  {
    forall i | 0 <= i < |out| ensures out[i] == Utf8.Encode(Decoded(out)[i]) {
      assert out[i] in out;
      Utf8.ValidEncodesBack(out[i]);
    }
    EncodedJoin(out, Decoded(out), delim);
    Utf8.EncodesBackExactlyWhen(v);
  }

  /** A byte that is no character is rewritten, as in a line that holds the output of `printf '\xff'`. */
  lemma InvalidByteIsRewritten(out: seq<bytes>)
    requires IsByteSplit([0xFF], '|', out)
    ensures out == [[0xEF, 0xBF, 0xBD]] && Join(out, Utf8.EncodeRune('|')) != [0xFF]
  {
    Utf8.InvalidByteDecodes();
    Utf8.EncodedReadsBack("\U{FFFD}");
    assert IsSplit("\U{FFFD}", '|', ["\U{FFFD}"]) by { assert Whole("\U{FFFD}", '|'); }
    ByteSplitIsUnique([0xFF], '|', out, [Utf8.Encode("\U{FFFD}")]) by {
      assert Decoded([Utf8.Encode("\U{FFFD}")]) == ["\U{FFFD}"];
    }
  }
}
