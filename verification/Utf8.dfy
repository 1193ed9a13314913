/**
 * UTF-8, as section 4 of RFC 3629 lays it out: which byte sequences are characters,
 * Go's conversions between bytes and runes, and `limitVirtualContent`, which cuts
 * stored file content to the size limit without splitting a character.
 */
module Utf8 {
  const MAX_FILE_BYTES := 16 * 1024

  newtype byte = x: int | 0 <= x < 256
  type bytes = seq<byte>

  predicate IsTail(b: byte) { 0x80 <= b <= 0xBF }

  /** Length of the well-formed character at the front, 0 if there is none. */
  function CharLength(s: bytes): (n: nat)
    ensures n <= 4 && n <= |s|
  {
    if |s| >= 1 && s[0] <= 0x7F then 1
    else if |s| >= 2 && 0xC2 <= s[0] <= 0xDF && IsTail(s[1]) then 2
    else if |s| >= 3 && IsTail(s[2]) && ThreeByteStart(s[0], s[1]) then 3
    else if |s| >= 4 && IsTail(s[2]) && IsTail(s[3]) && FourByteStart(s[0], s[1]) then 4
    else 0
  }

  /** No overlong forms, and no surrogates. */
  predicate ThreeByteStart(a: byte, b: byte) {
    || (a == 0xE0 && 0xA0 <= b <= 0xBF)
    || (0xE1 <= a <= 0xEC && IsTail(b))
    || (a == 0xED && 0x80 <= b <= 0x9F)
    || (0xEE <= a <= 0xEF && IsTail(b))
  }

  /** No overlong forms, and nothing above U+10FFFF. */
  predicate FourByteStart(a: byte, b: byte) {
    || (a == 0xF0 && 0x90 <= b <= 0xBF)
    || (0xF1 <= a <= 0xF3 && IsTail(b))
    || (a == 0xF4 && 0x80 <= b <= 0x8F)
  }

  predicate Valid(s: bytes) {
    s == [] || (CharLength(s) > 0 && Valid(s[CharLength(s)..]))
  }

  function LongestValid(v: bytes): bytes {
    if Valid(v) then v else LongestValid(v[..|v| - 1])
  }

  /** What is stored for `v`; short content is kept whatever it is. */
  function Limit(v: bytes): bytes {
    if |v| <= MAX_FILE_BYTES then v else LongestValid(v[..MAX_FILE_BYTES])
  }

  method LimitVirtualContent(v: bytes) returns (r: bytes)
    ensures r == Limit(v)
  {
    if |v| <= MAX_FILE_BYTES {
      return v;
    }
    r := v[..MAX_FILE_BYTES];
    while |r| > 0 && !Valid(r)
      invariant LongestValid(r) == LongestValid(v[..MAX_FILE_BYTES])
    {
      r := r[..|r| - 1];
    }
  }

  /** The result is the valid prefix that no longer valid prefix exceeds. */
  lemma {:induction false} LongestValidMeaning(v: bytes)
    ensures var r := LongestValid(v);
      && |r| <= |v| && r == v[..|r|] && Valid(r)
      && forall n | |r| < n <= |v| :: !Valid(v[..n])
  {
    assert v[..|v|] == v;
    if !Valid(v) {
      var w := v[..|v| - 1];
      LongestValidMeaning(w);
      forall n | |LongestValid(v)| < n <= |v| ensures !Valid(v[..n]) {
        if n < |v| { assert v[..n] == w[..n]; }
      }
    }
  }

  /** Stored content is the longest valid prefix within the limit, once the limit is exceeded. */
  lemma LimitMeaning(v: bytes)
    ensures |Limit(v)| <= 16384 && Limit(v) == v[..|Limit(v)|] && (|v| <= 16384 ==> Limit(v) == v)
    ensures |v| > 16384 ==> Valid(Limit(v)) && forall n | |Limit(v)| < n <= 16384 :: !Valid(v[..n])
  {
    if |v| > MAX_FILE_BYTES {
      var w := v[..MAX_FILE_BYTES];
      LongestValidMeaning(w);
      assert Limit(v) == v[..|Limit(v)|];
      forall n | |Limit(v)| < n <= MAX_FILE_BYTES ensures !Valid(v[..n]) { assert v[..n] == w[..n]; }
    } else {
      assert v[..|v|] == v;
    }
  }

  /** A character is recognised by its own bytes alone. */
  lemma CharLengthLocal(s: bytes, n: nat)
    requires 0 < CharLength(s) <= n <= |s|
    ensures CharLength(s[..n]) == CharLength(s)
  {}

  /** In valid text a character boundary lies within three bytes before any position. */
  lemma {:induction false} BoundaryNear(v: bytes, n: nat) returns (k: nat)
    requires Valid(v) && n <= |v|
    ensures n - 3 <= k <= n && Valid(v[..k])
  {
    if n == 0 || n < CharLength(v) {
      k := 0;
    } else {
      var m := CharLength(v);
      var j := BoundaryNear(v[m..], n - m);
      k := m + j;
      assert v[..k][m..] == v[m..][..j];
      CharLengthLocal(v, k);
    }
  }

  /** Cutting valid text loses at most three bytes below the limit. */
  lemma AtMostThreeBytesLost(v: bytes)
    requires Valid(v)
    ensures |Limit(v)| >= (if |v| <= MAX_FILE_BYTES then |v| else MAX_FILE_BYTES - 3)
  {
    if |v| > MAX_FILE_BYTES {
      var k := BoundaryNear(v, MAX_FILE_BYTES);
      LimitMeaning(v);
    }
  }

  // ----- runes ------------------------------------------------------------------------------

  /** The rune of one well-formed character. */
  function Rune(b: bytes): char
    requires b != [] && CharLength(b) == |b|
  {
    if |b| == 1 then b[0] as char
    else if |b| == 2 then Append(b[0] as int - 0xC0, b[1]) as char
    else if |b| == 3 then Append(Append(b[0] as int - 0xE0, b[1]), b[2]) as char
    else Append(Append(Append(b[0] as int - 0xF0, b[1]), b[2]), b[3]) as char
  }

  /** A tail byte contributes six bits. */
  function Append(v: nat, b: byte): nat
    requires IsTail(b)
  {
    v * 0x40 + (b as int - 0x80)
  }

  /** `utf8.AppendRune`; a `char` is a code point that is no surrogate. */
  function EncodeRune(c: char): (b: bytes)
    ensures b != []
  {
    var v := c as int;
    if v < 0x80 then [v as byte]
    else if v < 0x800 then [Lead(0xC0, v / 0x40), Tail(v)]
    else if v < 0x1_0000 then [Lead(0xE0, v / 0x40 / 0x40), Tail(v / 0x40), Tail(v)]
    else [Lead(0xF0, v / 0x40 / 0x40 / 0x40), Tail(v / 0x40 / 0x40), Tail(v / 0x40), Tail(v)]
  }

  function Lead(mark: nat, v: nat): byte
    requires mark + v < 256
  {
    (mark + v) as byte
  }

  function Tail(v: nat): byte { (0x80 + v % 0x40) as byte }

  /** `[]rune(b)`: a byte that starts no well-formed character becomes U+FFFD. */
  function Runes(b: bytes): string {
    if b == [] then ""
    else if CharLength(b) == 0 then ['\U{FFFD}'] + Runes(b[1..])
    else
      CharLengthLocal(b, CharLength(b));
      [Rune(b[..CharLength(b)])] + Runes(b[CharLength(b)..])
  }

  /** `string(text)` */
  function Encode(text: string): bytes {
    if text == "" then [] else EncodeRune(text[0]) + Encode(text[1..])
  }

  lemma AppendSplits(v: nat, b: byte)
    requires IsTail(b)
    ensures Append(v, b) / 0x40 == v && Tail(Append(v, b)) == b
  {}

  lemma TailAppends(v: nat)
    ensures IsTail(Tail(v)) && Append(v / 0x40, Tail(v)) == v
  {}

  lemma StartsThreeBytes(v: nat)
    requires 0x20 <= v < 0x360 || 0x380 <= v < 0x400
    ensures ThreeByteStart(Lead(0xE0, v / 0x40), Tail(v))
  {}

  lemma StartsFourBytes(v: nat)
    requires 0x10 <= v < 0x110
    ensures FourByteStart(Lead(0xF0, v / 0x40), Tail(v)) && !ThreeByteStart(Lead(0xF0, v / 0x40), Tail(v))
  {}

  /** Encoding inverts decoding, on one character. */
  lemma RuneIsEncoded(b: bytes)
    requires b != [] && CharLength(b) == |b|
    ensures EncodeRune(Rune(b)) == b
  {
    hide Tail;
    if |b| == 2 {
      AppendSplits(b[0] as int - 0xC0, b[1]);
    } else if |b| == 3 {
      var v := Append(b[0] as int - 0xE0, b[1]);
      AppendSplits(b[0] as int - 0xE0, b[1]);
      AppendSplits(v, b[2]);
    } else if |b| == 4 {
      var v := Append(b[0] as int - 0xF0, b[1]);
      AppendSplits(b[0] as int - 0xF0, b[1]);
      AppendSplits(v, b[2]);
      AppendSplits(Append(v, b[2]), b[3]);
    }
  }

  /** Decoding inverts encoding, on one rune and whatever follows. */
  lemma EncodedIsRune(c: char, rest: bytes)
    ensures CharLength(EncodeRune(c) + rest) == |EncodeRune(c)| == CharLength(EncodeRune(c))
    ensures Rune(EncodeRune(c)) == c
  {
    hide Append, Tail, ThreeByteStart, FourByteStart;
    var v := c as int;
    TailAppends(v);
    TailAppends(v / 0x40);
    TailAppends(v / 0x40 / 0x40);
    if 0x800 <= v < 0x1_0000 { StartsThreeBytes(v / 0x40); }
    if 0x1_0000 <= v { StartsFourBytes(v / 0x40 / 0x40); }
  }

  lemma {:induction false} EncodedReadsBack(text: string)
    ensures Valid(Encode(text)) && Runes(Encode(text)) == text
  {
    if text != "" {
      var head, rest := EncodeRune(text[0]), Encode(text[1..]);
      EncodedIsRune(text[0], rest);
      EncodedReadsBack(text[1..]);
      assert (head + rest)[..|head|] == head && (head + rest)[|head|..] == rest;
      assert [text[0]] + text[1..] == text;
    }
  }

  lemma EncodeFirst(c: char, text: string)
    ensures Encode([c] + text) == EncodeRune(c) + Encode(text)
  {
    assert ([c] + text)[1..] == text;
  }

  lemma FirstEncodesBack(b: bytes)
    requires CharLength(b) > 0
    ensures var n := CharLength(b); Encode(Runes(b)) == b[..n] + Encode(Runes(b[n..]))
  {
    hide CharLength, Rune, EncodeRune, Encode;
    var n := CharLength(b);
    CharLengthLocal(b, n);
    RuneIsEncoded(b[..n]);
    EncodeFirst(Rune(b[..n]), Runes(b[n..]));
  }

  lemma {:induction false} ValidEncodesBack(b: bytes)
    requires Valid(b)
    ensures Encode(Runes(b)) == b
  {
    hide CharLength, Rune, EncodeRune;
    if b != [] {
      var n := CharLength(b);
      FirstEncodesBack(b);
      ValidEncodesBack(b[n..]);
      assert b[..n] + b[n..] == b;
    }
  }

  /** Bytes survive the way through runes iff they are valid UTF-8. */
  lemma EncodesBackExactlyWhen(b: bytes)
    ensures Encode(Runes(b)) == b <==> Valid(b)
  {
    EncodedReadsBack(Runes(b));
    if Valid(b) { ValidEncodesBack(b); }
  }

  /** A byte that is never part of a character becomes three. */
  lemma InvalidByteDecodes()
    ensures Runes([0xFF]) == "\U{FFFD}" && Encode("\U{FFFD}") == [0xEF, 0xBF, 0xBD] && !Valid([0xFF])
  {
    assert CharLength([0xFF]) == 0;
    assert EncodeRune('\U{FFFD}') == [0xEF, 0xBF, 0xBD];
    assert Encode("\U{FFFD}") == EncodeRune('\U{FFFD}') + Encode("");
  }

  lemma {:induction false} EncodeJoins(a: string, b: string)
    ensures Encode(a + b) == Encode(a) + Encode(b)
  {
    if a == "" {
      assert a + b == b;
    } else {
      assert (a + b)[1..] == a[1..] + b;
      EncodeJoins(a[1..], b);
    }
  }

  // ----- joining texts --------------------------------------------------------------------

  lemma CharLengthGrows(a: bytes, b: bytes)
    requires CharLength(a) > 0
    ensures CharLength(a + b) == CharLength(a)
  {}

  lemma {:induction false} ValidJoin(a: bytes, b: bytes)
    requires Valid(a) && Valid(b)
    ensures Valid(a + b)
  {
    hide CharLength;
    if a == [] {
      assert a + b == b;
    } else {
      var n := CharLength(a);
      CharLengthGrows(a, b);
      ValidJoin(a[n..], b);
      assert (a + b)[n..] == a[n..] + b;
    }
  }

  /** How many bytes of `a` the first rune takes. */
  function Width(a: bytes): (n: nat)
    requires a != []
    ensures 1 <= n <= |a|
  {
    if CharLength(a) == 0 then 1 else CharLength(a)
  }

  /** How many bytes at the end of `a` begin a character that `b` finishes. */
  function Bridge(a: bytes, b: bytes): (k: nat)
    ensures k <= |a|
  {
    if a == [] then 0
    else if CharLength(a) == 0 && CharLength(a + b) > 0 then |a|
    else Bridge(a[Width(a)..], b)
  }

  /** The first rune of `a`, seen in front of `b`. */
  lemma FirstRune(a: bytes, b: bytes)
    requires a != [] && (CharLength(a) > 0 || CharLength(a + b) == 0)
    ensures Runes(a + b) == Runes(a)[..1] + Runes(a[Width(a)..] + b) && |Runes(a)| == 1 + |Runes(a[Width(a)..])|
    ensures Runes(a) == Runes(a)[..1] + Runes(a[Width(a)..])
  {
    hide CharLength, Rune;
    var n := Width(a);
    if CharLength(a) > 0 {
      CharLengthGrows(a, b);
      CharLengthLocal(a, n);
      assert (a + b)[..n] == a[..n];
    }
    assert (a + b)[n..] == a[n..] + b;
  }

  /** The bytes of an unfinished character are runes of their own. */
  lemma UnfinishedRunes(a: bytes, b: bytes)
    requires a != [] && CharLength(a) == 0 && CharLength(a + b) > 0
    ensures |Runes(a)| == |a| < CharLength(a + b)
  {
    TailsAreRunes(a[1..]);
  }

  lemma {:induction false} TailsAreRunes(a: bytes)
    requires forall i | 0 <= i < |a| :: IsTail(a[i])
    ensures |Runes(a)| == |a|
  {
    if a != [] { TailsAreRunes(a[1..]); }
  }

  lemma NoRunes()
    ensures Runes([]) == ""
  {}

  /** Joining decodes each part by itself, but for a character on both sides of the seam. */
  lemma {:induction false} JoinedRunes(a: bytes, b: bytes)
    ensures var k := Bridge(a, b); |Runes(a + b)| + k == |Runes(a)| + |Runes(a[|a| - k..] + b)|
    ensures Bridge(a, b) == 0 ==> Runes(a + b) == Runes(a) + Runes(b)
    ensures Valid(a) ==> Bridge(a, b) == 0
  {
    hide CharLength, Runes;
    if a == [] {
      NoRunes();
      assert a + b == b;
    } else if CharLength(a) == 0 && CharLength(a + b) > 0 {
      UnfinishedRunes(a, b);
    } else {
      var rest := a[Width(a)..];
      JoinedRunes(rest, b);
      FirstRune(a, b);
      assert a[|a| - Bridge(a, b)..] == rest[|rest| - Bridge(rest, b)..];
    }
  }

  /** A join has fewer runes than its first part iff the character at the seam swallows more than follow it. */
  lemma JoinLosesExactlyWhen(a: bytes, b: bytes)
    ensures var k := Bridge(a, b); |Runes(a + b)| < |Runes(a)| <==> |Runes(a[|a| - k..] + b)| < k
  {
    JoinedRunes(a, b);
  }
}
