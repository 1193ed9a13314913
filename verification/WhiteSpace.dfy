/**
 * What `strings.TrimSpace` takes away: the characters with the Unicode property
 * White_Space, each of them in its UTF-8 encoding, and no other character
 * (`WhiteSpaceIsTrimmed`).
 */
module WhiteSpace {
  import opened Spaces
  import Utf8

  const WHITE_SPACE: set<int> := {
    0x9, 0xA, 0xB, 0xC, 0xD, 0x20, 0x85, 0xA0, 0x1680, 0x2000, 0x2001, 0x2002, 0x2003, 0x2004, 0x2005, 0x2006, 0x2007,
    0x2008, 0x2009, 0x200A, 0x2028, 0x2029, 0x202F, 0x205F, 0x3000}

  lemma SpaceExactlyWhen(c: char)
    ensures IsSpace(c) <==> c as int in WHITE_SPACE
  {}

  /** The bytes of a character, as the shell's texts hold them. */
  function Bytes(b: Utf8.bytes): (s: string)
    ensures |s| == |b|
  {
    seq(|b|, i requires 0 <= i < |b| => b[i] as char)
  }

  /** A character in front of a text or behind it is trimmed iff it is white space. */
  lemma WhiteSpaceIsTrimmed(c: char, x: string)
    requires x != "" && IsPrintable(x[0]) && IsPrintable(x[|x| - 1])
    ensures var b := Bytes(Utf8.EncodeRune(c));
      && Trim(b + x) == (if c as int in WHITE_SPACE then x else b + x)
      && Trim(x + b) == (if c as int in WHITE_SPACE then x else x + b)
  {
    hide Trim, SpaceInFront, SpaceAtEnd, IsSpace, Utf8.EncodeRune, IsPrintable, WHITE_SPACE;
    var b := Bytes(Utf8.EncodeRune(c));
    SpaceExactlyWhen(c);
    SpaceIsNotPrintable(x);
    SpaceIsNotPrintable(b + x);
    SpaceIsNotPrintable(x + b);
    FrontOf(c, x);
    EndOf(c, x);
    TrimKeeps(x);
    TrimOnce(b + x);
    TrimOnce(x + b);
    assert (b + x)[|b|..] == x && (x + b)[..|x|] == x;
  }

  lemma TrimOnce(v: string)
    ensures Trim(v) ==
      if SpaceInFront(v) > 0 then Trim(v[SpaceInFront(v)..])
      else if SpaceAtEnd(v) > 0 then Trim(v[..|v| - SpaceAtEnd(v)]) else v
  {}

  lemma FrontOf(c: char, x: string)
    requires x != "" && IsPrintable(x[0])
    ensures var b := Bytes(Utf8.EncodeRune(c)); SpaceInFront(b + x) == if IsSpace(c) then |b| else 0
  {}

  lemma EndOf(c: char, x: string)
    requires x != "" && IsPrintable(x[|x| - 1])
    ensures var b := Bytes(Utf8.EncodeRune(c)); SpaceAtEnd(x + b) == if IsSpace(c) then |b| else 0
  {}
}
