/** White space: of runes, and at the ends of strings of UTF-8 bytes. */
module Spaces {
  /** `unicode.IsSpace`. */
  predicate IsSpace(c: char) {
    || '\t' <= c <= '\r' || c == ' ' || c == '\U{85}' || c == '\U{A0}' || c == '\U{1680}'
    || '\U{2000}' <= c <= '\U{200A}' || c == '\U{2028}' || c == '\U{2029}' || c == '\U{202F}'
    || c == '\U{205F}' || c == '\U{3000}'
  }

  // ----- encoded spaces; a `char` stands for a byte ---------------------------------

  predicate IsTail(c: char) { '\U{80}' <= c <= '\U{BF}' }

  predicate OneByteSpace(a: char) { a < '\U{80}' && IsSpace(a) }

  predicate TwoByteSpace(a: char, b: char) { a == '\U{C2}' && IsTail(b) && IsSpace(b) }

  /** All spaces of three bytes start with 0xE1 to 0xE3. */
  predicate ThreeByteSpace(a: char, b: char, c: char) {
    && '\U{E1}' <= a <= '\U{E3}' && IsTail(b) && IsTail(c)
    && IsSpace(((a as int - 0xE0) * 0x1000 + (b as int - 0x80) * 0x40 + (c as int - 0x80)) as char)
  }

  /** How many bytes at the front of `v` are a space, 0 if none. */
  function SpaceInFront(v: string): (n: nat)
    ensures n <= 3 && n <= |v|
  {
    if |v| >= 1 && OneByteSpace(v[0]) then 1
    else if |v| >= 2 && TwoByteSpace(v[0], v[1]) then 2
    else if |v| >= 3 && ThreeByteSpace(v[0], v[1], v[2]) then 3
    else 0
  }

  /** The same at the end. */
  function SpaceAtEnd(v: string): (n: nat)
    ensures n <= 3 && n <= |v|
  {
    var k := |v|;
    if k >= 1 && OneByteSpace(v[k - 1]) then 1
    else if k >= 2 && TwoByteSpace(v[k - 2], v[k - 1]) then 2
    else if k >= 3 && ThreeByteSpace(v[k - 3], v[k - 2], v[k - 1]) then 3
    else 0
  }

  predicate IsPrintable(c: char) { ' ' < c < '\U{7F}' }

  lemma SpaceIsNotPrintable(v: string)
    ensures v != "" && IsPrintable(v[0]) ==> SpaceInFront(v) == 0
    ensures v != "" && IsPrintable(v[|v| - 1]) ==> SpaceAtEnd(v) == 0
  {}

  /** `strings.TrimSpace`. */
  function Trim(v: string): string
    decreases |v|
  {
    if SpaceInFront(v) > 0 then Trim(v[SpaceInFront(v)..])
    else if SpaceAtEnd(v) > 0 then Trim(v[..|v| - SpaceAtEnd(v)])
    else v
  }

  lemma {:induction false} TrimMeaning(v: string)
    ensures SpaceInFront(Trim(v)) == 0 == SpaceAtEnd(Trim(v))
    ensures SpaceInFront(v) == 0 == SpaceAtEnd(v) <==> Trim(v) == v
    ensures |Trim(v)| <= |v|
    decreases |v|
  {
    hide SpaceInFront, SpaceAtEnd;
    if SpaceInFront(v) > 0 {
      TrimMeaning(v[SpaceInFront(v)..]);
    } else if SpaceAtEnd(v) > 0 {
      TrimMeaning(v[..|v| - SpaceAtEnd(v)]);
    }
  }

  lemma TrimNothing()
    ensures Trim("") == ""
  {}

  /** A text that begins and ends with printable ASCII is kept as it stands. */
  lemma TrimKeeps(v: string)
    requires v == "" || (IsPrintable(v[0]) && IsPrintable(v[|v| - 1]))
    ensures Trim(v) == v
  {
    hide SpaceInFront, SpaceAtEnd, IsPrintable;
    SpaceIsNotPrintable(v);
  }

  predicate IsBlank(c: char) { c in [' ', '\t', '\n', '\r'] }

  lemma TrimStep(v: string)
    requires v != ""
    ensures IsBlank(v[0]) ==> Trim(v) == Trim(v[1..])
    ensures IsPrintable(v[0]) && IsBlank(v[|v| - 1]) ==> Trim(v) == Trim(v[..|v| - 1])
  {
    hide SpaceInFront, SpaceAtEnd, IsBlank;
    SpaceIsNotPrintable(v);
    BlankIsSpace(v);
  }

  lemma BlankIsSpace(v: string)
    requires v != ""
    ensures IsBlank(v[0]) ==> SpaceInFront(v) == 1
    ensures IsBlank(v[|v| - 1]) ==> SpaceAtEnd(v) == 1
  {}

  /** Blanks around printable text are what is taken away. */
  lemma {:induction false} TrimAround(a: string, x: string, b: string)
    requires x != "" && IsPrintable(x[0]) && IsPrintable(x[|x| - 1])
    requires (forall c | c in a :: IsBlank(c)) && forall c | c in b :: IsBlank(c)
    ensures Trim(a + x + b) == x
    decreases |a| + |b|
  {
    hide Trim, IsBlank;
    var v := a + x + b;
    if a != "" {
      assert v[0] == a[0] && a[0] in a && v[1..] == a[1..] + x + b;
      TrimAround(a[1..], x, b);
      TrimStep(v);
    } else if b != "" {
      var n := |b| - 1;
      assert v[0] == x[0] && v[|v| - 1] == b[n] && b[n] in b && v[..|v| - 1] == a + x + b[..n];
      TrimAround(a, x, b[..n]);
      TrimStep(v);
    } else {
      assert v == x;
      TrimKeeps(x);
    }
  }
}
