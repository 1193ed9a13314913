/** `strings.Contains` and `strings.HasSuffix`. */
module Substrings {
  predicate OccursAt(s: string, q: string, i: nat) {
    i + |q| <= |s| && s[i..i + |q|] == q
  }

  predicate Contains(s: string, q: string) {
    exists i | 0 <= i <= |s| - |q| :: OccursAt(s, q, i)
  }

  predicate HasSuffix(s: string, q: string) {
    |q| <= |s| && s[|s| - |q|..] == q
  }

  /** `a` with `b` right behind it. */
  predicate HasPair(s: string, a: char, b: char) {
    exists i | 0 <= i < |s| - 1 :: s[i] == a && s[i + 1] == b
  }

  lemma ContainedPair(s: string, q: string, k: nat)
    requires Contains(s, q) && k + 1 < |q|
    ensures HasPair(s, q[k], q[k + 1])
  {
    var i :| 0 <= i <= |s| - |q| && OccursAt(s, q, i);
    assert s[i + k] == s[i..i + |q|][k] && s[i + k + 1] == s[i..i + |q|][k + 1];
  }

  lemma ContainedChar(s: string, q: string, k: nat)
    requires Contains(s, q) && k < |q|
    ensures q[k] in s
  {
    var i :| 0 <= i <= |s| - |q| && OccursAt(s, q, i);
    assert s[i + k] == s[i..i + |q|][k];
  }

  lemma SuffixEnd(s: string, q: string)
    requires HasSuffix(s, q) && q != ""
    ensures s[|s| - 1] == q[|q| - 1]
  {
    assert s[|s| - |q|..][|q| - 1] == q[|q| - 1];
  }

  /** A text contains another iff it is that text with something before and behind it. */
  lemma ContainsMeaning(s: string, q: string) returns (a: string, b: string)
    ensures Contains(s, q) ==> s == a + q + b
  {
    a, b := "", "";
    if Contains(s, q) {
      var i :| 0 <= i <= |s| - |q| && OccursAt(s, q, i);
      a, b := s[..i], s[i + |q|..];
    }
  }

  lemma MiddleIsContained(a: string, q: string, b: string)
    ensures Contains(a + q + b, q)
  {
    assert (a + q + b)[|a|..|a| + |q|] == q;
    assert OccursAt(a + q + b, q, |a|);
  }
}
