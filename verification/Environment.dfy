/**
 * `NAME=value command`: peeling the leading assignments off a command line,
 * setting them for the command's duration and putting the environment back.
 *
 * Main results: `RestHoldsTheOtherWordsExactlyWhen` and
 * `RestoreUndoesApplyExactlyWhen`.
 */
module Environment {
  import opened Quotes
  import opened Spaces
  import opened Wrappers
  import opened Words

  datatype Assignment = Assignment(name: string, value: string)
  type Env = map<string, string>

  // ----- peeling ----------------------------------------------------------------

  predicate IsNameStart(c: char) { 'a' <= c <= 'z' || 'A' <= c <= 'Z' || c == '_' }

  predicate ValidEnvName(v: string) {
    v != "" && IsNameStart(v[0]) && forall c | c in v :: IsNameStart(c) || '0' <= c <= '9'
  }

  /** `strings.Cut(word, "=")`, kept only when the part before is a variable name. */
  function AsAssignment(word: string): (r: Option<Assignment>)
    ensures r.Some? ==> word == r.value.name + "=" + r.value.value
  {
    var i := IndexOfEquals(word);
    if i < |word| && ValidEnvName(word[..i]) then
      assert word == word[..i] + [word[i]] + word[i + 1..];
      Some(Assignment(word[..i], word[i + 1..]))
    else None
  }

  function IndexOfEquals(word: string): (i: nat)
    ensures i <= |word| && (i < |word| ==> word[i] == '=') && '=' !in word[..i]
  {
    if word == "" || word[0] == '=' then 0
    else
      var i := IndexOfEquals(word[1..]);
      assert word[..i + 1] == [word[0]] + word[1..][..i];
      i + 1
  }

  /** The longest run of assignment words from `pos`, and where the word after it starts. */
  function Leading(raw: string, pos: nat): (r: (seq<Assignment>, nat))
    requires pos <= |raw|
    ensures r.1 <= |raw|
    decreases |raw| - pos
  {
    match NextWord(raw, pos)
    case None => ([], |raw|)
    case Some((word, start, end)) =>
      match AsAssignment(word)
      case None => ([], start)
      case Some(a) => var (more, stop) := Leading(raw, end); ([a] + more, stop)
  }

  method VirtualCommandEnvPrefix(raw: string) returns (rest: string, assigns: seq<Assignment>)
    ensures assigns == Leading(raw, 0).0
    ensures rest == if assigns == [] then raw else Trim(raw[Leading(raw, 0).1..])
  {
    hide WordFrom, SkipSeparators, NextWord, Trim;
    var pos := 0;
    assigns := [];
    assert [] + Leading(raw, 0).0 == Leading(raw, 0).0;
    while true
      invariant pos <= |raw|
      invariant (assigns + Leading(raw, pos).0, Leading(raw, pos).1) == Leading(raw, 0)
      decreases |raw| - pos
    {
      var word, start, end, ok := NextVirtualShellWord(raw, pos);
      NextWordBounds(raw, pos);
      if !ok {
        assert raw[|raw|..] == "";
        return if |assigns| > 0 then "" else raw, assigns;
      }
      var a := AsAssignment(word);
      if a == None {
        return if |assigns| == 0 then raw else Trim(raw[start..]), assigns;
      }
      ghost var more := Leading(raw, end);
      assert assigns + ([a.value] + more.0) == (assigns + [a.value]) + more.0;
      assigns := assigns + [a.value];
      pos := end;
    }
  }

  lemma NextWordBounds(raw: string, pos: nat)
    requires pos <= |raw|
    ensures NextWord(raw, pos).Some? ==> pos <= NextWord(raw, pos).value.1 < NextWord(raw, pos).value.2 <= |raw|
    ensures Trim("") == ""
  {}

  function Spelled(assigns: seq<Assignment>): seq<string> {
    if assigns == [] then [] else [assigns[0].name + "=" + assigns[0].value] + Spelled(assigns[1..])
  }

  /** The words of the line are the peeled ones, then those found after them. */
  lemma {:induction false} LeadingWords(raw: string, pos: nat)
    requires pos <= |raw|
    ensures var (assigns, stop) := Leading(raw, pos);
      AllWords(raw, pos) == Spelled(assigns) + AllWords(raw, stop)
    decreases |raw| - pos
  {
    hide NextWord;
    NextWordAgain(raw, pos);
    match NextWord(raw, pos)
    case None =>
    case Some((word, start, end)) =>
      if AsAssignment(word).Some? {
        LeadingWords(raw, end);
        var (more, stop) := Leading(raw, end);
        SpelledCons(AsAssignment(word).value, more);
      }
  }

  lemma SpelledCons(a: Assignment, more: seq<Assignment>)
    ensures Spelled([a] + more) == [a.name + "=" + a.value] + Spelled(more)
  {
    assert ([a] + more)[1..] == more;
  }

  lemma NextWordAgain(raw: string, pos: nat)
    requires pos <= |raw|
    ensures NextWord(raw, |raw|) == None
    ensures NextWord(raw, pos).Some? ==> NextWord(raw, NextWord(raw, pos).value.1) == NextWord(raw, pos)
  {
    hide WordFrom;
  }

  lemma {:induction false} EmitSuffix(raw: string, s: nat, i: nat, q: Quote)
    requires s + i <= |raw|
    ensures Emit(raw, s + i, q, true) == Emit(raw[s..], i, q, true)
    decreases |raw| - i
  {
    hide Emit;
    var t := raw[s..];
    if s + i == |raw| {
      assert i == |t|;
      EmitEnd(raw, q);
      EmitEnd(t, q);
    } else {
      assert StepOf(t, i, q) == StepOf(raw, s + i, q);
      match StepOf(t, i, q)
      case Into(q') => EmitSuffix(raw, s, i + 1, q');
      case Writes(_, len) => EmitSuffix(raw, s, i + len, q);
      case Stops => EmitSuffix(raw, s, i + 1, Bare);
    }
  }

  /** Bytes only get fewer when white space is dropped from the front of a command. */
  lemma {:induction false} TrimmedFront(v: string)
    requires SpaceAtEnd(v) == 0
    ensures Bytes(Emit(Trim(v), 0, Bare, true)) <= Bytes(Emit(v, 0, Bare, true))
    ensures SpaceInFront(v) > 0 && !IsSeparator(v[0], true) ==>
      Bytes(Emit(Trim(v), 0, Bare, true)) < Bytes(Emit(v, 0, Bare, true))
    decreases |v|
  {
    hide Emit, SpaceInFront, SpaceAtEnd;
    var n := SpaceInFront(v);
    if n > 0 {
      SpaceIsPlain(v);
      EndOfRest(v, n);
      TrimmedFront(v[n..]);
      PlainBytes(v, n);
    }
  }

  /** Neither quote nor escape: outside quotes such a byte stands for itself or is a separator. */
  predicate IsPlain(c: char) { c != '\'' && c != '"' && c != '\\' }

  lemma SpaceIsPlain(v: string)
    ensures forall i | 0 <= i < SpaceInFront(v) :: IsPlain(v[i])
  {}

  lemma EndOfRest(v: string, n: nat)
    requires n <= |v| && SpaceAtEnd(v) == 0
    ensures SpaceAtEnd(v[n..]) == 0
  {}

  lemma {:induction false} PlainBytes(v: string, n: nat)
    requires n <= |v| && forall i | 0 <= i < n :: IsPlain(v[i])
    ensures Bytes(Emit(v[n..], 0, Bare, true)) <= Bytes(Emit(v, 0, Bare, true))
    ensures n > 0 && !IsSeparator(v[0], true) ==>
      Bytes(Emit(v[n..], 0, Bare, true)) < Bytes(Emit(v, 0, Bare, true))
  {
    hide Emit;
    if n == 0 {
      assert v[0..] == v;
    } else {
      PlainByte(v);
      PlainBytes(v[1..], n - 1);
      assert v[1..][n - 1..] == v[n..];
    }
  }

  lemma PlainByte(v: string)
    requires v != "" && IsPlain(v[0])
    ensures Bytes(Emit(v, 0, Bare, true))
      == Bytes(Emit(v[1..], 0, Bare, true)) + if IsSeparator(v[0], true) then 0 else 1
  {
    hide Emit;
    EmitSuffix(v, 1, 0, Bare);
    match StepOf(v, 0, Bare)
    case Writes(b, len) => assert ([Byte(b)] + Emit(v, len, Bare, true))[1..] == Emit(v, len, Bare, true);
    case Stops => assert ([Break(v[0])] + Emit(v, 1, Bare, true))[1..] == Emit(v, 1, Bare, true);
    case Into(_) =>
  }

  /**
   * Every caller trims the line first. Then scanning what is left for the command
   * gives exactly the words that were not peeled, quotes and all, iff the command
   * does not start with white space that separates no words (a vertical tab, a form
   * feed, or a space beyond ASCII).
   */
  lemma RestHoldsTheOtherWordsExactlyWhen(raw: string)
    requires Trim(raw) == raw
    ensures var (assigns, stop) := Leading(raw, 0);
      AllWords(raw, 0) == Spelled(assigns) + AllWords(Trim(raw[stop..]), 0) <==> SpaceInFront(raw[stop..]) == 0
  {
    hide Trim, AllWords, Leading, SpaceInFront, SpaceAtEnd;
    var (assigns, stop) := Leading(raw, 0);
    var tail := raw[stop..];
    TrimMeaning(raw);
    EndOfRest(raw, stop);
    LeadingWords(raw, 0);
    CommandStart(raw, 0);
    SameWordsFrom(raw, stop);
    TrimmedWords(tail);
    if AllWords(raw, 0) == Spelled(assigns) + AllWords(Trim(tail), 0) {
      SameRest(Spelled(assigns), AllWords(tail, 0), AllWords(Trim(tail), 0));
    }
  }

  /** `A=1`, a blank, a vertical tab, `ls`: the vertical tab is part of the word and is trimmed away. */
  lemma VerticalTabIsLost()
    ensures var raw := "A=1 \U{B}ls"; var (assigns, stop) := Leading(raw, 0);
      && Trim(raw) == raw && assigns == [Assignment("A", "1")]
      && AllWords(raw, 0) != Spelled(assigns) + AllWords(Trim(raw[stop..]), 0)
  {
    hide Trim, AllWords, Leading, SpaceInFront, Spelled;
    var raw := "A=1 \U{B}ls";
    TrimKeeps(raw);
    PeeledOnce(raw);
    RestHoldsTheOtherWordsExactlyWhen(raw);
    TabInFront(raw[4..]);
  }

  lemma TabInFront(v: string)
    requires v != "" && v[0] == '\U{B}'
    ensures SpaceInFront(v) > 0
  {}

  lemma PeeledOnce(raw: string)
    requires raw == "A=1 \U{B}ls"
    ensures Leading(raw, 0) == ([Assignment("A", "1")], 4)
  {
    hide AsAssignment, NextWord;
    FirstWord(raw);
    SecondWord(raw);
    assert AsAssignment("A=1") == Some(Assignment("A", "1")) by { PlainAssignment("A=1"); }
    NoEquals("\U{B}ls");
    assert [Assignment("A", "1")] + [] == [Assignment("A", "1")];
  }

  lemma PlainAssignment(word: string)
    requires word == "A=1"
    ensures AsAssignment(word) == Some(Assignment("A", "1"))
  {
    assert word[1..][0] == '=';
    assert IndexOfEquals(word[1..]) == 0 && IndexOfEquals(word) == 1;
    assert word[..1] == "A" && word[2..] == "1";
  }

  lemma NoEquals(word: string)
    requires '=' !in word
    ensures AsAssignment(word) == None
  {}

  lemma FirstWord(raw: string)
    requires raw == "A=1 \U{B}ls"
    ensures NextWord(raw, 0) == Some(("A=1", 0, 3))
  {
    assert ['1'] + "" == "1" && ['='] + "1" == "=1" && ['A'] + "=1" == "A=1";
    assert WordFrom(raw, 2, Bare) == ("1", 3);
    assert WordFrom(raw, 1, Bare) == ("=1", 3);
  }

  lemma SecondWord(raw: string)
    requires raw == "A=1 \U{B}ls"
    ensures NextWord(raw, 3) == Some(("\U{B}ls", 4, 7))
  {
    assert ['s'] + "" == "s" && ['l'] + "s" == "ls" && ['\U{B}'] + "ls" == "\U{B}ls";
    assert WordFrom(raw, 6, Bare) == ("s", 7);
    assert WordFrom(raw, 5, Bare) == ("ls", 7);
    assert SkipSeparators(raw, 4) == 4;
  }

  lemma SameRest(a: seq<string>, b: seq<string>, c: seq<string>)
    requires a + b == a + c
    ensures b == c
  {
    assert b == (a + b)[|a|..] == (a + c)[|a|..] == c;
  }

  lemma SameWordsFrom(raw: string, stop: nat)
    requires stop <= |raw|
    ensures AllWords(raw, stop) == AllWords(raw[stop..], 0)
  {
    hide AllWords, Emit, Fields;
    EmitSuffix(raw, stop, 0, Bare);
    AllWordsAreFields(raw, stop);
    AllWordsAreFields(raw[stop..], 0);
  }

  lemma TrimmedWords(v: string)
    requires SpaceAtEnd(v) == 0 && (v != "" ==> !IsSeparator(v[0], true))
    ensures AllWords(v, 0) == AllWords(Trim(v), 0) <==> SpaceInFront(v) == 0
  {
    hide AllWords, Emit, Fields, Trim, SpaceInFront, SpaceAtEnd;
    TrimMeaning(v);
    AllWordsAreFields(v, 0);
    AllWordsAreFields(Trim(v), 0);
    if v != "" {
      TrimmedFront(v);
      SizeOfFields(Emit(v, 0, Bare, true), "");
      SizeOfFields(Emit(Trim(v), 0, Bare, true), "");
    }
  }

  /** The word after the assignments does not start on a separator. */
  lemma {:induction false} CommandStart(raw: string, pos: nat)
    requires pos <= |raw|
    ensures Leading(raw, pos).1 < |raw| ==> !IsSeparator(raw[Leading(raw, pos).1], true)
    decreases |raw| - pos
  {
    match NextWord(raw, pos)
    case None =>
    case Some((word, start, end)) => if AsAssignment(word).Some? { CommandStart(raw, end); }
  }

  // ----- the temporary environment ------------------------------------------------

  function Lookup(env: Env, name: string): Option<string> {
    if name in env then Some(env[name]) else None
  }

  /**
   * Expanding a text may run commands, which may change variables: it gives the
   * environment it leaves and the expanded text.
   */
  type Expansion = (Env, string) -> (Env, string)

  /** Assignments take effect one after the other; each value is expanded where it stands. */
  function Applied(env: Env, assigns: seq<Assignment>, expand: Expansion): Env {
    if assigns == [] then env
    else
      var a := assigns[|assigns| - 1];
      var (after, value) := expand(Applied(env, assigns[..|assigns| - 1], expand), a.value);
      after[a.name := value]
  }

  function Names(assigns: seq<Assignment>): set<string> {
    set a | a in assigns :: a.name
  }

  /** What a name stood for right before it was first assigned; or at the end, if it never was. */
  function Found(env: Env, assigns: seq<Assignment>, expand: Expansion, name: string): Option<string> {
    if assigns == [] then Lookup(env, name)
    else
      var front := assigns[..|assigns| - 1];
      if name in Names(front) || name == assigns[|assigns| - 1].name then Found(env, front, expand, name)
      else Lookup(Applied(env, assigns, expand), name)
  }

  function Saved(env: Env, assigns: seq<Assignment>, expand: Expansion): map<string, Option<string>> {
    map n | n in Names(assigns) :: Found(env, assigns, expand, n)
  }

  function Restored(env: Env, saved: map<string, Option<string>>): Env {
    map n | n in env.Keys + saved.Keys && (n in saved ==> saved[n].Some?) ::
      if n in saved then saved[n].value else env[n]
  }

  class World {
    var env: Env
    const expand: Expansion

    constructor (env: Env, expand: Expansion)
      ensures this.env == env && this.expand == expand
    {
      this.env, this.expand := env, expand;
    }

    method ApplyTemporaryEnv(assigns: seq<Assignment>) returns (saved: map<string, Option<string>>)
      modifies this`env
      ensures env == Applied(old(env), assigns, expand)
      ensures saved == Saved(old(env), assigns, expand)
    {
      hide Found, Names;
      saved := map[];
      NoNames();
      assert assigns[..0] == [];
      for i := 0 to |assigns|
        invariant env == Applied(old(env), assigns[..i], expand)
        invariant saved == Saved(old(env), assigns[..i], expand)
      {
        var a := assigns[i];
        assert assigns[..i + 1][..i] == assigns[..i];
        FoundStays(old(env), assigns[..i + 1], expand);
        UnseenIsFound(old(env), assigns[..i], expand, a.name);
        if a.name !in saved {
          saved := saved[a.name := Lookup(env, a.name)];
        }
        var (after, value) := expand(env, a.value);
        env := after[a.name := value];
      }
      assert assigns[..|assigns|] == assigns;
    }

    /** The closure returned to the caller; it visits the saved names in any order. */
    method Restore(saved: map<string, Option<string>>)
      modifies this`env
      ensures env == Restored(old(env), saved)
    {
      var todo := saved.Keys;
      while todo != {}
        invariant todo <= saved.Keys
        invariant forall n ::
          Lookup(env, n) == if n in saved && n !in todo then saved[n] else Lookup(old(env), n)
        decreases |todo|
      {
        var name :| name in todo;
        todo := todo - {name};
        match saved[name] {
          case Some(value) => env := env[name := value];
          case None => env := env - {name};
        }
      }
      forall n ensures Lookup(env, n) == Lookup(Restored(old(env), saved), n) {}
      SameLookups(env, Restored(old(env), saved));
    }
  }

  lemma NoNames()
    ensures Names([]) == {}
  {}

  lemma SameLookups(a: Env, b: Env)
    requires forall n :: Lookup(a, n) == Lookup(b, n)
    ensures a == b
  {
    forall n ensures n in a <==> n in b { assert Lookup(a, n) == Lookup(b, n); }
    forall n | n in a ensures a[n] == b[n] { assert Lookup(a, n) == Lookup(b, n); }
  }

  /** One more assignment: a name once saved stays as saved. */
  lemma FoundStays(env: Env, assigns: seq<Assignment>, expand: Expansion)
    requires assigns != []
    ensures var front, a := assigns[..|assigns| - 1], assigns[|assigns| - 1];
      && Names(assigns) == Names(front) + {a.name}
      && forall n | n in Names(assigns) :: Found(env, assigns, expand, n) == Found(env, front, expand, n)
  {
    assert assigns == assigns[..|assigns| - 1] + [assigns[|assigns| - 1]];
  }

  lemma UnseenIsFound(env: Env, assigns: seq<Assignment>, expand: Expansion, name: string)
    ensures name !in Names(assigns) ==>
      Found(env, assigns, expand, name) == Lookup(Applied(env, assigns, expand), name)
  {
    if assigns != [] { FoundStays(env, assigns, expand); }
  }

  /**
   * Restoring brings every assigned name back to what was found, and leaves the
   * rest as the command left it.
   */
  lemma RestoreBringsBackWhatWasFound(env: Env, assigns: seq<Assignment>, expand: Expansion, after: Env)
    ensures var back := Restored(after, Saved(env, assigns, expand));
      && (forall n | n in Names(assigns) :: Lookup(back, n) == Found(env, assigns, expand, n))
      && (forall n | n !in Names(assigns) :: Lookup(back, n) == Lookup(after, n))
  {
    hide Found, Names;
  }

  /**
   * Applying any assignments, repeated names included, and restoring gives the
   * environment back iff no expansion left a variable changed that was not assigned
   * by then.
   */
  lemma RestoreUndoesApplyExactlyWhen(env: Env, assigns: seq<Assignment>, expand: Expansion)
    ensures Restored(Applied(env, assigns, expand), Saved(env, assigns, expand)) == env
       <==> forall n :: Found(env, assigns, expand, n) == Lookup(env, n)
  {
    hide Found, Names, Restored, Saved, Lookup;
    var back := Restored(Applied(env, assigns, expand), Saved(env, assigns, expand));
    RestoreBringsBackWhatWasFound(env, assigns, expand, Applied(env, assigns, expand));
    forall n ensures Lookup(back, n) == Found(env, assigns, expand, n) {
      UnseenIsFound(env, assigns, expand, n);
    }
    if forall n :: Found(env, assigns, expand, n) == Lookup(env, n) { SameLookups(back, env); }
  }

  /** The expansion of the last value changes nothing but names that are assigned by then. */
  ghost predicate Contained(env: Env, assigns: seq<Assignment>, expand: Expansion)
    requires assigns != []
  {
    var prior := Applied(env, assigns[..|assigns| - 1], expand);
    var after := expand(prior, assigns[|assigns| - 1].value).0;
    forall n | n !in Names(assigns) :: Lookup(after, n) == Lookup(prior, n)
  }

  /** Enough for an exact restore; in particular, expansions that change nothing at all. */
  lemma {:induction false} ContainedIsUndone(env: Env, assigns: seq<Assignment>, expand: Expansion)
    requires forall i | 0 < i <= |assigns| :: Contained(env, assigns[..i], expand)
    ensures forall n :: Found(env, assigns, expand, n) == Lookup(env, n)
  {
    hide Names;
    if assigns != [] {
      var front := assigns[..|assigns| - 1];
      forall i | 0 < i <= |front| ensures Contained(env, front[..i], expand) { assert front[..i] == assigns[..i]; }
      ContainedIsUndone(env, front, expand);
      assert assigns[..|assigns|] == assigns;
      FoundStays(env, assigns, expand);
      forall n | n !in Names(assigns) ensures Found(env, assigns, expand, n) == Lookup(env, n) {
        UnseenIsFound(env, front, expand, n);
      }
    }
  }

  /** A name not assigned keeps its value while every expansion is contained. */
  lemma {:induction false} UnassignedStays(env: Env, assigns: seq<Assignment>, expand: Expansion, name: string)
    requires name !in Names(assigns)
    requires forall i | 0 < i <= |assigns| :: Contained(env, assigns[..i], expand)
    ensures Lookup(Applied(env, assigns, expand), name) == Lookup(env, name)
  {
    ContainedIsUndone(env, assigns, expand);
    UnseenIsFound(env, assigns, expand, name);
  }

  /** Expansion `i` changes a name that is not assigned by then. */
  ghost predicate Leaks(env: Env, assigns: seq<Assignment>, expand: Expansion, i: nat, name: string)
    requires 0 < i <= |assigns|
  {
    var prior := Applied(env, assigns[..i - 1], expand);
    name !in Names(assigns[..i]) && Lookup(expand(prior, assigns[i - 1].value).0, name) != Lookup(prior, name)
  }

  /** The other expansions are contained. */
  ghost predicate OthersContained(env: Env, assigns: seq<Assignment>, expand: Expansion, i: nat) {
    forall j | 0 < j <= |assigns| && j != i :: Contained(env, assigns[..j], expand)
  }

  lemma OthersOfFront(env: Env, assigns: seq<Assignment>, expand: Expansion, i: nat, k: nat)
    requires OthersContained(env, assigns, expand, i) && k <= |assigns|
    ensures OthersContained(env, assigns[..k], expand, i)
    ensures forall name | 0 < i <= k ::
      Leaks(env, assigns[..k], expand, i, name) == Leaks(env, assigns, expand, i, name)
  {
    forall j | 0 < j <= k ensures assigns[..k][..j] == assigns[..j] {}
    if 0 < i <= k { assert assigns[..k][..i - 1] == assigns[..i - 1] && assigns[..k][..i] == assigns[..i]; }
  }

  /** What the one leak changed stays changed as long as the name is not assigned. */
  lemma {:induction false} LeakStays(
    env: Env, assigns: seq<Assignment>, expand: Expansion, i: nat, name: string)
    requires 0 < i <= |assigns| && OthersContained(env, assigns, expand, i)
    requires Leaks(env, assigns, expand, i, name) && name !in Names(assigns)
    ensures Lookup(Applied(env, assigns, expand), name) != Lookup(env, name)
  {
    hide Names, Lookup;
    var n := |assigns| - 1;
    OthersOfFront(env, assigns, expand, i, n);
    FoundStays(env, assigns, expand);
    assert assigns[..n + 1] == assigns;
    OtherNameStays(env, assigns, expand, name);
    if i <= n {
      LeakStays(env, assigns[..n], expand, i, name);
      assert Contained(env, assigns[..n + 1], expand);
    } else {
      forall j | 0 < j <= n ensures Contained(env, assigns[..n][..j], expand) {}
      UnassignedStays(env, assigns[..n], expand, name);
    }
  }

  /** A name is changed by the expansion alone, if it is not the one assigned. */
  lemma OtherNameStays(env: Env, assigns: seq<Assignment>, expand: Expansion, name: string)
    requires assigns != [] && name != assigns[|assigns| - 1].name
    ensures var n := |assigns| - 1; var prior := Applied(env, assigns[..n], expand);
      Lookup(Applied(env, assigns, expand), name) == Lookup(expand(prior, assigns[n].value).0, name)
  {}

  lemma {:induction false} LeakIsFound(
    env: Env, assigns: seq<Assignment>, expand: Expansion, i: nat, name: string)
    requires 0 < i <= |assigns| && OthersContained(env, assigns, expand, i)
    requires Leaks(env, assigns, expand, i, name)
    ensures Found(env, assigns, expand, name) != Lookup(env, name)
  {
    hide Names;
    if name !in Names(assigns) {
      LeakStays(env, assigns, expand, i, name);
      UnseenIsFound(env, assigns, expand, name);
    } else {
      var n := |assigns| - 1;
      assert assigns[..n + 1] == assigns;
      OthersOfFront(env, assigns, expand, i, n);
      FoundStays(env, assigns, expand);
      LeakIsFound(env, assigns[..n], expand, i, name);
    }
  }

  /**
   * With the other expansions contained, the restore is exact iff the remaining one is
   * contained too.
   */
  lemma OneLeakIsNotUndone(env: Env, assigns: seq<Assignment>, expand: Expansion, i: nat)
    requires 0 < i <= |assigns| && OthersContained(env, assigns, expand, i)
    ensures Restored(Applied(env, assigns, expand), Saved(env, assigns, expand)) == env
       <==> Contained(env, assigns[..i], expand)
  {
    hide Found, Names, Restored, Saved, Lookup, Applied;
    RestoreUndoesApplyExactlyWhen(env, assigns, expand);
    if Contained(env, assigns[..i], expand) {
      ContainedIsUndone(env, assigns, expand);
    } else {
      var name := LeakingName(env, assigns, expand, i);
      LeakIsFound(env, assigns, expand, i, name);
    }
  }

  lemma LeakingName(env: Env, assigns: seq<Assignment>, expand: Expansion, i: nat) returns (name: string)
    requires 0 < i <= |assigns| && !Contained(env, assigns[..i], expand)
    ensures Leaks(env, assigns, expand, i, name)
  {
    hide Names, Lookup, Applied;
    assert assigns[..i][..i - 1] == assigns[..i - 1];
    var prior := Applied(env, assigns[..i - 1], expand);
    name :| name !in Names(assigns[..i]) && Lookup(expand(prior, assigns[i - 1].value).0, name) != Lookup(prior, name);
  }

  /** An expansion that knows of one substitution, which sets B and prints nothing. */
  function SetsB(env: Env, text: string): (Env, string) {
    if text == "$(B=1)" then (env["B" := "1"], "") else (env, text)
  }

  /**
   * `env A='$(B=1)' true`: the quotes keep the substitution for the expansion of A's
   * value, which sets a variable that is not put back.
   */
  lemma SubstitutionLeaks(env: Env)
    requires Lookup(env, "B") != Some("1")
    ensures var assigns := [Assignment("A", "$(B=1)")];
      var back := Restored(Applied(env, assigns, SetsB), Saved(env, assigns, SetsB));
      Lookup(back, "B") == Some("1") && Lookup(back, "A") == Lookup(env, "A") && back != env
  {
    var assigns := [Assignment("A", "$(B=1)")];
    assert assigns[..0] == [] && Names(assigns) == {"A"};
    RestoreBringsBackWhatWasFound(env, assigns, SetsB, Applied(env, assigns, SetsB));
    FoundStays(env, assigns, SetsB);
    assert Lookup(Applied(env, assigns, SetsB), "B") == Some("1");
  }

  // ----- what an assignment is, and what the command sees ---------------------------------------

  /**
   * A word is an assignment iff it is a name, an equals sign and a value, a name being
   * a letter or an underscore followed by letters, underscores and digits.
   */
  lemma AssignmentExactlyWhen(name: string, value: string)
    ensures AsAssignment(name + "=" + value) == Some(Assignment(name, value)) <==>
      && name != ""
      && (forall c | c in name :: 'a' <= c <= 'z' || 'A' <= c <= 'Z' || c == '_' || '0' <= c <= '9')
      && !('0' <= name[0] <= '9')
  {
    var word := name + "=" + value;
    if '=' !in name {
      FirstEquals(name, value);
      assert word[..|name|] == name && word[|name| + 1..] == value;
      if name != "" { assert name[0] in name; }
    }
  }

  lemma {:induction false} FirstEquals(name: string, value: string)
    requires '=' !in name
    ensures IndexOfEquals(name + "=" + value) == |name|
  {
    if name != "" {
      assert (name + "=" + value)[1..] == name[1..] + "=" + value;
      FirstEquals(name[1..], value);
    }
  }

  /** A word without an equals sign is none. */
  lemma NoEqualsNoAssignment(word: string)
    ensures '=' !in word ==> AsAssignment(word) == None
  {
    if '=' !in word { NoEquals(word); }
  }

  /** The last assignment to a name, its value expanded after the earlier ones took effect. */
  lemma {:induction false} CommandSees(env: Env, assigns: seq<Assignment>, expand: Expansion, name: string, i: nat)
    requires i < |assigns| && assigns[i].name == name && forall j | i < j < |assigns| :: assigns[j].name != name
    requires forall e: Env, text :: expand(e, text).0 == e
    ensures Lookup(Applied(env, assigns, expand), name)
         == Some(expand(Applied(env, assigns[..i], expand), assigns[i].value).1)
  {
    var n := |assigns| - 1;
    if i < n {
      CommandSees(env, assigns[..n], expand, name, i);
      assert assigns[..n][..i] == assigns[..i];
    }
  }

  /** A name that is not assigned is seen as it was. */
  lemma {:induction false} CommandSeesTheRest(env: Env, assigns: seq<Assignment>, expand: Expansion, name: string)
    requires forall j | 0 <= j < |assigns| :: assigns[j].name != name
    requires forall e: Env, text :: expand(e, text).0 == e
    ensures Lookup(Applied(env, assigns, expand), name) == Lookup(env, name)
  {
    if assigns != [] { CommandSeesTheRest(env, assigns[..|assigns| - 1], expand, name); }
  }
}
