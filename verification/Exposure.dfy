/**
 * Exposure budgets: which of a list of candidate paths a target shows, chosen by
 * stepping through the list from a seed: the profile's 32-bit seed with the hash of
 * a salt mixed in.
 *
 * `BudgetIsSpentExactlyWhen` counts the exposed candidates for every seed,
 * `ExactlyTwoClasses` and `ExactlyTwoAliases` those of two fixed lists.
 */
module Exposure {
  import opened Substrings
  import opened Wrappers

  type seed32 = x: int | 0 <= x < 0x1_0000_0000

  function First(seed: seed32, n: nat): nat
    requires n > 0
  {
    seed % n
  }

  function Stride(seed: seed32, n: nat): nat
    requires n > 1
  {
    1 + seed / 0x80 % (n - 1)
  }

  /** Back to the front of a list of `n` when its end is passed. */
  function Around(x: nat, n: nat): (i: nat)
    requires n > 0
    ensures i < n
  {
    x % n
  }

  /** The candidate reached after `k` strides. */
  function Pick(seed: seed32, n: nat, k: nat): (i: nat)
    requires n > 1
    ensures i < n
  {
    if k == 0 then First(seed, n) else Around(Pick(seed, n, k - 1) + Stride(seed, n), n)
  }

  /** `profile` is the target's seed, if there is one, and `salted` mixes the hash of the salt into it. */
  method StoryBudgetAllows(
    profile: Option<seed32>, salted: seed32 -> seed32, p: string, candidates: seq<string>, maxActive: int)
    returns (allowed: bool)
    ensures profile == None || candidates == [] || maxActive <= 0 ==> !allowed
    ensures profile.Some? && maxActive >= |candidates| > 0 ==> allowed == (p in candidates)
    ensures profile.Some? && 0 < maxActive < |candidates| ==>
      allowed == (p in Shown(salted(profile.value), candidates, maxActive))
  {
    hide Stride;
    if profile == None || |candidates| == 0 || maxActive <= 0 {
      return false;
    }
    var n := |candidates|;
    if maxActive >= n {
      return p in candidates;
    }
    var seed := salted(profile.value);
    var first := seed % n;
    if p == candidates[first] {
      PickIsShown(seed, candidates, maxActive, 0);
      return true;
    }
    if maxActive == 1 {
      OnlyPicksAreShown(seed, candidates, 1, p);
      return false;
    }
    var step := Stride(seed, n);
    var idx := first;
    for i := 1 to maxActive
      invariant idx == Pick(seed, n, i - 1)
      invariant forall k | 0 <= k < i :: p != candidates[Pick(seed, n, k)]
    {
      idx := (idx + step) % n;
      assert idx == Pick(seed, n, i);
      if p == candidates[idx] {
        PickIsShown(seed, candidates, maxActive, i);
        return true;
      }
    }
    OnlyPicksAreShown(seed, candidates, maxActive, p);
    return false;
  }

  lemma PickIsShown(seed: seed32, candidates: seq<string>, m: nat, k: nat)
    requires |candidates| > 1 && k < m
    ensures candidates[Pick(seed, |candidates|, k)] in Shown(seed, candidates, m)
  {
    hide Pick;
    assert Pick(seed, |candidates|, k) in Exposed(seed, |candidates|, m);
  }

  lemma OnlyPicksAreShown(seed: seed32, candidates: seq<string>, m: nat, p: string)
    requires |candidates| > 1
    requires forall k | 0 <= k < m :: p != candidates[Pick(seed, |candidates|, k)]
    ensures p !in Shown(seed, candidates, m)
  {
    hide Pick;
  }

  /** The positions exposed under a budget of `m`. */
  ghost function Exposed(seed: seed32, n: nat, m: nat): set<nat>
    requires n > 1
  {
    set k | 0 <= k < m :: Pick(seed, n, k)
  }

  // ----- counting --------------------------------------------------------------------

  lemma ModUnique(x: int, n: nat, q: int, r: nat)
    requires x == n * q + r && r < n
    ensures x % n == r
  {
    var d := x / n - q;
    assert n * d == r - x % n;
    SmallMultiple(n, d);
  }

  lemma SmallMultiple(n: nat, d: int)
    requires 0 - n < n * d < n
    ensures d == 0
  {}

  lemma ModCongruent(x: int, y: int, n: nat)
    requires n > 0
    ensures x % n == y % n <==> (y - x) % n == 0
  {
    var q := y / n - x / n;
    assert y - x == n * q + (y % n - x % n);
    if x % n == y % n { ModUnique(y - x, n, q, 0); }
    if (y - x) % n == 0 {
      var t := (y - x) / n;
      assert y == n * (x / n + t) + x % n;
      ModUnique(y, n, x / n + t, x % n);
    }
  }

  /** The position before reduction: the start and `k` strides. */
  function Walked(seed: seed32, n: nat, k: nat): nat
    requires n > 1
  {
    First(seed, n) + k * Stride(seed, n)
  }

  lemma WalkedStep(seed: seed32, n: nat, k: nat)
    requires n > 1
    ensures Walked(seed, n, 0) == First(seed, n)
    ensures Walked(seed, n, k + 1) == Walked(seed, n, k) + Stride(seed, n)
  {
    hide First, Stride;
    var s := Stride(seed, n);
    assert (k + 1) * s == k * s + s;
  }

  lemma {:induction false} PickIsLinear(seed: seed32, n: nat, k: nat)
    requires n > 1
    ensures Pick(seed, n, k) == Around(Walked(seed, n, k), n)
    ensures Pick(seed, n, k) == (seed % n + k * (1 + seed / 128 % (n - 1))) % n
  {
    assert Around(Walked(seed, n, k), n) == (seed % n + k * (1 + seed / 128 % (n - 1))) % n;
    hide Walked, Stride, First, Around;
    if k == 0 {
      WalkedStep(seed, n, 0);
      FirstFits(seed, n);
    } else {
      PickIsLinear(seed, n, k - 1);
      WalkedStep(seed, n, k - 1);
      ModOfSum(Walked(seed, n, k - 1), Stride(seed, n), n);
    }
  }

  lemma FirstFits(seed: seed32, n: nat)
    requires n > 1
    ensures Around(First(seed, n), n) == First(seed, n)
  {}

  lemma ModOfSum(x: nat, s: nat, n: nat)
    requires n > 0
    ensures Around(Around(x, n) + s, n) == Around(x + s, n)
  {
    ModCongruent(x % n + s, x + s, n);
    assert x - x % n == n * (x / n);
    ModUnique(x - x % n, n, x / n, 0);
  }

  /** Two picks meet iff the list is crossed a whole number of times between them. */
  lemma PicksMeet(seed: seed32, n: nat, a: nat, b: nat)
    requires n > 1 && a <= b
    ensures Pick(seed, n, a) == Pick(seed, n, b) <==> (b - a) * Stride(seed, n) % n == 0
  {
    hide First, Stride, Pick;
    PickIsLinear(seed, n, a);
    PickIsLinear(seed, n, b);
    ModCongruent(Walked(seed, n, a), Walked(seed, n, b), n);
    Difference(seed, n, a, b);
  }

  lemma Difference(seed: seed32, n: nat, a: nat, b: nat)
    requires n > 1 && a <= b
    ensures Walked(seed, n, b) - Walked(seed, n, a) == (b - a) * Stride(seed, n)
  {
    hide First, Stride;
  }

  predicate Returns(seed: seed32, n: nat, d: nat)
    requires n > 1
  {
    d * Stride(seed, n) % n == 0
  }

  /** Within the first `m` picks the walk does not come back to where it was. */
  ghost predicate NoReturn(seed: seed32, n: nat, m: nat)
    requires n > 1
  {
    forall d | 0 < d < m :: !Returns(seed, n, d)
  }

  // ----- when the walk comes back ---------------------------------------------------------

  function Gcd(a: nat, b: nat): (g: nat)
    ensures a + b > 0 ==> g > 0
    decreases b
  {
    if b == 0 then a else Gcd(b, a % b)
  }

  /** The greatest common divisor divides both numbers and is a combination of them. */
  lemma {:induction false} Bezout(a: nat, b: nat) returns (a': nat, b': nat, x: int, y: int)
    requires a > 0
    ensures var g := Gcd(a, b); a == g * a' && b == g * b' && a' * x + b' * y == 1
    decreases b
  {
    if b == 0 {
      return 1, 0, 1, 0;
    }
    var b1, r1, u, v := Bezout(b, a % b);
    BezoutStep(a, b, a / b, a % b, Gcd(a, b), b1, r1, u, v);
    return a / b * b1 + r1, b1, v, u - a / b * v;
  }

  lemma BezoutStep(a: nat, b: nat, q: nat, r: nat, g: nat, b': nat, r': nat, u: int, v: int)
    requires a == q * b + r && b == g * b' && r == g * r' && b' * u + r' * v == 1
    ensures a == g * (q * b' + r')
    ensures (q * b' + r') * v + b' * (u - q * v) == 1
  {
  }

  /** `d` strides of `s` cross a list of `n` a whole number of times iff `d` is a multiple of n / gcd. */
  lemma MultipleOfPeriod(n: nat, s: nat, d: nat)
    requires n > 0
    ensures n / Gcd(n, s) > 0
    ensures d * s % n == 0 <==> d % (n / Gcd(n, s)) == 0
  {
    hide Gcd;
    var g := Gcd(n, s);
    var n', s', x, y := Bezout(n, s);
    Quotient(n, g, n');
    if d * s % n == 0 { MultipleIfReturned(d, n, s, g, n', s', x, y); }
    if d % n' == 0 { ReturnedIfMultiple(d, n, s, g, n', s'); }
  }

  lemma MultipleIfReturned(d: nat, n: nat, s: nat, g: nat, n': nat, s': nat, x: int, y: int)
    requires g > 0 && n > 0 && n' > 0 && n == g * n' && s == g * s' && n' * x + s' * y == 1
    requires d * s % n == 0
    ensures d % n' == 0
  {
    var q := d * s / n;
    WholeQuotient(d * s, n);
    Regroup(g, d, s, s', n, n', q);
    Combine(d, n', s', x, y, q);
    IsMultiple(d, n', d * x + q * y);
  }

  lemma ReturnedIfMultiple(d: nat, n: nat, s: nat, g: nat, n': nat, s': nat)
    requires g > 0 && n > 0 && n' > 0 && n == g * n' && s == g * s' && d % n' == 0
    ensures d * s % n == 0
  {
    var k := d / n';
    WholeQuotient(d, n');
    Expand(d, s, n, n', s', g, k);
    IsMultiple(d * s, n, k * s');
  }

  lemma WholeQuotient(a: nat, n: nat)
    requires n > 0 && a % n == 0
    ensures a == n * (a / n)
  {}

  lemma Quotient(n: nat, g: nat, n': nat)
    requires n > 0 && g > 0 && n == g * n'
    ensures n' > 0 && n / g == n'
  {
    SmallMultiple(g, n / g - n');
  }

  lemma Regroup(g: int, d: int, s: int, s': int, n: int, n': int, q: int)
    requires g > 0 && s == g * s' && n == g * n' && d * s == n * q
    ensures d * s' == n' * q
  {
    assert g * (d * s') == d * s;
    assert g * (n' * q) == n * q;
    Cancel(g, d * s', n' * q);
  }

  lemma Cancel(g: int, a: int, b: int)
    requires g > 0 && g * a == g * b
    ensures a == b
  {}

  lemma Combine(d: int, n: int, s: int, x: int, y: int, q: int)
    requires n * x + s * y == 1 && d * s == n * q
    ensures d == n * (d * x + q * y)
  {
    calc {
      d;
      d * (n * x + s * y);
      n * (d * x) + d * s * y;
      n * (d * x) + n * q * y;
      n * (d * x + q * y);
    }
  }

  lemma Expand(d: int, s: int, n: int, n': int, s': int, g: int, k: int)
    requires s == g * s' && n == g * n' && d == n' * k
    ensures d * s == n * (k * s')
  {}

  lemma IsMultiple(a: int, n: nat, k: int)
    requires n > 0 && a == n * k
    ensures a % n == 0
  {
    ModUnique(a, n, k, 0);
  }

  /** How many picks there are before the walk is back at its start. */
  function Period(seed: seed32, n: nat): nat
    requires n > 1
  {
    n / Gcd(n, Stride(seed, n))
  }

  /** The first `m` picks are all different iff `m` is at most the period. */
  lemma NoReturnExactlyWhen(seed: seed32, n: nat, m: nat)
    requires n > 1
    ensures NoReturn(seed, n, m) <==> m <= Period(seed, n)
  {
    hide Period, Returns;
    PeriodReturns(seed, n, Period(seed, n));
    if m <= Period(seed, n) {
      forall d | 0 < d < m ensures !Returns(seed, n, d) { PeriodReturns(seed, n, d); }
    }
  }

  lemma PeriodReturns(seed: seed32, n: nat, d: nat)
    requires n > 1
    ensures Period(seed, n) > 0
    ensures d == Period(seed, n) ==> Returns(seed, n, d)
    ensures 0 < d < Period(seed, n) ==> !Returns(seed, n, d)
  {
    hide Stride, Gcd;
    MultipleOfPeriod(n, Stride(seed, n), d);
    BelowPeriod(d, Period(seed, n));
  }

  lemma BelowPeriod(d: nat, period: nat)
    requires period > 0
    ensures d < period ==> d % period == d
    ensures period % period == 0
  {}

  lemma {:induction false} ExposedSize(seed: seed32, n: nat, m: nat)
    requires n > 1 && m > 0
    ensures 1 <= |Exposed(seed, n, m)| <= m
    ensures |Exposed(seed, n, m)| == m <==> NoReturn(seed, n, m)
  {
    if m == 1 {
      assert Exposed(seed, n, 1) == {Pick(seed, n, 0)};
    } else {
      ExposedSize(seed, n, m - 1);
      var last := Pick(seed, n, m - 1);
      assert Exposed(seed, n, m) == Exposed(seed, n, m - 1) + {last};
      forall k | 0 <= k < m - 1 ensures Pick(seed, n, k) == last <==> Returns(seed, n, m - 1 - k) {
        PicksMeet(seed, n, k, m - 1);
      }
      if last in Exposed(seed, n, m - 1) {
        var k :| 0 <= k < m - 1 && Pick(seed, n, k) == last;
        assert Returns(seed, n, m - 1 - k);
        assert Exposed(seed, n, m) == Exposed(seed, n, m - 1);
      } else {
        forall d | 0 < d < m ensures !Returns(seed, n, d) {
          assert Pick(seed, n, m - 1 - d) in Exposed(seed, n, m - 1);
        }
      }
    }
  }

  /** The paths a target shows. */
  ghost function Shown(seed: seed32, candidates: seq<string>, m: nat): set<string>
    requires |candidates| > 1
  {
    set i | i in Exposed(seed, |candidates|, m) :: candidates[i]
  }

  ghost predicate Distinct(list: seq<string>) {
    forall i, j | 0 <= i < j < |list| :: list[i] != list[j]
  }

  lemma {:induction false} DistinctImage(candidates: seq<string>, s: set<nat>)
    requires Distinct(candidates)
    requires forall i | i in s :: i < |candidates|
    ensures |set i | i in s :: candidates[i]| == |s|
    decreases |s|
  {
    var image := set i | i in s :: candidates[i];
    if s != {} {
      var x :| x in s;
      DistinctImage(candidates, s - {x});
      assert image == (set i | i in s - {x} :: candidates[i]) + {candidates[x]};
    } else {
      assert image == {};
    }
  }

  /**
   * With distinct candidates a budget of m < n shows at least one and at most m of
   * them, and exactly m iff m is at most the period n / gcd(n, stride); a budget of two is
   * always spent.
   */
  lemma BudgetIsSpentExactlyWhen(seed: seed32, candidates: seq<string>, m: nat)
    requires Distinct(candidates)
    requires 0 < m < |candidates|
    ensures 1 <= |Shown(seed, candidates, m)| <= m
    ensures |Shown(seed, candidates, m)| == m <==> m <= Period(seed, |candidates|)
    ensures m == 2 ==> |Shown(seed, candidates, m)| == 2
  {
    hide Pick, Returns, Period;
    var n := |candidates|;
    NoReturnExactlyWhen(seed, n, m);
    ExposedSize(seed, n, m);
    DistinctImage(candidates, Exposed(seed, n, m));
    OneStrideMoves(seed, n);
  }

  lemma OneStrideMoves(seed: seed32, n: nat)
    requires n > 1
    ensures !Returns(seed, n, 1)
  {
    assert 0 < 1 * Stride(seed, n) < n;
  }

  // ----- the two fixed lists ----------------------------------------------------------------

  const SENSITIVE: seq<string> := ["credential", "infrastructure-state", "cicd", "cloud-credential", "app-secret"]

  predicate SensitiveExposureAllowed(seed: seed32, class_: string) {
    class_ == "" ||
    var first := seed % 5;
    var second := (first + 1 + seed / 0x100 % 4) % 5;
    class_ == SENSITIVE[first] || class_ == SENSITIVE[second]
  }

  const ALIASES: seq<string> := [
    "/keys/service-account.json", "/service-account.json", "/service_account.json",
    "/gcp-credentials.json", "/google-credentials.json", "/firebase-admin.json",
    "/sa.json", "/config/gcp-credentials.json", "/google-service-account.json",
    "/application_default_credentials.json"]

  /** Positions of the primary service-account artifact and of its copy. */
  function AliasPair(seed: seed32): (r: (nat, nat))
    ensures r.0 < 10 && r.1 < 10 && r.0 != r.1
  {
    var idx := seed % 10;
    var idx2 := seed / 0x80 % 10;
    (idx, if idx2 == idx then (idx2 + 3) % 10 else idx2)
  }

  /** Credentials that are not under this budget, recognised by name. */
  predicate OtherFamily(p: string) {
    || Contains(p, "/.aws/") || Contains(p, "rclone.conf") || HasSuffix(p, ".npmrc") || HasSuffix(p, ".netrc")
    || Contains(p, "openai") || Contains(p, "anthropic") || Contains(p, "claude")
  }

  /** `p` is a canonical path in lower case. */
  predicate CloudAliasAllowed(seed: seed32, p: string) {
    p == ALIASES[AliasPair(seed).0] || p == ALIASES[AliasPair(seed).1] || OtherFamily(p)
  }

  lemma PairHasTwo(list: seq<string>, a: nat, b: nat, shown: set<string>)
    requires Distinct(list) && a < |list| && b < |list| && a != b
    requires forall p :: p in shown <==> p in list && (p == list[a] || p == list[b])
    ensures |shown| == 2
  {
    assert shown == {list[a], list[b]};
  }

  /** Every target shows exactly two of the five sensitive classes. */
  lemma ExactlyTwoClasses(seed: seed32)
    ensures |set c | c in SENSITIVE && SensitiveExposureAllowed(seed, c)| == 2
    ensures forall c :: SensitiveExposureAllowed(seed, c) <==>
      c == "" || c in [SENSITIVE[seed % 5], SENSITIVE[(seed % 5 + 1 + seed / 256 % 4) % 5]]
  {
    var first := seed % 5;
    var second := (first + 1 + seed / 0x100 % 4) % 5;
    PairHasTwo(SENSITIVE, first, second, set c | c in SENSITIVE && SensitiveExposureAllowed(seed, c));
  }

  // What keeps the aliases apart from the other families: none holds a `w` or an `h`, nor
  // `rc`, `op` or `ud`, and none ends in `c`.

  lemma NoW1() ensures forall p | p in ALIASES[..4] :: 'w' !in p {}
  lemma NoW2() ensures forall p | p in ALIASES[4..8] :: 'w' !in p {}
  lemma NoW3() ensures forall p | p in ALIASES[8..] :: 'w' !in p {}
  lemma NoH1() ensures forall p | p in ALIASES[..4] :: 'h' !in p {}
  lemma NoH2() ensures forall p | p in ALIASES[4..8] :: 'h' !in p {}
  lemma NoH3() ensures forall p | p in ALIASES[8..] :: 'h' !in p {}
  lemma NoRc1() ensures forall p | p in ALIASES[..4] :: !HasPair(p, 'r', 'c') {}
  lemma NoRc2() ensures forall p | p in ALIASES[4..8] :: !HasPair(p, 'r', 'c') {}
  lemma NoRc3() ensures forall p | p in ALIASES[8..] :: !HasPair(p, 'r', 'c') {}
  lemma NoOp1() ensures forall p | p in ALIASES[..4] :: !HasPair(p, 'o', 'p') {}
  lemma NoOp2() ensures forall p | p in ALIASES[4..8] :: !HasPair(p, 'o', 'p') {}
  lemma NoOp3() ensures forall p | p in ALIASES[8..] :: !HasPair(p, 'o', 'p') {}
  lemma NoUd1() ensures forall p | p in ALIASES[..4] :: !HasPair(p, 'u', 'd') {}
  lemma NoUd2() ensures forall p | p in ALIASES[4..8] :: !HasPair(p, 'u', 'd') {}
  lemma NoUd3() ensures forall p | p in ALIASES[8..] :: !HasPair(p, 'u', 'd') {}

  lemma AliasesDiffer()
    ensures Distinct(ALIASES) && |ALIASES| == 10 && forall p | p in ALIASES :: p != "" && p[|p| - 1] == 'n'
  {}

  lemma NotByChar(p: string)
    requires 'w' !in p && 'h' !in p
    ensures !Contains(p, "/.aws/") && !Contains(p, "anthropic")
  {
    hide Contains;
    if Contains(p, "/.aws/") { ContainedChar(p, "/.aws/", 3); }
    if Contains(p, "anthropic") { ContainedChar(p, "anthropic", 3); }
  }

  lemma NotByPair(p: string)
    requires !HasPair(p, 'r', 'c') && !HasPair(p, 'o', 'p') && !HasPair(p, 'u', 'd')
    ensures !Contains(p, "rclone.conf") && !Contains(p, "openai") && !Contains(p, "claude")
  {
    hide Contains, HasPair;
    if Contains(p, "rclone.conf") { ContainedPair(p, "rclone.conf", 0); }
    if Contains(p, "openai") { ContainedPair(p, "openai", 0); }
    if Contains(p, "claude") { ContainedPair(p, "claude", 3); }
  }

  lemma NotByEnd(p: string)
    requires p != "" && p[|p| - 1] == 'n'
    ensures !HasSuffix(p, ".npmrc") && !HasSuffix(p, ".netrc")
  {
    hide HasSuffix;
    if HasSuffix(p, ".npmrc") { SuffixEnd(p, ".npmrc"); }
    if HasSuffix(p, ".netrc") { SuffixEnd(p, ".netrc"); }
  }

  /** No alias is recognised as another family's. */
  lemma AliasIsOfNoOtherFamily(p: string)
    requires p in ALIASES
    ensures !OtherFamily(p)
  {
    hide Contains, HasSuffix, HasPair;
    AliasesDiffer();
    NoW1(); NoW2(); NoW3(); NoH1(); NoH2(); NoH3();
    NoRc1(); NoRc2(); NoRc3(); NoOp1(); NoOp2(); NoOp3(); NoUd1(); NoUd2(); NoUd3();
    InParts(ALIASES, p, 4, 8);
    hide ALIASES;
    NotByChar(p);
    NotByPair(p);
    NotByEnd(p);
  }

  lemma InParts(list: seq<string>, p: string, i: nat, j: nat)
    requires p in list && i <= j <= |list|
    ensures p in list[..i] || p in list[i..j] || p in list[j..]
  {}

  /** Which two aliases: the seed picks one, its higher bits the other, three further on if that is the same. */
  lemma AliasesByNumber(seed: seed32)
    ensures AliasPair(seed).0 == seed % 10
    ensures AliasPair(seed).1 == (if seed / 128 % 10 == seed % 10 then (seed % 10 + 3) % 10 else seed / 128 % 10)
    ensures |ALIASES| == 10
    ensures forall p | p in ALIASES ::
      CloudAliasAllowed(seed, p) <==> p == ALIASES[AliasPair(seed).0] || p == ALIASES[AliasPair(seed).1]
  {
    hide OtherFamily, ALIASES, AliasPair;
    AliasesDiffer();
    SecondByNumber(seed);
    forall p | p in ALIASES ensures !OtherFamily(p) { AliasIsOfNoOtherFamily(p); }
  }

  lemma SecondByNumber(seed: seed32)
    ensures AliasPair(seed) ==
      (seed % 10, if seed / 128 % 10 == seed % 10 then (seed % 10 + 3) % 10 else seed / 128 % 10)
  {}

  /** A path of another family is shown whatever the seed. */
  lemma OtherFamiliesAreShown(seed: seed32, a: string, b: string)
    ensures forall m | m in ["/.aws/", "rclone.conf", "openai", "anthropic", "claude"] ::
      CloudAliasAllowed(seed, a + m + b)
    ensures CloudAliasAllowed(seed, a + ".npmrc") && CloudAliasAllowed(seed, a + ".netrc")
  {
    hide Contains, ALIASES, AliasPair;
    forall m | m in ["/.aws/", "rclone.conf", "openai", "anthropic", "claude"] ensures Contains(a + m + b, m) {
      MiddleIsContained(a, m, b);
    }
  }

  /** And exactly two of the ten aliases. */
  lemma ExactlyTwoAliases(seed: seed32)
    ensures |set p | p in ALIASES && CloudAliasAllowed(seed, p)| == 2
  {
    hide OtherFamily;
    var (a, b) := AliasPair(seed);
    AliasesDiffer();
    forall p | p in ALIASES ensures !OtherFamily(p) { AliasIsOfNoOtherFamily(p); }
    PairHasTwo(ALIASES, a, b, set p | p in ALIASES && CloudAliasAllowed(seed, p));
  }
}
