/**
 * int64 numbers and their texts, as Go's `strconv` reads and writes them.
 *
 * `ParseIntReadsFormatted` is the round trip; it holds for every int64, while the
 * unsigned literals of an expression stop at the largest one (`UnfitLiterals`).
 */
module Numbers {
  import opened Wrappers

  const MIN_INT64: int := -0x8000_0000_0000_0000
  const MAX_INT64: int := 0x7fff_ffff_ffff_ffff

  type int64 = x: int | MIN_INT64 <= x <= MAX_INT64

  function DigitValue(c: char): nat {
    if '0' <= c <= '9' then c as int - '0' as int
    else if 'a' <= c <= 'f' then c as int - 'a' as int + 10
    else if 'A' <= c <= 'F' then c as int - 'A' as int + 10
    else 99
  }

  function Magnitude(digits: string, base: nat): nat {
    if digits == [] then 0
    else Magnitude(digits[..|digits| - 1], base) * base + DigitValue(digits[|digits| - 1])
  }

  /** `strconv.ParseInt(token, 0, 64)` on the tokens the scanner can produce. */
  function LiteralValue(token: string): Option<int64> {
    if token == "" then None else
    var hex := |token| >= 3 && token[0] == '0' && (token[1] == 'x' || token[1] == 'X');
    var base := if hex then 16 else if token[0] == '0' then 8 else 10;
    var digits := if hex then token[2..] else if token[0] == '0' then token[1..] else token;
    if (forall c | c in digits :: DigitValue(c) < base) && Magnitude(digits, base) <= MAX_INT64
    then Some(Magnitude(digits, base)) else None
  }

  // ----- decimal texts ---------------------------------------------------------------
  function Decimal(n: nat): (s: string)
    ensures s != "" && forall c | c in s :: '0' <= c <= '9'
  {
    if n < 10 then [('0' as int + n) as char] else Decimal(n / 10) + [('0' as int + n % 10) as char]
  }

  /** `strconv.FormatInt(v, 10)` */
  function FormatInt(v: int): (s: string)
    ensures s != "" && forall c | c in s :: '0' <= c <= '9' || c == '-'
  {
    if v < 0 then "-" + Decimal(-v) else Decimal(v)
  }

  lemma {:induction false} DecimalMagnitude(n: nat)
    ensures Magnitude(Decimal(n), 10) == n
    ensures n > 0 ==> Decimal(n)[0] != '0'
  {
    if n >= 10 {
      DecimalMagnitude(n / 10);
      var s := Decimal(n);
      assert s[..|s| - 1] == Decimal(n / 10);
    } else {
      assert Decimal(n)[..0] == "";
      assert Magnitude("", 10) == 0;
    }
  }

  lemma DigitAppended(s: string, c: char)
    ensures Magnitude(s + [c], 10) == Magnitude(s, 10) * 10 + DigitValue(c)
  {
    assert (s + [c])[..|s|] == s;
  }

  lemma ThreeDigits(s: string, a: char, b: char, c: char, t: string)
    requires t == s + [a, b, c]
    ensures Magnitude(t, 10) == Magnitude(s, 10) * 1000 + DigitValue(a) * 100 + DigitValue(b) * 10 + DigitValue(c)
  {
    hide Magnitude, DigitValue;
    DigitAppended(s, a);
    DigitAppended(s + [a], b);
    DigitAppended(s + [a] + [b], c);
    assert t == s + [a] + [b] + [c];
  }

  lemma LargeMagnitudes()
    ensures Magnitude("9223372036854775807", 10) == MAX_INT64
    ensures Magnitude("9223372036854775808", 10) == MAX_INT64 + 1
  {
    hide Magnitude;
    DigitAppended("", '9');
    assert Magnitude("9", 10) == 9 by { MagnitudeOfNothing(); assert "" + ['9'] == "9"; }
    ThreeDigits("9", '2', '2', '3', "9223");
    ThreeDigits("9223", '3', '7', '2', "9223372");
    ThreeDigits("9223372", '0', '3', '6', "9223372036");
    ThreeDigits("9223372036", '8', '5', '4', "9223372036854");
    ThreeDigits("9223372036854", '7', '7', '5', "9223372036854775");
    ThreeDigits("9223372036854775", '8', '0', '7', "9223372036854775807");
    ThreeDigits("9223372036854775", '8', '0', '8', "9223372036854775808");
  }

  lemma MagnitudeOfNothing()
    ensures Magnitude("", 10) == 0
  {}

  /** The largest decimal literal, the first that is too large, and a malformed octal one. */
  lemma UnfitLiterals()
    ensures LiteralValue("9223372036854775807") == Some(MAX_INT64)
    ensures LiteralValue("9223372036854775808") == None
    ensures LiteralValue("08") == None
  {
    hide Magnitude;
    LargeMagnitudes();
    MalformedOctal("08");
  }

  lemma MalformedOctal(token: string)
    requires |token| == 2 && token[0] == '0' && token[1] in ['8', '9']
    ensures LiteralValue(token) == None
  {
    assert token[1..][0] == token[1];
  }

  lemma DecimalZero()
    ensures Decimal(0) == "0"
  {}

  function Power10(k: nat): nat { if k == 0 then 1 else 10 * Power10(k - 1) }

  lemma {:induction false} DecimalIsShort(n: nat, k: nat)
    requires n < Power10(k) && k > 0
    ensures |Decimal(n)| <= k
  {
    if n >= 10 { DecimalIsShort(n / 10, k - 1); }
  }

  // ----- `strconv.ParseInt(text, 0, 64)` -------------------------------------------------

  /** What `ParseUint` finds: a malformed text, more than 64 bits, or a number. */
  datatype Parsed = Malformed | TooLarge | Fits(n: nat)

  const MAX_UINT64: int := 0xffff_ffff_ffff_ffff

  /** The digit loop; underscores are passed over. */
  function Accumulate(s: string, base: nat, n: nat): Parsed {
    if s == "" then Fits(n)
    else if s[0] == '_' then Accumulate(s[1..], base, n)
    else if DigitValue(s[0]) >= base then Malformed
    else if n * base + DigitValue(s[0]) > MAX_UINT64 then TooLarge
    else Accumulate(s[1..], base, n * base + DigitValue(s[0]))
  }

  function Lower(c: char): char { if 'A' <= c <= 'Z' then (c as int + 32) as char else c }

  /** The base that the prefix announces, and the digits behind it. */
  function BaseOf(s: string): (nat, string)
    requires s != ""
  {
    if s[0] != '0' then (10, s)
    else if |s| >= 3 && Lower(s[1]) == 'x' then (16, s[2..])
    else if |s| >= 3 && Lower(s[1]) == 'o' then (8, s[2..])
    else if |s| >= 3 && Lower(s[1]) == 'b' then (2, s[2..])
    else (8, s[1..])
  }

  /** Underscores stand only between digits; a base prefix counts as a digit. */
  function UnderscoresFit(s: string, digitBefore: bool, hex: bool): bool {
    if s == "" then true
    else if s[0] == '_' then
      digitBefore && |s| > 1 && DigitValue(s[1]) < (if hex then 16 else 10) && UnderscoresFit(s[1..], false, hex)
    else UnderscoresFit(s[1..], DigitValue(s[0]) < (if hex then 16 else 10), hex)
  }

  function ParseUint(s: string): Parsed {
    if s == "" then Malformed else
    var (base, digits) := BaseOf(s);
    var r := Accumulate(digits, base, 0);
    var prefixed := |s| >= 2 && s[0] == '0' && Lower(s[1]) in ['x', 'o', 'b'];
    if r.Fits? && '_' in s && !UnderscoresFit(if prefixed then s[2..] else s, prefixed, prefixed && Lower(s[1]) == 'x')
    then Malformed else r
  }

  /** The number returned; on an error that is 0 for a malformed text, else the nearest int64. */
  function ParseInt(s: string): int64 {
    var negative := s != "" && s[0] == '-';
    var r := ParseUint(if s != "" && (s[0] == '-' || s[0] == '+') then s[1..] else s);
    match r
    case Malformed => 0
    case TooLarge => if negative then MIN_INT64 else MAX_INT64
    case Fits(n) =>
      if negative then (if n > MAX_INT64 then MIN_INT64 else -(n as int))
      else if n > MAX_INT64 then MAX_INT64 else n
  }

  lemma MagnitudeStep(s: string, base: nat)
    requires s != "" && base > 0
    ensures Magnitude(s[..|s| - 1], base) <= Magnitude(s, base)
  {
    hide DigitValue;
    AtLeast(Magnitude(s[..|s| - 1], base), base);
  }

  lemma AtLeast(m: nat, base: nat)
    requires base > 0
    ensures m <= m * base
  {
    if m > 0 { assert m * base >= m * 1; }
  }

  lemma {:induction false} MagnitudeGrows(s: string, i: nat, base: nat)
    requires i <= |s| && base > 0
    ensures Magnitude(s[..i], base) <= Magnitude(s, base)
  {
    hide Magnitude;
    if i == |s| {
      assert s[..i] == s;
    } else {
      var t := s[..|s| - 1];
      MagnitudeGrows(t, i, base);
      assert t[..i] == s[..i];
      MagnitudeStep(s, base);
    }
  }

  /** On plain digits the loop computes the magnitude. */
  lemma {:induction false} AccumulateIsMagnitude(s: string, i: nat, base: nat)
    requires i <= |s| && base > 0 && Magnitude(s, base) <= MAX_UINT64
    requires forall c | c in s :: c != '_' && DigitValue(c) < base
    ensures Accumulate(s[i..], base, Magnitude(s[..i], base)) == Fits(Magnitude(s, base))
    decreases |s| - i
  {
    if i == |s| {
      assert s[..i] == s;
    } else {
      assert s[..i + 1][..i] == s[..i] && s[i..][0] == s[i] && s[i..][1..] == s[i + 1..];
      MagnitudeGrows(s, i + 1, base);
      AccumulateIsMagnitude(s, i + 1, base);
    }
  }

  /** What a shell variable holds after a number was stored in it reads as that number, for every int64. */
  lemma ParseIntReadsFormatted(v: int64)
    ensures ParseInt(FormatInt(v)) == v
  {
    hide Decimal, Magnitude, Accumulate, UnderscoresFit;
    var n: nat := if v < 0 then -(v as int) else v;
    var s := Decimal(n);
    DecimalMagnitude(n);
    assert s[..0] == "" && s[0..] == s && '_' !in s;
    MagnitudeOfNothing();
    assert forall c | c in s :: c != '_' && DigitValue(c) < 10;
    AccumulateIsMagnitude(s, 0, 10);
    if n == 0 {
      DecimalZero();
      NothingAccumulates(8);
      assert "0"[1..] == "";
    }
    assert s[0] in s;
    assert v < 0 ==> FormatInt(v)[1..] == s;
  }

  lemma NothingAccumulates(base: nat)
    ensures Accumulate("", base, 0) == Fits(0)
  {}

  // ----- literals in their three bases -------------------------------------------------

  /** Digits below the base, the highest first, and the number they stand for. */
  predicate Digits(ds: seq<nat>, base: nat) { forall d | d in ds :: d < base }

  function Value(ds: seq<nat>, base: nat): nat {
    if ds == [] then 0 else Value(ds[..|ds| - 1], base) * base + ds[|ds| - 1]
  }

  function Spelt(ds: seq<nat>, alphabet: string): (s: string)
    requires Digits(ds, |alphabet|)
    ensures |s| == |ds|
  {
    seq(|ds|, i requires 0 <= i < |ds| => assert ds[i] in ds; alphabet[ds[i]])
  }

  lemma {:induction false} SpeltMagnitude(ds: seq<nat>, alphabet: string)
    requires Digits(ds, |alphabet|) && forall d | 0 <= d < |alphabet| :: DigitValue(alphabet[d]) == d
    ensures var s := Spelt(ds, alphabet);
      && Magnitude(s, |alphabet|) == Value(ds, |alphabet|)
      && (forall c | c in s :: DigitValue(c) < |alphabet|) && (ds != [] ==> DigitValue(s[0]) == ds[0])
  {
    hide DigitValue;
    assert forall i | 0 <= i < |ds| :: ds[i] in ds;
    if ds != [] {
      var n := |ds| - 1;
      assert forall d | d in ds[..n] :: d in ds;
      SpeltMagnitude(ds[..n], alphabet);
      assert Spelt(ds, alphabet)[..n] == Spelt(ds[..n], alphabet);
    }
  }

  const DECIMAL := "0123456789"
  const OCTAL := "01234567"
  const LOWER_HEX := "0123456789abcdef"
  const UPPER_HEX := "0123456789ABCDEF"

  function Fitting(n: nat): Option<int64> { if n <= 9223372036854775807 then Some(n) else None }

  /** A literal is worth the number its digits write in its base, and fails beyond int64. */
  lemma HexLiterals(ds: seq<nat>)
    requires ds != [] && Digits(ds, 16)
    ensures LiteralValue("0x" + Spelt(ds, LOWER_HEX)) == Fitting(Value(ds, 16))
    ensures LiteralValue("0X" + Spelt(ds, LOWER_HEX)) == Fitting(Value(ds, 16))
    ensures LiteralValue("0x" + Spelt(ds, UPPER_HEX)) == Fitting(Value(ds, 16))
    ensures LiteralValue("0X" + Spelt(ds, UPPER_HEX)) == Fitting(Value(ds, 16))
  {
    hide Magnitude, Spelt, DigitValue, LiteralValue;
    Alphabets();
    SpeltMagnitude(ds, LOWER_HEX);
    SpeltMagnitude(ds, UPPER_HEX);
    HexLiteral(Spelt(ds, LOWER_HEX));
    HexLiteral(Spelt(ds, UPPER_HEX));
  }

  lemma OctalAndDecimalLiterals(ds: seq<nat>)
    requires ds != []
    ensures Digits(ds, 8) ==> LiteralValue("0" + Spelt(ds, OCTAL)) == Fitting(Value(ds, 8))
    ensures Digits(ds, 10) && ds[0] > 0 ==> LiteralValue(Spelt(ds, DECIMAL)) == Fitting(Value(ds, 10))
  {
    hide Magnitude, Spelt, DigitValue, LiteralValue;
    Alphabets();
    if Digits(ds, 8) {
      SpeltMagnitude(ds, OCTAL);
      OctalLiteral(Spelt(ds, OCTAL));
    }
    if Digits(ds, 10) && ds[0] > 0 {
      SpeltMagnitude(ds, DECIMAL);
      DecimalLiteral(Spelt(ds, DECIMAL));
    }
  }

  lemma Alphabets()
    ensures |DECIMAL| == 10 && |OCTAL| == 8 && |LOWER_HEX| == 16 && |UPPER_HEX| == 16
    ensures forall d | 0 <= d < 10 :: DigitValue(DECIMAL[d]) == d
    ensures forall d | 0 <= d < 8 :: DigitValue(OCTAL[d]) == d
    ensures forall d | 0 <= d < 16 :: DigitValue(LOWER_HEX[d]) == d
    ensures forall d | 0 <= d < 16 :: DigitValue(UPPER_HEX[d]) == d
  {}

  lemma HexLiteral(digits: string)
    requires digits != "" && forall c | c in digits :: DigitValue(c) < 16
    ensures var v := if Magnitude(digits, 16) <= MAX_INT64 then Some(Magnitude(digits, 16)) else None;
      LiteralValue("0x" + digits) == v && LiteralValue("0X" + digits) == v
  {
    hide Magnitude, DigitValue;
    assert ("0x" + digits)[2..] == digits && ("0X" + digits)[2..] == digits;
  }

  lemma OctalLiteral(digits: string)
    requires digits != "" && forall c | c in digits :: DigitValue(c) < 8
    ensures LiteralValue("0" + digits) == if Magnitude(digits, 8) <= MAX_INT64 then Some(Magnitude(digits, 8)) else None
  {
    hide Magnitude;
    assert digits[0] in digits && ("0" + digits)[1] == digits[0] && ("0" + digits)[1..] == digits;
  }

  lemma DecimalLiteral(digits: string)
    requires digits != "" && DigitValue(digits[0]) > 0 && forall c | c in digits :: DigitValue(c) < 10
    ensures LiteralValue(digits) == if Magnitude(digits, 10) <= MAX_INT64 then Some(Magnitude(digits, 10)) else None
  {
    hide Magnitude;
  }

  /** A literal and a variable that holds its text have the same value. */
  lemma LiteralAgreesWithParseInt(token: string)
    requires LiteralValue(token).Some?
    ensures ParseInt(token) == LiteralValue(token).value
  {
    hide Magnitude, Accumulate, UnderscoresFit;
    var hex := |token| >= 3 && token[0] == '0' && (token[1] == 'x' || token[1] == 'X');
    var base := if hex then 16 else if token[0] == '0' then 8 else 10;
    var digits := if hex then token[2..] else if token[0] == '0' then token[1..] else token;
    PlainToken(token, digits);
    assert digits[..0] == "" && digits[0..] == digits;
    NothingCounted(base);
    AccumulateIsMagnitude(digits, 0, base);
  }

  lemma NothingCounted(base: nat)
    ensures Magnitude("", base) == 0
  {}

  lemma PlainToken(token: string, digits: string)
    requires LiteralValue(token).Some?
    requires var hex := |token| >= 3 && token[0] == '0' && (token[1] == 'x' || token[1] == 'X');
      digits == if hex then token[2..] else if token[0] == '0' then token[1..] else token
    ensures '_' !in token && token[0] !in ['-', '+']
    ensures |token| >= 3 && token[0] == '0' ==> Lower(token[1]) !in ['o', 'b']
    ensures forall c | c in digits :: c != '_'
  {
    hide Magnitude;
    assert forall c | c in digits :: DigitValue(c) < 16;
    assert forall i | |token| - |digits| <= i < |token| :: token[i] == digits[i - (|token| - |digits|)];
    if digits == token {
      assert token[0] in digits;
    } else if |digits| == |token| - 1 && |token| >= 3 {
      assert digits[0] in digits && token[1] == digits[0];
    }
    forall i | 0 <= i < |token| ensures token[i] != '_' {
      if i >= |token| - |digits| { assert digits[i - (|token| - |digits|)] in digits; }
    }
  }
}
