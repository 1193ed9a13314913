/**
 * What a variable's text is worth in an arithmetic expression: signs, the marks of the
 * four bases, underscores between digits, texts beyond int64, and texts that are no
 * numbers (`TextMeaning`).
 */
module NumberTexts {
  import opened Numbers
  import opened Wrappers

  const BINARY := "01"

  /** Digits and, where there is none, an underscore. */
  type Row = seq<Option<nat>>

  predicate Below(row: Row, base: nat) { forall d | d in row :: d.Some? ==> d.value < base }

  function SpeltRow(row: Row, alphabet: string): (s: string)
    requires Below(row, |alphabet|)
    ensures |s| == |row|
  {
    seq(|row|, i requires 0 <= i < |row| => assert row[i] in row; if row[i].Some? then alphabet[row[i].value] else '_')
  }

  function DigitsIn(row: Row): seq<nat> {
    if row == [] then [] else (if row[0].Some? then [row[0].value] else []) + DigitsIn(row[1..])
  }

  /** Every underscore stands behind a digit or the mark of the base, and in front of a digit. */
  predicate Placed(row: Row, front: bool) {
    forall i | 0 <= i < |row| :: PlacedAt(row, i, front)
  }

  predicate PlacedAt(row: Row, i: nat, front: bool)
    requires i < |row|
  {
    row[i] == None ==> (if i == 0 then front else row[i - 1].Some?) && i + 1 < |row| && row[i + 1].Some?
  }

  /** The digits of a base and the marks in front of them. */
  predicate Writes(mark: string, alphabet: string) {
    || (mark in ["0x", "0X"] && alphabet in [LOWER_HEX, UPPER_HEX])
    || (mark in ["0o", "0O", "0"] && alphabet == OCTAL)
    || (mark in ["0b", "0B"] && alphabet == BINARY)
    || (mark == "" && alphabet == DECIMAL)
  }

  /** No further digit and no underscore comes. */
  predicate Foreign(rest: string, alphabet: string) {
    rest != "" ==> rest[0] !in alphabet + "_" && (|alphabet| == 16 ==> rest[0] !in LOWER_HEX + UPPER_HEX)
  }

  /** The nearest int64 to `n` or `-n`. */
  function Nearest(negative: bool, n: nat): int64 {
    if negative then (if n > 9223372036854775808 then -9223372036854775808 else -(n as int))
    else if n > 9223372036854775807 then 9223372036854775807 else n
  }

  /**
   * A number in any base, with a sign or without, is worth the nearest int64; text
   * behind it and misplaced underscores make it worth 0, unless its digits alone
   * exceed 64 bits.
   */
  lemma TextMeaning(sign: string, mark: string, row: Row, alphabet: string, rest: string)
    requires sign in ["", "+", "-"] && Writes(mark, alphabet) && Below(row, |alphabet|) && Foreign(rest, alphabet)
    requires row != [] && (mark == "" ==> row[0].Some? && row[0].value > 0)
    ensures var n := Value(DigitsIn(row), |alphabet|);
      ParseInt(sign + mark + SpeltRow(row, alphabet) + rest) ==
        if n <= 18446744073709551615 && (rest != "" || !Placed(row, true)) then 0 else Nearest(sign == "-", n)
  {
    hide Value, DigitsIn, SpeltRow, ParseUint, Placed, Writes, Foreign, Below;
    var body := mark + SpeltRow(row, alphabet) + rest;
    UintMeaning(mark, row, alphabet, rest);
    assert sign + mark + SpeltRow(row, alphabet) + rest == sign + body;
    assert sign != "" ==> (sign + body)[1..] == body;
    assert "" + body == body;
    NoSign(mark, row, alphabet, rest);
  }

  /** Text that starts with something else, and no text at all, is worth 0. */
  lemma OtherTextsAreZero(text: string)
    requires text != "" ==> text[0] !in DECIMAL + "+-_"
    ensures ParseInt(text) == 0 && ParseInt("+" + text) == 0 && ParseInt("-" + text) == 0
  {
    assert ("+" + text)[1..] == text && ("-" + text)[1..] == text;
    assert text != "" ==> DigitValue(text[0]) >= 10;
  }

  lemma NoSign(mark: string, row: Row, alphabet: string, rest: string)
    requires Writes(mark, alphabet) && Below(row, |alphabet|) && row != [] && (mark == "" ==> row[0].Some?)
    ensures var body := mark + SpeltRow(row, alphabet) + rest; body != "" && body[0] !in ['-', '+']
  {
    assert row[0] in row;
  }

  function Uint(n: nat, wellFormed: bool): Parsed {
    if n > 18446744073709551615 then TooLarge else if wellFormed then Fits(n) else Malformed
  }

  lemma UintMeaning(mark: string, row: Row, alphabet: string, rest: string)
    requires Writes(mark, alphabet) && Below(row, |alphabet|) && Foreign(rest, alphabet)
    requires row != [] && (mark == "" ==> row[0].Some? && row[0].value > 0)
    ensures ParseUint(mark + SpeltRow(row, alphabet) + rest) ==
      Uint(Value(DigitsIn(row), |alphabet|), rest == "" && Placed(row, true))
  {
    hide Value, DigitsIn, SpeltRow, Accumulate, UnderscoresFit, Placed, Writes, Foreign, Below;
    var t := SpeltRow(row, alphabet) + rest;
    assert mark + SpeltRow(row, alphabet) + rest == mark + t;
    MarkedBase(mark, row, alphabet, rest);
    AlphabetIsRead(mark, alphabet, rest);
    ValueOfNothing(|alphabet|);
    AccumulateRow(row, alphabet, |alphabet|, [], rest);
    assert [] + DigitsIn(row) == DigitsIn(row);
    if rest == "" {
      assert t == SpeltRow(row, alphabet);
      RowFits(row, alphabet, true, |alphabet| == 16);
      UnderscoresRead(mark, row, alphabet);
    }
  }

  lemma ValueOfNothing(base: nat)
    ensures Value([], base) == 0
  {}

  /** Where the digits start, in which base. */
  lemma MarkedBase(mark: string, row: Row, alphabet: string, rest: string)
    requires Writes(mark, alphabet) && Below(row, |alphabet|)
    requires row != [] && (mark == "" ==> row[0].Some? && row[0].value > 0)
    ensures var t := SpeltRow(row, alphabet) + rest;
      mark + t != "" && BaseOf(mark + t) == (|alphabet|, t)
  {
    var t := SpeltRow(row, alphabet) + rest;
    assert row[0] in row;
    assert |mark| == 2 ==> (mark + t)[2..] == t;
    assert |mark| == 1 ==> (mark + t)[1..] == t;
    assert mark == "" ==> mark + t == t;
  }

  lemma AlphabetIsRead(mark: string, alphabet: string, rest: string)
    requires Writes(mark, alphabet) && Foreign(rest, alphabet)
    ensures Reads(alphabet)
    ensures rest != "" ==> rest[0] != '_' && DigitValue(rest[0]) >= |alphabet|
  {
    Alphabets();
  }

  predicate Reads(alphabet: string) {
    |alphabet| in [2, 8, 10, 16] && forall d | 0 <= d < |alphabet| :: DigitValue(alphabet[d]) == d && alphabet[d] != '_'
  }

  // ----- the two loops over the digits -----------------------------------------------

  lemma ValueStep(pre: seq<nat>, d: nat, more: seq<nat>, base: nat)
    requires base > 0
    ensures Value(pre + [d], base) == Value(pre, base) * base + d
    ensures Value(pre + [d] + more, base) >= Value(pre + [d], base) >= Value(pre, base)
    decreases |more|
  {
    assert (pre + [d])[..|pre|] == pre;
    AtLeast(Value(pre, base), base);
    if more != [] {
      var n := |more| - 1;
      var all := pre + [d] + more;
      ValueStep(pre, d, more[..n], base);
      assert all[..|all| - 1] == pre + [d] + more[..n];
      AtLeast(Value(pre + [d] + more[..n], base), base);
    } else {
      assert pre + [d] + more == pre + [d];
    }
  }

  lemma RowFront(row: Row, alphabet: string, rest: string)
    requires row != [] && Below(row, |alphabet|)
    ensures Below(row[1..], |alphabet|)
    ensures row[0].Some? ==> row[0].value < |alphabet|
    ensures var t := SpeltRow(row, alphabet) + rest;
      && t != "" && t[0] == (if row[0].Some? then alphabet[row[0].value] else '_')
      && t[1..] == SpeltRow(row[1..], alphabet) + rest
  {
    assert row[0] in row && forall d | d in row[1..] :: d in row;
    var s := SpeltRow(row, alphabet);
    assert s[1..] == SpeltRow(row[1..], alphabet);
    assert (s + rest)[1..] == s[1..] + rest;
  }

  /** The number read so far is that of `pre`. */
  lemma {:induction false} AccumulateRow(row: Row, alphabet: string, base: nat, pre: seq<nat>, rest: string)
    requires base == |alphabet| && Reads(alphabet) && Below(row, base) && Value(pre, base) <= MAX_UINT64
    requires rest != "" ==> rest[0] != '_' && DigitValue(rest[0]) >= base
    ensures Accumulate(SpeltRow(row, alphabet) + rest, base, Value(pre, base)) ==
      Uint(Value(pre + DigitsIn(row), base), rest == "")
    decreases |row|
  {
    hide Value, SpeltRow, DigitValue, Below;
    if row == [] {
      assert SpeltRow(row, alphabet) + rest == rest && pre + [] == pre;
    } else {
      RowFront(row, alphabet, rest);
      var more := row[1..];
      if row[0].Some? {
        var d := row[0].value;
        ValueStep(pre, d, DigitsIn(more), base);
        assert pre + DigitsIn(row) == pre + [d] + DigitsIn(more);
        if Value(pre + [d], base) <= MAX_UINT64 { AccumulateRow(more, alphabet, base, pre + [d], rest); }
      } else {
        AccumulateRow(more, alphabet, base, pre, rest);
        assert DigitsIn(row) == DigitsIn(more);
      }
    }
  }

  lemma {:induction false} RowFits(row: Row, alphabet: string, before: bool, hex: bool)
    requires Reads(alphabet) && Below(row, |alphabet|) && (hex <==> |alphabet| == 16)
    ensures UnderscoresFit(SpeltRow(row, alphabet), before, hex) == Placed(row, before)
    decreases |row|
  {
    hide SpeltRow, DigitValue, Below, Placed;
    if row == [] {
      assert Placed(row, before) by { NothingPlaced(before); }
    } else {
      RowFront(row, alphabet, "");
      var t := SpeltRow(row, alphabet);
      assert t + "" == t && SpeltRow(row[1..], alphabet) + "" == SpeltRow(row[1..], alphabet);
      RowFits(row[1..], alphabet, row[0].Some?, hex);
      PlacedFront(row, before);
      if |row| > 1 {
        RowFront(row[1..], alphabet, "");
        UnderscoreIsNoDigit();
      }
    }
  }

  lemma NothingPlaced(before: bool)
    ensures Placed([], before)
  {}

  lemma UnderscoreIsNoDigit()
    ensures DigitValue('_') == 99 && DigitValue('0') == 0
  {}

  lemma PlacedFront(row: Row, before: bool)
    requires row != []
    ensures Placed(row, before) <==>
      Placed(row[1..], row[0].Some?) && (row[0] == None ==> before && |row| > 1 && row[1].Some?)
  {
    var more := row[1..];
    if Placed(row, before) {
      assert PlacedAt(row, 0, before);
      forall i | 0 <= i < |more| ensures PlacedAt(more, i, row[0].Some?) { assert PlacedAt(row, i + 1, before); }
    }
    if Placed(more, row[0].Some?) && (row[0] == None ==> before && |row| > 1 && row[1].Some?) {
      forall i | 0 <= i < |row| ensures PlacedAt(row, i, before) {
        if i > 0 { assert PlacedAt(more, i - 1, row[0].Some?); }
      }
    }
  }

  /** Which part of the text is looked at for underscores. */
  lemma UnderscoresRead(mark: string, row: Row, alphabet: string)
    requires Writes(mark, alphabet) && Below(row, |alphabet|) && Reads(alphabet)
    requires row != [] && (mark == "" ==> row[0].Some? && row[0].value > 0)
    requires UnderscoresFit(SpeltRow(row, alphabet), true, |alphabet| == 16) == Placed(row, true)
    ensures var s := mark + SpeltRow(row, alphabet);
      var prefixed := |s| >= 2 && s[0] == '0' && Lower(s[1]) in ['x', 'o', 'b'];
      && UnderscoresFit(if prefixed then s[2..] else s, prefixed, prefixed && Lower(s[1]) == 'x') == Placed(row, true)
      && ('_' !in s ==> Placed(row, true))
  {
    hide Below, Placed, SpeltRow, DigitValue;
    RowFront(row, alphabet, "");
    UnderscoreIsNoDigit();
    var digits := SpeltRow(row, alphabet);
    assert digits + "" == digits;
    var s := mark + digits;
    if '_' !in s { NoUnderscores(mark, row, alphabet); }
    if |mark| == 2 {
      assert s[2..] == digits;
    } else if |mark| == 1 {
      assert s[1..] == digits && s[0] == '0' && DigitValue('0') == 0;
      assert Lower(s[1]) !in ['x', 'o', 'b'];
    } else {
      assert s == digits;
      assert DigitValue(digits[0]) < 16;
    }
  }

  lemma NoUnderscores(mark: string, row: Row, alphabet: string)
    requires Below(row, |alphabet|) && '_' !in mark + SpeltRow(row, alphabet)
    ensures Placed(row, true)
  {
    forall i | 0 <= i < |row| ensures row[i] != None {
      assert (mark + SpeltRow(row, alphabet))[|mark| + i] == SpeltRow(row, alphabet)[i];
    }
  }
}
