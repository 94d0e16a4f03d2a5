/**
 * The cases of the library's own test suite, and a few more inputs that show
 * the edges of the grammar, worked out on the model.
 */
module TestCases {
  import opened Results
  import opened Strings
  import opened Numerals
  import opened Splitting
  import opened FixedFormat
  import opened Basics

  /** `splitNumber('-0.00123')` is `{sign: '-', coefficients: [1, 2, 3], exponent: -3}`. */
  lemma SplitSmallNegative()
    ensures Split("-0.00123") == Success(SplitValue("-", [1, 2, 3], -3))
  {
    var t := "-0.00123";
    assert Lower(t) == t;
    var c := Captures("-", "0.00123", None);
    assert IsDigitsText(c.digits);
    assert Reassemble(c) == t;
    MatchNumeralComplete(c);
    NormalizeSmallNegative();
  }

  lemma NormalizeSmallNegative()
    ensures Normalize("-", "0.00123", 0) == SplitValue("-", [1, 2, 3], -3)
  {
    SmallNegativeSteps();
    DigitsOf123();
    NormalizeFrom("-", "0.00123", 0, "000123", "123");
  }

  lemma SmallNegativeSteps()
    ensures IndexOf("0.00123", '.') == 1 && RemoveFirst("0.00123", '.') == "000123"
    ensures LeadingZeros("000123") == 3 && Significant("000123") == "123"
  {
    PointRemovedAt("0.00123", 1, "000123");
    ZerosStripped("000123", 3, "123");
  }

  /** `splitNumber(123.45)`, given as the text "123.45", is `{sign: '', coefficients: [1, 2, 3, 4, 5], exponent: 2}`. */
  lemma SplitWithFraction()
    ensures Split("123.45") == Success(SplitValue("", [1, 2, 3, 4, 5], 2))
  {
    var t := "123.45";
    assert Lower(t) == t;
    var c := Captures("", t, None);
    assert IsDigitsText(t);
    assert Reassemble(c) == t;
    MatchNumeralComplete(c);
    NormalizeWithFraction();
  }

  lemma NormalizeWithFraction()
    ensures Normalize("", "123.45", 0) == SplitValue("", [1, 2, 3, 4, 5], 2)
  {
    WithFractionSteps();
    DigitsOf12345();
    NormalizeFrom("", "123.45", 0, "12345", "12345");
  }

  lemma WithFractionSteps()
    ensures IndexOf("123.45", '.') == 3 && RemoveFirst("123.45", '.') == "12345"
    ensures LeadingZeros("12345") == 0 && Significant("12345") == "12345"
  {
    PointRemovedAt("123.45", 3, "12345");
    ZerosStripped("12345", 0, "12345");
  }

  /** `splitNumber(0)`, given as the text "0", is `{sign: '', coefficients: [0], exponent: 0}`. */
  lemma SplitZero()
    ensures Split("0") == Success(SplitValue("", [0], 0))
  {
    var t := "0";
    assert Lower(t) == t;
    var c := Captures("", t, None);
    assert Reassemble(c) == t;
    MatchNumeralComplete(c);
    NormalizeZero();
  }

  lemma NormalizeZero()
    ensures Normalize("", "0", 0) == SplitValue("", [0], 0)
  {
    var t := "0";
    assert '.' !in t;
    LeadingZerosUnique(t, 1);
    assert t[1..] == "";
  }

  /** `splitNumber('invalid')` throws `Invalid number invalid`. */
  lemma SplitInvalid()
    ensures Split("invalid") == Failure(SyntaxError("Invalid number " + "invalid"))
  {
    var t := "invalid";
    assert Lower(t) == t;
    NoMatchInvalid();
  }

  lemma NoMatchInvalid()
    ensures MatchNumeral("invalid") == None
  {
    var t := "invalid";
    assert 'e' !in t;
    assert t[0..] == t && t[0..|t|] == t;
    assert !IsDigit(t[0]);
  }

  /** An upper-case exponent marker: "1E5" is 1 × 10^5. */
  lemma SplitUpperExponent()
    ensures Split("1E5") == Success(SplitValue("", [1], 5))
  {
    var t := "1e5";
    assert Lower("1E5") == t;
    var c := Captures("", "1", Some("5"));
    assert Reassemble(c) == t;
    MatchNumeralComplete(c);
    ExponentFive();
    NormalizeOne();
  }

  lemma ExponentFive()
    ensures ExponentValue(Some("5")) == 5
  {
    assert DigitsOf("5") == [5];
    assert DigitsValue([5]) == 5 by { assert [5][..0] == []; }
  }

  lemma NormalizeOne()
    ensures Normalize("", "1", 5) == SplitValue("", [1], 5)
  {
    var d := "1";
    assert '.' !in d;
    ZerosStripped(d, 0, d);
    NormalizeFrom("", d, 5, d, d);
  }

  /** A point with no digits after it is accepted: "123." is 123. */
  lemma SplitTrailingPoint()
    ensures Split("123.") == Success(SplitValue("", [1, 2, 3], 2))
  {
    var t := "123.";
    assert Lower(t) == t;
    var c := Captures("", t, None);
    assert IsDigitsText(t);
    assert Reassemble(c) == t;
    MatchNumeralComplete(c);
    NormalizeTrailingPoint();
  }

  lemma NormalizeTrailingPoint()
    ensures Normalize("", "123.", 0) == SplitValue("", [1, 2, 3], 2)
  {
    TrailingPointSteps();
    DigitsOf123();
    NormalizeFrom("", "123.", 0, "123", "123");
  }

  lemma TrailingPointSteps()
    ensures IndexOf("123.", '.') == 3 && RemoveFirst("123.", '.') == "123"
    ensures LeadingZeros("123") == 0 && Significant("123") == "123"
  {
    PointRemovedAt("123.", 3, "123");
    ZerosStripped("123", 0, "123");
  }

  /** A numeral must start with a digit after its sign: ".5" and "+5" are rejected. */
  lemma SplitRejectsBareFraction()
    ensures Split(".5").Failure? && Split("+5").Failure?
  {
    var s, u := ".5", "+5";
    assert Lower(s) == s && Lower(u) == u;
    assert 'e' !in s && 'e' !in u;
    assert s[0..] == s && s[0..|s|] == s;
    assert u[0..] == u && u[0..|u|] == u;
    assert MatchNumeral(s) == None;
    assert MatchNumeral(u) == None;
  }

  /** `toFixed(1, 2)`: the rounded text "1" padded to two decimals is "1.00". */
  lemma PadOneToTwo()
    ensures Padded("1", 2) == Success("1.00")
  {
    PaddedShape("1", 2);
    assert '.' !in "1";
    assert Repeat('0', 2) == "00";
    assert "1" + "." + "00" == "1.00";
  }

  /** `toFixed(123.456, 2)`: the rounded text "123.46" already has its two decimals. */
  lemma PadFullDecimals()
    ensures Padded("123.46", 2) == Success("123.46")
  {
    var s := "123.46";
    PointRemovedAt(s, 3, "12346");
    assert s[4..] == "46";
    AlreadyPadded(s, 2);
  }

  /** `toFixed(-123.456, 1)`: the rounded text "-123.5" is returned as it is. */
  lemma PadNegative()
    ensures Padded("-123.5", 1) == Success("-123.5")
  {
    var s := "-123.5";
    PointRemovedAt(s, 4, "-1235");
    assert s[5..] == "5";
    AlreadyPadded(s, 1);
  }

  /** `toFixed(0.00123, 3)`: the rounded text "0.001" is returned as it is. */
  lemma PadSmall()
    ensures Padded("0.001", 3) == Success("0.001")
  {
    var s := "0.001";
    PointRemovedAt(s, 1, "0001");
    assert s[2..] == "001";
    AlreadyPadded(s, 3);
  }

  /** A text whose one point is followed by exactly `precision` characters is left alone. */
  lemma AlreadyPadded(s: string, precision: int)
    requires '.' in s && '.' !in s[IndexOf(s, '.') + 1..] && |s[IndexOf(s, '.') + 1..]| == precision
    ensures Padded(s, precision) == Success(s)
  {
    PaddedShape(s, precision);
    assert s + "" + Repeat('0', 0) == s;
  }

  /** `sign(5)`, `sign(-10)` and `sign(0)`. */
  lemma SignCases()
    ensures Sign(5.0) == 1 && Sign(-10.0) == -1 && Sign(0.0) == 0
  {
  }

  // ---------------------------------------------------------------------------
  // Steps shared by the cases above
  // ---------------------------------------------------------------------------

  /** The first point of `g` is at `p`, and removing it leaves `d`. */
  lemma PointRemovedAt(g: string, p: nat, d: string)
    requires p < |g| && g[p] == '.' && '.' !in g[..p] && g[..p] + g[p + 1..] == d
    ensures IndexOf(g, '.') == p && RemoveFirst(g, '.') == d
  {
    IndexOfAt(g, '.', p);
  }

  /** `d` is `z` zeros followed by `significant`, which ends in a non-zero digit. */
  lemma ZerosStripped(d: string, z: nat, significant: string)
    requires z <= |d| && (forall i :: 0 <= i < z ==> d[i] == '0') && d[z..] == significant
    requires 0 < |significant| && significant[0] != '0' && significant[|significant| - 1] != '0'
    ensures LeadingZeros(d) == z && Significant(d) == significant
  {
    assert d[z] == significant[0];
    LeadingZerosUnique(d, z);
    TrailingZerosUnique(significant, 0);
    assert significant[..|significant|] == significant;
  }

  lemma DigitsOf123()
    ensures DigitsOf("123") == [1, 2, 3]
  {
  }

  lemma DigitsOf12345()
    ensures DigitsOf("12345") == [1, 2, 3, 4, 5]
  {
  }

  /** `Normalize` once the point, the leading zeros and the significant digits are known. */
  lemma NormalizeFrom(sign: string, digits: string, exponent: int, d: string, significant: string)
    requires RemoveFirst(digits, '.') == d && Significant(d) == significant && significant != ""
    ensures var dot := IndexOf(digits, '.');
      Normalize(sign, digits, exponent)
      == SplitValue(sign, DigitsOf(significant), exponent + (if dot != -1 then dot - 1 else |digits| - 1) - LeadingZeros(d))
  {
  }
}
