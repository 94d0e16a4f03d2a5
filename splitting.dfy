/**
 * splitNumber: a decimal numeral taken apart into its sign, its significant
 * digits and the power of ten of its first significant digit.
 */
module Splitting {
  import opened Results
  import opened Strings
  import opened Numerals

  /** The `SplitValue` record. `sign` is "-" or "", never "+"; `exponent` is the power of ten of `coefficients[0]`. */
  datatype SplitValue = SplitValue(sign: string, coefficients: seq<int>, exponent: int)

  /**
   * The number a split value stands for: the coefficients read as one
   * integer, the first of them at the power `exponent`, so the last one at
   * the power `exponent − |coefficients| + 1`.
   */
  function Value(sv: SplitValue): Decimal
  {
    var magnitude := DigitsValue(sv.coefficients);
    Decimal(if sv.sign == "-" then -magnitude else magnitude, sv.exponent - |sv.coefficients| + 1)
  }

  /**
   * The shape every result of splitNumber has: the sign is "-" or empty, the
   * coefficients are digits, and either they are the single digit 0 or they
   * start and end with a non-zero digit.
   */
  predicate IsNormal(sv: SplitValue)
  {
    && (sv.sign == "" || sv.sign == "-")
    && 0 < |sv.coefficients|
    && (forall i :: 0 <= i < |sv.coefficients| ==> 0 <= sv.coefficients[i] <= 9)
    && (sv.coefficients == [0] || (sv.coefficients[0] != 0 && sv.coefficients[|sv.coefficients| - 1] != 0))
  }

  /** The length of the match of `/^0+/` in `s`, 0 when it does not match. */
  function LeadingZeros(s: string): (n: nat)
    ensures n <= |s|
    ensures forall i :: 0 <= i < n ==> s[i] == '0'
    ensures n < |s| ==> s[n] != '0'
  {
    if 0 < |s| && s[0] == '0' then 1 + LeadingZeros(s[1..]) else 0
  }

  /** The length of the match of `/0*$/` in `s`. */
  function TrailingZeros(s: string): (n: nat)
    ensures n <= |s|
    ensures forall i :: |s| - n <= i < |s| ==> s[i] == '0'
    ensures n < |s| ==> s[|s| - n - 1] != '0'
  {
    if 0 < |s| && s[|s| - 1] == '0' then 1 + TrailingZeros(s[..|s| - 1]) else 0
  }

  lemma LeadingZerosUnique(s: string, n: nat)
    requires n <= |s| && (forall i :: 0 <= i < n ==> s[i] == '0') && (n < |s| ==> s[n] != '0')
    ensures LeadingZeros(s) == n
  {
  }

  lemma TrailingZerosUnique(s: string, n: nat)
    requires n <= |s| && (forall i :: |s| - n <= i < |s| ==> s[i] == '0') && (n < |s| ==> s[|s| - n - 1] != '0')
    ensures TrailingZeros(s) == n
  {
  }

  /**
   * The normalisation that follows the match, on the captured sign, digits and exponent:
   * move the exponent to the first digit, drop the point, drop the leading
   * zeros (lowering the exponent by their count) and the trailing zeros, and
   * write zero as the single digit 0 with the exponent raised by one.
   */
  function Normalize(sign: string, digits: string, exponent: int): SplitValue
  {
    var dot := IndexOf(digits, '.');
    var e := exponent + if dot != -1 then dot - 1 else |digits| - 1;
    var d := RemoveFirst(digits, '.');
    var coefficients := DigitsOf(Significant(d));
    if |coefficients| == 0 then SplitValue(sign, [0], e - LeadingZeros(d) + 1)
    else SplitValue(sign, coefficients, e - LeadingZeros(d))
  }

  /** `d` without its leading zeros and then without its trailing zeros. */
  function Significant(d: string): string
  {
    var rest := d[LeadingZeros(d)..];
    rest[..|rest| - TrailingZeros(rest)]
  }

  /** splitNumber on a string: match the lower-cased text, then normalise its captures. */
  function Split(value: string): Result<SplitValue>
  {
    match MatchNumeral(Lower(value))
    case None => Failure(SyntaxError("Invalid number " + value))
    case Some(c) => Success(Normalize(c.sign, c.digits, ExponentValue(c.exponent)))
  }

  /**
   * splitNumber, step by step as `splitNumber` does it: the result is the one
   * `Split` describes, it fails exactly off the grammar, and on success it
   * is in normal form, carries the input's sign and denotes the input's value.
   */
  method SplitNumber(value: string) returns (r: Result<SplitValue>)
    ensures r == Split(value)
    ensures r.Failure? <==> !Matches(Lower(value))
    ensures r.Failure? ==> r.error == SyntaxError("Invalid number " + value)
    ensures r.Success? ==> IsNormal(r.value)
    ensures r.Success? ==> (r.value.sign == "-" <==> 0 < |value| && value[0] == '-')
    ensures r.Success? ==> SameNumber(Value(r.value), NumeralValue(MatchNumeral(Lower(value)).value))
  {
    var m := MatchNumeral(Lower(value));
    SplitSpecified(value);
    if m.None? {
      return Failure(SyntaxError("Invalid number " + value));
    }
    var sv := NormalizeDigits(m.value.sign, m.value.digits, ExponentValue(m.value.exponent));
    r := Success(sv);
  }

  /** The normalisation that follows the match, on the captures, updating `exponent` as `splitNumber` does. */
  method NormalizeDigits(sign: string, digits: string, given: int) returns (sv: SplitValue)
    ensures sv == Normalize(sign, digits, given)
  {
    var exponent := given;
    var dot := IndexOf(digits, '.');
    exponent := exponent + if dot != -1 then dot - 1 else |digits| - 1;

    var text := RemoveFirst(digits, '.');
    ghost var d := text;
    var zeros := LeadingZeros(text);
    exponent := exponent - zeros;
    text := text[zeros..];
    ghost var rest := text;
    text := text[..|text| - TrailingZeros(text)];
    assert rest == d[LeadingZeros(d)..];
    assert text == Significant(d);
    var coefficients := DigitsOf(text);
    assert exponent == given + (if dot != -1 then dot - 1 else |digits| - 1) - LeadingZeros(d);

    if |coefficients| == 0 {
      coefficients := coefficients + [0];
      exponent := exponent + 1;
    }
    sv := SplitValue(sign, coefficients, exponent);
    assert Normalize(sign, digits, given).exponent == exponent;
    assert Normalize(sign, digits, given).coefficients == coefficients;
  }

  /** What `Split` promises: it fails exactly off the grammar, and on success it is normal, signed like the input and of the input's value. */
  lemma SplitSpecified(value: string)
    ensures Split(value).Failure? <==> !Matches(Lower(value))
    ensures Split(value).Failure? ==> Split(value).error == SyntaxError("Invalid number " + value)
    ensures Split(value).Success? ==> IsNormal(Split(value).value)
    ensures Split(value).Success? ==> (Split(value).value.sign == "-" <==> 0 < |value| && value[0] == '-')
    ensures Split(value).Success? ==> SameNumber(Value(Split(value).value), NumeralValue(MatchNumeral(Lower(value)).value))
  {
    SplitFailsOffGrammar(value);
    if Split(value).Success? {
      SplitIsNormal(value);
      SplitSign(value);
      MatchNumeralSound(Lower(value));
      SplitPreservesValue(value, MatchNumeral(Lower(value)).value);
    }
  }

  // ---------------------------------------------------------------------------
  // Errors, sign and shape
  // ---------------------------------------------------------------------------

  /** splitNumber throws `SyntaxError('Invalid number ' + value)` exactly when the lower-cased input is off the grammar. */
  lemma SplitFailsOffGrammar(value: string)
    ensures Split(value).Failure? <==> !Matches(Lower(value))
    ensures Split(value).Failure? ==> Split(value).error == SyntaxError("Invalid number " + value)
  {
    MatchNumeralIff(Lower(value));
  }

  /** On success the sign is "-" exactly when the input starts with '-', and "" otherwise. */
  lemma SplitSign(value: string)
    requires Split(value).Success?
    ensures Split(value).value.sign == (if 0 < |value| && value[0] == '-' then "-" else "")
  {
  }

  /** An upper-case letter is read like its lower-case form: `"1E5"` splits like `"1e5"`. */
  lemma SplitIgnoresCase(v: string, w: string)
    requires Lower(v) == Lower(w)
    ensures Split(v).Success? <==> Split(w).Success?
    ensures Split(v).Success? ==> Split(v).value == Split(w).value
  {
  }

  /** Removing the point leaves only digits. */
  lemma PointlessIsDigits(digits: string)
    requires IsDigitsText(digits)
    ensures AllDigits(RemoveFirst(digits, '.'))
  {
    var p := IndexOf(digits, '.');
    var d := RemoveFirst(digits, '.');
    if p != -1 {
      forall n | 0 <= n < |d| ensures IsDigit(d[n]) {
        if n < p {
          assert d[n] == digits[..p][n];
          assert digits[n] != '.';
        } else {
          assert d[n] == digits[n + 1];
          assert digits[n + 1] != '.';
        }
      }
    }
  }

  lemma DigitsOfDigits(s: string)
    requires AllDigits(s)
    ensures forall i :: 0 <= i < |s| ==> 0 <= DigitsOf(s)[i] <= 9
    ensures forall i :: 0 <= i < |s| ==> (DigitsOf(s)[i] == 0 <==> s[i] == '0')
  {
  }

  lemma NormalizeIsNormal(sign: string, digits: string, exponent: int)
    requires IsSignText(sign) && IsDigitsText(digits)
    ensures IsNormal(Normalize(sign, digits, exponent))
    ensures Normalize(sign, digits, exponent).sign == sign
  {
    var d := RemoveFirst(digits, '.');
    PointlessIsDigits(digits);
    var z := LeadingZeros(d);
    var rest := d[z..];
    var t := TrailingZeros(rest);
    var significant := Significant(d);
    assert AllDigits(significant) by {
      forall n | 0 <= n < |significant| ensures IsDigit(significant[n]) {
        assert significant[n] == d[z + n];
      }
    }
    DigitsOfDigits(significant);
    if significant != "" {
      assert significant[0] == rest[0];
      assert significant[|significant| - 1] == rest[|rest| - t - 1];
    }
  }

  /** On success splitNumber returns a value in normal form. */
  lemma SplitIsNormal(value: string)
    requires Split(value).Success?
    ensures IsNormal(Split(value).value)
  {
    MatchNumeralSound(Lower(value));
    var c := MatchNumeral(Lower(value)).value;
    NormalizeIsNormal(c.sign, c.digits, ExponentValue(c.exponent));
  }

  // ---------------------------------------------------------------------------
  // Value preservation
  // ---------------------------------------------------------------------------

  /** The leading zeros of `d`, its significant digits and its trailing zeros, in order. */
  lemma ZeroSplit(d: string)
    ensures d == Repeat('0', LeadingZeros(d)) + Significant(d) + Repeat('0', TrailingZeros(d[LeadingZeros(d)..]))
  {
    var z := LeadingZeros(d);
    var rest := d[z..];
    var t := TrailingZeros(rest);
    var sig := Significant(d);
    LeadingSplit(d, z);
    assert sig == rest[..|rest| - t];
    TrailingSplit(rest, t);
    Associate(Repeat('0', z), sig, Repeat('0', t));
  }

  lemma Associate(a: string, b: string, c: string)
    ensures a + (b + c) == a + b + c
  {
  }

  lemma LeadingSplit(d: string, z: nat)
    requires z <= |d| && forall i :: 0 <= i < z ==> d[i] == '0'
    ensures d == Repeat('0', z) + d[z..]
  {
    assert d[..z] == Repeat('0', z);
    assert d == d[..z] + d[z..];
  }

  lemma TrailingSplit(s: string, t: nat)
    requires t <= |s| && forall i :: |s| - t <= i < |s| ==> s[i] == '0'
    ensures s == s[..|s| - t] + Repeat('0', t)
  {
    assert s[|s| - t..] == Repeat('0', t);
    assert s == s[..|s| - t] + s[|s| - t..];
  }

  lemma ZeroDigits(n: nat)
    ensures forall i :: 0 <= i < n ==> DigitsOf(Repeat('0', n))[i] == 0
  {
  }

  lemma PaddedValue(z1: seq<int>, s: seq<int>, z2: seq<int>)
    requires forall i :: 0 <= i < |z1| ==> z1[i] == 0
    requires forall i :: 0 <= i < |z2| ==> z2[i] == 0
    ensures DigitsValue(z1 + s + z2) == DigitsValue(s) * Pow10(|z2|)
  {
    assert z1 + s + z2 == z1 + (s + z2);
    DigitsValueLeadingZeros(z1, s + z2);
    DigitsValueShifted(s, z2);
  }

  /** Dropping the zeros around `d` divides its number by 10 to the count of trailing zeros. */
  lemma SignificantValue(d: string)
    ensures DigitsValue(DigitsOf(d)) == DigitsValue(DigitsOf(Significant(d))) * Pow10(TrailingZeros(d[LeadingZeros(d)..]))
  {
    var z := LeadingZeros(d);
    var t := TrailingZeros(d[z..]);
    var sig := Significant(d);
    ZeroSplit(d);
    DigitsOfAppend(Repeat('0', z) + sig, Repeat('0', t));
    DigitsOfAppend(Repeat('0', z), sig);
    ZeroDigits(z);
    ZeroDigits(t);
    PaddedValue(DigitsOf(Repeat('0', z)), DigitsOf(sig), DigitsOf(Repeat('0', t)));
  }

  /** Removing the point leaves the whole digits followed by the fraction digits. */
  lemma PointRemoved(digits: string)
    ensures RemoveFirst(digits, '.') == WholePart(digits) + FractionPart(digits)
  {
    if '.' !in digits {
      assert WholePart(digits) + FractionPart(digits) == digits;
    }
  }

  /** The number written by `whole fraction` is `whole` shifted past the fraction digits, plus `fraction`. */
  lemma PointlessDigits(digits: string)
    ensures DigitsValue(DigitsOf(RemoveFirst(digits, '.')))
         == DigitsValue(DigitsOf(WholePart(digits))) * Pow10(|FractionPart(digits)|) + DigitsValue(DigitsOf(FractionPart(digits)))
  {
    PointRemoved(digits);
    DigitsOfAppend(WholePart(digits), FractionPart(digits));
    DigitsValueAppend(DigitsOf(WholePart(digits)), DigitsOf(FractionPart(digits)));
  }

  /** Normalising keeps the number `sign digits` × 10^exponent. */
  lemma NormalizeValue(sign: string, digits: string, exponent: int)
    ensures SameNumber(Value(Normalize(sign, digits, exponent)), DecimalOf(sign, digits, exponent))
  {
    if Significant(RemoveFirst(digits, '.')) == "" {
      NormalizeZeroValue(sign, digits, exponent);
    } else {
      NormalizeNonZeroValue(sign, digits, exponent);
    }
  }

  /** Digits that are all zeros normalise to the number zero. */
  lemma NormalizeZeroValue(sign: string, digits: string, exponent: int)
    requires Significant(RemoveFirst(digits, '.')) == ""
    ensures Value(Normalize(sign, digits, exponent)).mantissa == 0
    ensures DecimalOf(sign, digits, exponent).mantissa == 0
  {
    var d := RemoveFirst(digits, '.');
    var t := TrailingZeros(d[LeadingZeros(d)..]);
    PointlessDigits(digits);
    SignificantValue(d);
    assert DigitsOf(Significant(d)) == [];
    ZeroFactor(DigitsValue(DigitsOf(d)), DigitsValue(DigitsOf(Significant(d))), Pow10(t));
    assert DigitsValue([0]) == 0 by { assert [0][..0] == []; }
  }

  /** Otherwise the mantissa loses the trailing zeros and the exponent rises by their count. */
  lemma NormalizeNonZeroValue(sign: string, digits: string, exponent: int)
    requires Significant(RemoveFirst(digits, '.')) != ""
    ensures SameNumber(Value(Normalize(sign, digits, exponent)), DecimalOf(sign, digits, exponent))
  {
    var d := RemoveFirst(digits, '.');
    var t := TrailingZeros(d[LeadingZeros(d)..]);
    var m := DigitsValue(DigitsOf(d));
    var n := DigitsValue(DigitsOf(Significant(d)));
    PointlessDigits(digits);
    SignificantValue(d);
    NormalizeExponent(digits, exponent);
    var a := DecimalOf(sign, digits, exponent);
    var b := Value(Normalize(sign, digits, exponent));
    assert a.mantissa == (if sign == "-" then -m else m);
    assert b.mantissa == (if sign == "-" then -n else n);
    assert b.exponent == a.exponent + t;
    SignedProduct(sign == "-", m, n, Pow10(t));
    SameNumberShifted(a, b, t);
  }

  /** A decimal whose mantissa is `b`'s times 10^t and whose exponent is `t` below `b`'s is the same number, either way round. */
  lemma SameNumberShifted(a: Decimal, b: Decimal, t: nat)
    requires b.exponent == a.exponent + t && a.mantissa == b.mantissa * Pow10(t)
    ensures SameNumber(a, b) && SameNumber(b, a)
  {
    assert b.exponent - a.exponent == t;
  }

  lemma ZeroFactor(m: int, n: int, p: int)
    requires m == n * p && n == 0
    ensures m == 0
  {
  }

  /** `m == n × p` survives negating both `m` and `n`. */
  lemma SignedProduct(negative: bool, m: int, n: int, p: int)
    requires m == n * p
    ensures (if negative then -m else m) == (if negative then -n else n) * p
  {
  }

  /** Where `Normalize` puts the exponent: `exponent + |whole| − 1` less the leading zeros. */
  lemma NormalizeExponent(digits: string, exponent: int)
    ensures var d := RemoveFirst(digits, '.');
      && |d| == |WholePart(digits)| + |FractionPart(digits)|
      && |d| == LeadingZeros(d) + |Significant(d)| + TrailingZeros(d[LeadingZeros(d)..])
      && (Significant(d) != "" ==>
            Normalize("", digits, exponent).exponent == exponent + |WholePart(digits)| - 1 - LeadingZeros(d))
  {
    PointRemoved(digits);
  }

  /**
   * Value preservation: for any reading of the lower-cased input by the
   * grammar, splitNumber succeeds and its result denotes the numeral's number.
   */
  lemma SplitPreservesValue(value: string, c: Captures)
    requires WellFormed(c) && Lower(value) == Reassemble(c)
    ensures Split(value).Success?
    ensures SameNumber(Value(Split(value).value), NumeralValue(c))
  {
    MatchNumeralComplete(c);
    NormalizeValue(c.sign, c.digits, ExponentValue(c.exponent));
  }

  // ---------------------------------------------------------------------------
  // What the normal form says about the number
  // ---------------------------------------------------------------------------

  /** A normal split value is zero exactly when its coefficients are the single digit 0. */
  lemma NormalZero(sv: SplitValue)
    requires IsNormal(sv)
    ensures sv.coefficients == [0] <==> Value(sv).mantissa == 0
  {
    var cs := sv.coefficients;
    if cs != [0] {
      DigitsValueAtLeast(cs);
      Pow10Positive(|cs| - 1);
    } else {
      assert DigitsValue(cs) == 0 by { assert cs[..0] == []; }
    }
  }

  /**
   * The exponent of a non-zero normal split value is the power of ten of its
   * first digit: the mantissa has exactly |coefficients| digits, so
   * 10^exponent <= |number| < 10^(exponent + 1).
   */
  lemma NormalMagnitude(sv: SplitValue)
    requires IsNormal(sv) && sv.coefficients != [0]
    ensures var n, k := Value(sv), |sv.coefficients| - 1;
      && n.exponent + k == sv.exponent
      && Pow10(k) <= (if n.mantissa < 0 then -n.mantissa else n.mantissa) < Pow10(k + 1)
  {
    DigitsValueAtLeast(sv.coefficients);
    DigitsValueBelow(sv.coefficients);
  }

  // ---------------------------------------------------------------------------
  // The explicit exponent
  // ---------------------------------------------------------------------------

  /** The exponent given to `Normalize` only shifts the exponent of its result. */
  lemma NormalizeShift(sign: string, digits: string, exponent: int, delta: int)
    ensures Normalize(sign, digits, exponent + delta)
         == Normalize(sign, digits, exponent).(exponent := Normalize(sign, digits, exponent).exponent + delta)
  {
  }

  lemma LowerAppend(a: string, b: string)
    ensures Lower(a + b) == Lower(a) + Lower(b)
  {
  }

  lemma LowerExponentText(k: string)
    requires IsExponentText(k)
    ensures Lower(k) == k
  {
    forall i | 0 <= i < |k| ensures LowerChar(k[i]) == k[i] {
      if i > 0 || !(k[0] == '+' || k[0] == '-') {
        assert IsDigit(k[i]) by {
          if k[0] == '+' || k[0] == '-' { assert k[i] == k[1..][i - 1]; }
        }
      }
    }
  }

  /** The captures of a numeral without an exponent, with the exponent `k` added. */
  lemma MatchWithExponent(t: string, k: string)
    requires 'e' !in t && IsExponentText(k)
    ensures MatchNumeral(t).Some? <==> MatchNumeral(t + "e" + k).Some?
    ensures MatchNumeral(t).Some? ==>
      MatchNumeral(t).value.exponent == None &&
      MatchNumeral(t + "e" + k) == Some(MatchNumeral(t).value.(exponent := Some(k)))
  {
    if MatchNumeral(t).Some? {
      ExponentAdded(t, k);
    }
    if MatchNumeral(t + "e" + k).Some? {
      ExponentRemoved(t, k);
    }
  }

  lemma ExponentAdded(t: string, k: string)
    requires 'e' !in t && IsExponentText(k) && MatchNumeral(t).Some?
    ensures MatchNumeral(t).value.exponent == None
    ensures MatchNumeral(t + "e" + k) == Some(MatchNumeral(t).value.(exponent := Some(k)))
  {
    MatchNumeralSound(t);
    var c := MatchNumeral(t).value;
    var u := c.sign + c.digits;
    if c.exponent.Some? {
      assert false;
    }
    assert t == u + "";
    var c' := c.(exponent := Some(k));
    assert Reassemble(c') == u + ("e" + k);
    assert u + ("e" + k) == t + "e" + k;
    MatchNumeralComplete(c');
  }

  lemma ExponentRemoved(t: string, k: string)
    requires 'e' !in t && MatchNumeral(t + "e" + k).Some?
    ensures MatchNumeral(t).Some?
  {
    var w := t + "e" + k;
    MatchNumeralSound(w);
    var c := MatchNumeral(w).value;
    var u := c.sign + c.digits;
    var x := match c.exponent { case None => "" case Some(y) => "e" + y };
    NoMarkerInDigits(c.digits);
    assert w == u + x;
    FirstMarker(t, k, u, x);
    MatchNumeralComplete(c.(exponent := None));
    assert Reassemble(c.(exponent := None)) == t;
  }

  /** In `t + "e" + k`, with no 'e' in `t`, the first 'e' is the one after `t`. */
  lemma FirstMarker(t: string, k: string, u: string, x: string)
    requires 'e' !in t && 'e' !in u && t + "e" + k == u + x && (x == "" || x[0] == 'e')
    ensures x != "" && u == t
  {
    var w := t + "e" + k;
    assert w[..|t|] == t;
    IndexOfAt(w, 'e', |t|);
    if x != "" {
      assert w[..|u|] == u;
      IndexOfAt(w, 'e', |u|);
    }
  }

  /**
   * Exponent shift: splitting `m + "e" + k` (or with `E`) gives the sign and
   * coefficients of splitting `m`, with the exponent raised by exactly k.
   */
  lemma SplitExponentShift(m: string, marker: char, k: string)
    requires 'e' !in Lower(m) && (marker == 'e' || marker == 'E') && IsExponentText(k)
    ensures Split(m + [marker] + k).Success? <==> Split(m).Success?
    ensures Split(m).Success? ==>
      var a, b := Split(m).value, Split(m + [marker] + k).value;
      b.sign == a.sign && b.coefficients == a.coefficients && b.exponent == a.exponent + ExponentValue(Some(k))
  {
    LowerWithExponent(m, marker, k);
    MatchWithExponent(Lower(m), k);
    if Split(m).Success? {
      var c := MatchNumeral(Lower(m)).value;
      NormalizeShift(c.sign, c.digits, 0, ExponentValue(Some(k)));
    }
  }

  /** Lower-casing `m`, the marker and the exponent text lower-cases `m` alone. */
  lemma LowerWithExponent(m: string, marker: char, k: string)
    requires (marker == 'e' || marker == 'E') && IsExponentText(k)
    ensures Lower(m + [marker] + k) == Lower(m) + "e" + k
  {
    LowerAppend(m + [marker], k);
    LowerAppend(m, [marker]);
    LowerExponentText(k);
    assert Lower([marker]) == "e";
  }
}
