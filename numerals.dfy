/**
 * Decimal numerals as splitNumber reads them: the language of the pattern
 * `^(-?)(\d+\.?\d*)(e([+-]?\d+))?$`, the match that finds its capture groups,
 * and the exact decimal value that such a numeral denotes.
 */
module Numerals {
  import opened Results
  import opened Strings

  predicate IsDigit(c: char) { '0' <= c <= '9' }

  predicate AllDigits(s: string) { forall i :: 0 <= i < |s| ==> IsDigit(s[i]) }

  /** `Number(c)` for a one-digit string. */
  function DigitValue(c: char): (v: int)
    ensures IsDigit(c) ==> 0 <= v <= 9
    ensures IsDigit(c) ==> (v == 0 <==> c == '0')
  {
    c as int - '0' as int
  }

  /** `s.split('').map(Number)`: the digit values of the characters of `s`, in order. */
  function DigitsOf(s: string): (ds: seq<int>)
    ensures |ds| == |s|
    ensures forall i :: 0 <= i < |s| ==> ds[i] == DigitValue(s[i])
  {
    seq(|s|, i requires 0 <= i < |s| => DigitValue(s[i]))
  }

  lemma DigitsOfAppend(a: string, b: string)
    ensures DigitsOf(a + b) == DigitsOf(a) + DigitsOf(b)
  {
    assert forall i :: 0 <= i < |a + b| ==> DigitsOf(a + b)[i] == (DigitsOf(a) + DigitsOf(b))[i];
  }

  // ---------------------------------------------------------------------------
  // The pattern, one capture group at a time
  // ---------------------------------------------------------------------------

  /** Group 1, `-?`. */
  predicate IsSignText(s: string) { s == "" || s == "-" }

  /** Group 2, `\d+\.?\d*`: a digit first, then digits with at most one point among them. */
  predicate IsDigitsText(s: string)
  {
    && 0 < |s| && IsDigit(s[0])
    && (forall i :: 0 <= i < |s| ==> IsDigit(s[i]) || s[i] == '.')
    && (forall i, j :: 0 <= i < j < |s| && s[i] == '.' ==> s[j] != '.')
  }

  /** Group 4, `[+-]?\d+`. */
  predicate IsExponentText(s: string)
  {
    0 < |s| &&
    if s[0] == '+' || s[0] == '-' then 1 < |s| && AllDigits(s[1..]) else AllDigits(s)
  }

  /** The capture groups of a successful match: group 1, group 2 and group 4 (absent when group 3 did not take part). */
  datatype Captures = Captures(sign: string, digits: string, exponent: Option<string>)

  predicate WellFormed(c: Captures)
  {
    IsSignText(c.sign) && IsDigitsText(c.digits) && (c.exponent.Some? ==> IsExponentText(c.exponent.value))
  }

  /** The text that the captures were taken from. */
  function Reassemble(c: Captures): string
  {
    c.sign + c.digits + match c.exponent { case None => "" case Some(x) => "e" + x }
  }

  /** `t` belongs to the language of the pattern. */
  ghost predicate Matches(t: string)
  {
    exists c :: WellFormed(c) && Reassemble(c) == t
  }

  /**
   * The match of `t` against the pattern: the sign is a leading '-', the
   * digits run up to the first 'e', and the rest must be an exponent.
   */
  function MatchNumeral(t: string): Option<Captures>
  {
    var i := if 0 < |t| && t[0] == '-' then 1 else 0;
    var k := IndexOf(t[i..], 'e');
    var j := if k == -1 then |t| else i + k;
    if IsDigitsText(t[i..j]) && (j == |t| || IsExponentText(t[j + 1..])) then
      Some(Captures(t[..i], t[i..j], if j == |t| then None else Some(t[j + 1..])))
    else
      None
  }

  /** A match returns well-formed captures of the string it was given. */
  lemma MatchNumeralSound(t: string)
    requires MatchNumeral(t).Some?
    ensures WellFormed(MatchNumeral(t).value) && Reassemble(MatchNumeral(t).value) == t
  {
    var c := MatchNumeral(t).value;
    var i := if 0 < |t| && t[0] == '-' then 1 else 0;
    var k := IndexOf(t[i..], 'e');
    var j := if k == -1 then |t| else i + k;
    assert c.sign == t[..i] && c.digits == t[i..j];
    assert IsSignText(c.sign) by {
      if i == 1 { assert t[..i] == [t[0]]; }
    }
    if k == -1 {
      assert c.exponent == None;
      Rejoin(t, i, j);
    } else {
      assert t[j] == t[i..][k] == 'e';
      assert c.exponent == Some(t[j + 1..]);
      Rejoin(t, i, j);
    }
  }

  /** Cutting `t` at `i` and `j` and putting the pieces back gives `t`. */
  lemma Rejoin(t: string, i: nat, j: nat)
    requires i <= j <= |t|
    ensures j == |t| ==> t[..i] + t[i..j] + "" == t
    ensures j < |t| && t[j] == 'e' ==> t[..i] + t[i..j] + ("e" + t[j + 1..]) == t
  {
    if j < |t| && t[j] == 'e' {
      assert t[j..] == "e" + t[j + 1..];
      assert t == t[..i] + t[i..j] + t[j..];
    } else if j == |t| {
      assert t == t[..i] + t[i..j];
    }
  }

  /** Every well-formed decomposition is found by the match, and it is the only one. */
  lemma MatchNumeralComplete(c: Captures)
    requires WellFormed(c)
    ensures MatchNumeral(Reassemble(c)) == Some(c)
  {
    var t := Reassemble(c);
    var x := match c.exponent { case None => "" case Some(y) => "e" + y };
    var i := |c.sign|;
    var j := i + |c.digits|;
    NoMarkerInDigits(c.digits);
    Positions(c.sign, c.digits, x);
    assert t == c.sign + c.digits + x;
    var rest := if c.exponent.None? then None else Some(t[j + 1..]);
    if c.exponent.Some? {
      assert t[j + 1..] == t[j..][1..] == c.exponent.value;
    }
    assert (if 0 < |t| && t[0] == '-' then 1 else 0) == i;
    assert (if IndexOf(t[i..], 'e') == -1 then |t| else i + IndexOf(t[i..], 'e')) == j;
    assert IsDigitsText(t[i..j]);
    assert j == |t| || IsExponentText(t[j + 1..]);
    assert Captures(t[..i], t[i..j], rest) == c;
  }

  /** Where the sign, the digits and the exponent part of `sign + digits + x` lie. */
  lemma Positions(sign: string, digits: string, x: string)
    requires IsSignText(sign) && 0 < |digits| && digits[0] != '-' && 'e' !in digits
    requires x == "" || x[0] == 'e'
    ensures var t, i, j := sign + digits + x, |sign|, |sign| + |digits|;
      && i == (if 0 < |t| && t[0] == '-' then 1 else 0)
      && IndexOf(t[i..], 'e') == (if x == "" then -1 else |digits|)
      && t[..i] == sign && t[i..j] == digits && t[j..] == x
  {
    var t := sign + digits + x;
    Slices(sign, digits, x);
    assert t[0] == (if sign == "" then digits[0] else '-');
    MarkerAfterDigits(digits, x);
  }

  lemma Slices(a: string, b: string, c: string)
    ensures var t := a + b + c;
      && t[..|a|] == a && t[|a|..] == b + c && t[|a|..|a| + |b|] == b && t[|a| + |b|..] == c
  {
  }

  lemma NoMarkerInDigits(d: string)
    requires IsDigitsText(d)
    ensures 'e' !in d
  {
    forall n | 0 <= n < |d| ensures d[n] != 'e' {
      assert IsDigit(d[n]) || d[n] == '.';
    }
  }

  /** Where the first 'e' after the digits is. */
  lemma MarkerAfterDigits(d: string, x: string)
    requires 'e' !in d
    requires x == "" || x[0] == 'e'
    ensures IndexOf(d + x, 'e') == if x == "" then -1 else |d|
  {
    if x == "" {
      assert d + x == d;
    } else {
      assert (d + x)[..|d|] == d;
      IndexOfAt(d + x, 'e', |d|);
    }
  }

  /** The match succeeds exactly on the language of the pattern. */
  lemma MatchNumeralIff(t: string)
    ensures MatchNumeral(t).Some? <==> Matches(t)
  {
    if MatchNumeral(t).Some? {
      MatchNumeralSound(t);
    }
    if Matches(t) {
      var c :| WellFormed(c) && Reassemble(c) == t;
      MatchNumeralComplete(c);
    }
  }

  // ---------------------------------------------------------------------------
  // Exact decimal arithmetic
  // ---------------------------------------------------------------------------

  /** 10 to the power `n`, as an integer. */
  function Pow10(n: nat): nat
  {
    if n == 0 then 1 else 10 * Pow10(n - 1)
  }

  lemma {:induction false} Pow10Positive(n: nat)
    ensures 0 < Pow10(n)
  {
    if n > 0 {
      Pow10Positive(n - 1);
    }
  }

  /** The number written by a digit sequence, most significant digit first (Horner's rule). */
  function DigitsValue(ds: seq<int>): int
  {
    if ds == [] then 0 else DigitsValue(ds[..|ds| - 1]) * 10 + ds[|ds| - 1]
  }

  lemma {:induction false} DigitsValueAppend(a: seq<int>, b: seq<int>)
    ensures DigitsValue(a + b) == DigitsValue(a) * Pow10(|b|) + DigitsValue(b)
    decreases |b|
  {
    if b == [] {
      assert a + b == a;
    } else {
      var b' := b[..|b| - 1];
      assert (a + b)[..|a + b| - 1] == a + b';
      DigitsValueAppend(a, b');
      assert DigitsValue(a) * Pow10(|b|) == (DigitsValue(a) * Pow10(|b'|)) * 10;
    }
  }

  /** Σ ds[i] × 10^(|ds| − 1 − i): every digit at the power of its place, counted from the right. */
  function PlaceValue(ds: seq<int>): int
  {
    if ds == [] then 0 else ds[0] * Pow10(|ds| - 1) + PlaceValue(ds[1..])
  }

  /** Reading the digits by Horner's rule and by places gives the same number. */
  lemma {:induction false} DigitsValuePlaces(ds: seq<int>)
    ensures DigitsValue(ds) == PlaceValue(ds)
    decreases |ds|
  {
    if ds != [] {
      DigitsValuePlaces(ds[1..]);
      FirstDigitValue(ds);
    }
  }

  /** The first digit stands at the power of the number of digits after it. */
  lemma FirstDigitValue(ds: seq<int>)
    requires ds != []
    ensures DigitsValue(ds) == ds[0] * Pow10(|ds| - 1) + DigitsValue(ds[1..])
  {
    assert ds == [ds[0]] + ds[1..];
    DigitsValueAppend([ds[0]], ds[1..]);
    assert DigitsValue([ds[0]]) == ds[0] by { assert [ds[0]][..0] == []; }
  }

  /** A sequence of zero digits writes the number zero. */
  lemma {:induction false} DigitsValueZeros(ds: seq<int>)
    requires forall i :: 0 <= i < |ds| ==> ds[i] == 0
    ensures DigitsValue(ds) == 0
    decreases |ds|
  {
    if ds != [] {
      DigitsValueZeros(ds[..|ds| - 1]);
    }
  }

  /** Zero digits appended multiply the number by a power of ten. */
  lemma DigitsValueShifted(a: seq<int>, zeros: seq<int>)
    requires forall i :: 0 <= i < |zeros| ==> zeros[i] == 0
    ensures DigitsValue(a + zeros) == DigitsValue(a) * Pow10(|zeros|)
  {
    DigitsValueAppend(a, zeros);
    DigitsValueZeros(zeros);
  }

  /** Zero digits in front do not change the number. */
  lemma DigitsValueLeadingZeros(zeros: seq<int>, b: seq<int>)
    requires forall i :: 0 <= i < |zeros| ==> zeros[i] == 0
    ensures DigitsValue(zeros + b) == DigitsValue(b)
  {
    DigitsValueAppend(zeros, b);
    DigitsValueZeros(zeros);
  }

  /** Digits 0..9 write a number below 10^|ds|. */
  lemma {:induction false} DigitsValueBelow(ds: seq<int>)
    requires forall i :: 0 <= i < |ds| ==> 0 <= ds[i] <= 9
    ensures 0 <= DigitsValue(ds) < Pow10(|ds|)
    decreases |ds|
  {
    if ds != [] {
      DigitsValueBelow(ds[..|ds| - 1]);
    }
  }

  /** A non-zero leading digit makes the number at least 10^(|ds| - 1). */
  lemma DigitsValueAtLeast(ds: seq<int>)
    requires 0 < |ds| && 1 <= ds[0] <= 9
    requires forall i :: 0 <= i < |ds| ==> 0 <= ds[i] <= 9
    ensures Pow10(|ds| - 1) <= DigitsValue(ds)
  {
    var rest := ds[1..];
    assert ds == [ds[0]] + rest;
    DigitsValueAppend([ds[0]], rest);
    assert DigitsValue([ds[0]]) == ds[0] by { assert [ds[0]][..0] == []; }
    DigitsValueBelow(rest);
  }

  // ---------------------------------------------------------------------------
  // What a numeral denotes
  // ---------------------------------------------------------------------------

  /** `parseFloat` of group 4, or 0 when the numeral has no exponent (`match[4] || '0'`). */
  function ExponentValue(x: Option<string>): (e: int)
    ensures x.None? ==> e == 0
    ensures x.Some? && IsExponentText(x.value) && x.value[0] != '-' ==> 0 <= e
    ensures x.Some? && IsExponentText(x.value) && x.value[0] == '-' ==> e <= 0
  {
    ExponentDigits(x);
    match x
    case None => 0
    case Some(y) =>
      if 0 < |y| && y[0] == '-' then -DigitsValue(DigitsOf(y[1..]))
      else if 0 < |y| && y[0] == '+' then DigitsValue(DigitsOf(y[1..]))
      else DigitsValue(DigitsOf(y))
  }

  /** The digits of an exponent text write a number that is not negative. */
  lemma ExponentDigits(x: Option<string>)
    ensures x.Some? && IsExponentText(x.value) ==>
      var y := x.value;
      var ds := DigitsOf(if y[0] == '+' || y[0] == '-' then y[1..] else y);
      0 <= DigitsValue(ds)
  {
    if x.Some? && IsExponentText(x.value) {
      var y := x.value;
      var d := if y[0] == '+' || y[0] == '-' then y[1..] else y;
      DigitsValueBelow(DigitsOf(d));
    }
  }

  /** The digits before the point (all of them when there is none). */
  function WholePart(digits: string): string
  {
    var p := IndexOf(digits, '.');
    if p == -1 then digits else digits[..p]
  }

  /** The digits after the point (none when there is no point). */
  function FractionPart(digits: string): string
  {
    var p := IndexOf(digits, '.');
    if p == -1 then "" else digits[p + 1..]
  }

  /** The exact number `mantissa` × 10^`exponent`. */
  datatype Decimal = Decimal(mantissa: int, exponent: int)

  /** Two decimals stand for the same number: scaled to the smaller exponent, their mantissas agree. */
  predicate SameNumber(a: Decimal, b: Decimal)
  {
    if a.exponent <= b.exponent then a.mantissa == b.mantissa * Pow10(b.exponent - a.exponent)
    else a.mantissa * Pow10(a.exponent - b.exponent) == b.mantissa
  }

  /**
   * The number `sign whole.fraction` × 10^scale: the whole part followed by
   * the fraction part, read as one integer, at the power `scale − |fraction|`.
   */
  function DecimalOf(sign: string, digits: string, scale: int): Decimal
  {
    var whole, fraction := WholePart(digits), FractionPart(digits);
    var magnitude := DigitsValue(DigitsOf(whole)) * Pow10(|fraction|) + DigitsValue(DigitsOf(fraction));
    Decimal(if sign == "-" then -magnitude else magnitude, scale - |fraction|)
  }

  /** The number a matched numeral denotes. */
  function NumeralValue(c: Captures): Decimal
  {
    DecimalOf(c.sign, c.digits, ExponentValue(c.exponent))
  }
}
