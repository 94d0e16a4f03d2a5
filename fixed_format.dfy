/**
 * The padding half of toFixed: given the text of the already rounded value,
 * add a point when there is none and enough '0' characters that `precision`
 * digits follow the point.
 */
module FixedFormat {
  import opened Results
  import opened Strings

  /** `s.split('.')[1] || ''`: the text between the first point and the next one (or the end). */
  function Decimals(s: string): (d: string)
    ensures '.' !in s ==> d == ""
    ensures '.' in s ==> d <= s[IndexOf(s, '.') + 1..]
    ensures '.' in s && '.' !in s[IndexOf(s, '.') + 1..] ==> d == s[IndexOf(s, '.') + 1..]
    ensures '.' !in d
  {
    var p := IndexOf(s, '.');
    if p == -1 then ""
    else
      var rest := s[p + 1..];
      var q := IndexOf(rest, '.');
      if q == -1 then rest
      else
        assert rest == rest[..q] + rest[q..];
        rest[..q]
  }

  /** `s` has one point at most. */
  predicate SinglePoint(s: string)
  {
    '.' in s ==> '.' !in s[IndexOf(s, '.') + 1..]
  }

  /** The padding at the end of `toFixed`: the text of the rounded value, padded to `precision` decimals. */
  function Padded(s: string, precision: int): Result<string>
  {
    if precision <= 0 then Success(s)
    else
      var t := if IndexOf(s, '.') == -1 then s + "." else s;
      var missing := precision - |Decimals(t)|;
      if missing < 0 then Failure(InvalidCount(missing))
      else Success(t + Repeat('0', missing))
  }

  /**
   * The padding at the end of `toFixed`, appending to `result` as `toFixed` does: it
   * computes `Padded`, leaves the text alone when `precision` is not
   * positive, fails exactly when the text already has more than `precision`
   * decimals, and otherwise keeps the text as a prefix, adds a point only
   * when there was none, and then adds only '0' characters.
   */
  method PadFixed(rounded: string, precision: int) returns (r: Result<string>)
    ensures r == Padded(rounded, precision)
    ensures precision <= 0 ==> r == Success(rounded)
    ensures r.Failure? <==> 0 < precision < |Decimals(rounded)|
    ensures r.Failure? ==> r.error == InvalidCount(precision - |Decimals(rounded)|)
    ensures r.Success? && 0 < precision ==>
      r.value == rounded + (if '.' in rounded then "" else ".") + Repeat('0', precision - |Decimals(rounded)|)
  {
    var result := rounded;
    var decimalIndex := IndexOf(result, '.');
    if precision > 0 {
      if decimalIndex == -1 {
        result := result + ".";
      }
      var decimals := Decimals(result);
      var missingZeros := precision - |decimals|;
      if missingZeros < 0 {
        PaddedShape(rounded, precision);
        return Failure(InvalidCount(missingZeros));
      }
      result := result + Repeat('0', missingZeros);
    }
    r := Success(result);
    PaddedShape(rounded, precision);
  }

  /** A point added at the end has no decimals after it. */
  lemma DecimalsOfAddedPoint(s: string)
    requires '.' !in s
    ensures Decimals(s + ".") == ""
  {
    var t := s + ".";
    assert t[..|s|] == s;
    IndexOfAt(t, '.', |s|);
    assert t[|s| + 1..] == "";
  }

  /** What `Padded` gives, in terms of its input alone. */
  lemma PaddedShape(s: string, precision: int)
    ensures precision <= 0 ==> Padded(s, precision) == Success(s)
    ensures Padded(s, precision).Failure? <==> 0 < precision < |Decimals(s)|
    ensures Padded(s, precision).Failure? ==> Padded(s, precision).error == InvalidCount(precision - |Decimals(s)|)
    ensures Padded(s, precision).Success? && 0 < precision ==>
      Padded(s, precision).value == s + (if '.' in s then "" else ".") + Repeat('0', precision - |Decimals(s)|)
  {
    if precision <= 0 {
    } else if '.' in s {
      assert IndexOf(s, '.') != -1;
    } else {
      DecimalsOfAddedPoint(s);
      assert IndexOf(s, '.') == -1;
    }
  }

  /** The padded text starts with the input, and everything after it is a point or a '0'. */
  lemma PaddedExtends(s: string, precision: int)
    requires Padded(s, precision).Success?
    ensures var out := Padded(s, precision).value;
      && |s| <= |out| && out[..|s|] == s
      && (forall i :: |s| <= i < |out| ==> out[i] == '0' || out[i] == '.')
  {
    PaddedShape(s, precision);
    if 0 < precision {
      var zeros := Repeat('0', precision - |Decimals(s)|);
      var tail := (if '.' in s then "" else ".") + zeros;
      assert forall i :: 0 <= i < |tail| ==> tail[i] == '0' || tail[i] == '.';
      Extended(s, tail);
    } else {
      assert s[..|s|] == s;
    }
  }

  /** `s + tail` starts with `s` and goes on with the characters of `tail`. */
  lemma Extended(s: string, tail: string)
    ensures (s + tail)[..|s|] == s
    ensures forall i :: |s| <= i < |s + tail| ==> (s + tail)[i] == tail[i - |s|]
  {
  }

  /**
   * A point is added only when the input has none, and then only when
   * `precision` is positive, right after the input; a point already there
   * stays the first point.
   */
  lemma PaddedAddsPoint(s: string, precision: int)
    requires Padded(s, precision).Success?
    ensures var out := Padded(s, precision).value;
      && ('.' in s ==> IndexOf(out, '.') == IndexOf(s, '.'))
      && ('.' !in s ==> ('.' in out <==> 0 < precision))
      && ('.' !in s && 0 < precision ==> IndexOf(out, '.') == |s|)
  {
    if '.' in s {
      PaddedKeepsPoint(s, precision);
    } else {
      PaddedNewPoint(s, precision);
    }
  }

  lemma PaddedKeepsPoint(s: string, precision: int)
    requires '.' in s && Padded(s, precision).Success?
    ensures IndexOf(Padded(s, precision).value, '.') == IndexOf(s, '.')
  {
    PaddedShape(s, precision);
    if 0 < precision {
      FirstPointKept(s, Repeat('0', precision - |Decimals(s)|));
    }
  }

  lemma PaddedNewPoint(s: string, precision: int)
    requires '.' !in s && Padded(s, precision).Success?
    ensures '.' in Padded(s, precision).value <==> 0 < precision
    ensures 0 < precision ==> IndexOf(Padded(s, precision).value, '.') == |s|
  {
    PaddedShape(s, precision);
    if 0 < precision {
      var zeros := Repeat('0', precision - |Decimals(s)|);
      assert '.' !in zeros;
      PointAppended(s, zeros);
    }
  }

  lemma FirstPointKept(s: string, zeros: string)
    requires '.' in s
    ensures IndexOf(s + zeros, '.') == IndexOf(s, '.')
  {
    var p := IndexOf(s, '.');
    assert (s + zeros)[..p] == s[..p];
    IndexOfAt(s + zeros, '.', p);
  }

  lemma PointAppended(s: string, zeros: string)
    requires '.' !in s && '.' !in zeros
    ensures IndexOf(s + "." + zeros, '.') == |s|
    ensures (s + "." + zeros)[|s| + 1..] == zeros
  {
    var out := s + "." + zeros;
    assert out[..|s|] == s;
    IndexOfAt(out, '.', |s|);
  }

  /**
   * With one point at most and `precision` positive, exactly `precision`
   * characters follow the point of the padded text.
   */
  lemma PaddedPrecision(s: string, precision: int)
    requires SinglePoint(s) && 0 < precision && Padded(s, precision).Success?
    ensures var out := Padded(s, precision).value;
      '.' in out && |out| - IndexOf(out, '.') - 1 == precision
  {
    PaddedShape(s, precision);
    PaddedAddsPoint(s, precision);
    if '.' in s {
      assert |Decimals(s)| == |s| - IndexOf(s, '.') - 1;
    }
  }

  /** Padding twice is padding once: a padded text with one point already has its decimals. */
  lemma PaddedIdempotent(s: string, precision: int)
    requires SinglePoint(s) && Padded(s, precision).Success?
    ensures Padded(Padded(s, precision).value, precision) == Padded(s, precision)
  {
    var out := Padded(s, precision).value;
    if 0 < precision {
      PaddedPrecision(s, precision);
      PaddedSinglePoint(s, precision);
      var p := IndexOf(out, '.');
      assert Decimals(out) == out[p + 1..];
      assert out + Repeat('0', 0) == out;
    }
  }

  /** Padding keeps a single point single. */
  lemma PaddedSinglePoint(s: string, precision: int)
    requires SinglePoint(s) && Padded(s, precision).Success?
    ensures SinglePoint(Padded(s, precision).value)
  {
    if 0 < precision {
      PaddedShape(s, precision);
      var zeros := Repeat('0', precision - |Decimals(s)|);
      assert '.' !in zeros;
      if '.' in s {
        PointKept(s, zeros, IndexOf(s, '.'));
      } else {
        NewPointSingle(s, zeros);
      }
    }
  }

  lemma NewPointSingle(s: string, zeros: string)
    requires '.' !in s && '.' !in zeros
    ensures SinglePoint(s + "." + zeros)
  {
    PointAppended(s, zeros);
  }

  /** Appending text without a point keeps the first point where it was and adds no point after it. */
  lemma PointKept(s: string, zeros: string, p: int)
    requires 0 <= p < |s| && s[p] == '.' && '.' !in s[..p] && '.' !in s[p + 1..] && '.' !in zeros
    ensures IndexOf(s + zeros, '.') == p && '.' !in (s + zeros)[p + 1..]
  {
    var out := s + zeros;
    assert out[..p] == s[..p];
    IndexOfAt(out, '.', p);
    assert out[p + 1..] == s[p + 1..] + zeros;
  }
}
