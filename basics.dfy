/** The two small helpers of the library: `sign` and `zeros`. */
module Basics {
  import opened Results

  /** `sign(x)`: 1 for a positive number, -1 for a negative one, 0 otherwise. */
  function Sign(x: real): (r: int)
    ensures r == 1 <==> x > 0.0
    ensures r == -1 <==> x < 0.0
    ensures r == 0 <==> x == 0.0
  {
    if x > 0.0 then 1 else if x < 0.0 then -1 else 0
  }

  function Abs(x: real): (r: real)
    ensures 0.0 <= r && (r == x || r == -x)
  {
    if x < 0.0 then -x else x
  }

  /** A number is its sign times its magnitude. */
  lemma SignTimesAbs(x: real)
    ensures Sign(x) as real * Abs(x) == x
  {
    if x < 0.0 {
      assert Sign(x) as real == -1.0;
    } else if x > 0.0 {
      assert Sign(x) as real == 1.0;
    }
  }

  /** Negating a number negates its sign. */
  lemma SignNegate(x: real)
    ensures Sign(-x) == -Sign(x)
  {
  }

  /** The sign of a product is the product of the signs. */
  lemma SignProduct(x: real, y: real)
    ensures Sign(x * y) == Sign(x) * Sign(y)
  {
    if x > 0.0 && y > 0.0 {
      Positive(x, y);
    } else if x > 0.0 && y < 0.0 {
      Positive(x, -y);
    } else if x < 0.0 && y > 0.0 {
      Positive(-x, y);
    } else if x < 0.0 && y < 0.0 {
      Positive(-x, -y);
    }
  }

  lemma Positive(x: real, y: real)
    requires 0.0 < x && 0.0 < y
    ensures 0.0 < x * y && x * y == (-x) * (-y) && -(x * y) == (-x) * y && -(x * y) == x * (-y)
  {
  }

  /** The largest length plus one that `Array(count)` accepts: lengths are 32-bit unsigned integers. */
  const ArrayLengthBound: int := 0x1_0000_0000

  /**
   * `zeros(count)`: `Array(count).fill(0)`. `Array` throws a RangeError
   * unless `count` is a valid array length; otherwise a new array of
   * `count` elements is filled with 0 in place.
   */
  method Zeros(count: int) returns (r: Result<array<int>>)
    ensures r.Failure? <==> !(0 <= count < ArrayLengthBound)
    ensures r.Failure? ==> r.error == InvalidArrayLength(count)
    ensures r.Success? ==> fresh(r.value) && r.value.Length == count
    ensures r.Success? ==> forall i :: 0 <= i < r.value.Length ==> r.value[i] == 0
  {
    if count < 0 || count >= ArrayLengthBound {
      return Failure(InvalidArrayLength(count));
    }
    var a := new int[count];
    Fill(a, 0);
    r := Success(a);
  }

  /** `Array.prototype.fill(value)`: every element of `a` becomes `value`. */
  method Fill(a: array<int>, value: int)
    modifies a
    ensures forall i :: 0 <= i < a.Length ==> a[i] == value
  {
    var k := 0;
    while k < a.Length
      invariant 0 <= k <= a.Length
      invariant forall i :: 0 <= i < k ==> a[i] == value
    {
      a[k] := value;
      k := k + 1;
    }
  }
}
