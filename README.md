# Number utilities: splitNumber, the padding half of toFixed, zeros and sign

This project models, in Dafny, four helpers of the number-utilities module
`libs/variant5.js` and proves what they promise.

- **splitNumber** takes a decimal numeral apart. It matches the lower-cased
  text against `^(-?)(\d+\.?\d*)(e([+-]?\d+))?$` and throws
  `SyntaxError('Invalid number ' + value)` when the text does not match.
  Otherwise it places the exponent at the first digit, drops the point, drops
  the leading zeros (lowering the exponent by their count) and the trailing
  zeros, and writes zero as `[0]`. The model states the result
  (`Splitting.Split`) and an imperative method that follows it step by step
  (`Splitting.SplitNumber`). Then it proves:
  - the error happens exactly off the grammar;
  - the result is in normal form;
  - the sign;
  - case insensitivity;
  - the exponent shift;
  - that the result denotes the same exact number as the numeral.
- **toFixed, padding half**: the rounded value's text gets a point if it has
  none, then as many `'0'` as are missing for `precision` decimals.
  `'0'.repeat` throws a `RangeError` when the count is negative, and the model
  gives that as an `InvalidCount` error.
- **zeros(count)**: `Array(count).fill(0)`, a fresh array filled in place.
  `Array` rejects lengths outside `0 .. 2^32 - 1` with a `RangeError`, given
  as `InvalidArrayLength`.
- **sign(x)**: 1, -1 or 0.

Numbers are exact in the model.
- A numeral denotes `Numerals.Decimal(mantissa, exponent)`, the integer
  `mantissa × 10^exponent` with unbounded integers.
- A split value `{sign, coefficients, exponent}` denotes
  `±Σ coefficients[i] × 10^(exponent − i)`. `Splitting.Value` reads the
  coefficients as one integer (Horner's rule), and
  `Numerals.DigitsValuePlaces` proves that this equals the place-value sum.
- `Numerals.SameNumber` compares two decimals by scaling them to a common
  exponent.

Files:

| file | contents |
|---|---|
| `results.dfy` | `Option`, `Result` and the three error kinds |
| `strings.dfy` | `indexOf`, `replace` of the first occurrence, `repeat` and ASCII lower-casing |
| `numerals.dfy` | the numeral grammar, the match, and exact place-value arithmetic |
| `splitting.dfy` | splitNumber and its properties |
| `fixed_format.dfy` | the padding step of toFixed |
| `basics.dfy` | `sign` and `zeros` |
| `test_cases.dfy` | the cases of `libs/variant5.test.js`, worked out on the model |

## Model

| member | source | states |
|---|---|---|
| Splitting.Split | libs/variant5.js:57-87 | the result of splitNumber, as a function: the match of the lower-cased text, a SyntaxError when there is none, else the normalised captures. `SplitNumber` is proved equal to it, and `SplitSpecified` gives its properties |
| Splitting.Normalize | libs/variant5.js:64-86 | the normalisation of the captures, as a function. `NormalizeDigits` is proved equal to it, `NormalizeIsNormal` proves its normal form, and `NormalizeValue` proves its exact value |
| Splitting.SplitNumber | libs/variant5.js:57-87 | splitNumber computes `Split(value)`. It fails exactly when the lower-cased text is off the grammar, and then with the message `"Invalid number " + value`. On success the result is in normal form, its sign is "-" iff the input starts with '-', and it denotes the same number as the numeral |
| Splitting.NormalizeDigits | libs/variant5.js:64-86 | the step-by-step normalisation (move the exponent to the dot, strip the point, strip and count the leading zeros, strip the trailing zeros, map to digits, turn zero into `[0]` with the exponent raised) gives exactly `Normalize` on the captures |
| Splitting.SplitSpecified | libs/variant5.js:57-87 | `Split` fails iff the input is off the grammar, with the source's message; on success it is normal, signed like the input and of the numeral's value |
| Splitting.SplitFailsOffGrammar | libs/variant5.js:59-62 | a SyntaxError with message `"Invalid number " + value` happens exactly when the lower-cased input is not in the pattern's language |
| Splitting.SplitSign | libs/variant5.js:59-64 | on success the sign is "-" when the input's first character is '-' and "" otherwise, never "+" |
| Splitting.SplitIgnoresCase | libs/variant5.js:59 | two inputs with the same lower-cased text split alike: `E` is read as `e` |
| Splitting.SplitIsNormal | libs/variant5.js:71-84 | every successful result has sign "" or "-", at least one coefficient, every coefficient in 0..9, and either is `[0]` or starts and ends with a non-zero digit |
| Splitting.NormalizeIsNormal | libs/variant5.js:71-84 | on well-formed captures the normalised value is normal and keeps the captured sign |
| Splitting.LeadingZeros | libs/variant5.js:73-76 | the count removed by `/^0+/`: every character before it is '0' and the next one is not |
| Splitting.TrailingZeros | libs/variant5.js:77 | the count removed by `/0*$/`: every character after the cut is '0' and the one before is not |
| Splitting.SignificantValue | libs/variant5.js:73-77 | removing the leading and trailing zeros divides the digits' number by exactly 10^(trailing zeros) |
| Splitting.NormalizeValue | libs/variant5.js:68-84 | the normalised value denotes `sign digits × 10^exponent` exactly, zero included |
| Splitting.SplitPreservesValue | libs/variant5.js:57-87 | for every well-formed reading of the input, splitNumber succeeds and its result equals the numeral's exact value |
| Splitting.NormalZero | libs/variant5.js:81-84 | a normal split value is zero exactly when its coefficients are `[0]` |
| Splitting.NormalMagnitude | libs/variant5.js:68-79 | for a non-zero result with n coefficients, `exponent` is the power of ten of the first coefficient: the mantissa's magnitude lies in [10^(n−1), 10^n) and it stands at the power `exponent − n + 1` |
| Splitting.NormalizeShift | libs/variant5.js:66-84 | the given exponent only shifts the result's exponent, by the same amount |
| Splitting.MatchWithExponent | libs/variant5.js:59 | appending `e` and an exponent text to a text without `e` keeps the match and adds exactly that exponent capture |
| Splitting.SplitExponentShift | libs/variant5.js:59-66 | splitting `m + "e" + k` or `m + "E" + k` succeeds iff splitting `m` does, with the same sign and coefficients and the exponent raised by k |
| Numerals.MatchNumeral | libs/variant5.js:59-60 | the regular-expression match. It yields captures exactly on the language of the pattern (`MatchNumeralIff`); those captures reassemble into the text (`MatchNumeralSound`), and they are its only decomposition (`MatchNumeralComplete`) |
| Numerals.ExponentValue | libs/variant5.js:66 | `parseFloat(match[4] \|\| '0')`: 0 without an exponent; for an exponent text, at most 0 when it starts with '-' and at least 0 otherwise. The value is exact here; see "## Left out" |
| Numerals.DigitValue | libs/variant5.js:79 | `Number` of a digit character is in 0..9, and it is 0 exactly for '0' |
| Strings.Lower | libs/variant5.js:59 | `toLowerCase` keeps the length, adds 32 to every ASCII upper-case letter, keeps every other character, and leaves no ASCII upper-case letter. Only ASCII letters are lowered; see its line under "## Left out" |
| Strings.LowerIdempotent | libs/variant5.js:59 | lower-casing twice is lower-casing once |
| Strings.IndexOf | libs/variant5.js:68 | `indexOf` of one character (also used at line 106) is -1 exactly when the character is absent, and otherwise the position of its first occurrence |
| Strings.RemoveFirst | libs/variant5.js:72 | `replace('.', '')` removes the first point and only that one, and leaves a text without a point unchanged |
| Strings.Repeat | libs/variant5.js:117 | `'0'.repeat(n)` has length n, and every character is '0' |
| Numerals.MatchNumeralSound | libs/variant5.js:59 | a match yields well-formed captures that reassemble into the matched text |
| Numerals.MatchNumeralComplete | libs/variant5.js:59 | every well-formed decomposition is found by the match, and it is the only one |
| Numerals.MatchNumeralIff | libs/variant5.js:59-60 | the match succeeds exactly on the language of the pattern |
| Numerals.DigitsOf | libs/variant5.js:78-79 | `split('').map(Number)` keeps the length and maps each character to its digit value |
| Numerals.DigitsValuePlaces | libs/variant5.js:78-86 | n coefficients read as one integer equal Σ cs[i] × 10^(n−1−i) |
| FixedFormat.Decimals | libs/variant5.js:115 | `split('.')[1] \|\| ''` is empty without a point and otherwise a point-free prefix of the text after the first point, all of it when there is no second point |
| FixedFormat.Padded | libs/variant5.js:105-118 | the padding at the end of `toFixed`, as a function. `PadFixed` is proved equal to it, and `PaddedShape`, `PaddedExtends`, `PaddedAddsPoint`, `PaddedPrecision`, `PaddedSinglePoint` and `PaddedIdempotent` give its properties |
| FixedFormat.PadFixed | libs/variant5.js:105-120 | the padding computes `Padded`. With precision ≤ 0 the text is unchanged. It fails with `InvalidCount(precision − decimals)` exactly when the text already has more decimals than `precision`. Otherwise the output is the text, then a point only if it had none, then `precision − decimals` zeros |
| FixedFormat.PaddedShape | libs/variant5.js:105-118 | the same outcome as `PadFixed`, stated about the function `Padded` |
| FixedFormat.PaddedExtends | libs/variant5.js:108-118 | the input is a prefix of the padded text, and every added character is '.' or '0' |
| FixedFormat.PaddedAddsPoint | libs/variant5.js:106-112 | a point already there stays the first point; a point-free input gets one iff precision > 0, right at its end |
| FixedFormat.PaddedPrecision | libs/variant5.js:108-118 | for a text with at most one point and precision > 0, exactly `precision` characters follow the point of the output |
| FixedFormat.PaddedSinglePoint | libs/variant5.js:108-118 | padding never adds a second point |
| FixedFormat.PaddedIdempotent | libs/variant5.js:108-118 | padding an already padded text (at most one point) changes nothing |
| Basics.Sign | libs/variant5.js:25-33 | the result is 1 iff x > 0, -1 iff x < 0, 0 iff x = 0 |
| Basics.SignTimesAbs | libs/variant5.js:25-33 | a number is its sign times its magnitude |
| Basics.SignNegate | libs/variant5.js:25-33 | the sign of −x is minus the sign of x |
| Basics.SignProduct | libs/variant5.js:25-33 | the sign of a product is the product of the signs |
| Basics.Zeros | libs/variant5.js:167-169 | fails with `InvalidArrayLength(count)` exactly when count is not in 0 .. 2^32 − 1; otherwise a fresh array of `count` elements, all 0 |
| Basics.Fill | libs/variant5.js:168 | `fill(0)` sets every element of the array to the value |
| TestCases.SplitSmallNegative | libs/variant5.test.js:74-78 | "-0.00123" splits into sign "-", coefficients [1, 2, 3], exponent −3 |
| TestCases.SplitWithFraction | libs/variant5.test.js:80-84 | "123.45" splits into sign "", coefficients [1, 2, 3, 4, 5], exponent 2 |
| TestCases.SplitZero | libs/variant5.test.js:88-92 | "0" splits into sign "", coefficients [0], exponent 0 |
| TestCases.SplitInvalid | libs/variant5.test.js:94 | "invalid" fails with SyntaxError "Invalid number invalid" |
| TestCases.SplitUpperExponent | libs/variant5.js:59 | "1E5" splits into coefficients [1] with exponent 5 |
| TestCases.SplitTrailingPoint | libs/variant5.js:59-69 | "123." is accepted and splits into [1, 2, 3] with exponent 2 |
| TestCases.SplitRejectsBareFraction | libs/variant5.js:59-62 | ".5" and "+5" are off the grammar and fail |
| TestCases.PadOneToTwo | libs/variant5.test.js:103 | toFixed(1, 2): "1" pads to "1.00" |
| TestCases.PadFullDecimals | libs/variant5.test.js:100 | toFixed(123.456, 2): the rounded "123.46" is kept as it is |
| TestCases.PadSmall | libs/variant5.test.js:101 | toFixed(0.00123, 3): the rounded "0.001" is kept as it is |
| TestCases.PadNegative | libs/variant5.test.js:102 | toFixed(-123.456, 1): the rounded "-123.5" is kept as it is |
| TestCases.SignCases | libs/variant5.test.js:31-33 | sign(5) = 1, sign(-10) = -1, sign(0) = 0 |

## Left out

- isInteger, log2, DBL_EPSILON and nearlyEqual are not modelled: they are floating-point tests and constants outside this model. nearlyEqual's `x === NaN` branch can never be taken.
- roundDigits is not modelled. It rounds through floating point; it also ignores the exponent, and it drops the sign when precision < 0.
- toFixed, rounding half, is left out: the `isNaN`/`isFinite` early return, `Math.round(value * 10^precision) / 10^precision` and `Number.prototype.toString` are floating point. The padding starts from the rounded value's text, which is a parameter. Without a precision the rounding half gives NaN (`Math.pow(10, undefined)` is NaN), so `toFixed(x)` returns "NaN" for every finite x; the padding claims below are about the padding step alone.
- FixedFormat.PadFixed: `precision` is an integer. In the padding step alone, a missing (undefined) precision behaves like one ≤ 0, because `undefined > 0` is false. Fractional precisions are not modelled.
- FixedFormat.PadFixed: a rounded text in exponent form, such as "1e+21", is padded as it is, to "1e+21.00", just as the source does.
- Splitting.SplitNumber: the input is the text `String(value)`. Numbers are given by their text; how JavaScript prints a number is not modelled.
- Numerals.ExponentValue: the exponent arithmetic of `splitNumber` is exact here (unbounded integers). In the source `exponent` is a double through `parseFloat` and its updates, so exponents beyond 2^53 in magnitude are rounded ("1e9007199254740993" gives 9007199254740992 there, 9007199254740993 here) and exponents beyond about 1.8e308 become Infinity; neither is modelled.
- Strings.Lower: `toLowerCase` is modelled on ASCII letters only. Only 'E' affects the match, since no other character that lowers changes whether the pattern matches.
- Splitting.SplitNumber: the record's type annotation allows the sign '+', but the code never produces it. The model follows the code.
- Splitting.SplitNumber: when the value is zero, the exponent follows the code's `exponent++`. So "0.00" gives `[0]` with exponent −2, and "0" gives exponent 0.
- Basics.Sign: `x` is an exact real. NaN, −0 and the infinities are left out: NaN compares false both ways and so gives 0.
- Basics.Zeros: `count` is an integer. Non-integer and non-number arguments to `Array` are left out.
- The test suite's replacement of `Math.sign` and `Math.log2` is not modelled: it is about the host environment.
