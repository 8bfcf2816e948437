# number-calculate, modelled in Dafny

number-calculate (`src/index.js`) is a small JavaScript library for
"exact" decimal arithmetic. It aims to avoid errors like `0.1 + 0.2 !== 0.3`.
It reads the digit counts from the number's decimal text:

- `digitLength` counts the places after the point, corrected by the exponent.
- `float2Fixed` deletes the point and reads the digits back as an integer.

`mul`, `add`, `sub` and `div` scale their operands to integers this way,
combine the integers, and scale the result back by a power of ten. `round`
is `div(Math.round(mul(x, 10^r)), 10^r)`. The variadic forms fold the binary
operation from the left.

This project models that core with exact decimals instead of IEEE doubles.
It proves that the library's fixed-point recipe then gives the exact product,
sum, difference, quotient and rounding.

The project has two layers and a bridge between them:

- **Text layer** (`decimal_text.dfy`, `text_properties.dfy`,
  `exponent_case.dfy`, `text_examples.dfy`):
  - `digitLength` and `float2Fixed` are functions over strings.
  - They sit on models of the JavaScript primitives they call: `split` on a
    one-character separator, `indexOf`, `replace` (first occurrence only) and
    `Number(text)` for decimal numerals.
  - `Number(text)` gives the exact decimal value and `None` for NaN.
- **Arithmetic layer** (`exact_decimal.dfy`, `calc.dfy`, `variadic.dfy`,
  `examples.dfy`):
  - A number is `Dec(mant, scale)`, whose value is `mant / 10^scale`.
  - Every operation returns the canonical form: no trailing zero in the
    mantissa when the scale is positive. That canonical form is what a
    JavaScript number prints as.
  - For a decimal `d`, `d.mant` plays the role of `float2Fixed` and `d.scale`
    the role of `digitLength`.
- **Bridge** (`rendering.dfy`):
  - `Render(d)` is the plain decimal text of `d`.
  - On that text, `digitLength` is `d.scale`, `float2Fixed` is `d.mant`, and
    `Number` gives back `d`.
  - So the arithmetic layer's use of `(mant, scale)` is what the library
    computes from the text.

Native integer `/` in `div` is modelled as follows. When the quotient of the
two digit strings has a finite decimal expansion, the result is that exact
decimal. Otherwise the result is `None`, which stands for a result that a
double would have to round. The search for the number of decimals stops at
the divisor's magnitude; `Divisibility.WithinDivisor` proves that no
terminating quotient needs more, so `div(a, b)` is `None` exactly when no
decimal times `b` gives `a` (`Calc.DivFindsQuotient`).

`Math.round` is modelled as JavaScript defines it: `floor(v + 1/2)`. A
negative tie therefore rounds toward +infinity (`round(-2.5, 0)` is `-2`). It
does not round half away from zero, as the library's description of `round`
says; the model follows the code (`Examples.NegativeTieRoundsUp`).

## Model

| member | source | states |
|---|---|---|
| Calc.CheckBoundary | src/index.js:51-57 | true exactly when the integer lies outside [Number.MIN_SAFE_INTEGER, Number.MAX_SAFE_INTEGER], i.e. when its magnitude is at least 2^53 |
| Calc.PowerOfTen | src/index.js:147 | `Math.pow(10, e)` for any integer e, negative too: a canonical decimal whose value is exactly 10^e |
| Calc.Mul | src/index.js:73-80 | the digit product divided by 10^(dl a + dl b) is canonical and its value is exactly the product of the operands' values |
| Calc.MulCommutes | src/index.js:69-81 | mul(a, b) and mul(b, a) are the same decimal |
| Calc.MulAssociates | src/index.js:69-81 | mul(mul(a, b), c) and mul(a, mul(b, c)) have the same value |
| Calc.ScaledOperandIsInteger | src/index.js:96-97 | mul by 10^m, for m at least the operand's scale, gives the integer of its digits aligned to m places |
| Calc.Add | src/index.js:96-97 | scaling both operands by 10^max(dl), adding and dividing back gives a canonical decimal whose value is exactly the sum |
| Calc.Sub | src/index.js:113-114 | the same recipe with the integers subtracted gives exactly the difference |
| Calc.AddCommutes | src/index.js:92-98 | add(a, b) and add(b, a) are the same decimal |
| Calc.AddUndoesSub | src/index.js:96-97 | add(sub(a, b), b) is a in canonical form |
| Calc.SubUndoesAdd | src/index.js:113-114 | sub(add(a, b), b) is a in canonical form |
| Calc.SubAntiCommutes | src/index.js:113-114 | sub(a, b) is the negation of sub(b, a) in value |
| Calc.NativeQuotient | src/index.js:134 | native `/` of the two digit strings: when Some, a canonical decimal that times the divisor gives the dividend; None when no k up to the divisor's magnitude makes divisor \| dividend * 10^k |
| Divisibility.WithinDivisor | src/index.js:134 | a quotient p / q with some finite number of decimals has at most \|q\| of them, so the search above is complete |
| Calc.QuotientFound | src/index.js:134 | whenever q divides p * 10^s for some s, native `/` gives a result |
| Calc.QuotientIsFound | src/index.js:134 | whenever some decimal d times q is p, native `/` gives exactly d in canonical form |
| Calc.Div | src/index.js:130-134 | for a non-zero divisor, a result is canonical and times b gives a; None when the digit quotient has no terminating form within \|b.mant\| decimals |
| Calc.DivFindsQuotient | src/index.js:126-135 | whenever some decimal d times b is a, div(a, b) is d in canonical form: div is None only when a / b has no finite decimal expansion |
| Calc.DivUndoesMul | src/index.js:126-135 | div(mul(a, b), b) is a in canonical form for every non-zero b |
| Calc.DivIsQuotient | src/index.js:130-134 | a result of div times the divisor's value is the dividend's value |
| Calc.DivSelf | src/index.js:130-134 | div(a, a) is 1 for every non-zero a |
| Calc.DivByPowerOfTen | src/index.js:148 | dividing an integer by 10^e never hits the non-terminating case, so round always has a result |
| Calc.JsRound | src/index.js:148 | `Math.round(v)` is the integer n with n <= v + 1/2 < n + 1 |
| Calc.Round | src/index.js:146-149 | the result is canonical and mul(result, 10^ratio) is exactly Math.round(mul(x, 10^ratio)) |
| Calc.RoundValue | src/index.js:146-149 | round(x, ratio) * 10^ratio = Math.round(x * 10^ratio) |
| Calc.RoundIsScaledInteger | src/index.js:146-149 | for ratio >= 0, round(x, ratio) is the canonical form of floor(x * 10^ratio + 1/2) / 10^ratio |
| Calc.RoundIsNearest | src/index.js:146-149 | the distance to x, measured in units of the last kept place, lies in (-1/2, 1/2], so ties go up |
| Calc.RoundScale | src/index.js:146-149 | the result has at most max(ratio, 0) digits after the point |
| Calc.RoundIdempotent | src/index.js:146-149 | rounding a rounded value again to the same ratio changes nothing |
| DecimalText.FirstOf | src/index.js:26-27 | the position `split` and `replace` cut at: the first position holding a searched character, with none before it; the length when there is none |
| DecimalText.Split | src/index.js:26-27 | `split` on e/E or on the point: at least one piece, and no piece contains a separator |
| DecimalText.JoinSplit | src/index.js:26-27 | joining the pieces of a split with the separator gives the text back |
| DecimalText.RemoveFirst | src/index.js:40 | `replace('.', '')` deletes one character when there is a point and changes nothing otherwise |
| DecimalText.ParseNumeral | src/index.js:40 | `Number` on decimal text accepts only well-formed numerals: digits with at least one digit in all |
| DecimalText.IntegerOf | src/index.js:27 | the unary `+` on the exponent text: an integer result is the value of the number read |
| DecimalText.ScaleUp | src/index.js:43 | `num * Math.pow(10, dLen)`, exactly: moving the result's point back dLen places gives num |
| TextProperties.DigitLengthIsScale | src/index.js:25-29 | digitLength of a numeral is the number of places after the point of its value: digits after the point minus the exponent, clamped at 0 |
| TextProperties.IntegerTextDigitLength | src/index.js:27-28 | text with no point and no exponent marker has digitLength 0 |
| TextProperties.ExponentAsNumber | src/index.js:27 | the exponent piece, read with `+`, is the exponent's signed integer |
| TextProperties.PlainBranchReadsDigits | src/index.js:39-40 | deleting the point of a numeral without exponent and reading it back gives the numeral's signed digits |
| TextProperties.ExponentBranchReadsDigits | src/index.js:42-43 | the exponent branch, taken exactly, gives the value times 10^digitLength, which is the value's digits |
| TextProperties.Float2FixedReadsDigits | src/index.js:38-44 | on a numeral without uppercase E, float2Fixed is the mantissa and digitLength the scale of the numeral's value |
| TextProperties.RemovePoint | src/index.js:40 | deleting the first point of a signed decimal leaves the sign followed by all its digits |
| Rendering.DigitsOf | src/index.js:26 | the digit text of a natural number, which reads back as that number |
| Rendering.RenderParses | src/index.js:26 | the plain text of a decimal parses as a numeral whose value is that decimal |
| Rendering.RenderReadsBack | src/index.js:26 | `Number(text of d)` is d |
| Rendering.RenderHasNoMarker | src/index.js:39 | the plain text of a decimal has no e and no E, so float2Fixed takes its point-deleting branch |
| Rendering.RenderDigits | src/index.js:25-29 | on the text of d, digitLength is d.scale and float2Fixed (as written and corrected alike) is d.mant: the pair the operations compute with |
| ExponentCase.ReadScientificDecimal | src/index.js:26 | sign, digits, point, digits, e or E, then an exponent read as that numeral with that exponent |
| ExponentCase.UppercaseExponentMisread | src/index.js:38-43 | as written, for a numeral with a point and an uppercase E whose exponent x covers its f fraction digits (one family of the inputs it misreads), float2Fixed gives 10^f times the value while digitLength is 0 |
| ExponentCase.UppercaseExponentCorrected | src/index.js:38-43 | with both markers tested, float2Fixed of the same numerals is the value itself, consistent with digitLength 0 |
| TextExamples.DecimalDigitLength | src/index.js:20-29 | digitLength of digits, a point and f digits is f |
| TextExamples.ScientificDigitLength | src/index.js:25-28 | digitLength of such a numeral with exponent x is f - x when that is positive, else 0 |
| TextExamples.DecimalFloat2Fixed | src/index.js:36-40 | float2Fixed of digits, a point and digits is the signed integer of all the digits |
| TextExamples.DigitLengthOfOneTenth | src/index.js:21 | digitLength(0.1) is 1 |
| TextExamples.DigitLengthOfTwoPlaces | src/index.js:22 | digitLength(0.12) is 2 |
| TextExamples.DigitLengthIgnoresWholePart | src/index.js:23 | digitLength(123.12) is 2: the digits before the point do not count |
| TextExamples.DigitLengthWithExponent | src/index.js:25-28 | digitLength(1.23e-5) is 7 |
| TextExamples.Float2FixedOfOnePointTwoThree | src/index.js:36 | float2Fixed(1.23) is 123 |
| Variadic.MulAll | src/index.js:69-72 | the left fold of mul over a, b and the rest is canonical and its value is the product of all the operands |
| Variadic.AddAll | src/index.js:92-95 | the left fold of add is canonical and its value is the sum of all the operands |
| Variadic.SubAll | src/index.js:109-112 | the left fold of sub is canonical and its value is the first operand minus all the others |
| Variadic.DivAll | src/index.js:126-129 | the left fold of div with non-zero divisors: a result times every divisor is the first operand; the first non-terminating step makes the fold None |
| Variadic.MulAllSwap | src/index.js:69-72 | swapping the first two operands of the mul fold changes nothing |
| Variadic.AddAllSwap | src/index.js:92-95 | swapping the first two operands of the add fold changes nothing |
| Variadic.SubAllIsSubOfSum | src/index.js:109-112 | sub(a, b, c, ...) is a minus the sum of b, c, ... in one step |
| Examples.AddTwoTwo | test/index.test.js:4 | add(2, 2) is 4 |
| Examples.SubFourTwo | test/index.test.js:7 | sub(4, 2) is 2 |
| Examples.MulTwoTwo | test/index.test.js:10 | mul(2, 2) is 4 |
| Examples.DivTwoTwo | test/index.test.js:13 | div(2, 2) is 1 |
| Examples.RoundTwoPointOneTwoFive | test/index.test.js:16 | round(2.125, 1) is 2.1 |
| Examples.RoundToTwoPlaces | src/index.js:144 | round(2.1235, 2) is 2.12 |
| Examples.RoundToThreePlaces | src/index.js:143 | round(2.1235, 3) is 2.124 |
| Examples.NegativeTieRoundsUp | src/index.js:148 | round(-2.5, 0) is -2: Math.round takes ties toward +infinity |
| Examples.AddTenths | src/index.js:96-97 | add(0.1, 0.2) is exactly 0.3 |
| Examples.MulThreeTwos | src/index.js:67 | mul(2, 2, 2) is 8 |
| Examples.AddThreeTwos | src/index.js:90 | add(2, 2, 2) is 6 |
| Examples.SubThreeTwos | src/index.js:107 | sub(2, 2, 2) is -2 |
| Examples.DivThreeTwos | src/index.js:124 | div(2, 2, 2) is 0.5 |

## Left out

- `strip` (src/index.js:12-14) is not modelled. It rounds a number to 12 significant digits with `toPrecision(12)` and `parseFloat`. That removes binary floating-point noise, but it also drops real digits from the 13th on.
- The exponent branch of `float2Fixed` (src/index.js:42-43) is modelled as the exact product `num * 10^dLen` (`DecimalText.ScaleUp`), without `strip`. JavaScript prints every magnitude below 1e-6 in exponent notation, so this branch handles them. The library then keeps only 12 significant digits of such an operand; the model keeps them all. Example: x = 1.234567890123456e-7 has digitLength 22, and `strip(x * 1e22)` is 1234567890120000, not 1234567890123456, so `mul(x, 1)` returns 1.23456789012e-7 rather than x. `TextProperties.ExponentBranchReadsDigits` and `TextProperties.Float2FixedReadsDigits` state the exact digits, so they do not capture this loss.
- IEEE-754 rounding of the native `*`, `/`, `+`, `-` and `Math.pow` is not modelled. All arithmetic is exact, so precision loss beyond 2^53 is not captured. The library does apply these operators to the binary values: line 43 multiplies the number by `Math.pow(10, dLen)`, and lines 76, 80, 97, 114 and 134 combine the scaled integers with native operators.
- `Calc.NativeQuotient`: a digit quotient with no finite decimal expansion (1/3) is `None`. The double that JavaScript would round it to is not modelled. `Calc.Div` and `Variadic.DivAll` pass that `None` on.
- Division by zero (Infinity or NaN in JavaScript) is excluded by a `requires` on `Calc.Div` and `Variadic.DivAll`.
- `Variadic.DivAll` states the value of its result only when it is `Some`. It also states that a non-terminating first step gives `None`. It does not state when a later step fails.
- `checkBoundary`'s `console.warn` is I/O and is left out. Its boolean is modelled (`Calc.CheckBoundary`). In `mul` and `div` its result is discarded, so it has no effect on the results and the model does not call it there.
- `Number.prototype.toString` is modelled only for plain notation (`Rendering.Render`). JavaScript switches to exponent notation for magnitudes below 1e-6 or from 1e21. For those numbers the text layer is covered through `DecimalText.ParseNumeral` on any numeral text, not through `Render`.
- `Number(text)` is modelled for decimal numerals (sign, digits, point, e/E exponent) and the empty text. Leading and trailing white space, `Infinity`, and hexadecimal, octal and binary literals are read as NaN (`None`).
- `digitLength` with an exponent that is not an integer cannot arise from JavaScript's own number text, only from a string operand such as `'1.55e0.5'`. JavaScript's unary `+` reads that exponent as 0.5, giving digitLength 1.5; the model treats a fractional exponent like NaN, giving 0 (`DecimalText.IntegerOf`).
- `round` with `ratio` given as a string (src/index.js:143) is not modelled. `ratio` is an integer here, and the string coercion happens inside `Math.pow`.
- Operands given as strings (`'2.1235'`) are modelled through their numeric value. Operands are exact decimals.

## Findings

| source | as written | input that shows it | evidently intended | confidence | as-written member | corrected member |
|---|---|---|---|---|---|---|
| src/index.js:39 | float2Fixed picks the point-deleting branch when the text has no lowercase `e`, but digitLength (line 26) splits on both `e` and `E`; text with an uppercase `E` keeps its exponent when the point is deleted | the text `1.5E3` (value 1500, digitLength 0): the point is deleted and `Number('15E3')` is 15000 | test both markers, as digitLength does, so that `1.5E3` takes the exponent branch and gives 1500 | not executed | ExponentCase.UppercaseExponentMisread | ExponentCase.UppercaseExponentCorrected |

JavaScript's own `toString` writes a lowercase `e`. The uppercase case therefore arises from operands passed as strings, which every operation accepts. The corrected definition is `DecimalText.Float2FixedAnyCase`. It is the one the bridge to the arithmetic layer (`Rendering.RenderDigits`) and `TextProperties.Float2FixedAnyCaseReadsDigits` state for every numeral.
`TextProperties.Float2FixedReadsDigits` holds for every numeral without an uppercase `E`.
