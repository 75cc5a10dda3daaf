# bigint in Dafny

A model of `main.go` of the Go program `tarasyarema/bigint`, a small library of
arbitrary-precision natural numbers used to compute factorials. A `BigInt` is a
little-endian vector of digits `d` in a base `b`; its value is
`Val(d, b) = d[0] + b * Val(d[1..], b)`. The model covers four operations:

- `Multiply` is the schoolbook multiplier that saves space. A single running carry
  `total` collects diagonal `i` of index pairs, `x.d[i-j] * y.d[j]`. The low digit of
  `total` is written to `prod[i]` and the rest stays in `total`; the last carry goes
  into the top position of a buffer of `p + q` digits.
- `String` renders the digits from the highest index down and trims leading `'0'`
  characters.
- `InitBigInt` parses a decimal string into the reversed digit vector.
- `factorial` multiplies a running product `[1]` by the parsed numerals of `2 .. n`.

Modules, in dependency order:

| file | module | contents |
|---|---|---|
| `go_int.dfy` | `GoInt` | Go's truncating `/` and `%` (`Quo`, `Rem`), and `Max`, `Min` |
| `digits.dfy` | `Digits` | `Val`, `Pow`, the digit-range predicate `DigitsIn`, bounds and uniqueness of the representation |
| `convolution.dfy` | `Convolution` | the identity that the sum over `i` of `b^i` times the i-th convolution coefficient equals `Val(x) * Val(y)` |
| `decimal.dfy` | `Decimal` | one-character `Atoi`/`Itoa`, `strconv.Itoa` on naturals (`DecimalString`), the effect of `strings.TrimLeftFunc` for `'0'` |
| `text.dfy` | `Text` | the rendering `String` builds, the reversal `InitBigInt` builds, and how they relate to decimal numerals |
| `bigint.dfy` | `BigInts` | the `BigInt` value, the error results, and the methods `Multiply`, `String` and `InitBigInt` |
| `factorial.dfy` | `FactorialDriver` | the method `Factorial` and `Fact` |

The methods are imperative and follow the Go loops: a `while` loop for each `for`, an
`array<int>` for each `make([]int, …)`. Each method is proved against ghost functions:

- `Multiply` against `Val` and the convolution sums;
- `String` against `ToText`;
- `InitBigInt` against `Reverses`;
- `Factorial` against `Fact`.

The body of the outer loop of `Multiply` (one output position) is the separate method
`Diagonal`. This keeps each proof small; its statements are those of the Go loop body.

Errors are a tagged `Result`: `MismatchedBase(xb, yb)`, `InvalidBase(b)` or
`InvalidDigit(c)`. The value zero renders as the empty string, as the Go code does.
The model follows the code here, not a `"0"` rendering.

## Model

| member | source | states |
|---|---|---|
| BigInts.Multiply | main.go:21-48 | fails exactly when the bases differ, and then with `MismatchedBase(x.b, y.b)`; otherwise the result has `p + q` digits and base `x.b`; for a positive base and non-negative operand digits every result digit lies in `[0, b)`; when both operands' digits lie in `[0, b)` the result's value is `Val(x) * Val(y)` |
| BigInts.MultiplyCommutes | main.go:21-48 | the well-formed results of `x.Multiply(y)` and `y.Multiply(x)` are the same vector, so they render the same |
| BigInts.Diagonal | main.go:33-43 | one pass of the outer loop stores `(t + Coef(i)) % base` (Go's `%`) at `prod[i]`, returns `(t + Coef(i)) / base` (Go's `/`) as the carry and leaves every other position of `prod` unchanged; it maintains `Val(prod[..i]) + b^i * total == DiagVal(x, y, b, i)`; for a positive base and non-negative digits the new digit is in `[0, b)` and the carry stays non-negative |
| BigInts.ValidUnsigned | main.go:21-48 | well-formed operands of equal base, not both empty, have a positive base and non-negative digits |
| BigInts.StoreDigit | main.go:41-42 | storing `total % base` and keeping `total / base` preserves the value invariant |
| BigInts.StoreDigitInRange | main.go:41-42 | for a non-negative carry and positive base the stored digit is in `[0, b)` and the new carry is non-negative |
| BigInts.DiagonalStep | main.go:41-42 | for any split `b*q + r` of carry plus diagonal sum, appending `r` and carrying `q` advances the value invariant by one position |
| BigInts.LastCarry | main.go:45 | after the last diagonal the carry is below `b`, so `prod[p+q-1] = total % base` loses nothing and the vector's value is the product |
| BigInts.String | main.go:51-65 | the returned string is the rendering of the digits from the highest index down, with the leading `'0'` characters removed |
| BigInts.InitBigInt | main.go:68-86 | succeeds exactly when `b > 1` and every character is a decimal digit; `b <= 1` gives `InvalidBase(b)`; otherwise the first non-digit character is reported; on success the base is `b` and `a[len(s)-1-i]` is the value of `s[i]` |
| BigInts.ParseExample | main.go:73-82 | `InitBigInt("123", _)` stores the digits `[3, 2, 1]` |
| BigInts.NinetyNineSquared | main.go:21-65 | a well-formed base-10 vector whose value is the product of two parsed `"99"` renders as `"9801"` |
| FactorialDriver.Factorial | main.go:88-107 | always succeeds, with base 10, digits in `[0, 10)` and value `n!`; for `n <= 1` the digits are `[1]` |
| FactorialDriver.FiveFactorialText | main.go:88-107 | a well-formed base-10 vector of value `5!` renders as `"120"` |
| FactorialDriver.TenFactorialText | main.go:88-107 | a well-formed base-10 vector of value `10!` renders as `"3628800"` |
| Convolution.DiagValIsProduct | main.go:33-45 | once all `p + q - 1` diagonals are covered, the weighted sum of diagonal sums equals `Val(x) * Val(y)` |
| Convolution.ConvSumClamp | main.go:34-39 | summing from `jMin = Max(0, i-p+1)` to `jMax = Min(i, q-1)` gives the full i-th convolution coefficient: the skipped index pairs fall outside one of the vectors |
| Convolution.TermAt | main.go:38 | inside both vectors the padded term is `x[i-j] * y[j]`, and it is non-negative for non-negative digits |
| Convolution.RowIsProduct | main.go:33-45 | adding up the rows `y[j] * b^j * x` gives `Val(x) * Val(y)` |
| Convolution.DiagIsRow | main.go:33-45 | summing by diagonals equals summing by rows, truncated to the same positions |
| GoInt.Max | main.go:34 | the larger of the two arguments |
| GoInt.Min | main.go:35 | the smaller of the two arguments |
| GoInt.Quo | main.go:42 | Go's truncating `/`: the magnitude is `abs(a) / abs(b)` rounded down and the sign is the product of the operands' signs (its law with `Rem` is `QuoRem`) |
| GoInt.Rem | main.go:41-45 | Go's `%`: the magnitude is `abs(a) % abs(b)` and the sign follows the dividend (its law with `Quo` is `QuoRem`) |
| GoInt.QuoRem | main.go:41-42 | Go's `/` and `%` satisfy `a == b * (a / b) + a % b`, with `abs(a % b) < abs(b)` |
| GoInt.QuoRemNonNegative | main.go:41-42 | on a non-negative carry and positive base, Go's `%` is in `[0, base)` and `/` is non-negative |
| GoInt.RemSmall | main.go:45 | a carry already below the base is stored unchanged |
| Decimal.CharValue | main.go:76 | `strconv.Atoi` of a one-character digit string is in `[0, 10)` |
| Decimal.DigitChar | main.go:55 | `strconv.Itoa` of a value below ten is the one digit character whose value it is |
| Decimal.DecimalString | main.go:93 | `strconv.Itoa(n)` for `n >= 0` is a non-empty digit string denoting `n`, with a leading `'0'` only for zero |
| Decimal.TrimLeadingZeros | main.go:58-64 | the result is a suffix of the input, every removed character is `'0'`, and the result is empty or does not start with `'0'` |
| Text.Render | main.go:54-56 | the concatenation has one character per digit, and character `k` is the digit at index `len-1-k` |
| Text.ReversesDigits | main.go:76-82 | a parsed vector holds only decimal digits |
| Text.ParsedValue | main.go:73-82 | the parsed vector's base-10 value is the decimal value of the string |
| Text.RenderReverses | main.go:54-56 | rendering a parsed vector before trimming gives back the input string |
| Text.ParseThenRender | main.go:51-86 | round trip: `String` of `InitBigInt(s, _)` is `s` without its leading zeros |
| Text.EmptyTextIffZero | main.go:58-64 | `String` returns `""` exactly when every digit is zero |
| Text.RenderAppend | main.go:54-56 | a new most significant digit contributes the first character |
| Text.RenderTopNonZero | main.go:54-56 | with a non-zero top digit, the rendering is `strconv.Itoa` of the value |
| Text.DropZeroTop | main.go:58-64 | a zero top digit changes neither the text nor the value |
| Text.KeepNonZeroTop | main.go:58-64 | with a non-zero top digit nothing is trimmed and the text is `strconv.Itoa` of the (positive) value |
| Text.TextIsDecimal | main.go:51-65 | `String` of a base-10 vector is `strconv.Itoa` of its value, or `""` when the value is zero |
| Digits.ValBound | main.go:13-18 | a vector of `n` digits in `[0, b)` has value in `[0, b^n)` |
| Digits.ValTopNonZero | main.go:13-18 | a vector whose top digit is non-zero has value at least `b^(n-1)` |
| Digits.ValAppend | main.go:13-18 | appending a top digit `v` adds `v * b^n` to the value |
| Digits.ValInjective | main.go:13-18 | two vectors of equal length with digits in `[0, b)` and equal values are equal |

## Left out

- `main` (main.go:109-122) is not modelled: its wall-clock timing, printing and `panic`. So the claim that `1000!` is printed with its 2568 digits is not modelled either.
- Error messages are tagged values, not the text built by `fmt.Errorf` and `strconv.Atoi`.
- BigInts.Multiply: digits and `total` are unbounded integers, so Go's 64-bit `int` overflow is not modelled.
- BigInts.Multiply: the value claim is stated only for operands whose digits lie in `[0, b)`. With larger digits, which `InitBigInt` accepts for bases below 10, the final carry can exceed the base and `total % base` drops part of it. The digit-range claim holds for any non-negative digits and a positive base.
- BigInts.Multiply: a zero base, or two empty operands, make the Go code panic (division by zero, index `-1`). These are preconditions, not error results.
- BigInts.Multiply: Go slices are modelled as Dafny sequences. The operands are values, so they are unchanged by construction, and slice aliasing is not modelled.
- BigInts.String: stated only for digits in `[0, 10)`, where `strconv.Itoa` gives one character per digit. Larger or negative digits are not modelled.
- BigInts.InitBigInt: Go indexes the string by byte. The model indexes it by character, so multi-byte UTF-8 text is not modelled.
- FactorialDriver.Factorial: the two error returns of `factorial` are proved unreachable, so the method always succeeds.
