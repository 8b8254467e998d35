# decimal32: packed record and coefficient/exponent constructor

This project models the `decimal32` type of the Boost.Decimal header
`include/boost/decimal/decimal32.hpp` and proves properties of that model.
It covers the record the type packs its value into, the format constants,
and the constructor `decimal32(Integer coeff, int expon)`, which builds the
number `coeff × 10^expon`.

- `decimal32.dfy`, module `Decimal`, has four parts:
  - the constants: precision 7, emax 96, emin -95, etiny -101, MAN_MAX 9,999,999, and the reserved exponent codes -128, 127, 126 and 125;
  - the record `BitLayout`: a 24-bit unsigned mantissa, an 8-bit signed exponent and a 1-bit sign;
  - the specification functions `Narrow` and `Construct`;
  - the class `Decimal32`, whose constructor runs the header's `while` loop on local variables and writes the record field by field.
- `arith.dfy`, module `DecimalArith`, holds the supporting definitions and facts: powers of ten, decimal digit counts, dropping trailing digits, and how truncating division by ten composes.

The constructor's behaviour, as modelled:

1. The sign is `coeff < 0`. `std::signbit` on an integer is modelled as exactly that.
2. The coefficient is replaced by its absolute value. The loop `while (coeff > MAN_MAX) { coeff /= 10; ++expon; }` then runs.
3. After the loop, the exponent is checked against the range:
   - above 96: the stored record is mantissa 0, exponent 127 (the infinity code);
   - below -95: the stored record is mantissa 0, exponent -128 (the negative-infinity code);
   - otherwise: the coefficient and exponent are stored as they are.
4. Each store into a bit-field is modelled explicitly:
   - the mantissa field keeps the low 24 bits of the value;
   - the exponent field keeps the low 8 bits, read back in two's complement.

   For an unbounded integer coefficient, the proofs show that neither store ever loses information. For a narrow `Integer` that is not so; see "## Findings".

The constructor has no precondition. Its loop decreases a non-negative
coefficient, so it runs to completion for every integer coefficient and
exponent, and nothing in it fails.

Facts about the header that a reader of other decimal32 descriptions
might not expect:
- The exponent field is 8 bits wide and signed (decimal32.hpp:39). The finite range is [-95, 96] (decimal32.hpp:19-20). The spare codes 127, 126, 125 and -128 are reserved for special values (decimal32.hpp:25-28).
- An out-of-range exponent stores mantissa 0 together with a reserved exponent code (decimal32.hpp:69-78). The coefficient field itself is never used as a marker.
- The comparison with EMAX and EMIN uses the coefficient's exponent as given. It does not adjust the exponent for the position of the leading digit.

The tests call members the header does not define, such as `mantissa()`, `to<T>()` and `to_float()`. Two points about them:
- `test/constructor_test.cpp` expects the mantissa of `(10, 1)` to be `MAN_MIN`. `MAN_MIN` is not defined in this header, and the constructor here keeps the mantissa at 10 (`ConstructTen`).
- `test/to_integral_test.cpp` and `test/to_floating_point_test.cpp` expect converting `(10, 60)` to overflow. That does not contradict the constructor: it stores `(10, 60)` as a finite value (`ConstructTenAtSixty`), and 10·10^60 is beyond every integer type and the `float` range.

## Model

| member | source | states |
|---|---|---|
| `Decimal.StoreMantissa` | include/boost/decimal/decimal32.hpp:38 | storing into the 24-bit unsigned field gives a value below 2^24, and leaves every value already below 2^24 unchanged |
| `Decimal.StoreExpon` | include/boost/decimal/decimal32.hpp:39 | storing into the 8-bit signed field gives a value in [-128, 127] that is congruent to the input modulo 256, and leaves every value already in [-128, 127] unchanged |
| `Decimal.IsFinite` | include/boost/decimal/decimal32.hpp:19-28 | an exponent in [EMIN, EMAX] = [-95, 96] is never one of the reserved codes 127, -128, 126 or 125, so finite and special encodings are disjoint |
| `Decimal.Narrow` | include/boost/decimal/decimal32.hpp:63-67 | after the narrowing loop the coefficient is at most MAN_MAX = 9,999,999 and no larger than before, and it is non-zero if it was non-zero; the exponent never decreases |
| `Decimal.NarrowTruncates` | include/boost/decimal/decimal32.hpp:63-67 | the loop leaves the coefficient with its last k digits dropped and the exponent raised by exactly k, where k is the number of digits beyond the precision 7 (0 when there are at most 7) |
| `Decimal.StepsLeast` | include/boost/decimal/decimal32.hpp:63-67 | that k is the least number of dropped digits that brings the coefficient to at most MAN_MAX: every smaller count leaves it above MAN_MAX |
| `Decimal.NarrowTowardZero` | include/boost/decimal/decimal32.hpp:63-67 | the narrowed coefficient m is the input truncated toward zero: m·10^k ≤ \|c\| < (m+1)·10^k |
| `DecimalArith.DropDigitsIsDivision` | include/boost/decimal/decimal32.hpp:65 | dropping k digits by repeated `/= 10` is the same as one truncating division by 10^k |
| `DecimalArith.DigitsBound` | include/boost/decimal/decimal32.hpp:63 | a number has more than n decimal digits exactly when it is at least 10^n; so the loop runs exactly when \|c\| has more than 7 digits |
| `Decimal.Construct` | include/boost/decimal/decimal32.hpp:57-84 | the stored sign is set exactly when the coefficient is negative, on every path; the result is well formed: each field fits its width, the mantissa is at most MAN_MAX, and the result is either finite or an infinity code with mantissa 0; a coefficient of at most 7 digits with an exponent in [-95, 96] is stored unchanged |
| `Decimal.ConstructOverflow` | include/boost/decimal/decimal32.hpp:69-73 | the stored exponent is 127 exactly when the exponent after narrowing exceeds 96, and then the record is mantissa 0, exponent 127, with the input's sign |
| `Decimal.ConstructUnderflow` | include/boost/decimal/decimal32.hpp:74-78 | the stored exponent is -128 exactly when the exponent after narrowing is below -95, and then the record is mantissa 0, exponent -128, with the input's sign |
| `Decimal.ConstructInRange` | include/boost/decimal/decimal32.hpp:79-83 | the result is finite exactly when the exponent after narrowing lies in [-95, 96], and then it holds \|c\| with its excess digits dropped and expon plus their count, with no bits lost to the field widths |
| `Decimal.ConstructIdempotent` | include/boost/decimal/decimal32.hpp:57-84 | constructing again from the signed mantissa and the exponent of a finite result gives the same record |
| `Decimal.ConstructTen` | test/unary_arithmetic_test.cpp:12-19 | (10, 1) and (-10, 1) both give mantissa 10 and exponent 1, and differ only in the sign |
| `Decimal.ConstructTenAtSixty` | test/to_integral_test.cpp:32 | (10, 60) is stored as the finite record mantissa 10, exponent 60, because 60 ≤ EMAX |
| `Decimal.ConstructFourAtTwo` | test/size_test.cpp:16-22 | (4, 2) is stored unchanged |
| `Decimal.ConstructManMaxAtTwo` | test/print.cpp:10 | (9999999, 2) has exactly seven digits and is stored unchanged |
| `Decimal.ConstructNarrowInteger` | include/boost/decimal/decimal32.hpp:60-83 | the constructor as written for a signed `Integer` narrower than `int`. The sign is set exactly when the coefficient is negative. For every coefficient but the type's most negative value, the result is that of `Construct` |
| `Decimal.NarrowIntegerMostNegative` | include/boost/decimal/decimal32.hpp:61 | as written, `short(-32768)` is stored with mantissa 16,744,448 and `signed char(-128)` with mantissa 16,777,088, both above MAN_MAX, so the record is not well formed; `Construct` stores the magnitudes 32768 and 128 |
| `Decimal.Decimal32.constructor` | include/boost/decimal/decimal32.hpp:57-84 | the loop-and-branch constructor, for every integer coefficient and exponent, terminates and leaves the object holding exactly `Construct(coeff, expon)`, a well-formed record |
| `Decimal.Decimal32.Default` | include/boost/decimal/decimal32.hpp:46 | the defaulted constructor, value-initialized, leaves every field zero, which is a well-formed finite record |

## Left out

- `print()` writes to the console. It is I/O and is not modelled.
- `size()` is not modelled. It reports `sizeof` of a bit-field struct, and bit-field packing is up to the compiler. The fields take 33 bits, so the 4-byte size the tests expect cannot be derived from the source.
- The physical bit packing of the three fields into storage words is not modelled. The record is modelled as three fields, each reduced to its own width.
- `BOOST_DECIMAL32_ETINY`, `QUIET_NAN` and `SIGNALING_NAN` are used by no operation in the header, so they appear only as constants.
- `Integer` types wider than `int` are not modelled at their fixed width. The coefficient is an unbounded integer there, so the undefined behaviour of `std::abs` on the most negative `long` or `long long` is outside the model.
- `Integer` types narrower than `int` are modelled by `ConstructNarrowInteger`. For them `std::abs` is defined, but its result is assigned back into the narrow type; see "## Findings".
- The 32-bit width of the `int expon` parameter is not modelled. The exponent is an unbounded integer, so `++expon` overflowing at INT_MAX is outside the model.
- A default-constructed object is modelled as value-initialized (all zero). This is what `decimal32_t x {}` gives. Default-initialization without braces leaves the fields indeterminate, and that is not modelled.
- The header does not declare the accessors `mantissa()`, `exponent()` and `sign()`, `to_float`, `to<T>`, `to_string`, unary `+`, `==`, or the other operators. The tests call them, but they are not part of this model.
- The type-trait registration, the Boost.Math `signbit` specialization and the configuration headers have no run-time behaviour here. They are not part of this model.

## Findings

| source | as written | input that shows it | evidently intended | confidence | as-written member | corrected member |
|---|---|---|---|---|---|---|
| include/boost/decimal/decimal32.hpp:61 | for a signed `Integer` narrower than `int`, `coeff = std::abs(coeff)` assigns 2^(w-1) back into a w-bit type, so the most negative value stays negative; the loop is skipped, and the 24-bit store at line 81 wraps it to a mantissa above MAN_MAX, with the sign set | `decimal32(short(-32768), 0)` gives mantissa 16,744,448; `decimal32((signed char)-128, 0)` gives mantissa 16,777,088 | mantissa 32768 (128), exponent 0, sign set | not executed | `Decimal.NarrowIntegerMostNegative` | `Decimal.Construct` |
