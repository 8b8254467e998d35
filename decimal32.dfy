/** The decimal32 type: its packed record, its format constants and the
    constructor from a coefficient and an exponent (value coefficient * 10^exponent,
    initialization as in section 3.2.5 of ISO/IEC TR 24733; format parameters
    p = 7, emax = 96, emin = -95 of section 3.6 of IEEE 754-2019). */
module Decimal {
  import opened DecimalArith

  // Format constants.
  const Bits: nat := 32
  const Precision: nat := 7
  const EMax: int := 96
  const EMin: int := -95
  const ETiny: int := -101
  const ManMax: nat := 9_999_999

  // The exponent field's spare range holds the special cases.
  const NegativeInf: int := -128
  const Inf: int := 127
  const QuietNaN: int := 126
  const SignalingNaN: int := 125

  // Widths of the bit-fields: 24-bit unsigned mantissa, 8-bit signed exponent.
  const MantissaModulus: nat := 0x100_0000
  const ExponModulus: nat := 0x100

  /** The packed record: mantissa, exponent and sign, in declaration order. */
  datatype BitLayout = BitLayout(mantissa: nat, expon: int, sign: bool)

  /** std::abs on an unbounded integer. */
  function Abs(x: int): (r: nat)
  {
    if x < 0 then -x else x
  }

  /** Assignment to the 24-bit unsigned mantissa field keeps the low 24 bits. */
  function StoreMantissa(x: int): (r: nat)
    ensures r < MantissaModulus
    ensures 0 <= x < MantissaModulus ==> r == x
  {
    x % MantissaModulus
  }

  /** Assignment to the 8-bit signed exponent field keeps the low 8 bits, read
      back in two's complement. */
  function StoreExpon(x: int): (r: int)
    ensures -128 <= r < 128
    ensures (r - x) % ExponModulus == 0
    ensures -128 <= x < 128 ==> r == x
  {
    var u := x % ExponModulus;
    if u >= 128 then u - ExponModulus else u
  }

  /** The exponent codes set aside for infinities and NaNs. */
  predicate IsReservedExpon(x: int)
  {
    x == Inf || x == NegativeInf || x == QuietNaN || x == SignalingNaN
  }

  /** A record whose exponent is a finite decimal32 exponent; no such exponent
      is a reserved code. */
  predicate IsFinite(r: BitLayout): (b: bool)
    ensures b ==> !IsReservedExpon(r.expon)
  {
    EMin <= r.expon <= EMax
  }

  /** Every field value fits its bit-field. */
  predicate FitsFields(r: BitLayout)
  {
    r.mantissa < MantissaModulus && -128 <= r.expon < 128
  }

  /** The records the constructors produce: fields in their widths, at most
      seven digits, and either finite or an infinity code with mantissa 0. */
  predicate WellFormed(r: BitLayout)
  {
    FitsFields(r) && r.mantissa <= ManMax &&
    (IsFinite(r) || (r.mantissa == 0 && (r.expon == Inf || r.expon == NegativeInf)))
  }

  /** The narrowing loop of the constructor: drop trailing digits one by one
      and count each in the exponent, until at most seven digits remain. */
  function Narrow(c: nat, e: int): (r: (nat, int))
    ensures r.0 <= ManMax
    ensures r.0 <= c && r.1 >= e
    ensures c >= 1 ==> r.0 >= 1
    decreases c
  {
    if c > ManMax then Narrow(c / 10, e + 1) else (c, e)
  }

  /** How many digits narrowing drops: the digits of c beyond the precision. */
  function Steps(c: nat): (r: nat)
  {
    if Digits(c) > Precision then Digits(c) - Precision else 0
  }

  /** Narrowing drops the k digits of c beyond the precision and raises the
      exponent by k. */
  lemma {:induction false} NarrowTruncates(c: nat, e: int)
    ensures Narrow(c, e) == (DropDigits(c, Steps(c)), e + Steps(c))
  {
    Pow10Seven();
    DigitsBound(c, Precision);
    if c > ManMax {
      NarrowTruncates(c / 10, e + 1);
      DigitsBound(c / 10, Precision - 1);
      assert Pow10(6) == 1_000_000;
      assert Steps(c) == Steps(c / 10) + 1;
    }
  }

  /** k = Steps(c) is the least number of dropped digits that
      brings c to at most ManMax. */
  lemma {:induction false} StepsLeast(c: nat)
    ensures DropDigits(c, Steps(c)) <= ManMax
    ensures forall j :: 0 <= j < Steps(c) ==> DropDigits(c, j) > ManMax
  {
    NarrowTruncates(c, 0);
    Pow10Seven();
    DigitsBound(c, Precision);
    if c > ManMax {
      StepsLeast(c / 10);
      DigitsBound(c / 10, Precision - 1);
      assert Pow10(6) == 1_000_000;
      assert Steps(c) == Steps(c / 10) + 1;
      forall j | 0 <= j < Steps(c)
        ensures DropDigits(c, j) > ManMax
      {
        if j > 0 {
          assert DropDigits(c, j) == DropDigits(c / 10, j - 1);
        }
      }
    }
  }

  /** The stored coefficient is |c| truncated toward zero: m * 10^k <= |c| < (m + 1) * 10^k. */
  lemma NarrowTowardZero(c: nat, e: int)
    ensures Narrow(c, e).0 * Pow10(Steps(c)) <= c < (Narrow(c, e).0 + 1) * Pow10(Steps(c))
  {
    NarrowTruncates(c, e);
    DropDigitsIsDivision(c, Steps(c));
    QuotientBrackets(c, Pow10(Steps(c)));
  }

  /** The record the coefficient/exponent constructor produces. */
  function Construct(coeff: int, expon: int): (r: BitLayout)
    ensures r.sign <==> coeff < 0
    ensures WellFormed(r)
    ensures Abs(coeff) <= ManMax && EMin <= expon <= EMax ==>
              r == BitLayout(Abs(coeff), expon, coeff < 0)
  {
    var (m, e) := Narrow(Abs(coeff), expon);
    if e > EMax then BitLayout(0, Inf, coeff < 0)
    else if e < EMin then BitLayout(0, NegativeInf, coeff < 0)
    else BitLayout(StoreMantissa(m), StoreExpon(e), coeff < 0)
  }

  /** Overflow: the exponent after narrowing exceeds EMax exactly when the
      result is the positive-infinity code with mantissa 0. */
  lemma ConstructOverflow(coeff: int, expon: int)
    ensures Construct(coeff, expon).expon == Inf <==> expon + Steps(Abs(coeff)) > EMax
    ensures expon + Steps(Abs(coeff)) > EMax ==>
              Construct(coeff, expon) == BitLayout(0, Inf, coeff < 0)
  {
    NarrowTruncates(Abs(coeff), expon);
  }

  /** Underflow: the exponent after narrowing is below EMin exactly when the
      result is the negative-infinity code with mantissa 0. */
  lemma ConstructUnderflow(coeff: int, expon: int)
    ensures Construct(coeff, expon).expon == NegativeInf <==> expon + Steps(Abs(coeff)) < EMin
    ensures expon + Steps(Abs(coeff)) < EMin ==>
              Construct(coeff, expon) == BitLayout(0, NegativeInf, coeff < 0)
  {
    NarrowTruncates(Abs(coeff), expon);
  }

  /** In range: the result is finite exactly when the narrowed exponent lies in
      [EMin, EMax], and then it holds the truncated coefficient and that
      exponent, with nothing lost to the bit-field widths. */
  lemma ConstructInRange(coeff: int, expon: int)
    ensures IsFinite(Construct(coeff, expon)) <==> EMin <= expon + Steps(Abs(coeff)) <= EMax
    ensures EMin <= expon + Steps(Abs(coeff)) <= EMax ==>
              Construct(coeff, expon) ==
                BitLayout(DropDigits(Abs(coeff), Steps(Abs(coeff))), expon + Steps(Abs(coeff)), coeff < 0)
  {
    NarrowTruncates(Abs(coeff), expon);
  }

  /** Constructing again from the stored fields of a finite result gives the
      same record. */
  lemma ConstructIdempotent(coeff: int, expon: int)
    requires IsFinite(Construct(coeff, expon))
    ensures var r := Construct(coeff, expon);
            Construct(if r.sign then -(r.mantissa as int) else r.mantissa, r.expon) == r
  {
  }

  /** (10, 1) and (-10, 1) keep mantissa 10 and exponent 1 and differ only in
      the sign: no normalisation toward 1000000 happens. */
  lemma ConstructTen()
    ensures Construct(10, 1) == BitLayout(10, 1, false)
    ensures Construct(-10, 1) == BitLayout(10, 1, true)
  {
  }

  /** (10, 60) is finite, because the range test is against EMax = 96. */
  lemma ConstructTenAtSixty()
    ensures Construct(10, 60) == BitLayout(10, 60, false)
  {
  }

  /** (4, 2) is stored unchanged. */
  lemma ConstructFourAtTwo()
    ensures Construct(4, 2) == BitLayout(4, 2, false)
  {
  }

  /** (9999999, 2) has exactly seven digits and is stored unchanged. */
  lemma ConstructManMaxAtTwo()
    ensures Construct(9_999_999, 2) == BitLayout(9_999_999, 2, false)
  {
  }

  /** Two's-complement reduction of x to a signed integer `bits` wide: what an
      assignment back into a narrow signed `Integer` does (modular since C++20). */
  function WrapSigned(x: int, bits: nat): (r: int)
    requires bits >= 1
    ensures -(Pow2(bits - 1) as int) <= r < Pow2(bits - 1)
    ensures -(Pow2(bits - 1) as int) <= x < Pow2(bits - 1) ==> r == x
  {
    var half := Pow2(bits - 1);
    var u := x % (2 * half);
    ModWrap(x, half);
    if u >= half then u - 2 * half else u
  }

  /** The constructor as written for a signed `Integer` of `bits` bits,
      narrower than `int`: std::abs runs on the value promoted to `int`, and
      its result is assigned back into the narrow `coeff`, so the most negative
      value stays negative, skips the loop and reaches the 24-bit store. For
      every other value the result is that of Construct. */
  function ConstructNarrowInteger(bits: nat, coeff: int, expon: int): (r: BitLayout)
    requires 1 <= bits < 32
    requires -(Pow2(bits - 1) as int) <= coeff < Pow2(bits - 1)
    ensures r.sign <==> coeff < 0
    ensures coeff != -(Pow2(bits - 1) as int) ==> r == Construct(coeff, expon)
  {
    var c := WrapSigned(Abs(coeff), bits);
    var (m, e) := if c > ManMax then var n := Narrow(c, expon); (n.0 as int, n.1) else (c, expon);
    if e > EMax then BitLayout(0, Inf, coeff < 0)
    else if e < EMin then BitLayout(0, NegativeInf, coeff < 0)
    else BitLayout(StoreMantissa(m), StoreExpon(e), coeff < 0)
  }

  /** The most negative `short` and `signed char` are stored with a mantissa
      above MAN_MAX as written; Construct stores their magnitude. */
  lemma NarrowIntegerMostNegative()
    ensures Pow2(15) == 32_768 && ConstructNarrowInteger(16, -32_768, 0) == BitLayout(16_744_448, 0, true)
    ensures Pow2(7) == 128 && ConstructNarrowInteger(8, -128, 0) == BitLayout(16_777_088, 0, true)
    ensures Pow2(15) == 32_768 && !WellFormed(ConstructNarrowInteger(16, -32_768, 0))
    ensures Construct(-32_768, 0) == BitLayout(32_768, 0, true)
    ensures Construct(-128, 0) == BitLayout(128, 0, true)
  {
    Pow2Widths();
    assert WrapSigned(32_768, 16) == -32_768;
    assert WrapSigned(128, 8) == -128;
  }

  /** The decimal32 object: one packed record, written field by field by its
      constructors. */
  class Decimal32 {
    var data: BitLayout

    ghost predicate Valid()
      reads this
    {
      WellFormed(data)
    }

    /** The defaulted constructor, as value-initialized: every field zero. */
    constructor Default()
      ensures Valid() && data == BitLayout(0, 0, false)
    {
      data := BitLayout(0, 0, false);
    }

    /** Initialization from coefficient and exponent. It never fails: excess
        digits are truncated and out-of-range exponents become infinity codes. */
    constructor (coeff: int, expon: int)
      ensures Valid() && data == Construct(coeff, expon)
    {
      new;
      data := data.(sign := coeff < 0);
      var c: nat := Abs(coeff);
      var e := expon;
      while c > ManMax
        invariant Narrow(c, e) == Narrow(Abs(coeff), expon)
        invariant data.sign == (coeff < 0)
        decreases c
      {
        c := c / 10;
        e := e + 1;
      }
      if e > EMax {
        data := data.(mantissa := 0);
        data := data.(expon := Inf);
      } else if e < EMin {
        data := data.(mantissa := 0);
        data := data.(expon := NegativeInf);
      } else {
        data := data.(mantissa := StoreMantissa(c));
        data := data.(expon := StoreExpon(e));
      }
    }
  }
}
