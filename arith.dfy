/** Decimal arithmetic facts used by the decimal32 model: powers of ten,
    decimal digit counts, and how truncating division by ten composes. */
module DecimalArith {

  /** 10^k. */
  function Pow10(k: nat): (r: nat)
    ensures r >= 1
  {
    if k == 0 then 1 else 10 * Pow10(k - 1)
  }

  /** 2^k. */
  function Pow2(k: nat): (r: nat)
    ensures r >= 1
  {
    if k == 0 then 1 else 2 * Pow2(k - 1)
  }

  lemma Pow2Widths()
    ensures Pow2(7) == 128 && Pow2(8) == 256
    ensures Pow2(15) == 32_768 && Pow2(16) == 65_536
  {
    assert Pow2(4) == 16;
    assert Pow2(8) == 256;
    assert Pow2(12) == 4_096;
  }

  /** Number of decimal digits of c; zero has none. */
  function Digits(c: nat): (r: nat)
  {
    if c == 0 then 0 else 1 + Digits(c / 10)
  }

  lemma Pow10Seven()
    ensures Pow10(7) == 10_000_000
  {
    assert Pow10(1) == 10;
    assert Pow10(2) == 100;
    assert Pow10(3) == 1_000;
    assert Pow10(4) == 10_000;
    assert Pow10(5) == 100_000;
    assert Pow10(6) == 1_000_000;
  }

  /** A positive multiple of a positive number is at least that number. */
  lemma {:induction false} MulAtLeast(b: int, x: nat)
    requires b > 0 && x >= 1
    ensures b * x >= b
  {
    if x > 1 {
      MulAtLeast(b, x - 1);
      assert b * x == b * (x - 1) + b;
    }
  }

  /** Quotient and remainder are determined by the division equation. */
  lemma DivUnique(a: int, b: int, q: int, r: int)
    requires b > 0 && 0 <= r < b && a == b * q + r
    ensures a / b == q && a % b == r
  {
    var q', r' := a / b, a % b;
    assert a == b * q' + r';
    if q' < q {
      assert b * q - b * q' == b * (q - q');
      MulAtLeast(b, q - q');
    } else if q' > q {
      assert b * q' - b * q == b * (q' - q);
      MulAtLeast(b, q' - q);
    }
  }

  /** Reducing x modulo 2h leaves every x in [-h, h) congruent to itself in [0, 2h). */
  lemma ModWrap(x: int, h: int)
    requires h >= 1
    ensures -h <= x < h ==> x % (2 * h) == if x >= 0 then x else x + 2 * h
  {
    if 0 <= x < h {
      DivUnique(x, 2 * h, 0, x);
    } else if -h <= x < 0 {
      DivUnique(x, 2 * h, -1, x + 2 * h);
    }
  }

  /** Truncating division by 10, then by 10^k, is truncating division by 10^(k+1). */
  lemma DivDiv(c: nat, k: nat)
    ensures (c / 10) / Pow10(k) == c / Pow10(k + 1)
  {
    var p := Pow10(k);
    assert Pow10(k + 1) == 10 * p;
    var q, r := c / (10 * p), c % (10 * p);
    assert c == 10 * p * q + r;
    assert r == 10 * (r / 10) + r % 10;
    assert c == 10 * (p * q + r / 10) + r % 10;
    DivUnique(c, 10, p * q + r / 10, r % 10);
    assert r / 10 < p;
    DivUnique(c / 10, p, q, r / 10);
  }

  /** c has more than n digits exactly when c >= 10^n. */
  lemma {:induction false} DigitsBound(c: nat, n: nat)
    ensures Digits(c) > n <==> c >= Pow10(n)
  {
    if c != 0 && n != 0 {
      DigitsBound(c / 10, n - 1);
    }
  }

  /** c with its last k decimal digits dropped. */
  function DropDigits(c: nat, k: nat): (r: nat)
  {
    if k == 0 then c else DropDigits(c / 10, k - 1)
  }

  /** Dropping k digits is truncating division by 10^k. */
  lemma {:induction false} DropDigitsIsDivision(c: nat, k: nat)
    ensures DropDigits(c, k) == c / Pow10(k)
  {
    if k > 0 {
      DropDigitsIsDivision(c / 10, k - 1);
      DivDiv(c, k - 1);
    }
  }

  /** The quotient c / p brackets c between consecutive multiples of p. */
  lemma QuotientBrackets(c: nat, p: nat)
    requires p >= 1
    ensures (c / p) * p <= c < (c / p + 1) * p
  {
    var q := c / p;
    assert c == p * q + c % p;
    assert (q + 1) * p == q * p + p;
  }
}
