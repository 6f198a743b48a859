/**
 * System.Decimal as an integer mantissa and a power-of-ten scale, so that the
 * digits the value was written with (and so its precision and scale) stay visible.
 */
module Decimals {

  /** The value `mantissa / 10^scale`; `1.50` is `Decimal(150, 2)`. */
  datatype Decimal = Decimal(mantissa: int, scale: nat)

  function Pow10(n: nat): (r: nat)
    ensures r >= 1
  {
    if n == 0 then 1 else 10 * Pow10(n - 1)
  }

  function Abs(x: int): nat
  {
    if x < 0 then -x else x
  }

  /** The exact numeric value of a decimal. */
  function Value(d: Decimal): real
  {
    d.mantissa as real / Pow10(d.scale) as real
  }

  /** `default(decimal)`, the value `NotEmpty()` rejects: zero at any scale. */
  predicate IsZero(d: Decimal)
  {
    d.mantissa == 0
  }

  /** The sign of a decimal is the sign of its mantissa. */
  lemma ValueSign(d: Decimal)
    ensures Value(d) > 0.0 <==> d.mantissa > 0
    ensures Value(d) < 0.0 <==> d.mantissa < 0
    ensures Value(d) == 0.0 <==> d.mantissa == 0
  {
    var p := Pow10(d.scale) as real;
    assert Value(d) * p == d.mantissa as real;
  }

  /** Drops trailing fractional zeros: `1.500` becomes `1.5`; the value is unchanged. */
  function Normalize(d: Decimal): (r: Decimal)
    ensures r.scale <= d.scale
    ensures d.mantissa == r.mantissa * Pow10(d.scale - r.scale)
    ensures r.scale == 0 || r.mantissa % 10 != 0
    decreases d.scale
  {
    if d.scale > 0 && d.mantissa % 10 == 0 then
      var r := Normalize(Decimal(d.mantissa / 10, d.scale - 1));
      assert Pow10(d.scale - r.scale) == 10 * Pow10(d.scale - 1 - r.scale);
      r
    else d
  }

  /** Number of decimal digits of a natural number (zero has one digit). */
  function NumDigits(n: nat): (r: nat)
    ensures r >= 1
  {
    if n < 10 then 1 else 1 + NumDigits(n / 10)
  }

  /**
   * Integer digits once trailing zeros are ignored: the digits of the mantissa minus
   * the scale. It is negative for a pure fraction such as `0.05`.
   */
  function IntegerDigits(d: Decimal): int
  {
    var n := Normalize(d);
    NumDigits(Abs(n.mantissa)) - n.scale
  }

  /**
   * `PrecisionScale(18, 2, true)`: trailing zeros ignored, at most 2 decimal places and
   * at most 18 - 2 = 16 integer digits.
   */
  predicate PrecisionScaleOk(d: Decimal)
  {
    Normalize(d).scale <= 2 && IntegerDigits(d) <= 16
  }

  /** A trailing zero does not change whether an amount passes the precision rule. */
  lemma PrecisionIgnoresTrailingZero(m: int, s: nat)
    ensures PrecisionScaleOk(Decimal(m * 10, s + 1)) == PrecisionScaleOk(Decimal(m, s))
  {
    assert (m * 10) % 10 == 0 && (m * 10) / 10 == m;
    assert Normalize(Decimal(m * 10, s + 1)) == Normalize(Decimal(m, s));
  }

  lemma {:induction false} NumDigitsBound(n: nat, k: nat)
    requires k >= 1
    ensures NumDigits(n) <= k <==> n < Pow10(k)
  {
    if n >= 10 && k > 1 {
      NumDigitsBound(n / 10, k - 1);
    }
  }

  lemma AbsScaled(a: int, p: nat)
    requires p >= 1
    ensures Abs(a) <= Abs(a * p)
  {
    if a < 0 {
      assert a * p <= a;
    } else {
      assert a * p >= a;
    }
  }

  lemma Pow10Add(a: nat, b: nat)
    ensures Pow10(a + b) == Pow10(a) * Pow10(b)
  {
    if a > 0 {
      Pow10Add(a - 1, b);
    }
  }

  lemma AbsMul(a: int, p: nat)
    ensures Abs(a * p) == Abs(a) * p
  {
    if a < 0 {
      assert a * p == -(Abs(a) * p);
    }
  }

  lemma LessCancel(k: nat, q: nat, p: nat)
    requires p >= 1 && k * p < q * p
    ensures k < q
  {
    assert k * p - q * p == (k - q) * p;
  }

  /** Any amount of whole cents below 10^18 cents passes the precision rule. */
  lemma CentsAccepted(m: int)
    requires Abs(m) < Pow10(18)
    ensures PrecisionScaleOk(Decimal(m, 2))
  {
    var n := Normalize(Decimal(m, 2));
    var k := Abs(n.mantissa);
    var p := Pow10(2 - n.scale);
    var q := Pow10(16 + n.scale);
    AbsMul(n.mantissa, p);
    Pow10Add(16 + n.scale, 2 - n.scale);
    assert q * p == Pow10(18);
    LessCancel(k, q, p);
    NumDigitsBound(k, 16 + n.scale);
  }

  /** A significant third decimal place is rejected. */
  lemma ThirdDecimalRejected(m: int, s: nat)
    requires s >= 3 && m % 10 != 0
    ensures !PrecisionScaleOk(Decimal(m, s))
  {
  }

  /**
   * The precision rule on the normalized amount: at most two decimal places, and an
   * unscaled magnitude below 10^(16 + scale), that is, at most 16 integer digits.
   */
  lemma PrecisionScaleIff(d: Decimal)
    ensures PrecisionScaleOk(d) <==>
      Normalize(d).scale <= 2 && Abs(Normalize(d).mantissa) < Pow10(16 + Normalize(d).scale)
  {
    var n := Normalize(d);
    NumDigitsBound(Abs(n.mantissa), 16 + n.scale);
  }

  /** A whole number of 17 digits or more is rejected. */
  lemma SeventeenDigitsRejected(m: int)
    requires Abs(m) >= Pow10(16)
    ensures !PrecisionScaleOk(Decimal(m, 0))
  {
    NumDigitsBound(Abs(m), 16);
  }
}
