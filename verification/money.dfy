/**
 Exact decimal quantisation, the model of the `dollar` helper of the loan
 calculator. A decimal or an unrounded quotient is an exact fraction; rounding
 it to a fixed number of places yields a whole number of units (cents, or
 millionths for the interest rate) under one of the rounding modes the
 calculator uses.
 */
module Money {

  /** Strictly positive integers: denominators and scales. */
  type pos = n: int | n > 0 witness 1

  /** The exact rational value num/den. */
  datatype Fraction = Fraction(num: int, den: pos)

  /** Rounding modes of the decimal arithmetic: ceiling (the default of
      `dollar`), half-up (interest accrual) and half-even (the default of the
      decimal context, used when the rate is quantised). */
  datatype Rounding = Ceiling | HalfUp | HalfEven

  /** Cents per dollar: `dollar` quantises to two places. */
  const CentsPerDollar: pos := 100

  /** `u` whole units is the rounding of the ratio n/d (d > 0) under `mode`:
      - Ceiling: the least whole u with u >= n/d;
      - HalfUp: the nearest whole u, an exact half going away from zero;
      - HalfEven: the nearest whole u, an exact half going to the even one. */
  predicate RoundsToUnits(n: int, d: int, mode: Rounding, u: int) {
    match mode
    case Ceiling => n <= u * d < n + d
    case HalfUp =>
      if n >= 0 then 2 * n - d < 2 * (u * d) <= 2 * n + d
      else 2 * n - d <= 2 * (u * d) < 2 * n + d
    case HalfEven =>
      && 2 * n - d <= 2 * (u * d) <= 2 * n + d
      && (2 * (u * d) == 2 * n + d || 2 * (u * d) == 2 * n - d ==> u % 2 == 0)
  }

  /** `u` units of size 1/scale is the rounding of `x` under `mode`; measured
      in units, `x` is (x.num * scale) / x.den. */
  predicate RoundsTo(x: Fraction, scale: pos, mode: Rounding, u: int) {
    RoundsToUnits(x.num * scale, x.den, mode, u)
  }

  /** Floor division by a positive divisor: quotient and remainder. */
  lemma FloorDivBounds(a: int, d: int)
    requires d > 0
    ensures a == (a / d) * d + a % d && 0 <= a % d < d
  {
  }

  /** A multiple of a positive d that lies strictly between -d and d is zero. */
  lemma SmallMultipleIsZero(k: int, d: int)
    requires d > 0 && -d < k * d < d
    ensures k == 0
  {
  }

  /** Whole numbers that differ are at least one whole d apart as multiples of d. */
  lemma MultipleStep(a: int, b: int, d: int)
    requires d > 0 && a < b
    ensures a * d + d <= b * d
  {
    assert b * d - a * d - d == (b - a - 1) * d;
    assert (b - a - 1) * d >= 0;
  }

  /** Scaling by a positive factor preserves order. */
  lemma ScaleMonotone(a: int, b: int, s: int)
    requires a <= b && s > 0
    ensures a * s <= b * s
  {
    assert b * s - a * s == (b - a) * s;
    assert (b - a) * s >= 0;
  }

  /** Ceiling of n/d: the negated floor of -n/d. */
  function CeilingUnits(n: int, d: int): (u: int)
    requires d > 0
    ensures RoundsToUnits(n, d, Ceiling, u)
  {
    var q := (-n) / d;
    FloorDivBounds(-n, d);
    var qd := q * d;
    assert -q * d == -qd;
    -q
  }

  /** n/d rounded to nearest, an exact half away from zero. */
  function HalfUpUnits(n: int, d: int): (u: int)
    requires d > 0
    ensures RoundsToUnits(n, d, HalfUp, u)
  {
    if n >= 0 then
      var q := (2 * n + d) / (2 * d);
      FloorDivBounds(2 * n + d, 2 * d);
      var qd := q * d;
      assert q * (2 * d) == 2 * qd;
      q
    else
      var q := (-2 * n + d) / (2 * d);
      FloorDivBounds(-2 * n + d, 2 * d);
      var qd := q * d;
      assert q * (2 * d) == 2 * qd;
      assert -q * d == -qd;
      -q
  }

  /** n/d rounded to nearest, an exact half to the even neighbour. */
  function HalfEvenUnits(n: int, d: int): (u: int)
    requires d > 0
    ensures RoundsToUnits(n, d, HalfEven, u)
  {
    FloorDivBounds(n, d);
    var q := n / d;
    var r := n % d;
    var qd := q * d;
    assert (q + 1) * d == qd + d;
    if 2 * r < d then q
    else if 2 * r > d then q + 1
    else if q % 2 == 0 then q
    else q + 1
  }

  /** Rounds n/d (d > 0) to whole units under `mode`, with integer division. */
  function QuantizeUnits(n: int, d: int, mode: Rounding): (u: int)
    requires d > 0
    ensures RoundsToUnits(n, d, mode, u)
  {
    match mode
    case Ceiling => CeilingUnits(n, d)
    case HalfUp => HalfUpUnits(n, d)
    case HalfEven => HalfEvenUnits(n, d)
  }

  /** Quantises `x` to whole units of 1/scale under `mode`; `dollar` is the
      case scale = 100. */
  function Quantize(x: Fraction, scale: pos, mode: Rounding): (u: int)
    ensures RoundsTo(x, scale, mode, u)
  {
    QuantizeUnits(x.num * scale, x.den, mode)
  }

  /** Two whole numbers whose multiples of d are less than d apart are equal. */
  lemma CloseMultiplesEqual(u1: int, u2: int, d: int)
    requires d > 0 && -d < u1 * d - u2 * d < d
    ensures u1 == u2
  {
    assert (u1 - u2) * d == u1 * d - u2 * d;
    SmallMultipleIsZero(u1 - u2, d);
  }

  /** At most one whole number of units satisfies the rounding specification. */
  lemma RoundsToUnitsUnique(n: int, d: int, mode: Rounding, u1: int, u2: int)
    requires d > 0
    requires RoundsToUnits(n, d, mode, u1) && RoundsToUnits(n, d, mode, u2)
    ensures u1 == u2
  {
    if mode == HalfEven && u1 * d - u2 * d == d {
      // Neighbours on the two sides of an exact half cannot both be even.
      CloseMultiplesEqual(u1 - 1, u2, d);
    } else if mode == HalfEven && u2 * d - u1 * d == d {
      CloseMultiplesEqual(u2 - 1, u1, d);
    } else {
      CloseMultiplesEqual(u1, u2, d);
    }
  }

  /** The rounding specification determines the result: Quantize is the only
      function of its signature that meets it. */
  lemma QuantizeCharacterised(x: Fraction, scale: pos, mode: Rounding, u: int)
    ensures RoundsTo(x, scale, mode, u) <==> u == Quantize(x, scale, mode)
  {
    if RoundsTo(x, scale, mode, u) {
      RoundsToUnitsUnique(x.num * scale, x.den, mode, u, Quantize(x, scale, mode));
    }
  }

  /** A value already on a unit boundary is returned unchanged in every mode. */
  lemma QuantizeExact(x: Fraction, scale: pos, mode: Rounding)
    requires (x.num * scale) % x.den == 0
    ensures Quantize(x, scale, mode) * x.den == x.num * scale
  {
    var n := x.num * scale;
    var d := x.den;
    FloorDivBounds(n, d);
    var u := n / d;
    assert u * d == n;
    assert RoundsToUnits(n, d, mode, u);
    RoundsToUnitsUnique(n, d, mode, u, Quantize(x, scale, mode));
  }

  /** Rounding is monotone in the ratio being rounded. */
  lemma QuantizeUnitsMonotone(n1: int, n2: int, d: int, mode: Rounding)
    requires d > 0 && n1 <= n2
    ensures QuantizeUnits(n1, d, mode) <= QuantizeUnits(n2, d, mode)
  {
    var u1 := QuantizeUnits(n1, d, mode);
    var u2 := QuantizeUnits(n2, d, mode);
    if n1 == n2 {
      RoundsToUnitsUnique(n1, d, mode, u1, u2);
    } else if u1 > u2 {
      // u1 lies at most half a unit above n1/d and u2 at most half a unit
      // below n2/d (for ceiling: u1 less than a unit above n1/d, u2 not below
      // n2/d), and n1 < n2, so they cannot be a whole unit apart.
      MultipleStep(u2, u1, d);
      assert false;
    }
  }

  /** Multiplying both sides by a positive factor keeps every comparison. */
  lemma ScaleOrder(a: int, b: int, k: int)
    requires k > 0
    ensures a <= b <==> a * k <= b * k
    ensures a < b <==> a * k < b * k
    ensures a == b <==> a * k == b * k
  {
    assert b * k - a * k == (b - a) * k;
    if a < b {
      assert (b - a) * k > 0;
    } else if b < a {
      assert (a - b) * k > 0;
    }
  }

  /** The comparisons the rounding specification makes, scaled by k > 0:
      each holds of the scaled ratio exactly when it holds of n/d. */
  lemma ScaledComparisons(n: int, d: int, u: int, k: int)
    requires d > 0 && k > 0
    ensures n * k >= 0 <==> n >= 0
    ensures n * k <= u * (d * k) <==> n <= u * d
    ensures u * (d * k) < n * k + d * k <==> u * d < n + d
    ensures 2 * (n * k) - d * k <= 2 * (u * (d * k)) <==> 2 * n - d <= 2 * (u * d)
    ensures 2 * (n * k) - d * k == 2 * (u * (d * k)) <==> 2 * n - d == 2 * (u * d)
    ensures 2 * (u * (d * k)) <= 2 * (n * k) + d * k <==> 2 * (u * d) <= 2 * n + d
    ensures 2 * (u * (d * k)) == 2 * (n * k) + d * k <==> 2 * (u * d) == 2 * n + d
  {
    var ud := u * d;
    assert u * (d * k) == ud * k;
    assert 2 * (u * (d * k)) == (2 * ud) * k;
    assert 2 * (n * k) - d * k == (2 * n - d) * k;
    assert 2 * (n * k) + d * k == (2 * n + d) * k;
    assert n * k + d * k == (n + d) * k;
    ScaleOrder(0, n, k);
    ScaleOrder(n, ud, k);
    ScaleOrder(ud, n + d, k);
    ScaleOrder(2 * n - d, 2 * ud, k);
    ScaleOrder(2 * ud, 2 * n + d, k);
  }

  /** Rounding depends only on the ratio: scaling numerator and denominator
      by the same positive factor leaves the rounded result unchanged. */
  lemma RoundsToUnitsScaled(n: int, d: int, k: int, mode: Rounding, u: int)
    requires d > 0 && k > 0 && RoundsToUnits(n, d, mode, u)
    ensures RoundsToUnits(n * k, d * k, mode, u)
  {
    ScaledComparisons(n, d, u, k);
  }

  /** Roundings of two ratios n1/d1 <= n2/d2 are in the same order; the
      ratios are compared over the common denominator d1 * d2. */
  lemma RoundsToUnitsOrdered(n1: int, d1: int, n2: int, d2: int, mode: Rounding, u1: int, u2: int)
    requires d1 > 0 && d2 > 0 && n1 * d2 <= n2 * d1
    requires RoundsToUnits(n1, d1, mode, u1) && RoundsToUnits(n2, d2, mode, u2)
    ensures u1 <= u2
  {
    var common := d1 * d2;
    assert d2 * d1 == common;
    RoundsToUnitsScaled(n1, d1, d2, mode, u1);
    RoundsToUnitsScaled(n2, d2, d1, mode, u2);
    QuantizeUnitsMonotone(n1 * d2, n2 * d1, common, mode);
    RoundsToUnitsUnique(n1 * d2, common, mode, u1, QuantizeUnits(n1 * d2, common, mode));
    RoundsToUnitsUnique(n2 * d1, common, mode, u2, QuantizeUnits(n2 * d1, common, mode));
  }

  /** Quantisation is monotone in the quantity being rounded: a fraction no
      larger than another, whatever their denominators, never rounds to more
      units. */
  lemma QuantizeMonotone(x: Fraction, y: Fraction, scale: pos, mode: Rounding)
    requires x.num * y.den <= y.num * x.den
    ensures Quantize(x, scale, mode) <= Quantize(y, scale, mode)
  {
    var n1 := x.num * scale;
    var n2 := y.num * scale;
    ScaleMonotone(x.num * y.den, y.num * x.den, scale);
    assert n1 * y.den == (x.num * y.den) * scale;
    assert n2 * x.den == (y.num * x.den) * scale;
    RoundsToUnitsOrdered(n1, x.den, n2, y.den, mode, Quantize(x, scale, mode), Quantize(y, scale, mode));
  }

  /** What half-up rounding promises: within half a unit, an exact half
      going away from zero, and a non-negative result for a non-negative
      ratio. */
  lemma HalfUpBounds(n: int, d: int, u: int)
    requires d > 0 && RoundsToUnits(n, d, HalfUp, u)
    ensures -d <= 2 * (u * d - n) <= d
    ensures 2 * (u * d - n) == d ==> n >= 0
    ensures 2 * (u * d - n) == -d ==> n < 0
    ensures n >= 0 ==> u >= 0
  {
    if n >= 0 && u < 0 {
      MultipleStep(u, 0, d);
    }
  }

  /** `dollar(f, round)`: quantise to whole cents, rounding up by default.
      Ceiling gives the least cent amount not below `x`; half-up gives a cent
      amount within half a cent of `x`, an exact half-cent going away from
      zero, and never negative for a non-negative `x`. */
  function Dollar(x: Fraction, mode: Rounding := Ceiling): (cents: int)
    ensures mode == Ceiling ==>
              x.num * 100 <= cents * x.den < x.num * 100 + x.den
    ensures mode == HalfUp ==>
              -(x.den as int) <= 2 * (cents * x.den - x.num * 100) <= x.den
    ensures mode == HalfUp && 2 * (cents * x.den - x.num * 100) == x.den ==> x.num >= 0
    ensures mode == HalfUp && 2 * (cents * x.den - x.num * 100) == -(x.den as int) ==> x.num < 0
    ensures mode == HalfUp && x.num >= 0 ==> cents >= 0
  {
    var cents := Quantize(x, CentsPerDollar, mode);
    if mode == HalfUp then
      HalfUpBounds(x.num * 100, x.den, cents);
      cents
    else
      cents
  }

  /** A whole number of cents as an exact quantity. */
  function Cents(c: int): Fraction
  {
    Fraction(c, CentsPerDollar)
  }

  /** Re-rounding a cent amount is a no-op in every mode, so quantising the
      already rounded principal a second time changes nothing. */
  lemma DollarIdempotent(c: int, mode: Rounding)
    ensures Dollar(Cents(c), mode) == c
  {
    QuantizeExact(Cents(c), CentsPerDollar, mode);
  }
}
