/** Numeric building blocks shared by the colour picker: the C# `double` with its NaN,
    the C# integer and floating-point conversions and remainders, the error values the
    components raise, and the trigonometric functions they call. */
module Numerics {

  /** A C# `double`: a real number or NaN. Comparisons involving NaN are false, arithmetic
      propagates it, and `double.Equals(NaN, NaN)` holds, which is structural equality here.
      Infinities are not modelled. */
  datatype Double = Num(v: real) | NaN

  function Add(a: Double, b: Double): (r: Double)
    ensures r.NaN? <==> a.NaN? || b.NaN?
  {
    if a.Num? && b.Num? then Num(a.v + b.v) else NaN
  }

  function Sub(a: Double, b: Double): (r: Double)
    ensures r.NaN? <==> a.NaN? || b.NaN?
  {
    if a.Num? && b.Num? then Num(a.v - b.v) else NaN
  }

  /** `k * a` for a constant factor `k`. */
  function Scale(k: real, a: Double): (r: Double)
    ensures r.NaN? <==> a.NaN?
  {
    if a.Num? then Num(k * a.v) else NaN
  }

  /** `a / 2`. */
  function Half(a: Double): (r: Double)
    ensures r.NaN? <==> a.NaN?
    ensures r.Num? ==> r.v + r.v == a.v
  {
    if a.Num? then Num(a.v / 2.0) else NaN
  }

  /** `a <= b`; false when either side is NaN. */
  predicate Le(a: Double, b: Double)
  {
    a.Num? && b.Num? && a.v <= b.v
  }

  /** `a < b`; false when either side is NaN. */
  predicate Lt(a: Double, b: Double)
  {
    a.Num? && b.Num? && a.v < b.v
  }

  /** `Math.Min` on doubles: NaN when either argument is NaN. */
  function MathMin(a: Double, b: Double): (r: Double)
    ensures r.NaN? <==> a.NaN? || b.NaN?
    ensures r.Num? ==> r.v <= a.v && r.v <= b.v && (r.v == a.v || r.v == b.v)
  {
    if a.NaN? || b.NaN? then NaN else if a.v <= b.v then a else b
  }

  function Abs(r: real): real
  {
    if r < 0.0 then -r else r
  }

  function MinInt(a: int, b: int): int
  {
    if a <= b then a else b
  }

  /** The C# `(int)` conversion of a finite double: truncation toward zero. */
  function Trunc(r: real): (n: int)
    ensures Abs(n as real) <= Abs(r) < Abs(n as real) + 1.0
    ensures n == 0 || (n < 0 <==> r < 0.0)
  {
    if r >= 0.0 then r.Floor else -((-r).Floor)
  }

  /** The result of C#'s unchecked arithmetic on `int`: the exact value wrapped into the
      32-bit two's-complement range. */
  function Wrap32(v: int): (w: int)
    ensures -0x8000_0000 <= w < 0x8000_0000
    ensures (v - w) % 0x1_0000_0000 == 0
    ensures -0x8000_0000 <= v < 0x8000_0000 ==> w == v
  {
    (v + 0x8000_0000) % 0x1_0000_0000 - 0x8000_0000
  }

  /** C#'s `/` on `int`, which truncates toward zero (Dafny's `/` is Euclidean). */
  function TruncDiv(a: int, b: int): (q: int)
    requires b > 0
    ensures q == Trunc(a as real / b as real)
    ensures Abs((a - b * q) as real) < b as real
    ensures a - b * q == 0 || (a - b * q < 0 <==> a < 0)
  {
    var q := if a >= 0 then a / b else -((-a) / b);
    TruncDivIsTrunc(a, b, q);
    q
  }

  /** A quotient whose remainder is smaller than the divisor and shares the dividend's
      sign is the truncation of the exact quotient. */
  lemma {:induction false} TruncDivIsTrunc(a: int, b: int, q: int)
    requires b > 0
    requires q == if a >= 0 then a / b else -((-a) / b)
    ensures q == Trunc(a as real / b as real)
    ensures Abs((a - b * q) as real) < b as real
    ensures a - b * q == 0 || (a - b * q < 0 <==> a < 0)
  {
    if a >= 0 {
      TruncDivNonNegative(a, b);
    } else {
      TruncDivNegative(a, b);
    }
  }

  lemma TruncDivNonNegative(a: nat, b: int)
    requires b > 0
    ensures a / b == Trunc(a as real / b as real)
    ensures 0 <= a - b * (a / b) < b
  {
    FloorOfQuotient(a, b);
    DivWithin(a as real, b as real, 0.0, (a / b + 1) as real);
  }

  lemma TruncDivNegative(a: int, b: int)
    requires a < 0 && b > 0
    ensures -((-a) / b) == Trunc(a as real / b as real)
    ensures -b < a + b * ((-a) / b) <= 0
  {
    var x := a as real / b as real;
    var p := (-a) / b;
    FloorOfQuotient(-a, b);
    assert (-a) as real / b as real == -x;
    DivWithin((-a) as real, b as real, 0.0, (p + 1) as real);
    assert a + b * p == -((-a) % b);
  }

  /** On a natural dividend the exact quotient's floor is Dafny's integer quotient. */
  lemma FloorOfQuotient(n: nat, b: int)
    requires b > 0
    ensures (n as real / b as real).Floor == n / b
  {
    var q := n / b;
    assert b * q <= n < b * (q + 1);
    assert (b as real) * (q as real) == (b * q) as real;
    assert (b as real) * ((q + 1) as real) == (b * (q + 1)) as real;
    DivWithin(n as real, b as real, q as real, (q + 1) as real);
  }

  /** C#'s `%` on doubles: the remainder of a division truncated toward zero, so it takes
      the sign of `x`. */
  function FRem(x: real, m: real): real
    requires m > 0.0
  {
    x - m * (Trunc(x / m) as real)
  }

  /** For a non-negative dividend the remainder lies in [0, m). */
  lemma FRemRange(x: real, m: real)
    requires x >= 0.0 && m > 0.0
    ensures 0.0 <= FRem(x, m) < m
  {
    var q := x / m;
    var k := Trunc(q) as real;
    assert k <= q < k + 1.0;
    assert m * q == x;
    MulMonotone(k, q, m);
    StrictMul(q, k + 1.0, m);
    calc {
      x;
    ==
      m * q;
    <
      m * (k + 1.0);
    ==
      m * k + m;
    }
  }

  lemma MulMonotone(a: real, b: real, m: real)
    requires a <= b && m >= 0.0
    ensures m * a <= m * b
  {
  }

  /** A factor in [0, 1] scales a non-negative number down. */
  lemma ScaleWithin(t: real, k: real)
    requires 0.0 <= t <= 1.0 && k >= 0.0
    ensures 0.0 <= k * t <= k
  {
    MulMonotone(t, 1.0, k);
    MulMonotone(0.0, t, k);
  }

  lemma StrictMul(a: real, b: real, m: real)
    requires a < b && m > 0.0
    ensures m * a < m * b
  {
  }

  /** For a dividend in [m, 2m) the remainder is x - m. */
  lemma FRemSecondTurn(x: real, m: real)
    requires m > 0.0 && m <= x < m + m
    ensures FRem(x, m) == x - m
  {
    DivWithin(x, m, 1.0, 2.0);
    assert Trunc(x / m) == 1;
  }

  /** Bounds on a dividend bound the quotient. */
  lemma DivWithin(x: real, m: real, lo: real, hi: real)
    requires m > 0.0 && m * lo <= x < m * hi
    ensures lo <= x / m < hi
  {
    var q := x / m;
    assert m * q == x;
    if q < lo {
      StrictMul(q, lo, m);
    }
    if q >= hi {
      MulMonotone(hi, q, m);
    }
  }

  /** Math.Atan2(y, x) converted to degrees. It is left uninterpreted except for its range,
      which is [-180, 180] for every pair of finite arguments. */
  ghost predicate IsAtan2Degrees(atan2: (real, real) -> real)
  {
    forall y: real, x: real :: -180.0 <= atan2(y, x) <= 180.0
  }

  /** Math.Sin and Math.Cos of an angle given in degrees (the callers' `θ * Math.PI / 180`
      is folded in). Left uninterpreted; lemmas that need it assume the Pythagorean identity. */
  datatype Trig = Trig(sinDeg: real -> real, cosDeg: real -> real)

  ghost predicate Pythagorean(t: Trig)
  {
    forall a: real :: t.sinDeg(a) * t.sinDeg(a) + t.cosDeg(a) * t.cosDeg(a) == 1.0
  }
}

/** The exceptions the components throw, as values. */
module Outcomes {

  datatype Error =
    | ArgumentException(message: string)
    | InvalidOperationException(message: string)
    | NullReferenceException

  datatype Result<T> = Ok(value: T) | Err(error: Error)

  datatype Outcome = Pass | Fail(error: Error)
}
