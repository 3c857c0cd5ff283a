/** Exact readings of the float idioms the geometry code relies on.

Python floats are modelled as exact `real`s. `int()` on a float truncates
toward zero, `approx_equal` is an absolute tolerance, and the `max`/`min`
builtin passed around by the fitting code is the `Extreme` datatype.
 */
module Numeric {

  /** `int(r)`: truncation toward zero. */
  function Trunc(r: real): (n: int)
    ensures 0.0 <= r ==> n as real <= r < n as real + 1.0
    ensures r < 0.0 ==> n as real - 1.0 < r <= n as real
    ensures 0.0 <= r ==> 0 <= n
    ensures r <= 0.0 ==> n <= 0
  {
    if r >= 0.0 then r.Floor else -((-r).Floor)
  }

  /** Truncating a real that is already an integer gives that integer back. */
  lemma TruncOfInt(n: int)
    ensures Trunc(n as real) == n
  {
  }

  /** The `int(x + 0.5)` rounding idiom. For `x >= -0.5` it rounds half up
      (to the nearest integer, ties upwards). Below that, truncation toward
      zero makes it round towards zero instead: the result can sit up to a
      whole unit above `x`. */
  function HalfUpTrunc(x: real): (n: int)
    ensures -0.5 <= x ==> n == (x + 0.5).Floor
    ensures -0.5 <= x ==> x - 0.5 < n as real <= x + 0.5
    ensures x < -0.5 ==> x + 0.5 <= n as real < x + 1.5
  {
    Trunc(x + 0.5)
  }

  /** Rounding an integer that is at least zero gives it back. */
  lemma HalfUpTruncOfInt(k: int)
    requires k >= 0
    ensures HalfUpTrunc(k as real) == k
  {
  }

  /** `approx_equal(f1, f2)` with its default `epsilon=1e-6`: an absolute,
      strict tolerance. */
  predicate ApproxEqual(a: real, b: real)
  {
    (if a >= b then a - b else b - a) < 0.000001
  }

  lemma ApproxEqualSymmetric(a: real, b: real)
    ensures ApproxEqual(a, b) <==> ApproxEqual(b, a)
    ensures ApproxEqual(a, a)
  {
  }

  /** The tolerance is absolute: shifting both sides changes nothing, so
      the same `1e-6` applies to ratios near 0 and near 10^6, and closeness
      is not transitive. */
  lemma ApproxEqualIsAbsolute(a: real, b: real, c: real)
    ensures ApproxEqual(a, b) <==> ApproxEqual(a + c, b + c)
    ensures a == b ==> ApproxEqual(a, b)
    ensures ApproxEqual(0.0, 0.0000006) && ApproxEqual(0.0000006, 0.0000012)
    ensures !ApproxEqual(0.0, 0.0000012)
    ensures ApproxEqual(0.0000001, 0.0000005)
  {
  }

  /** The builtin handed to the fitting code as `minmax`. */
  datatype Extreme = Max | Min

  /** `minmax(a, b)`. */
  function Pick(m: Extreme, a: real, b: real): (r: real)
    ensures r == a || r == b
    ensures m == Max ==> a <= r && b <= r
    ensures m == Min ==> r <= a && r <= b
  {
    match m
    case Max => if b > a then b else a
    case Min => if b < a then b else a
  }

  function Abs(a: int): nat { if a >= 0 then a else -a }

  /** Integer division rounding toward zero: what `int(a / b)` computes
      under true division. For a non-negative dividend and a positive
      divisor it is the usual quotient. */
  function TruncDiv(a: int, b: int): (q: int)
    requires b != 0
    ensures a >= 0 && b > 0 ==> q == a / b
  {
    var n := Abs(a) / Abs(b);
    if (a >= 0) == (b > 0) then n else -n
  }

  /** The magnitude of the rounded-toward-zero quotient is the largest
      multiple of the divisor's magnitude that fits in the dividend's. */
  lemma TruncDivBracket(a: int, b: int)
    requires b != 0
    ensures Abs(TruncDiv(a, b)) * Abs(b) <= Abs(a) < (Abs(TruncDiv(a, b)) + 1) * Abs(b)
  {
    var n := Abs(a) / Abs(b);
    DivBounds(Abs(a), Abs(b));
    assert Abs(TruncDiv(a, b)) == n;
    assert n * Abs(b) <= Abs(a) < (n + 1) * Abs(b);
  }

  /** The quotient of naturals brackets the dividend. */
  lemma DivBounds(n: nat, d: nat)
    requires d > 0
    ensures (n / d) * d <= n < (n / d + 1) * d
  {
    var q, r := n / d, n % d;
    assert n == q * d + r;
    assert (q + 1) * d == q * d + d;
  }

  /** A proper fraction of naturals lies in `[0, 1)`. */
  lemma FracBelowOne(r: nat, d: nat)
    requires r < d
    ensures 0.0 <= r as real / d as real < 1.0
  {
    var f := r as real / d as real;
    assert f * d as real == r as real;
  }

  /** The real quotient of naturals lies in `[n / d, n / d + 1)`. */
  lemma QuotientBounds(n: nat, d: nat)
    requires d > 0
    ensures (n / d) as real <= n as real / d as real < (n / d) as real + 1.0
  {
    var q, r := n / d, n % d;
    assert n == q * d + r;
    FracBelowOne(r, d);
    SplitQuotient(q, r, d);
  }

  /** `(q * d + r) / d` is `q + r / d` over the reals. */
  lemma SplitQuotient(q: int, r: int, d: int)
    requires d > 0
    ensures (q * d + r) as real / d as real == q as real + r as real / d as real
  {
    var dr := d as real;
    var x := (q * d + r) as real / dr;
    var f := r as real / dr;
    assert f * dr == r as real;
    assert x * dr == (q * d + r) as real;
    assert (q * d + r) as real == q as real * dr + r as real;
    assert (x - (q as real + f)) * dr == 0.0;
  }

  /** `int(a / b)` on integers is `TruncDiv(a, b)`. */
  lemma TruncOfQuotient(a: int, b: int)
    requires b != 0
    ensures Trunc(a as real / b as real) == TruncDiv(a, b)
  {
    var x := a as real / b as real;
    var ax := Abs(a) as real / Abs(b) as real;
    QuotientBounds(Abs(a), Abs(b));
    SameQuotient(a, b);
    if (a >= 0) == (b > 0) {
      assert x == ax;
    } else {
      assert x == -ax;
    }
  }

  /** The sign of a real quotient of integers. */
  lemma SameQuotient(a: int, b: int)
    requires b != 0
    ensures (a >= 0) == (b > 0) ==> a as real / b as real == Abs(a) as real / Abs(b) as real
    ensures (a >= 0) != (b > 0) ==> a as real / b as real == -(Abs(a) as real / Abs(b) as real)
  {
    var x := a as real / b as real;
    var ax := Abs(a) as real / Abs(b) as real;
    assert x * b as real == a as real;
    assert ax * Abs(b) as real == Abs(a) as real;
    if (a >= 0) == (b > 0) {
      assert (x - ax) * Abs(b) as real == 0.0;
    } else {
      assert (x + ax) * Abs(b) as real == 0.0;
    }
  }

  /** Dividing by the ratio `a / b` is multiplying by `b` and dividing by
      `a`. */
  lemma DivideByRatio(c: int, a: int, b: int)
    requires a != 0 && b != 0
    ensures c as real / (a as real / b as real) == (c * b) as real / a as real
  {
    var q := a as real / b as real;
    assert q * b as real == a as real;
    assert q != 0.0;
    var x := c as real / q;
    assert x * q == c as real;
    assert x * a as real == (c * b) as real by {
      assert x * a as real == x * q * b as real;
    }
  }

  /** `a / b >= c / d` exactly when `a * d >= c * b`, for positive `b, d`. */
  lemma CrossCompare(a: int, b: int, c: int, d: int)
    requires b > 0 && d > 0
    ensures a as real / b as real >= c as real / d as real <==> a * d >= c * b
  {
    var p := a as real / b as real;
    var q := c as real / d as real;
    assert p * b as real == a as real;
    assert q * d as real == c as real;
    assert (a * d) as real == a as real * d as real;
    assert (c * b) as real == c as real * b as real;
    assert p * (b as real * d as real) == a as real * d as real;
    assert q * (b as real * d as real) == c as real * b as real;
    var bd := b as real * d as real;
    assert bd > 0.0;
    if p >= q {
      assert p * bd >= q * bd;
    } else {
      assert p * bd < q * bd;
    }
  }

  function MaxInt(a: int, b: int): int { if a >= b then a else b }
  function MinInt(a: int, b: int): int { if a <= b then a else b }

  /** `n` is the floor of the square root of the ratio `num / den`. */
  ghost predicate IsFloorSqrt(n: nat, num: int, den: int)
  {
    n * n * den <= num < (n + 1) * (n + 1) * den
  }

  lemma MulMono(a: int, b: int, c: int, d: int)
    requires 0 <= a <= b && 0 <= c <= d
    ensures a * c <= b * d
  {
    assert a * c <= b * c;
    assert b * c <= b * d;
  }

  lemma SquareTimesMono(a: nat, b: nat, d: nat)
    requires a <= b
    ensures a * a * d <= b * b * d
  {
    MulMono(a, b, a, b);
    MulMono(a * a, b * b, d, d);
  }

  lemma SquareTimesStrict(a: nat, b: nat, d: nat)
    requires a < b && 0 < d
    ensures a * a * d < b * b * d
  {
    MulMono(a, b, a, b);
    assert a * a < b * b by {
      assert a * a <= a * b;
      assert a * b < b * b;
    }
    assert (b * b - a * a) * d > 0;
  }

  /** The largest `n` with `n * n * den <= num`, counting upwards from `n`. */
  function FloorSqrtFrom(num: nat, den: nat, n: nat): (r: nat)
    requires 0 < den && n * n * den <= num
    ensures IsFloorSqrt(r, num, den) && n <= r
    decreases num - n * n * den
  {
    SquareTimesStrict(n, n + 1, den);
    if (n + 1) * (n + 1) * den <= num then FloorSqrtFrom(num, den, n + 1) else n
  }

  /** The floor of the square root of the ratio `num / den`. */
  function FloorSqrt(num: nat, den: nat): (r: nat)
    requires 0 < den
    ensures IsFloorSqrt(r, num, den)
  {
    FloorSqrtFrom(num, den, 0)
  }

  /** The floor square root is unique, so any witness is the value. */
  lemma {:induction false} FloorSqrtUnique(n: nat, num: nat, den: nat)
    requires 0 < den && IsFloorSqrt(n, num, den)
    ensures FloorSqrt(num, den) == n
  {
    var r := FloorSqrt(num, den);
    if r < n {
      SquareTimesMono(r + 1, n, den);
    } else if n < r {
      SquareTimesMono(n + 1, r, den);
    }
  }

  /** A negative example of `HalfUpTrunc`: -3 moves up to -2, where rounding
      half up would keep it at -3. */
  lemma HalfUpTruncNegativeDrift()
    ensures HalfUpTrunc(-3.0) == -2
    ensures (-3.0 + 0.5).Floor == -3
  {
  }
}
