/** The proportional-fit algorithms of `Size` in `sanpera/geometry.py`:
`fit_inside` and `fit_around` (both through `_fit`) and `fit_area`.

Float ratios are exact reals; `int()` truncates toward zero. `fit_area`'s
`int(c * math.sqrt(area / current))` is read exactly: its magnitude is the
floor of the square root of `c * c * area / current`.
 */
module Fitting {
  import opened Numeric
  import opened Errors
  import opened Geometry

  /** An upscale or downscale gate of `_fit` returns the size unchanged:
      upscaling is off and both dimensions are strictly below the target, or
      downscaling is off and both are strictly above it. */
  predicate FitGated(s: Size, t: Size, upscale: bool, downscale: bool)
  {
    (!upscale && s.x < t.x && s.y < t.y) || (!downscale && s.x > t.x && s.y > t.y)
  }

  predicate Positive(s: Size)
  {
    s.x > 0 && s.y > 0
  }

  function WidthRatio(s: Size, t: Size): real
    requires t.x != 0
  {
    s.x as real / t.x as real
  }

  function HeightRatio(s: Size, t: Size): real
    requires t.y != 0
  {
    s.y as real / t.y as real
  }

  /** `Size._fit(other, minmax, upscale, downscale)`. Outside the gates the
      side whose ratio `minmax` picked is pinned to the target's and the
      other side is scaled by the same ratio and truncated toward zero:
      `int(h / (w / tw))` is `h * tw / w` rounded toward zero. */
  function Fit(s: Size, t: Size, m: Extreme, upscale: bool, downscale: bool): (r: Result<Size>)
    ensures !upscale && s.x < t.x && s.y < t.y ==> r == Ok(s)
    ensures !downscale && s.x > t.x && s.y > t.y ==> r == Ok(s)
    ensures !FitGated(s, t, upscale, downscale) && (t.x == 0 || t.y == 0) ==> r == Err(DivisionByZero)
    ensures (!FitGated(s, t, upscale, downscale) && t.x != 0 && t.y != 0
             && ApproxEqual(WidthRatio(s, t), HeightRatio(s, t))) ==> r == Ok(t)
    ensures (!FitGated(s, t, upscale, downscale) && t.x != 0 && t.y != 0
             && !ApproxEqual(WidthRatio(s, t), HeightRatio(s, t))
             && ApproxEqual(Pick(m, WidthRatio(s, t), HeightRatio(s, t)), WidthRatio(s, t)))
            ==> r == if s.x == 0 then Err(DivisionByZero) else Ok(Vector(t.x, TruncDiv(s.y * t.x, s.x)))
    ensures (!FitGated(s, t, upscale, downscale) && t.x != 0 && t.y != 0
             && !ApproxEqual(WidthRatio(s, t), HeightRatio(s, t))
             && !ApproxEqual(Pick(m, WidthRatio(s, t), HeightRatio(s, t)), WidthRatio(s, t)))
            ==> r == if s.y == 0 then Err(DivisionByZero) else Ok(Vector(TruncDiv(s.x * t.y, s.y), t.y))
    ensures r.Ok? ==> r.value == s || r.value.x == t.x || r.value.y == t.y
  {
    if !upscale && s.x < t.x && s.y < t.y then Ok(s)
    else if !downscale && s.x > t.x && s.y > t.y then Ok(s)
    else if t.x == 0 || t.y == 0 then Err(DivisionByZero)
    else
      var wr := WidthRatio(s, t);
      var hr := HeightRatio(s, t);
      RatioZero(s.x, t.x);
      RatioZero(s.y, t.y);
      if ApproxEqual(wr, hr) then Ok(t)
      else if ApproxEqual(Pick(m, wr, hr), wr) then
        if wr == 0.0 then Err(DivisionByZero)
        else
          ScaledByRatio(s.y, s.x, t.x);
          Ok(Vector(t.x, Trunc(s.y as real / wr)))
      else
        if hr == 0.0 then Err(DivisionByZero)
        else
          ScaledByRatio(s.x, s.y, t.y);
          Ok(Vector(Trunc(s.x as real / hr), t.y))
  }

  /** A ratio of integers is zero exactly when its numerator is. */
  lemma RatioZero(a: int, b: int)
    requires b != 0
    ensures a as real / b as real == 0.0 <==> a == 0
  {
    var q := a as real / b as real;
    assert q * b as real == a as real;
  }

  /** `int(c / (a / b))` is `c * b / a` rounded toward zero. */
  lemma ScaledByRatio(c: int, a: int, b: int)
    requires a != 0 && b != 0
    ensures Trunc(c as real / (a as real / b as real)) == TruncDiv(c * b, a)
  {
    DivideByRatio(c, a, b);
    TruncOfQuotient(c * b, a);
  }

  /** Which side `_fit` pins, for positive sizes whose ratios are not within
      the tolerance: `max` pins the width when the width ratio is the larger
      (`s.x * t.y > s.y * t.x`), `min` when it is the smaller; the other side
      becomes `floor(side * target / pinned side)`. */
  lemma FitProportional(s: Size, t: Size, m: Extreme, upscale: bool, downscale: bool)
    requires Positive(s) && Positive(t) && !FitGated(s, t, upscale, downscale)
    requires !ApproxEqual(WidthRatio(s, t), HeightRatio(s, t))
    ensures Fit(s, t, m, upscale, downscale)
            == if (m == Max) == (s.x * t.y > s.y * t.x) then Ok(Vector(t.x, (s.y * t.x) / s.x))
               else Ok(Vector((s.x * t.y) / s.y, t.y))
  {
    var wr := WidthRatio(s, t);
    var hr := HeightRatio(s, t);
    CrossCompare(s.x, t.x, s.y, t.y);
    CrossCompare(s.y, t.y, s.x, t.x);
    ApproxEqualSymmetric(wr, hr);
    ApproxEqualSymmetric(wr, wr);
    assert wr != hr;
    if (m == Max) == (s.x * t.y > s.y * t.x) {
      assert Pick(m, wr, hr) == wr;
    } else {
      assert Pick(m, wr, hr) == hr;
    }
  }

  /** `Size.fit_inside`: `_fit` with `max`. The result is the largest size
      of the same proportions that fits: the target itself when the aspect
      ratios agree within the tolerance, otherwise the side with the larger
      ratio is pinned and the other scaled down in proportion. */
  function FitInside(s: Size, t: Size, upscale: bool, downscale: bool): (r: Result<Size>)
    ensures FitGated(s, t, upscale, downscale) ==> r == Ok(s)
    ensures Positive(s) && Positive(t) && !FitGated(s, t, upscale, downscale) ==>
              r.Ok? && r.value.x <= t.x && r.value.y <= t.y && (r.value.x == t.x || r.value.y == t.y)
    ensures (Positive(s) && Positive(t) && !FitGated(s, t, upscale, downscale)
             && ApproxEqual(WidthRatio(s, t), HeightRatio(s, t))) ==> r == Ok(t)
    ensures (Positive(s) && Positive(t) && !FitGated(s, t, upscale, downscale)
             && !ApproxEqual(WidthRatio(s, t), HeightRatio(s, t))) ==>
              r == if s.x * t.y > s.y * t.x then Ok(Vector(t.x, (s.y * t.x) / s.x))
                   else Ok(Vector((s.x * t.y) / s.y, t.y))
  {
    var r := Fit(s, t, Max, upscale, downscale);
    if Positive(s) && Positive(t) && !FitGated(s, t, upscale, downscale) then
      FitBounds(s, t, Max, upscale, downscale);
      if !ApproxEqual(WidthRatio(s, t), HeightRatio(s, t)) then
        FitProportional(s, t, Max, upscale, downscale); r
      else r
    else r
  }

  /** `Size.fit_around`: `_fit` with `min`. The result is the smallest size
      of the same proportions that covers the target: the side with the
      smaller ratio is pinned and the other scaled up in proportion. */
  function FitAround(s: Size, t: Size, upscale: bool, downscale: bool): (r: Result<Size>)
    ensures FitGated(s, t, upscale, downscale) ==> r == Ok(s)
    ensures Positive(s) && Positive(t) && !FitGated(s, t, upscale, downscale) ==>
              r.Ok? && r.value.x >= t.x && r.value.y >= t.y && (r.value.x == t.x || r.value.y == t.y)
    ensures (Positive(s) && Positive(t) && !FitGated(s, t, upscale, downscale)
             && ApproxEqual(WidthRatio(s, t), HeightRatio(s, t))) ==> r == Ok(t)
    ensures (Positive(s) && Positive(t) && !FitGated(s, t, upscale, downscale)
             && !ApproxEqual(WidthRatio(s, t), HeightRatio(s, t))) ==>
              r == if s.x * t.y < s.y * t.x then Ok(Vector(t.x, (s.y * t.x) / s.x))
                   else Ok(Vector((s.x * t.y) / s.y, t.y))
  {
    var r := Fit(s, t, Min, upscale, downscale);
    if Positive(s) && Positive(t) && !FitGated(s, t, upscale, downscale) then
      FitBounds(s, t, Min, upscale, downscale);
      if !ApproxEqual(WidthRatio(s, t), HeightRatio(s, t)) then
        FitProportional(s, t, Min, upscale, downscale);
        assert s.x * t.y != s.y * t.x by {
          if s.x * t.y == s.y * t.x {
            EqualRatios(s.x, t.x, s.y, t.y);
            ApproxEqualSymmetric(WidthRatio(s, t), WidthRatio(s, t));
          }
        }
        r
      else r
    else r
  }

  /** Dividing by a positive real can be moved across a comparison. */
  lemma DivSwap(a: real, b: real, c: real)
    requires b > 0.0 && c > 0.0
    ensures a / b <= c <==> a / c <= b
    ensures a / b >= c <==> a / c >= b
  {
    var p := a / b;
    var q := a / c;
    assert p * b == a;
    assert q * c == a;
    if p <= c {
      assert a <= c * b;
      assert q * c <= b * c;
    }
    if q <= b {
      assert a <= b * c;
      assert p * b <= c * b;
    }
    if p >= c {
      assert a >= c * b;
      assert q * c >= b * c;
    }
    if q >= b {
      assert a >= b * c;
      assert p * b >= c * b;
    }
  }

  /** Outside the gates, with positive sizes, `_fit` succeeds, reaches the
      target in one dimension, and stays within it (`max`) or covers it
      (`min`) in both. */
  lemma FitBounds(s: Size, t: Size, m: Extreme, upscale: bool, downscale: bool)
    requires Positive(s) && Positive(t) && !FitGated(s, t, upscale, downscale)
    ensures Fit(s, t, m, upscale, downscale).Ok?
    ensures var r := Fit(s, t, m, upscale, downscale).value;
            (r.x == t.x || r.y == t.y)
            && (m == Max ==> r.x <= t.x && r.y <= t.y)
            && (m == Min ==> r.x >= t.x && r.y >= t.y)
  {
    var wr := WidthRatio(s, t);
    var hr := HeightRatio(s, t);
    assert wr > 0.0 && hr > 0.0;
    ApproxEqualSymmetric(wr, hr);
    ApproxEqualSymmetric(wr, wr);
    if ApproxEqual(wr, hr) {
      assert Fit(s, t, m, upscale, downscale) == Ok(t);
    } else if ApproxEqual(Pick(m, wr, hr), wr) {
      FitBoundsWidthPinned(s, t, m, upscale, downscale);
    } else {
      FitBoundsHeightPinned(s, t, m, upscale, downscale);
    }
  }

  /** `FitBounds` when the picked ratio is the width ratio. */
  lemma FitBoundsWidthPinned(s: Size, t: Size, m: Extreme, upscale: bool, downscale: bool)
    requires Positive(s) && Positive(t) && !FitGated(s, t, upscale, downscale)
    requires !ApproxEqual(WidthRatio(s, t), HeightRatio(s, t))
    requires ApproxEqual(Pick(m, WidthRatio(s, t), HeightRatio(s, t)), WidthRatio(s, t))
    ensures Fit(s, t, m, upscale, downscale).Ok?
    ensures var r := Fit(s, t, m, upscale, downscale).value;
            r.x == t.x
            && (m == Max ==> r.y <= t.y)
            && (m == Min ==> r.y >= t.y)
  {
    var wr := WidthRatio(s, t);
    var hr := HeightRatio(s, t);
    ApproxEqualSymmetric(wr, hr);
    // The picked ratio is the width ratio itself.
    assert Pick(m, wr, hr) == wr;
    assert wr > 0.0;
    assert Fit(s, t, m, upscale, downscale) == Ok(Vector(t.x, Trunc(s.y as real / wr)));
    ScaledAgainstTarget(s.y, wr, t.y);
  }

  /** `FitBounds` when the picked ratio is the height ratio. */
  lemma FitBoundsHeightPinned(s: Size, t: Size, m: Extreme, upscale: bool, downscale: bool)
    requires Positive(s) && Positive(t) && !FitGated(s, t, upscale, downscale)
    requires !ApproxEqual(WidthRatio(s, t), HeightRatio(s, t))
    requires !ApproxEqual(Pick(m, WidthRatio(s, t), HeightRatio(s, t)), WidthRatio(s, t))
    ensures Fit(s, t, m, upscale, downscale).Ok?
    ensures var r := Fit(s, t, m, upscale, downscale).value;
            r.y == t.y
            && (m == Max ==> r.x <= t.x)
            && (m == Min ==> r.x >= t.x)
  {
    var wr := WidthRatio(s, t);
    var hr := HeightRatio(s, t);
    ApproxEqualSymmetric(wr, wr);
    assert Pick(m, wr, hr) == hr;
    assert hr > 0.0;
    assert Fit(s, t, m, upscale, downscale) == Ok(Vector(Trunc(s.x as real / hr), t.y));
    ScaledAgainstTarget(s.x, hr, t.x);
  }

  /** The dimension `_fit` scales, `int(c / r)`, against the target's `d`:
      it stays within `d` when `r` is at least `c / d` and reaches `d` when
      `r` is at most `c / d`. */
  lemma ScaledAgainstTarget(c: int, r: real, d: int)
    requires c > 0 && r > 0.0 && d > 0
    ensures r >= c as real / d as real ==> Trunc(c as real / r) <= d
    ensures r <= c as real / d as real ==> Trunc(c as real / r) >= d
  {
    DivSwap(c as real, r, d as real);
    assert c as real / r > 0.0;
  }

  /** A size fitted to itself is itself. */
  lemma FitToItself(t: Size, m: Extreme, upscale: bool, downscale: bool)
    requires t.x != 0 && t.y != 0
    ensures Fit(t, t, m, upscale, downscale) == Ok(t)
  {
    SelfRatio(t.x);
    SelfRatio(t.y);
  }

  lemma SelfRatio(n: int)
    requires n != 0
    ensures n as real / n as real == 1.0
  {
    var r := n as real;
    assert r != 0.0;
    assert r / r == 1.0;
  }

  /** With a target no larger than 10^6 per axis, a whole number of pixels
      other than the target's own differs from it by more than the 10^-6
      tolerance, as a ratio. */
  lemma RatioAwayFromOne(q: int, n: int)
    requires 0 < n <= 1000000 && 0 <= q && q != n
    ensures !ApproxEqual(1.0, q as real / n as real)
    ensures !ApproxEqual(q as real / n as real, 1.0)
    ensures q < n ==> q as real / n as real < 1.0
    ensures q > n ==> q as real / n as real > 1.0
  {
    var d := q as real / n as real;
    assert d * n as real == q as real;
    var gap := if q < n then 1.0 - d else d - 1.0;
    assert gap * n as real >= 1.0 by {
      if q < n {
        assert (1.0 - d) * n as real == (n - q) as real;
      } else {
        assert (d - 1.0) * n as real == (q - n) as real;
      }
    }
    AtLeastMillionth(gap, n as real);
  }

  lemma AtLeastMillionth(g: real, n: real)
    requires 0.0 < n <= 1000000.0 && g * n >= 1.0
    ensures g >= 0.000001
  {
    assert g > 0.0;
    assert g * 1000000.0 >= g * n;
  }

  /** Refitting a size that already has the target's width and a height on
      the right side of the target's leaves it unchanged. */
  lemma RefitKeepsTargetWidth(q: int, t: Size, m: Extreme, upscale: bool, downscale: bool)
    requires Positive(t) && t.y <= 1000000 && 0 <= q && q != t.y
    requires m == Max ==> q <= t.y
    requires m == Min ==> q >= t.y
    ensures Fit(Vector(t.x, q), t, m, upscale, downscale) == Ok(Vector(t.x, q))
  {
    var r := Vector(t.x, q);
    SelfRatio(t.x);
    RatioAwayFromOne(q, t.y);
    assert WidthRatio(r, t) == 1.0;
    ApproxEqualSymmetric(1.0, 1.0);
    assert Pick(m, 1.0, HeightRatio(r, t)) == 1.0;
    assert q as real / 1.0 == q as real;
    TruncOfInt(q);
  }

  /** Likewise for a size that already has the target's height. */
  lemma RefitKeepsTargetHeight(p: int, t: Size, m: Extreme, upscale: bool, downscale: bool)
    requires Positive(t) && t.x <= 1000000 && 0 <= p && p != t.x
    requires m == Max ==> p <= t.x
    requires m == Min ==> p >= t.x
    ensures Fit(Vector(p, t.y), t, m, upscale, downscale) == Ok(Vector(p, t.y))
  {
    var r := Vector(p, t.y);
    SelfRatio(t.y);
    RatioAwayFromOne(p, t.x);
    assert HeightRatio(r, t) == 1.0;
    assert Pick(m, WidthRatio(r, t), 1.0) == 1.0;
    assert p as real / 1.0 == p as real;
    TruncOfInt(p);
  }

  /** Fitting a fitted size again changes nothing: the result already has
      the target's aspect in one dimension and the gates cannot fire on it.
      The bound of 10^6 pixels per target axis keeps the absolute tolerance
      of `approx_equal` finer than one pixel. */
  lemma {:induction false} FitIdempotent(s: Size, t: Size, m: Extreme, upscale: bool, downscale: bool)
    requires Positive(s) && Positive(t) && t.x <= 1000000 && t.y <= 1000000
    requires Fit(s, t, m, upscale, downscale).Ok?
    ensures Fit(Fit(s, t, m, upscale, downscale).value, t, m, upscale, downscale)
            == Fit(s, t, m, upscale, downscale)
  {
    var r := Fit(s, t, m, upscale, downscale).value;
    if FitGated(s, t, upscale, downscale) {
      assert r == s;
    } else {
      FitBounds(s, t, m, upscale, downscale);
      if r == t {
        FitToItself(t, m, upscale, downscale);
      } else if r.x == t.x {
        RefitKeepsTargetWidth(r.y, t, m, upscale, downscale);
      } else {
        RefitKeepsTargetHeight(r.x, t, m, upscale, downscale);
      }
    }
  }

  /** A size with exactly the target's aspect ratio fits to the target
      itself, and fitting is then idempotent. */
  lemma SameAspectFitsExactly(s: Size, t: Size, m: Extreme, upscale: bool, downscale: bool)
    requires Positive(s) && Positive(t) && !FitGated(s, t, upscale, downscale)
    requires s.x * t.y == s.y * t.x
    ensures Fit(s, t, m, upscale, downscale) == Ok(t)
    ensures Fit(t, t, m, upscale, downscale) == Ok(t)
  {
    var wr := WidthRatio(s, t);
    var hr := HeightRatio(s, t);
    EqualRatios(s.x, t.x, s.y, t.y);
    assert wr == hr;
    ApproxEqualSymmetric(wr, hr);
    FitToItself(t, m, upscale, downscale);
  }

  /** Cross-multiplied equal fractions are equal. */
  lemma EqualRatios(a: int, b: int, c: int, d: int)
    requires b > 0 && d > 0 && a * d == c * b
    ensures a as real / b as real == c as real / d as real
  {
    var p := a as real / b as real;
    var q := c as real / d as real;
    var bd := b as real * d as real;
    assert p * b as real == a as real;
    assert q * d as real == c as real;
    assert p * bd == (a * d) as real;
    assert q * bd == (c * b) as real;
    assert bd > 0.0;
    assert (p - q) * bd == 0.0;
  }

  /** `int(c * math.sqrt(area / current))` for a positive current area: the
      floor of the square root of `c * c * area / current`, with the sign of
      `c`. */
  function ScaledTrunc(c: int, area: nat, current: nat): (n: int)
    requires current > 0
    ensures c >= 0 ==> n >= 0 && IsFloorSqrt(n, c * c * area, current)
    ensures c < 0 ==> n <= 0 && IsFloorSqrt(-n, c * c * area, current)
  {
    var sq: nat := (c * c) * area;
    var m: int := FloorSqrt(sq, current);
    if c >= 0 then m else -m
  }

  /** The sizes `fit_area` tries, in order: the truncated scaled size, then
      one row taller, then one column wider. */
  function Candidates(s: Size, area: nat): (cs: seq<Size>)
    requires Area(s) > 0
    ensures |cs| == 3
    ensures cs[1] == Vector(cs[0].x, cs[0].y + 1) && cs[2] == Vector(cs[0].x + 1, cs[0].y)
    ensures s.x > 0 ==> cs[0].x >= 0 && IsFloorSqrt(cs[0].x, s.x * s.x * area, Area(s))
    ensures s.y > 0 ==> cs[0].y >= 0 && IsFloorSqrt(cs[0].y, s.y * s.y * area, Area(s))
    ensures s.x < 0 ==> cs[0].x <= 0 && IsFloorSqrt(-cs[0].x, s.x * s.x * area, Area(s))
    ensures s.y < 0 ==> cs[0].y <= 0 && IsFloorSqrt(-cs[0].y, s.y * s.y * area, Area(s))
  {
    var aw := ScaledTrunc(s.x, area, Area(s));
    var ah := ScaledTrunc(s.y, area, Area(s));
    [Vector(aw, ah), Vector(aw, ah + 1), Vector(aw + 1, ah)]
  }

  /** A candidate the search may keep: positive area within the limit. */
  predicate Admissible(c: Size, limit: int)
  {
    0 < Area(c) <= limit
  }

  /** `cands[k]` is admissible, above `floor`, and strictly larger than every
      admissible candidate before it. */
  ghost predicate FirstAbove(cands: seq<Size>, limit: int, k: int, floor: int)
    requires 0 <= k < |cands|
  {
    && Admissible(cands[k], limit)
    && floor < Area(cands[k])
    && forall j :: 0 <= j < k && Admissible(cands[j], limit) ==> Area(cands[j]) < Area(cands[k])
  }

  /** `c` is the admissible candidate of largest area, the first one when
      several tie. */
  ghost predicate IsFirstBest(c: Size, cands: seq<Size>, limit: int)
  {
    && (exists k :: 0 <= k < |cands| && cands[k] == c && FirstAbove(cands, limit, k, 0))
    && forall i :: 0 <= i < |cands| && Admissible(cands[i], limit) ==> Area(cands[i]) <= Area(c)
  }

  /** The search state: best area so far and the size that gave it. */
  datatype Choice = Choice(area: int, size: Size)

  /** The search loop of `fit_area`: a candidate replaces the best so far
      when `best_area < temp_area <= area`. */
  function SelectBest(cands: seq<Size>, limit: int, best: Choice): (r: Choice)
    requires 0 <= best.area
    ensures best.area <= r.area
    ensures r.area == best.area ==> r == best
    ensures forall i :: 0 <= i < |cands| && Admissible(cands[i], limit) ==> Area(cands[i]) <= r.area
    ensures r.area != best.area ==>
              exists k :: 0 <= k < |cands| && FirstAbove(cands, limit, k, best.area)
                          && r == Choice(Area(cands[k]), cands[k])
    decreases |cands|
  {
    if |cands| == 0 then best
    else
      var c := cands[0];
      var a := Area(c);
      var next := if best.area < a <= limit then Choice(a, c) else best;
      var r := SelectBest(cands[1..], limit, next);
      SelectBestStep(cands, limit, best, next, r);
      r
  }

  lemma SelectBestStep(cands: seq<Size>, limit: int, best: Choice, next: Choice, r: Choice)
    requires 0 <= best.area && |cands| > 0
    requires next == if best.area < Area(cands[0]) <= limit then Choice(Area(cands[0]), cands[0]) else best
    requires next.area <= r.area
    requires r.area == next.area ==> r == next
    requires forall i :: 0 <= i < |cands[1..]| && Admissible(cands[1..][i], limit) ==> Area(cands[1..][i]) <= r.area
    requires r.area != next.area ==>
               exists k :: 0 <= k < |cands[1..]| && FirstAbove(cands[1..], limit, k, next.area)
                           && r == Choice(Area(cands[1..][k]), cands[1..][k])
    ensures best.area <= r.area
    ensures r.area == best.area ==> r == best
    ensures forall i :: 0 <= i < |cands| && Admissible(cands[i], limit) ==> Area(cands[i]) <= r.area
    ensures r.area != best.area ==>
              exists k :: 0 <= k < |cands| && FirstAbove(cands, limit, k, best.area)
                          && r == Choice(Area(cands[k]), cands[k])
  {
    var rest := cands[1..];
    forall i | 0 <= i < |cands| && Admissible(cands[i], limit)
      ensures Area(cands[i]) <= r.area
    {
      if i > 0 {
        assert cands[i] == rest[i - 1];
      }
    }
    if r.area != best.area {
      if r.area == next.area {
        assert next != best;
        assert FirstAbove(cands, limit, 0, best.area);
      } else {
        var k :| 0 <= k < |rest| && FirstAbove(rest, limit, k, next.area)
                 && r == Choice(Area(rest[k]), rest[k]);
        assert cands[k + 1] == rest[k];
        forall j | 0 <= j < k + 1 && Admissible(cands[j], limit)
          ensures Area(cands[j]) < Area(cands[k + 1])
        {
          if j > 0 {
            assert cands[j] == rest[j - 1];
          }
        }
        assert FirstAbove(cands, limit, k + 1, best.area);
      }
    }
  }

  /** The search runs: the area is positive and no gate returned early. */
  predicate AreaSearched(s: Size, area: int, upscale: bool, downscale: bool)
  {
    area > 0 && (upscale || Area(s) >= area) && (downscale || Area(s) <= area)
  }

  /** `Size.fit_area(area, upscale, downscale)`. */
  function FitArea(s: Size, area: int, upscale: bool, downscale: bool): (r: Result<Size>)
    ensures area <= 0 ==> r == Err(AreaNotPositive)
    ensures area > 0 && !upscale && Area(s) < area ==> r == Ok(s)
    ensures area > 0 && !downscale && Area(s) > area ==> r == Ok(s)
    ensures AreaSearched(s, area, upscale, downscale) && Area(s) == 0 ==> r == Err(DivisionByZero)
    ensures AreaSearched(s, area, upscale, downscale) && Area(s) < 0 ==> r == Err(MathDomain)
    ensures AreaSearched(s, area, upscale, downscale) && Area(s) > 0 ==>
              && (r.Ok? <==> exists i :: 0 <= i < 3 && Admissible(Candidates(s, area)[i], area))
              && (r.Ok? ==> IsFirstBest(r.value, Candidates(s, area), area))
              && (r.Err? ==> r.error == AreaUnfittable)
  {
    if area <= 0 then Err(AreaNotPositive)
    else if !upscale && Area(s) < area then Ok(s)
    else if !downscale && Area(s) > area then Ok(s)
    else if Area(s) == 0 then Err(DivisionByZero)
    else if Area(s) < 0 then Err(MathDomain)
    else
      var cands := Candidates(s, area);
      var best := SelectBest(cands, area, Choice(0, Empty));
      if best.area == 0 then Err(AreaUnfittable) else Ok(best.size)
  }

  lemma SquareLe(x: nat, y: nat)
    requires x * x <= y * y
    ensures x <= y
  {
    if x > y {
      SquareTimesStrict(y, x, 1);
    }
  }

  /** For a positive size, the truncated candidate never exceeds the area:
      both truncations round down, so their product is at most
      `w * h * area / (w * h)`. This is the source's promise that the new
      size is no larger than the requested area. */
  lemma TruncatedCandidateFits(s: Size, area: nat)
    requires Positive(s) && area > 0
    ensures Area(s) > 0
    ensures Candidates(s, area)[0].x >= 0 && Candidates(s, area)[0].y >= 0
    ensures Area(Candidates(s, area)[0]) <= area
  {
    var w, h := s.x, s.y;
    var A := w * h;
    assert A > 0;
    var aw := ScaledTrunc(w, area, A);
    var ah := ScaledTrunc(h, area, A);
    FloorProductBound(aw, ah, w, h, area);
  }

  /** If `aw` and `ah` are at most `w` and `h` scaled by the square root of
      `area / (w * h)`, then `aw * ah` is at most `area`. */
  lemma FloorProductBound(aw: nat, ah: nat, w: nat, h: nat, area: nat)
    requires w > 0 && h > 0
    requires aw * aw * (w * h) <= w * w * area
    requires ah * ah * (w * h) <= h * h * area
    ensures aw * ah <= area
  {
    var A: nat := w * h;
    MulMono(aw * aw * A, w * w * area, ah * ah * A, h * h * area);
    SquareRegroup(aw, ah, A);
    SquareRegroup2(w, h, area);
    var P: nat := aw * ah * A;
    var Q: nat := area * A;
    SquareLe(P, Q);
    CancelPositive(aw * ah, area, A);
  }

  lemma CancelPositive(x: int, y: int, a: int)
    requires a > 0 && x * a <= y * a
    ensures x <= y
  {
  }

  lemma SquareRegroup(a: int, b: int, c: int)
    ensures (a * a * c) * (b * b * c) == (a * b * c) * (a * b * c)
  {
  }

  lemma SquareRegroup2(w: int, h: int, area: int)
    ensures (w * w * area) * (h * h * area) == (area * (w * h)) * (area * (w * h))
  {
  }

  /** For a positive size whose truncated candidate has no zero dimension,
      the search succeeds, and what it finds is at least as large as that
      candidate and no larger than the area. */
  lemma FitAreaSucceeds(s: Size, area: nat, upscale: bool, downscale: bool)
    requires Positive(s) && AreaSearched(s, area, upscale, downscale)
    requires Area(s) > 0 && Candidates(s, area)[0].x > 0 && Candidates(s, area)[0].y > 0
    ensures FitArea(s, area, upscale, downscale).Ok?
    ensures Area(Candidates(s, area)[0]) <= Area(FitArea(s, area, upscale, downscale).value) <= area
  {
    TruncatedCandidateFits(s, area);
    var c := Candidates(s, area)[0];
    assert c.x * c.y > 0;
    assert Admissible(c, area);
    var r := FitArea(s, area, upscale, downscale).value;
    assert IsFirstBest(r, Candidates(s, area), area);
  }

  /** Unless the downscale gate returned a larger size unchanged, what
      `fit_area` returns never exceeds the requested area. */
  lemma FitAreaNeverExceeds(s: Size, area: int, upscale: bool, downscale: bool)
    requires FitArea(s, area, upscale, downscale).Ok?
    requires downscale || Area(s) <= area
    ensures Area(FitArea(s, area, upscale, downscale).value) <= area
  {
    if AreaSearched(s, area, upscale, downscale) && Area(s) > 0 {
      var r := FitArea(s, area, upscale, downscale).value;
      assert IsFirstBest(r, Candidates(s, area), area);
    }
  }
}
