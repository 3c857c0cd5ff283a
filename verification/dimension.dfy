/** The older value classes of `sanpera/dimension.py`: a strictly positive
`Size`, a `Point` (alias `Offset`), and a `Rectangle` built from two points.

Sizes are validated on construction, so every `Size` reached through the
public constructors is a `PositiveSize`; a non-positive component is the
`TypeError` the constructor raises.
 */
module Dimension {
  import opened Numeric
  import opened Errors

  datatype Size = Size(width: int, height: int)

  /** What the `Size` constructor lets through. */
  type PositiveSize = s: Size | s.width > 0 && s.height > 0 witness Size(1, 1)

  /** `Size(width, height)`: the width is checked before the height. */
  function NewSize(width: int, height: int): (r: Result<PositiveSize>)
    ensures r.Ok? <==> width > 0 && height > 0
    ensures width <= 0 ==> r == Err(NonPositiveWidth)
    ensures width > 0 && height <= 0 ==> r == Err(NonPositiveHeight)
    ensures r.Ok? ==> r.value.width == width && r.value.height == height
  {
    if width <= 0 then Err(NonPositiveWidth)
    else if height <= 0 then Err(NonPositiveHeight)
    else Ok(Size(width, height))
  }

  /** Rebuilding a valid size from its fields gives it back. */
  lemma NewSizeRoundTrip(s: PositiveSize)
    ensures NewSize(s.width, s.height) == Ok(s)
  {
  }

  /** The argument `coerce` accepts: an existing `Size`, or a pair. */
  datatype SizeArg = Given(size: PositiveSize) | Pair(width: int, height: int)

  /** `Size.coerce`: an existing size is returned as is; a pair goes through
      the validating constructor. */
  function Coerce(value: SizeArg): (r: Result<PositiveSize>)
    ensures value.Given? ==> r == Ok(value.size)
    ensures value.Pair? ==> (r.Ok? <==> value.width > 0 && value.height > 0)
    ensures value.Pair? && r.Ok? ==> r.value == Size(value.width, value.height)
  {
    match value
    case Given(s) => Ok(s)
    case Pair(w, h) => NewSize(w, h)
  }

  /** Coercing a coerced size again changes nothing. */
  lemma CoerceIdempotent(value: SizeArg)
    requires Coerce(value).Ok?
    ensures Coerce(Given(Coerce(value).value)) == Coerce(value)
  {
  }

  /** `Size.__nonzero__`: `width and height`. */
  predicate SizeTruthy(s: Size)
  {
    s.width != 0 && s.height != 0
  }

  /** A size that passed its constructor is always truthy. */
  lemma PositiveSizeTruthy(s: PositiveSize)
    ensures SizeTruthy(s)
  {
  }

  /** `Size.__mul__` with an integer factor: the product goes back through
      the validating constructor, so only a positive factor succeeds. */
  function Scale(s: PositiveSize, factor: int): (r: Result<PositiveSize>)
    ensures r.Ok? <==> factor > 0
    ensures factor <= 0 ==> r == Err(NonPositiveWidth)
    ensures r.Ok? ==> r.value.width == s.width * factor && r.value.height == s.height * factor
    ensures r.Ok? ==> r.value.width * s.height == r.value.height * s.width
  {
    if factor > 0 then
      assert s.width * factor > 0 && s.height * factor > 0;
      NewSize(s.width * factor, s.height * factor)
    else
      assert s.width * factor <= 0 by { MulNonPositive(s.width, factor); }
      NewSize(s.width * factor, s.height * factor)
  }

  lemma MulNonPositive(a: int, b: int)
    requires a > 0 && b <= 0
    ensures a * b <= 0
  {
  }

  /** Scaling twice is scaling once by the product of the factors, and a
      factor of 1 changes nothing. */
  lemma ScaleComposes(s: PositiveSize, a: int, b: int)
    requires a > 0 && b > 0
    ensures Scale(s, 1) == Ok(s)
    ensures Scale(s, a).Ok? && Scale(Scale(s, a).value, b) == Scale(s, a * b)
  {
    assert s.width * a * b == s.width * (a * b);
    assert s.height * a * b == s.height * (a * b);
  }

  /** The early returns of `_fit`: no upscaling of a size smaller in both
      dimensions, no downscaling of one larger in both. */
  predicate FitGated(s: Size, o: Size, upscale: bool, downscale: bool)
  {
    (!upscale && s.width < o.width && s.height < o.height)
    || (!downscale && s.width > o.width && s.height > o.height)
  }

  /** `Size._fit(other, minmax, upscale, downscale)`: divide both dimensions
      by the picked ratio of self to target, truncate, and build a new
      (validated) `Size`. */
  function Fit(s: PositiveSize, other: SizeArg, m: Extreme, upscale: bool, downscale: bool)
    : (r: Result<PositiveSize>)
    ensures Coerce(other).Err? ==> r == Err(Coerce(other).error)
    ensures Coerce(other).Ok? && FitGated(s, Coerce(other).value, upscale, downscale) ==> r == Ok(s)
  {
    match Coerce(other)
    case Err(e) => Err(e)
    case Ok(o) =>
      if !upscale && s.width < o.width && s.height < o.height then Ok(s)
      else if !downscale && s.width > o.width && s.height > o.height then Ok(s)
      else
        var ratio := Pick(m, s.width as real / o.width as real, s.height as real / o.height as real);
        NewSize(Trunc(s.width as real / ratio), Trunc(s.height as real / ratio))
  }

  /** `Size.fit_inside`: `_fit` with `max`. */
  function FitInside(s: PositiveSize, other: SizeArg, upscale: bool, downscale: bool): (r: Result<PositiveSize>)
    ensures Coerce(other).Err? ==> r == Err(Coerce(other).error)
    ensures Coerce(other).Ok? && FitGated(s, Coerce(other).value, upscale, downscale) ==> r == Ok(s)
  {
    Fit(s, other, Max, upscale, downscale)
  }

  /** `Size.fit_around`: `_fit` with `min`. */
  function FitAround(s: PositiveSize, other: SizeArg, upscale: bool, downscale: bool): (r: Result<PositiveSize>)
    ensures Coerce(other).Err? ==> r == Err(Coerce(other).error)
    ensures Coerce(other).Ok? && FitGated(s, Coerce(other).value, upscale, downscale) ==> r == Ok(s)
  {
    Fit(s, other, Min, upscale, downscale)
  }

  /** Dividing by the ratio `a / b` gives back `b`. */
  lemma DivByRatio(a: real, b: real)
    requires a > 0.0 && b > 0.0
    ensures a / (a / b) == b
  {
    var q := a / b;
    assert q * b == a;
    assert a / q == b;
  }

  /** Dividing by a ratio is multiplying by its inverse. */
  lemma DivByRatioOther(c: real, a: real, b: real)
    requires a > 0.0 && b > 0.0
    ensures c / (a / b) == c * b / a
  {
    var q := a / b;
    assert q * b == a;
  }

  /** For `c, d` positive, `c / d < 1` exactly when `c < d`. */
  lemma BelowOne(c: real, d: real)
    requires d > 0.0
    ensures c / d < 1.0 <==> c < d
  {
    var q := c / d;
    assert q * d == c;
    if q < 1.0 {
      assert q * d < 1.0 * d;
    }
    if c < d {
      assert q * d < 1.0 * d;
    }
  }

  /** The pixel dimension that is not pinned to the target: when `ratio`
      is `a / b`, the other side `c` becomes `c * b / a`, which truncates to
      zero exactly when `c * b < a`. */
  lemma ScaledSide(c: int, a: int, b: int)
    requires c > 0 && a > 0 && b > 0
    ensures Trunc(c as real / (a as real / b as real)) == 0 <==> c * b < a
    ensures Trunc(c as real / (a as real / b as real)) >= 0
  {
    DivByRatioOther(c as real, a as real, b as real);
    BelowOne((c * b) as real, a as real);
    assert (c * b) as real == c as real * b as real;
  }

  /** Dividing both sides by the ratio `a / oa` pins side `a` to `oa` and
      scales side `b`: the scaled side truncates to zero exactly when
      `b * oa < a`, stays within `ob` when `a / oa` is the larger ratio and
      covers `ob` when it is the smaller. */
  lemma Pinned(a: int, oa: int, b: int, ob: int)
    requires a > 0 && oa > 0 && b > 0 && ob > 0
    ensures Trunc(a as real / (a as real / oa as real)) == oa
    ensures Trunc(b as real / (a as real / oa as real)) == 0 <==> b * oa < a
    ensures Trunc(b as real / (a as real / oa as real)) >= 0
    ensures a * ob >= b * oa ==> Trunc(b as real / (a as real / oa as real)) <= ob
    ensures a * ob <= b * oa ==> Trunc(b as real / (a as real / oa as real)) >= ob
  {
    var ra := a as real / oa as real;
    DivByRatio(a as real, oa as real);
    TruncOfInt(oa);
    ScaledSide(b, a, oa);
    TruncOfInt(ob);
    CrossCompare(a, oa, b, ob);
    CrossCompare(b, ob, a, oa);
    DivSwapPositive(b as real, ra, ob as real);
    assert b as real / ob as real > 0.0;
    if a * ob >= b * oa {
      TruncMono(b as real / ra, ob as real);
    }
    if a * ob <= b * oa {
      assert b as real / ra >= ob as real by {
        DivSwapPositive(b as real, ra, ob as real);
        DivByRatioOther(b as real, a as real, oa as real);
        DivByRatioOther(1.0, b as real, ob as real);
      }
      TruncMono(ob as real, b as real / ra);
    }
  }

  /** Outside the gates, `_fit` pins one dimension to the target's and
      scales the other; it stays within the target with `max` and covers it
      with `min`. It fails exactly when the scaled dimension truncates to
      zero, which can happen with `max` only. */
  lemma {:induction false} FitShape(s: PositiveSize, o: PositiveSize, m: Extreme, upscale: bool, downscale: bool)
    requires !FitGated(s, o, upscale, downscale)
    ensures var r := Fit(s, Given(o), m, upscale, downscale);
            && (r.Ok? <==> (m == Max ==> s.height * o.width >= s.width && s.width * o.height >= s.height))
            && (r.Err? ==> r == Err(NonPositiveWidth) || r == Err(NonPositiveHeight))
            && (r.Ok? ==> r.value.width == o.width || r.value.height == o.height)
            && (r.Ok? && m == Max ==> r.value.width <= o.width && r.value.height <= o.height)
            && (r.Ok? && m == Min ==> r.value.width >= o.width && r.value.height >= o.height)
  {
    var wr := s.width as real / o.width as real;
    var hr := s.height as real / o.height as real;
    var ratio := Pick(m, wr, hr);
    assert Fit(s, Given(o), m, upscale, downscale)
        == NewSize(Trunc(s.width as real / ratio), Trunc(s.height as real / ratio));
    CrossCompare(s.width, o.width, s.height, o.height);
    CrossCompare(s.height, o.height, s.width, o.width);
    if ratio == wr {
      Pinned(s.width, o.width, s.height, o.height);
      if m == Max {
        MulGrow(s.height, o.height, s.width, o.width);
      }
    } else {
      Pinned(s.height, o.height, s.width, o.width);
      if m == Max {
        MulGrow(s.width, o.width, s.height, o.height);
      }
    }
  }

  /** The size `_fit` builds outside the gates: the dimension whose ratio
      `minmax` picks is pinned to the target's and the other becomes
      `floor(side * target / pinned side)`; when the aspect ratios agree the
      result is the target itself. */
  lemma {:induction false} FitExact(s: PositiveSize, o: PositiveSize, m: Extreme, upscale: bool, downscale: bool)
    requires !FitGated(s, o, upscale, downscale)
    ensures s.width * o.height == s.height * o.width ==> Fit(s, Given(o), m, upscale, downscale) == Ok(o)
    ensures s.width * o.height != s.height * o.width && (m == Max) == (s.width * o.height > s.height * o.width)
            ==> Fit(s, Given(o), m, upscale, downscale) == NewSize(o.width, (s.height * o.width) / s.width)
    ensures s.width * o.height != s.height * o.width && (m == Max) != (s.width * o.height > s.height * o.width)
            ==> Fit(s, Given(o), m, upscale, downscale) == NewSize((s.width * o.height) / s.height, o.height)
  {
    var wr := s.width as real / o.width as real;
    var hr := s.height as real / o.height as real;
    var ratio := Pick(m, wr, hr);
    assert Fit(s, Given(o), m, upscale, downscale)
        == NewSize(Trunc(s.width as real / ratio), Trunc(s.height as real / ratio));
    CrossCompare(s.width, o.width, s.height, o.height);
    CrossCompare(s.height, o.height, s.width, o.width);
    if s.width * o.height == s.height * o.width {
      assert ratio == wr;
      PinnedExact(s.width, o.width, s.height, o.height);
    } else if (m == Max) == (s.width * o.height > s.height * o.width) {
      assert ratio == wr;
      PinnedExact(s.width, o.width, s.height, o.height);
    } else {
      assert ratio == hr;
      PinnedExact(s.height, o.height, s.width, o.width);
    }
  }

  /** Dividing by `a / oa` sends `a` to `oa` and `b` to `floor(b * oa / a)`,
      which is `ob` itself when the two ratios agree. */
  lemma PinnedExact(a: int, oa: int, b: int, ob: int)
    requires a > 0 && oa > 0 && b > 0 && ob > 0
    ensures Trunc(a as real / (a as real / oa as real)) == oa
    ensures Trunc(b as real / (a as real / oa as real)) == (b * oa) / a
    ensures a * ob == b * oa ==> (b * oa) / a == ob
  {
    DivByRatio(a as real, oa as real);
    TruncOfInt(oa);
    DivideByRatio(b, a, oa);
    TruncOfQuotient(b * oa, a);
    MulPositive(b, oa);
    if a * ob == b * oa {
      ExactQuotient(ob, a);
    }
  }

  lemma MulPositive(a: int, b: int)
    requires a > 0 && b > 0
    ensures a * b > 0
  {
  }

  lemma ExactQuotient(q: int, d: int)
    requires d > 0
    ensures (d * q) / d == q && (q * d) / d == q
  {
    var k, r := (d * q) / d, (d * q) % d;
    assert d * q == d * k + r && 0 <= r < d;
    assert d * (q - k) == r;
    MultipleOutside(d, q - k);
    assert q * d == d * q;
  }

  /** A non-zero multiple of `d` is at least `d` away from zero. */
  lemma MultipleOutside(d: int, n: int)
    requires d > 0
    ensures n == 0 || d * n >= d || d * n <= -d
  {
    if n >= 1 {
      assert d * n == d * (n - 1) + d;
      assert d * (n - 1) >= 0;
    } else if n <= -1 {
      assert d * n == d * (n + 1) - d;
      assert d * (n + 1) <= 0;
    }
  }

  /** When `c / r >= d` then `c / d >= r`, and the other way round, for
      positive `r, d`. */
  lemma DivSwapPositive(c: real, r: real, d: real)
    requires r > 0.0 && d > 0.0
    ensures c / r <= d <==> c / d <= r
  {
    var p := c / r;
    var q := c / d;
    assert p * r == c;
    assert q * d == c;
    if p <= d {
      assert q * d <= r * d;
    }
    if q <= r {
      assert p * r <= d * r;
    }
  }

  /** Truncation of non-negative reals is monotone. */
  lemma TruncMono(a: real, b: real)
    requires 0.0 <= a <= b
    ensures Trunc(a) <= Trunc(b)
  {
  }

  /** From `c * b >= a * d` with `d >= 1` follows `c * b >= a`. */
  lemma MulGrow(a: int, b: int, c: int, d: int)
    requires a > 0 && d >= 1 && c * b >= a * d
    ensures c * b >= a
  {
    assert a * d >= a * 1;
  }

  /** `Point` (also `Offset`): a point of the unbounded integer plane. */
  datatype Point = Point(x: int, y: int)
  {
    /** `point + n` for an integer `n`: both coordinates move by `n`. */
    function AddInt(n: int): (r: Point)
      ensures r == Add(Point(n, n))
      ensures r.Add(Point(-n, -n)) == this
    {
      Point(x + n, y + n)
    }

    /** `point + offset`. */
    function Add(o: Point): (r: Point)
      ensures r.x - o.x == x && r.y - o.y == y
      ensures o == Point(0, 0) ==> r == this
    {
      Point(x + o.x, y + o.y)
    }

    /** `point * n` for an integer `n`. */
    function MulInt(n: int): (r: Point)
      ensures n == 0 ==> r == Zero
      ensures n == 1 ==> r == this
      ensures n == -1 ==> Add(r) == Zero
      ensures n == 2 ==> r == Add(this)
    {
      Point(x * n, y * n)
    }
  }

  /** `origin` and `zero`. */
  const Zero := Point(0, 0)

  /** Offsets form a commutative group under `+` with `zero` as identity;
      adding an integer is adding the diagonal offset; multiplication
      distributes over addition. */
  lemma PointLaws(p: Point, q: Point, t: Point, n: int, k: int)
    ensures p.Add(q) == q.Add(p)
    ensures p.Add(q).Add(t) == p.Add(q.Add(t))
    ensures p.Add(Zero) == p
    ensures p.AddInt(n) == p.Add(Point(n, n))
    ensures p.AddInt(n).AddInt(k) == p.AddInt(n + k)
    ensures p.Add(q).MulInt(k) == p.MulInt(k).Add(q.MulInt(k))
    ensures p.MulInt(n).MulInt(k) == p.MulInt(n * k)
  {
    assert (p.x + q.x) * k == p.x * k + q.x * k;
    assert (p.y + q.y) * k == p.y * k + q.y * k;
    assert p.x * n * k == p.x * (n * k);
    assert p.y * n * k == p.y * (n * k);
  }

  /** The `Rectangle` namedtuple's four fields. */
  datatype Rect = Rect(x1: int, y1: int, x2: int, y2: int)
  {
    /** `Rectangle.size`: goes through the validating `Size` constructor,
        so a rectangle with no width or height has no size. */
    function Size(): (r: Result<PositiveSize>)
      ensures r.Ok? <==> x2 > x1 && y2 > y1
      ensures r.Ok? ==> x1 + r.value.width == x2 && y1 + r.value.height == y2
    {
      NewSize(x2 - x1, y2 - y1)
    }

    /** `Rectangle.position`. */
    function Position(): Point
    {
      Point(x1, y1)
    }

    /** `Rectangle.__nonzero__`. */
    predicate IsTruthy()
    {
      x1 != x2 && y1 != y2
    }

    /** `rect in rectangle`. */
    predicate ContainsRect(o: Rect)
    {
      x1 <= o.x1 && y1 <= o.y1 && x2 >= o.x2 && y2 >= o.y2
    }

    /** `point in rectangle`: edges included. */
    predicate ContainsPoint(p: Point)
    {
      x1 <= p.x <= x2 && y1 <= p.y <= y2
    }
  }

  /** Corners in order: what the two-point constructor intends. */
  predicate Ordered(r: Rect)
  {
    r.x1 <= r.x2 && r.y1 <= r.y2
  }

  /** `Rectangle(p1, p2)` as written: the namedtuple's generated constructor
      takes the four fields, so calling it with two points raises before
      `__init__` runs. */
  function FromPointsAsWritten(p1: Point, p2: Point): (r: Result<Rect>)
    ensures r.Err? && r.error == WrongArgumentCount
  {
    Err(WrongArgumentCount)
  }

  /** `Rectangle(p1, p2)` as intended by its `__init__`: the smallest
      rectangle with the two points as opposite corners. */
  function FromPoints(p1: Point, p2: Point): (r: Rect)
    ensures Ordered(r)
    ensures r.ContainsPoint(p1) && r.ContainsPoint(p2)
    ensures r.x1 == p1.x || r.x1 == p2.x
    ensures r.x2 == p1.x || r.x2 == p2.x
    ensures r.y1 == p1.y || r.y1 == p2.y
    ensures r.y2 == p1.y || r.y2 == p2.y
  {
    Rect(MinInt(p1.x, p2.x), MinInt(p1.y, p2.y), MaxInt(p1.x, p2.x), MaxInt(p1.y, p2.y))
  }

  /** The corrected constructor is the least rectangle holding both points,
      does not depend on their order, and gives an ordered rectangle back
      from its own corners. */
  lemma FromPointsLeast(p1: Point, p2: Point, box: Rect)
    ensures box.ContainsPoint(p1) && box.ContainsPoint(p2) <==> box.ContainsRect(FromPoints(p1, p2))
    ensures FromPoints(p1, p2) == FromPoints(p2, p1)
    ensures Ordered(box) ==> FromPoints(Point(box.x1, box.y1), Point(box.x2, box.y2)) == box
  {
  }

  /** The two-point constructor can never be used. */
  lemma FromPointsAsWrittenFails(p1: Point, p2: Point)
    ensures FromPointsAsWritten(p1, p2).Err?
    ensures FromPoints(p1, p2).ContainsPoint(p1)
  {
  }

  /** For an ordered rectangle, truthiness is having a size, and
      containment is containing both corners. */
  lemma {:induction false} RectTruthyIffSized(r: Rect, o: Rect)
    requires Ordered(r) && Ordered(o)
    ensures r.IsTruthy() <==> r.Size().Ok?
    ensures r.ContainsRect(o) <==> r.ContainsPoint(Point(o.x1, o.y1)) && r.ContainsPoint(Point(o.x2, o.y2))
    ensures r.ContainsRect(o) && o.ContainsRect(r) ==> r == o
  {
  }
}
