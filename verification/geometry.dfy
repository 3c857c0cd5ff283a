/** Integer value types of `sanpera/geometry.py`: `Vector`, its `Size`
specialisation, and `Rectangle`.

A `Size` is a `Vector` read as width and height; in the source it is a
subclass that inherits the arithmetic and changes truthiness, so here it is
the same datatype with its own functions. The proportional-fit algorithms of
`Size` live in the `Fitting` module.
 */
module Geometry {
  import opened Numeric
  import opened Errors

  /** A displacement, or a point, on a plane whose axes grow rightwards and
      downwards. */
  datatype Vector = Vector(x: int, y: int)
  {
    /** `__nonzero__`: every vector is truthy except the zero vector. */
    predicate IsTruthy()
    {
      x != 0 || y != 0
    }

    /** `v + n` for an integer `n` (also `n + v`, through `__radd__`). */
    function PlusInt(n: int): (r: Vector)
      ensures r == PlusVector(Vector(n, n))
      ensures n == 0 ==> r == this
    {
      Vector(x + n, y + n)
    }

    /** `-v`. */
    function Neg(): (r: Vector)
      ensures PlusVector(r) == Origin
      ensures r.IsTruthy() <==> IsTruthy()
    {
      Vector(-x, -y)
    }

    /** `v - n` for an integer `n`, computed as `v + -n`. */
    function MinusInt(n: int): (r: Vector)
      ensures r.PlusInt(n) == this
      ensures r == PlusVector(Vector(n, n).Neg())
    {
      PlusInt(-n)
    }

    /** `v * n` for an integer `n`. */
    function TimesInt(n: int): (r: Vector)
      ensures n == 0 ==> r == Origin
      ensures n == 1 ==> r == this
      ensures n == -1 ==> r == Neg()
      ensures n == 2 ==> r == PlusVector(this)
    {
      ScaleSmall(x, n);
      ScaleSmall(y, n);
      Vector(x * n, y * n)
    }

    /** `v * f` for a float `f`: each component becomes `int(c * f + 0.5)`. */
    function TimesReal(f: real): (r: Vector)
      ensures x as real * f >= -0.5 ==> r.x as real - 0.5 <= x as real * f < r.x as real + 0.5
      ensures y as real * f >= -0.5 ==> r.y as real - 0.5 <= y as real * f < r.y as real + 0.5
    {
      Vector(HalfUpTrunc(x as real * f), HalfUpTrunc(y as real * f))
    }

    /** `v + w` for a vector `w`, as the code is written: the branch adds the
        components of the unbound name `two`, so it always raises `NameError`. */
    function PlusVectorAsWritten(w: Vector): (r: Result<Vector>)
      ensures r == Err(UndefinedName)
    {
      Err(UndefinedName)
    }

    /** `v + w` for a vector `w`, as evidently intended: the componentwise sum. */
    function PlusVector(w: Vector): (r: Vector)
      ensures r.x - w.x == x && r.y - w.y == y
      ensures w == Vector(0, 0) ==> r == this
    {
      Vector(x + w.x, y + w.y)
    }
  }

  const Origin: Vector := Vector(0, 0)

  lemma ScaleSmall(c: int, n: int)
    ensures n == 0 ==> c * n == 0
    ensures n == 1 ==> c * n == c
    ensures n == -1 ==> c * n == -c
    ensures n == 2 ==> c * n == c + c
  {
  }

  /** Only the zero vector is falsy. */
  lemma VectorTruthyIffNonZero(v: Vector)
    ensures v.IsTruthy() <==> v != Origin
  {
  }

  /** Subtracting an integer undoes adding it, and adding `n` is adding the
      vector `(n, n)`. */
  lemma PlusIntMinusInt(v: Vector, n: int)
    ensures v.PlusInt(n).MinusInt(n) == v
    ensures v.MinusInt(n).PlusInt(n) == v
    ensures v.PlusInt(n) == v.PlusVector(Vector(n, n))
  {
  }

  /** The intended vector sum is commutative, associative, has the origin as
      unit, and negation is its inverse; integer scaling distributes over it. */
  lemma PlusVectorLaws(u: Vector, v: Vector, w: Vector, k: int)
    ensures u.PlusVector(v) == v.PlusVector(u)
    ensures u.PlusVector(v).PlusVector(w) == u.PlusVector(v.PlusVector(w))
    ensures u.PlusVector(Origin) == u
    ensures u.PlusVector(u.Neg()) == Origin
    ensures u.PlusVector(v).TimesInt(k) == u.TimesInt(k).PlusVector(v.TimesInt(k))
  {
    assert (u.x + v.x) * k == u.x * k + v.x * k;
    assert (u.y + v.y) * k == u.y * k + v.y * k;
  }

  /** Scaling by a float rounds each component half up, so it agrees with
      integer scaling whenever the product is a non-negative integer. */
  lemma TimesRealMatchesTimesInt(v: Vector, n: int)
    requires v.x * n >= 0 && v.y * n >= 0
    ensures v.TimesReal(n as real) == v.TimesInt(n)
  {
    var a, b := v.x * n, v.y * n;
    assert v.x as real * n as real == a as real;
    assert v.y as real * n as real == b as real;
    HalfUpTruncOfInt(a);
    HalfUpTruncOfInt(b);
    assert v.TimesReal(n as real) == Vector(a, b);
  }

  /** ...but not for negative products: `(-3, 4) * 1.0` is `(-2, 4)`, while
      `(-3, 4) * 1` is `(-3, 4)`. */
  lemma TimesRealNegativeDrift()
    ensures Vector(-3, 4).TimesReal(1.0) == Vector(-2, 4)
    ensures Vector(-3, 4).TimesInt(1) == Vector(-3, 4)
  {
  }

  /** Every component of `v * f` is within half a unit of the exact product
      when that product is at least -1/2. */
  lemma TimesRealRoundsHalfUp(v: Vector, f: real)
    requires v.x as real * f >= -0.5 && v.y as real * f >= -0.5
    ensures v.TimesReal(f).x as real - 0.5 <= v.x as real * f < v.TimesReal(f).x as real + 0.5
    ensures v.TimesReal(f).y as real - 0.5 <= v.y as real * f < v.TimesReal(f).y as real + 0.5
  {
  }

  /** The `Vector + Vector` finding: as written the sum raises, while the
      intended sum of `(3, 4)` and `(1, 1)` is `(4, 5)`. */
  lemma PlusVectorAsWrittenFails()
    ensures Vector(3, 4).PlusVectorAsWritten(Vector(1, 1)).Err?
    ensures Vector(3, 4).PlusVector(Vector(1, 1)) == Vector(4, 5)
  {
  }

  /** `Size` is a `Vector` whose `x` is the width and `y` the height. */
  type Size = Vector

  const Empty: Size := Vector(0, 0)

  function Width(s: Size): int { s.x }
  function Height(s: Size): int { s.y }

  /** `Size.area`. */
  function Area(s: Size): int
  {
    s.x * s.y
  }

  /** `Size.__nonzero__`: a size is falsy when either dimension is zero. */
  predicate SizeIsTruthy(s: Size)
  {
    s.x != 0 && s.y != 0
  }

  /** A size is truthy exactly when its area is non-zero; the empty size is
      the zero vector, and is falsy both as a size and as a vector. */
  lemma SizeTruthyIffAreaNonZero(s: Size)
    ensures SizeIsTruthy(s) <==> Area(s) != 0
    ensures !SizeIsTruthy(Empty) && Empty == Origin && !Empty.IsTruthy()
  {
    if s.x != 0 && s.y != 0 {
      assert s.x * s.y != 0;
    }
  }

  /** The corners of a rectangle, in the order `(x1, y1, x2, y2)`. */
  datatype Corners = Corners(x1: int, y1: int, x2: int, y2: int)
  {
    function Left(): int { x1 }
    function Top(): int { y1 }
    function Right(): int { x2 }
    function Bottom(): int { y2 }
    function Width(): int { x2 - x1 }
    function Height(): int { y2 - y1 }

    /** `Rectangle.position`: the top-left corner. */
    function Position(): Vector { Vector(x1, y1) }

    /** `Rectangle.size`. */
    function Size(): Size { Vector(x2 - x1, y2 - y1) }
  }

  /** A rectangle as the constructor leaves it: corners in canonical order. */
  type Rectangle = c: Corners | c.x1 <= c.x2 && c.y1 <= c.y2 witness Corners(0, 0, 0, 0)

  /** `Rectangle(x1, y1, x2, y2)`: swaps each coordinate pair given in
      reverse order. */
  function NewRectangle(x1: int, y1: int, x2: int, y2: int): (r: Rectangle)
    ensures (r.x1 == x1 && r.x2 == x2) || (r.x1 == x2 && r.x2 == x1)
    ensures (r.y1 == y1 && r.y2 == y2) || (r.y1 == y2 && r.y2 == y1)
  {
    var (a1, a2) := if x1 > x2 then (x2, x1) else (x1, x2);
    var (b1, b2) := if y1 > y2 then (y2, y1) else (y1, y2);
    Corners(a1, b1, a2, b2)
  }

  /** Construction keeps coordinates already in order; it is idempotent. */
  lemma NewRectangleKeepsOrdered(x1: int, y1: int, x2: int, y2: int)
    ensures x1 <= x2 && y1 <= y2 ==> NewRectangle(x1, y1, x2, y2) == Corners(x1, y1, x2, y2)
    ensures var r := NewRectangle(x1, y1, x2, y2); NewRectangle(r.x1, r.y1, r.x2, r.y2) == r
  {
  }

  /** Width and height of a rectangle are never negative, and its size is
      their pair. */
  lemma RectangleSizeNonNegative(r: Rectangle)
    ensures r.Width() >= 0 && r.Height() >= 0
    ensures r.Size() == Vector(r.Width(), r.Height())
    ensures r.Position() == Vector(r.Left(), r.Top())
  {
  }

  /** `Rectangle.__bool__`. */
  predicate RectIsTruthy(r: Rectangle)
  {
    r.x1 != r.x2 && r.y1 != r.y2
  }

  /** A rectangle is falsy exactly when its width or its height is zero, that
      is, when its size is falsy. */
  lemma RectTruthyIffPositiveExtent(r: Rectangle)
    ensures RectIsTruthy(r) <==> r.Width() > 0 && r.Height() > 0
    ensures RectIsTruthy(r) <==> SizeIsTruthy(r.Size())
  {
  }

  /** `Size.at(point)`: the rectangle of this size whose top-left corner is
      `point` (canonicalised when a dimension is negative). */
  function At(s: Size, p: Vector): (r: Rectangle)
    ensures s.x >= 0 && s.y >= 0 ==> r.x1 == p.x && r.y1 == p.y && r.x2 - r.x1 == s.x && r.y2 - r.y1 == s.y
    ensures r.x2 - r.x1 == (if s.x >= 0 then s.x else -s.x) && r.y2 - r.y1 == (if s.y >= 0 then s.y else -s.y)
  {
    NewRectangle(p.x, p.y, p.x + s.x, p.y + s.y)
  }

  /** For a non-negative size, `at` spans from `p` to `p + s`. */
  lemma AtCorners(s: Size, p: Vector)
    requires s.x >= 0 && s.y >= 0
    ensures At(s, p) == Corners(p.x, p.y, p.x + s.x, p.y + s.y)
  {
  }

  /** `Rectangle.at(point)`: the same rectangle moved to `point`. */
  function RectAt(r: Rectangle, p: Vector): (q: Rectangle)
    ensures q.Size() == r.Size() && q.Position() == p
  {
    At(r.Size(), p)
  }

  /** `Rectangle + n`: every coordinate moves by `n`. */
  function RectPlusInt(r: Rectangle, n: int): (q: Rectangle)
    ensures q.Size() == r.Size()
    ensures q.Position() == r.Position().PlusInt(n)
  {
    NewRectangle(r.x1 + n, r.y1 + n, r.x2 + n, r.y2 + n)
  }

  /** One axis of `Rectangle.intersection`: the larger low edge and the
      smaller high edge; when they cross, both collapse to their floored
      midpoint (Python's `//`, which for the divisor 2 agrees with Dafny's
      `/`). */
  function OverlapAxis(lo1: int, hi1: int, lo2: int, hi2: int): (r: (int, int))
    ensures r.0 <= r.1
    ensures Overlap(lo1, hi1, lo2, hi2) ==> r == (MaxInt(lo1, lo2), MinInt(hi1, hi2))
    ensures Overlap(lo1, hi1, lo2, hi2) ==> lo1 <= r.0 && lo2 <= r.0 && r.1 <= hi1 && r.1 <= hi2
    ensures !Overlap(lo1, hi1, lo2, hi2) ==> r.0 == r.1 && MinInt(hi1, hi2) <= r.0 <= MaxInt(lo1, lo2)
  {
    var lo := MaxInt(lo1, lo2);
    var hi := MinInt(hi1, hi2);
    if lo > hi then ((lo + hi) / 2, (lo + hi) / 2) else (lo, hi)
  }

  /** The two spans `[lo1, hi1]` and `[lo2, hi2]` share at least a point. */
  predicate Overlap(lo1: int, hi1: int, lo2: int, hi2: int)
  {
    MaxInt(lo1, lo2) <= MinInt(hi1, hi2)
  }

  /** `Rectangle.intersection`. */
  function Intersection(a: Rectangle, b: Rectangle): (r: Rectangle)
    ensures Overlap(a.x1, a.x2, b.x1, b.x2) ==> r.x1 == MaxInt(a.x1, b.x1) && r.x2 == MinInt(a.x2, b.x2)
    ensures Overlap(a.y1, a.y2, b.y1, b.y2) ==> r.y1 == MaxInt(a.y1, b.y1) && r.y2 == MinInt(a.y2, b.y2)
    ensures !Overlap(a.x1, a.x2, b.x1, b.x2) ==> r.x1 == r.x2 == (MaxInt(a.x1, b.x1) + MinInt(a.x2, b.x2)) / 2
    ensures !Overlap(a.y1, a.y2, b.y1, b.y2) ==> r.y1 == r.y2 == (MaxInt(a.y1, b.y1) + MinInt(a.y2, b.y2)) / 2
  {
    var (x1, x2) := OverlapAxis(a.x1, a.x2, b.x1, b.x2);
    var (y1, y2) := OverlapAxis(a.y1, a.y2, b.y1, b.y2);
    NewRectangle(x1, y1, x2, y2)
  }

  /** `Rectangle.__contains__` for a rectangle: closed, nested edges. */
  predicate ContainsRect(a: Rectangle, b: Rectangle)
  {
    a.x1 <= b.x1 && a.y1 <= b.y1 && a.x2 >= b.x2 && a.y2 >= b.y2
  }

  /** `Rectangle.__contains__` for a vector: closed bounds on both axes. */
  predicate ContainsPoint(a: Rectangle, p: Vector)
  {
    a.x1 <= p.x <= a.x2 && a.y1 <= p.y <= a.y2
  }

  /** Containing a rectangle is the same as containing both of its corners,
      and it is a partial order. */
  lemma ContainsRectIffCorners(a: Rectangle, b: Rectangle, c: Rectangle)
    ensures ContainsRect(a, b) <==> ContainsPoint(a, b.Position()) && ContainsPoint(a, Vector(b.x2, b.y2))
    ensures ContainsRect(a, a)
    ensures ContainsRect(a, b) && ContainsRect(b, a) ==> a == b
    ensures ContainsRect(a, b) && ContainsRect(b, c) ==> ContainsRect(a, c)
  {
  }

  /** Intersection is commutative and never has a negative extent. */
  lemma IntersectionCommutes(a: Rectangle, b: Rectangle)
    ensures Intersection(a, b) == Intersection(b, a)
    ensures Intersection(a, b).Width() >= 0 && Intersection(a, b).Height() >= 0
  {
  }

  /** When the two rectangles overlap on both axes, each one contains their
      intersection, and the intersection contains every rectangle that both
      contain: it is their greatest common sub-rectangle. */
  lemma IntersectionIsGreatestCommonPart(a: Rectangle, b: Rectangle, c: Rectangle)
    requires Overlap(a.x1, a.x2, b.x1, b.x2) && Overlap(a.y1, a.y2, b.y1, b.y2)
    ensures ContainsRect(a, Intersection(a, b)) && ContainsRect(b, Intersection(a, b))
    ensures ContainsRect(a, c) && ContainsRect(b, c) ==> ContainsRect(Intersection(a, b), c)
  {
  }

  /** Two rectangles that both contain a third overlap on both axes, so the
      greatest-common-part property applies to them. */
  lemma CommonPartImpliesOverlap(a: Rectangle, b: Rectangle, c: Rectangle)
    requires ContainsRect(a, c) && ContainsRect(b, c)
    ensures Overlap(a.x1, a.x2, b.x1, b.x2) && Overlap(a.y1, a.y2, b.y1, b.y2)
    ensures Intersection(a, b).Size() == Vector(MinInt(a.x2, b.x2) - MaxInt(a.x1, b.x1), MinInt(a.y2, b.y2) - MaxInt(a.y1, b.y1))
  {
  }

  /** A rectangle intersected with itself, or with one containing it, is
      unchanged. */
  lemma IntersectionWithContainer(a: Rectangle, b: Rectangle)
    requires ContainsRect(b, a)
    ensures Intersection(a, b) == a
    ensures Intersection(a, a) == a
  {
  }
}
