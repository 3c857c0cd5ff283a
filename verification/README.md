# sanpera geometry and canvas arithmetic, in Dafny

sanpera is a Python binding to ImageMagick. This project models the pure
arithmetic that sanpera does around the engine, and proves properties of it:

- `sanpera/geometry.py`: the `Vector` and `Size` value types (truthiness,
  integer and float arithmetic, `at`), the proportional fits `fit_inside`,
  `fit_around` and `fit_area`, and the `Rectangle` with sorted corners,
  intersection and containment (modules `Numeric`, `Geometry`, `Fitting`).
- `sanpera/image.py`: the page (virtual canvas) bookkeeping of frames and
  images. This covers `ImageFrame.canvas`, `size` and `has_canvas`,
  `Image.size`, `_fix_page`, the page arithmetic of `resized`, and the repage
  block of `cropped` (modules `Canvas`, `Transforms`).
- `sanpera/dimension.py`: the older `Size`, `Point` and `Rectangle` types.
  Its `Size` validates positivity and goes through `coerce`, `*` and `_fit`.
  Its `Rectangle` is built from two points (module `Dimension`).

Python floats are exact `real`s. `int(x)` truncates toward zero
(`Numeric.Trunc`). The `int(x + 0.5)` idiom is `Numeric.HalfUpTrunc`.

Raised exceptions are `Err` values of `Errors.Result`. The engine calls are
function parameters of the transforms: `ResizeImage`/`ScaleImage` is a
`Transforms.Resampler`, and `CropImage` is a `Transforms.Cropper`. Every
member assumes of a resampler that a frame it returns has the pixel size it
was asked for (`Transforms.HonoursSize`). The lemmas about a successful
resize additionally assume that the engine never fails
(`Transforms.NeverFails`) and say so in their preconditions. Nothing is
assumed of a cropper, except in the lemmas that name an assumption
(`Transforms.KeepsFrames`).

The code follows Python 2 semantics, which is what `__nonzero__` and
`from __future__ import division` in these files are written for.

`Examples` states worked values as lemmas about the model. The vector,
rectangle, animation and crop values are the repository's own test cases.
The `fit_inside` and `fit_area` values are worked out by hand from
`sanpera/geometry.py:168-256` and `sanpera/dimension.py:76-96`.

## Model

| member | source | states |
|---|---|---|
| Numeric.Trunc | sanpera/geometry.py:248-256 | `int()` on a float truncates toward zero: non-negative inputs land in `[n, n+1)`, negative ones in `(n-1, n]` |
| Numeric.HalfUpTrunc | sanpera/geometry.py:112 | `int(x + 0.5)` rounds half up for `x >= -0.5`; below that it lands in `[x+0.5, x+1.5)`, not at the nearest integer |
| Numeric.HalfUpTruncNegativeDrift | sanpera/geometry.py:112 | `int(-3.0 + 0.5)` is -2 while the floor of `-2.5` is -3 |
| Numeric.ApproxEqualSymmetric | sanpera/geometry.py:11-12 | the absolute-tolerance comparison is symmetric and reflexive |
| Numeric.ApproxEqualIsAbsolute | sanpera/geometry.py:11-12 | the tolerance is absolute, not relative: shifting both values by the same amount changes nothing; equal values are close; closeness is not transitive (`0 ~ 6e-7 ~ 1.2e-6` but not `0 ~ 1.2e-6`) |
| Numeric.TruncOfQuotient | sanpera/geometry.py:252-256 | `int(a / b)` for integers is the quotient rounded toward zero (`Numeric.TruncDiv`), which is Dafny's `/` for a non-negative dividend and positive divisor |
| Numeric.TruncDivBracket | sanpera/geometry.py:252-256 | the quotient rounded toward zero brackets the dividend: `abs(q)*abs(b) <= abs(a) < (abs(q)+1)*abs(b)` |
| Numeric.Pick | sanpera/geometry.py:219-234 | the `max`/`min` builtin passed to `_fit` returns one of its arguments and bounds both |
| Numeric.FloorSqrt | sanpera/geometry.py:196-199 | the integer floor of `sqrt(num / den)`: `n*n*den <= num < (n+1)*(n+1)*den` |
| Numeric.FloorSqrtUnique | sanpera/geometry.py:196-199 | the floor square root is unique, so any witness is its value |
| Geometry.VectorTruthyIffNonZero | sanpera/geometry.py:78-80 | a vector is falsy exactly when it is the origin |
| Geometry.Vector.PlusInt | sanpera/geometry.py:82-94 | `v + n` (and `n + v`) is the sum with the diagonal vector `(n, n)`; adding 0 changes nothing |
| Geometry.Vector.Neg | sanpera/geometry.py:96-97 | `-v` is the inverse of `v` under the vector sum, and is truthy exactly when `v` is |
| Geometry.Vector.MinusInt | sanpera/geometry.py:99-100 | `v - n` is undone by adding `n`, and is adding the negated diagonal `-(n, n)` |
| Geometry.Vector.TimesInt | sanpera/geometry.py:105-109 | `v * 0` is the origin, `v * 1` is `v`, `v * -1` is `-v`, `v * 2` is `v + v` |
| Geometry.Vector.TimesReal | sanpera/geometry.py:111-112 | each component of `v * f` is within half a unit of the exact product (ties up), when the product is at least -0.5 |
| Geometry.Vector.PlusVector | sanpera/geometry.py:88-89 | the intended `v + w` is undone by subtracting `w` componentwise, and adding the origin changes nothing |
| Geometry.PlusIntMinusInt | sanpera/geometry.py:82-87 | `v + n - n == v` and `v - n + n == v`; adding an integer is adding `(n, n)` |
| Geometry.PlusVectorLaws | sanpera/geometry.py:82-103 | the intended vector sum is commutative and associative, has the origin as identity and `-v` as inverse, and `*` distributes over it |
| Geometry.TimesRealMatchesTimesInt | sanpera/geometry.py:105-114 | multiplying by the float `n` agrees with multiplying by the integer `n` when the products are non-negative |
| Geometry.TimesRealNegativeDrift | sanpera/geometry.py:111-112 | `(-3, 4) * 1.0` is `(-2, 4)` while `(-3, 4) * 1` is `(-3, 4)` |
| Geometry.TimesRealRoundsHalfUp | sanpera/geometry.py:111-112 | each component of `v * f` is within half a unit of the exact product, when the product is at least -0.5 |
| Geometry.Vector.PlusVectorAsWritten | sanpera/geometry.py:88-89 | `Vector + Vector` as written always raises `NameError` |
| Geometry.PlusVectorAsWrittenFails | sanpera/geometry.py:88-89 | `(3, 4) + (1, 1)` raises as written but is `(4, 5)` as intended |
| Geometry.SizeTruthyIffAreaNonZero | sanpera/geometry.py:139-153 | a size is truthy exactly when its area is non-zero; `empty` is the origin and falsy |
| Geometry.NewRectangle | sanpera/geometry.py:277-285 | the constructor keeps each coordinate pair, swapping it when given out of order, so `x1 <= x2` and `y1 <= y2` |
| Geometry.NewRectangleKeepsOrdered | sanpera/geometry.py:277-285 | ordered corners are kept as given; constructing from a rectangle's own corners returns it |
| Geometry.RectangleSizeNonNegative | sanpera/geometry.py:264-270 | width and height are never negative; `size` and `position` agree with `width`, `height`, `left`, `top` |
| Geometry.RectTruthyIffPositiveExtent | sanpera/geometry.py:320-323 | a rectangle is truthy exactly when both extents are positive, which is when its size is truthy |
| Geometry.At | sanpera/geometry.py:161-166 | `size.at(p)` has the size's absolute extents; for a non-negative size its top-left corner is `p` |
| Geometry.AtCorners | sanpera/geometry.py:161-166 | for a non-negative size `s`, `s.at(p)` spans from `p` to `p + s` |
| Geometry.RectAt | sanpera/geometry.py:287-288 | `rect.at(p)` keeps the size and moves the top-left corner to `p` |
| Geometry.RectPlusInt | sanpera/geometry.py:325-333 | `rect + n` keeps the size and moves the position by `(n, n)` |
| Geometry.OverlapAxis | sanpera/geometry.py:293-304 | per axis: overlapping spans give the larger low edge and the smaller high edge, which lie in both spans; disjoint spans collapse to one point inside the gap between them |
| Geometry.Intersection | sanpera/geometry.py:290-306 | on an axis where the spans overlap, the intersection runs from the larger low edge to the smaller high edge; on one where they do not, it collapses to the floor of the midpoint |
| Geometry.IntersectionCommutes | sanpera/geometry.py:290-306 | the intersection is commutative and has non-negative extents |
| Geometry.IntersectionIsGreatestCommonPart | sanpera/geometry.py:290-306 | for rectangles overlapping on both axes, the intersection lies in both, and every rectangle in both lies in it |
| Geometry.CommonPartImpliesOverlap | sanpera/geometry.py:290-306 | two rectangles sharing a contained rectangle overlap, and their intersection has the min-minus-max size |
| Geometry.IntersectionWithContainer | sanpera/geometry.py:290-306 | intersecting with a containing rectangle, or with itself, gives the rectangle back |
| Geometry.ContainsRectIffCorners | sanpera/geometry.py:335-347 | containing a rectangle means containing both its corners; containment is reflexive, antisymmetric and transitive |
| Fitting.Fit | sanpera/geometry.py:236-256 | the upscale and downscale gates return the size unchanged; a zero target dimension raises; ratios within the absolute tolerance give the target; when `minmax` picks the width ratio the result is `(tw, h*tw/w)` rounded toward zero, and `(w*th/h, th)` otherwise, with a zero pinned side raising |
| Fitting.FitProportional | sanpera/geometry.py:248-256 | for positive sizes whose ratios differ beyond the tolerance, `max` pins the side with the larger ratio and `min` the one with the smaller; the other side becomes `floor(side * target / pinned side)` |
| Fitting.ScaledByRatio | sanpera/geometry.py:252-256 | `int(c / (a / b))` is `c*b/a` rounded toward zero |
| Fitting.FitInside | sanpera/geometry.py:219-226 | the gates return the size; outside them, for positive sizes, the target when the ratios agree, else `(tw, floor(h*tw/w))` when `w*th > h*tw` and `(floor(w*th/h), th)` otherwise; the result keeps one target side and fits within the target |
| Fitting.FitAround | sanpera/geometry.py:228-234 | the gates return the size; outside them, for positive sizes, the target when the ratios agree, else `(tw, floor(h*tw/w))` when `w*th < h*tw` and `(floor(w*th/h), th)` otherwise; the result keeps one target side and covers the target |
| Fitting.FitBounds | sanpera/geometry.py:236-256 | outside the gates, positive sizes always fit: `max` stays within the target and `min` covers it |
| Fitting.FitToItself | sanpera/geometry.py:250-252 | a size fitted to itself is itself |
| Fitting.RefitKeepsTargetWidth | sanpera/geometry.py:250-256 | a size already at the target width, with a height on the right side of the target's, is a fixed point |
| Fitting.RefitKeepsTargetHeight | sanpera/geometry.py:250-256 | the same for a size already at the target height |
| Fitting.FitIdempotent | sanpera/geometry.py:236-256 | for targets up to 10^6 per axis, fitting a fitted size again changes nothing |
| Fitting.SameAspectFitsExactly | sanpera/geometry.py:248-252 | a size with exactly the target's aspect ratio fits to the target itself |
| Fitting.ScaledTrunc | sanpera/geometry.py:196-199 | `int(c * sqrt(area / current))` is the signed floor square root of `c*c*area / current` |
| Fitting.Candidates | sanpera/geometry.py:196-207 | the three candidates are the truncated scaled size, one row taller and one column wider; each truncated side is the floor square root of `side*side*area / current area`, signed like the side |
| Fitting.SelectBest | sanpera/geometry.py:203-212 | the search keeps the admissible candidate of largest area, the first one on ties, and keeps the initial choice when none beats it |
| Fitting.FitArea | sanpera/geometry.py:168-217 | a non-positive area raises; the gates return the size; a zero current area divides by zero and a negative one is a math domain error; otherwise the result is the best admissible candidate, or an error when there is none |
| Fitting.TruncatedCandidateFits | sanpera/geometry.py:196-199 | for a positive size the truncated candidate never exceeds the requested area |
| Fitting.FitAreaSucceeds | sanpera/geometry.py:168-217 | when the truncated candidate has no zero side, `fit_area` succeeds with an area between that candidate's and the requested one |
| Fitting.FitAreaNeverExceeds | sanpera/geometry.py:168-217 | the promise "no more pixels than asked": any success is within the area, unless the downscale gate returned a larger size unchanged |
| Canvas.FrameCanvas | sanpera/image.py:40-50 | a frame's canvas has the frame's pixel size at the page offset |
| Canvas.FrameHasCanvasIff | sanpera/image.py:58-69 | a frame has no canvas exactly when its canvas is its pixel extent at the origin and its page is as large as its pixels |
| Canvas.ImageSize | sanpera/image.py:381-399 | the empty image has the empty size; otherwise the size is the first frame's page size, never negative |
| Canvas.ImageHasCanvasIff | sanpera/image.py:401-404 | an image has no canvas exactly when every frame's canvas is its pixel extent at the origin with a page as large as its pixels; then its size is its first frame's pixel size; the empty image has no canvas |
| Canvas.FixFramePage | sanpera/image.py:248-254 | a frame's page ends up non-degenerate unless its pixels are; pixels and offset stay; a sound page stays; a degenerate one takes the pixel size |
| Canvas.FixPage | sanpera/image.py:248-254 | over the whole stack: the frame count stays, every page is repaired, pixels and offsets stay, sound pages stay, degenerate ones take the pixel size |
| Canvas.FixPageIdempotent | sanpera/image.py:248-254 | a second `_fix_page` pass changes nothing |
| Canvas.FixPageImageSize | sanpera/image.py:137-154 | an image whose first page was degenerate reports the first frame's pixel size |
| Transforms.ResizeFrame | sanpera/image.py:473-498 | the resampled frame has the rounded scaled pixel size; its page is the target size at the rounded scaled offset; a negative size raises |
| Transforms.ResizeFrames | sanpera/image.py:468-501 | the loop succeeds exactly when every frame does, and keeps the frame count and order |
| Transforms.Resized | sanpera/image.py:449-503 | an empty image is the null stack; a zero divisor divides by zero; a success keeps the frame count |
| Transforms.ResizedFrames | sanpera/image.py:463-503 | each frame gets the scaled pixel size and offset; the page is the target size, or the pixel size when the target has a zero side |
| Transforms.ResizedIgnoresEngine | sanpera/image.py:458-498 | `ScaleImage` and `ResizeImage` give the same page bookkeeping when both succeed |
| Transforms.ResizeFrameIgnoresEngine | sanpera/image.py:476-498 | one frame's result does not depend on which size-honouring resampler made it |
| Transforms.ResizedSucceeds | sanpera/image.py:449-503 | with a non-negative target, non-zero divisors and engine calls that do not fail, `resized` succeeds |
| Transforms.CropFrames | sanpera/image.py:511-521 | the crop loop succeeds exactly when every frame's crop does, keeping count and order |
| Transforms.Repage | sanpera/image.py:544-548 | pixels stay; every page gets the same new size; shifting back by the deltas restores each offset, so the offsets of any two frames keep their difference |
| Transforms.Cropped | sanpera/image.py:505-550 | an empty image is the null stack; success exactly when every crop succeeds; with `preserve_canvas` the frames are only repaired; otherwise offsets shift by the clamped crop corner and pages take the clipped canvas size |
| Transforms.CroppedSingleFrame | sanpera/image.py:532-548 | the repaged crop of a one-frame image, spelled out field by field |
| Transforms.CroppedSizeBounded | sanpera/image.py:537-548 | after a repaging crop, the image is no larger than the crop rectangle or the original canvas |
| Transforms.CropToFullCanvas | sanpera/image.py:532-548 | cropping to the full canvas keeps the image size, the frame sizes and the canvases, and the whole image when every page has the image size |
| Dimension.NewSize | sanpera/dimension.py:18-26 | a size is built exactly when both sides are positive; the width is checked first |
| Dimension.NewSizeRoundTrip | sanpera/dimension.py:18-26 | rebuilding a valid size from its fields gives it back |
| Dimension.Coerce | sanpera/dimension.py:28-40 | an existing size is returned as is; a pair is validated by the constructor |
| Dimension.CoerceIdempotent | sanpera/dimension.py:28-40 | coercing a coerced size changes nothing |
| Dimension.PositiveSizeTruthy | sanpera/dimension.py:50-52 | every constructed size is truthy |
| Dimension.Scale | sanpera/dimension.py:54-55 | `size * n` succeeds exactly for a positive `n`, with both sides multiplied by `n`, keeping the aspect ratio; otherwise it fails on the width |
| Dimension.ScaleComposes | sanpera/dimension.py:54-55 | scaling by 1 is the identity; scaling by `a` then `b` is scaling by `a * b` |
| Dimension.Fit | sanpera/dimension.py:76-96 | a bad target propagates its error; the gates return the size unchanged |
| Dimension.FitInside | sanpera/dimension.py:59-66 | the same gates and errors through `max` |
| Dimension.FitAround | sanpera/dimension.py:68-74 | the same gates and errors through `min` |
| Dimension.FitShape | sanpera/dimension.py:76-96 | outside the gates: with `min` the fit always succeeds; with `max` it fails, on the width or the height, exactly when a side truncates to zero (`h*ow < w` or `w*oh < h`); one side equals the target's; `max` stays within and `min` covers the target |
| Dimension.FitExact | sanpera/dimension.py:89-96 | outside the gates: equal aspect ratios give the target itself; otherwise the side whose ratio `minmax` picks is pinned and the other becomes `floor(side * target / pinned side)`, through the validating constructor |
| Dimension.PinnedExact | sanpera/dimension.py:93-96 | dividing by the ratio `a/oa` sends `a` to `oa` and `b` to `floor(b*oa/a)`, which is `ob` when the ratios agree |
| Dimension.Pinned | sanpera/dimension.py:93-96 | the scaled side is never negative, truncates to zero exactly when `b*oa < a`, stays within the target under the larger ratio and covers it under the smaller |
| Dimension.Point.AddInt | sanpera/dimension.py:118-122 | `p + n` is `p` plus the diagonal offset `(n, n)`, undone by adding `(-n, -n)` |
| Dimension.Point.Add | sanpera/dimension.py:118-124 | `p + o` is undone by subtracting `o`, and `zero` is its identity |
| Dimension.Point.MulInt | sanpera/dimension.py:128-134 | `p * 0` is `zero`, `p * 1` is `p`, `p * -1` is `p`'s inverse under `+`, `p * 2` is `p + p` |
| Dimension.PointLaws | sanpera/dimension.py:118-139 | points under `+` form a commutative group with `zero` as identity; adding `n` is adding `(n, n)`; `*` distributes and composes |
| Dimension.FromPointsAsWritten | sanpera/dimension.py:143-150 | `Rectangle(p1, p2)` as written always raises `TypeError` |
| Dimension.FromPoints | sanpera/dimension.py:143-150 | the intended constructor gives ordered corners taken from the points and contains both points |
| Dimension.FromPointsLeast | sanpera/dimension.py:143-150 | the intended constructor is the least rectangle containing both points, symmetric in them, and rebuilds an ordered rectangle from its corners |
| Dimension.FromPointsAsWrittenFails | sanpera/dimension.py:143-150 | every two-point construction raises as written |
| Dimension.Rect.Size | sanpera/dimension.py:153-155 | a rectangle has a size exactly when both extents are positive, and the size spans from the first corner to the second |
| Dimension.RectTruthyIffSized | sanpera/dimension.py:153-187 | an ordered rectangle is truthy exactly when its `size` can be built; containment is containing both corners, and is antisymmetric |
| Examples.VectorExamples | sanpera/tests/test_geometry.py:7-34 | the vector tests: origin falsy, `+ 2`, `- 2`, `* 2` |
| Examples.RectangleExamples | sanpera/tests/test_geometry.py:36-40 | the truthiness tests of zero-width and zero-height rectangles |
| Examples.FitInsideExamples | sanpera/geometry.py:236-245 | the gates: a 50x50 size is not upscaled and not downscaled when told not to |
| Examples.FitArea200x300Into7 | sanpera/geometry.py:168-217 | 200x300 fitted to 7 pixels is 2x3 |
| Examples.FitArea200x300Into8 | sanpera/geometry.py:168-217 | 200x300 fitted to 8 pixels is 2x4 |
| Examples.FitArea200x300Into9 | sanpera/geometry.py:168-217 | 200x300 fitted to 9 pixels is 3x3 |
| Examples.FitArea200x300Into10 | sanpera/geometry.py:168-217 | 200x300 fitted to 10 pixels is 3x3 |
| Examples.FitArea200x300Into11 | sanpera/geometry.py:168-217 | 200x300 fitted to 11 pixels is 2x5 |
| Examples.FitArea100x100Into64 | sanpera/geometry.py:168-217 | a square fitted to a square number of pixels is exact |
| Examples.FitArea100x100Into14400 | sanpera/geometry.py:168-217 | a square grows to the exact square root |
| Examples.FitArea1000x1Into100 | sanpera/geometry.py:168-177 | the documented failure: 1000x1 cannot fit in 100 pixels |
| Examples.DimensionFitInsideRejectsThinSize | sanpera/dimension.py:76-96 | the older `_fit` raises when the thin side truncates to zero, and on a zero target |
| Examples.AnimationResizedByHalf | sanpera/tests/test_workarounds.py:17-38 | the multi-frame resize test: halving a 100x100 animation of 32x32 frames gives 16x16 frames at the rounded halved offsets |
| Examples.AnimationCroppedToCanvas | sanpera/tests/test_workarounds.py:42-56 | the multi-frame crop test: cropping to the full canvas changes nothing |
| Examples.CropRectangles | sanpera/tests/test_image.py:5-21 | the rectangles of the crop tests, through `at` |
| Examples.CropInsideCanvas | sanpera/tests/test_image.py:5-11 | a crop inside the canvas is repaged to a canvas of the crop's size at the origin |
| Examples.CropBeyondCanvas | sanpera/tests/test_image.py:14-21 | a crop reaching past the top-left corner is clipped to the original canvas |

## Left out

- Pixel data, the cffi bindings, ImageMagick calls, reference counting and garbage collection are left out. The engine calls are parameters.
- Python floats are exact reals, with no rounding of float division, `math.sqrt` or the `+ 0.5` idiom. Fits whose ratios differ by less than a float's precision may come out differently in the source.
- C integer widths are not modelled: page offsets and sizes are unbounded. The unsigned `columns`, `rows` and page extents are `nat`, and a negative size reaching them is `Err(NegativeUnsigned)`.
- `Vector.magnitude`, `Vector.direction` and `Size.diagonal` (geometry.py:23-30, 135-137) are left out. They use `math.hypot` and `math.atan2` on floats.
- `Vector.coerce` and `Point.coerce` (geometry.py:35-43, dimension.py:108-113) are left out. Arguments in the model are already vectors. `dimension.Size.coerce` is modelled.
- `Vector.__richcmp__` (geometry.py:54-76) is left out. It is a Cython hook that Python never calls, and its body refers to undefined names.
- `__rsub__`, and `-` on a `Size` (geometry.py:102-103, 155-156), are left out. `Size.__neg__` returns `NotImplemented` rather than raising, and the model's `Neg` treats a size as a plain vector.
- Operand types other than `int`, `float` and `Vector`, which make the operators return `NotImplemented`, are left out.
- `Rectangle.to_rect_info` (geometry.py:378-384) only copies `left`, `top`, `width` and `height` into a C struct. It is left out; the cropper receives the rectangle itself.
- `dimension.Size.__mul__` with a float factor is left out. It keeps fractional sides, which the integer `Dimension.Size` cannot hold. `Dimension.Scale` takes integer factors only.
- `dimension.Rectangle.__eq__` (dimension.py:164-173) is field equality, which is Dafny's datatype equality.
- The `filter` argument only selects which engine call runs. The blur argument `1.0` and the filter's effect on pixels are left out.
- ImageMagick's own page handling inside `ResizeImage`/`CropImage` is left out. The page that `resized` writes overrides it. For `cropped`, `Transforms.CropToFullCanvas` and `Examples.CropInsideCanvas` assume a cropper behaviour, which they state as a precondition.
- Fitting.FitIdempotent: proved only for targets up to 10^6 pixels per side. Above that the absolute tolerance of `approx_equal` can treat a one-pixel difference as equal.
- ImageMagick's own rounding of the `@` area geometry, which the comment at geometry.py:179-182 mentions, is not modelled. `fit_area` always truncates the scaled sides with `int()` (geometry.py:198-199), and has no mode that rounds them instead.
- Nothing in the fits rounds to the nearest pixel. The code truncates the scaled side with `int()` (geometry.py:252-256, dimension.py:93-96) and compares ratios with the absolute tolerance `1e-6` (geometry.py:11-12), and so does the model.
- The offset rounding `int(x + 0.5)` (geometry.py:112, image.py:497-498) truncates toward zero, so an offset below -0.5 rounds up by one from the nearest integer. The model keeps that; see `Numeric.HalfUpTruncNegativeDrift`.
- An image with no frames gives `Err(NullStack)` in `resized` and `cropped`. `resized` reads the null stack's page, and `cropped` hands a null stack to the `Image` constructor. The actual failure in C is undefined.

## Findings

| source | as written | input that shows it | evidently intended | confidence | as-written member | corrected member |
|---|---|---|---|---|---|---|
| sanpera/geometry.py:88-89 | `Vector + Vector` returns `cls(self.x + two.x, self.y + two.y)`, but `two` is not defined, so every such sum raises `NameError`; `Vector - Vector` (geometry.py:99-100) goes through the same branch as `self + -other` and raises too | `Vector(3, 4) + Vector(1, 1)` | the componentwise sum `Vector(4, 5)` | not executed | Geometry.Vector.PlusVectorAsWritten (shown by Geometry.PlusVectorAsWrittenFails) | Geometry.Vector.PlusVector (laws in Geometry.PlusVectorLaws) |
| sanpera/dimension.py:143-150 | `Rectangle(p1, p2)` calls the four-field namedtuple constructor with two arguments, so it raises `TypeError` before `__init__` runs | `Rectangle(Point(0, 0), Point(3, 4))` | the rectangle spanned by the two points, with sorted corners | not executed | Dimension.FromPointsAsWritten (shown by Dimension.FromPointsAsWrittenFails) | Dimension.FromPoints (least enclosing rectangle in Dimension.FromPointsLeast) |
