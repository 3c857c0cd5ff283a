/** Worked values stated against the model. The vector, rectangle,
animation and crop values are the repository's own test cases; the
`fit_inside` and `fit_area` values of both size classes are worked out by
hand from the code of `sanpera/geometry.py` (lines 168-256) and
`sanpera/dimension.py` (lines 76-96). The engine calls of `resized` and
`cropped` stay parameters: the lemmas hold for every engine that returns the
frames the tests describe. */
module Examples {
  import opened Numeric
  import opened Errors
  import opened Geometry
  import opened Fitting
  import opened Canvas
  import opened Transforms
  import Dimension

  /** Vector arithmetic and truthiness from `test_geometry.py`. */
  lemma VectorExamples()
    ensures !Origin.IsTruthy() && Vector(3, 4).IsTruthy()
    ensures Vector(3, 4).PlusInt(2) == Vector(5, 6)
    ensures Vector(3, 4).MinusInt(2) == Vector(1, 2)
    ensures Vector(3, 4).TimesInt(2) == Vector(6, 8)
    ensures Vector(100, 100).TimesReal(0.5) == Vector(50, 50)
    ensures !SizeIsTruthy(Empty)
  {
  }

  /** Rectangle truthiness from `test_geometry.py`. */
  lemma RectangleExamples()
    ensures RectIsTruthy(NewRectangle(0, 0, 10, 10))
    ensures !RectIsTruthy(NewRectangle(5, 5, 5, 10))
    ensures !RectIsTruthy(NewRectangle(5, 10, 5, 5))
    ensures RectIsTruthy(NewRectangle(5, 5, 10, 10))
  {
  }

  /** `Size(50, 50).fit_inside((10, 10))` with each gate, worked out by hand. */
  lemma FitInsideExamples()
    ensures FitInside(Vector(50, 50), Vector(10, 10), false, true) == Ok(Vector(10, 10))
    ensures FitInside(Vector(50, 50), Vector(10, 10), true, false) == Ok(Vector(50, 50))
  {
    assert WidthRatio(Vector(50, 50), Vector(10, 10)) == 5.0;
    assert HeightRatio(Vector(50, 50), Vector(10, 10)) == 5.0;
  }

  /** Once the two floor square roots are known, `fit_area` is the search
      over the three candidates built from them. */
  lemma FitAreaFrom(s: Size, area: nat, aw: nat, ah: nat)
    requires s.x >= 0 && s.y >= 0 && Area(s) > 0 && area > 0
    requires IsFloorSqrt(aw, s.x * s.x * area, Area(s))
    requires IsFloorSqrt(ah, s.y * s.y * area, Area(s))
    ensures var best := SelectBest([Vector(aw, ah), Vector(aw, ah + 1), Vector(aw + 1, ah)], area, Choice(0, Empty));
            FitArea(s, area, true, true) == if best.area == 0 then Err(AreaUnfittable) else Ok(best.size)
  {
    FloorSqrtUnique(aw, s.x * s.x * area, Area(s));
    FloorSqrtUnique(ah, s.y * s.y * area, Area(s));
  }

  /** One step of the search loop of `fit_area`. */
  function Step(best: Choice, c: Size, limit: int): Choice
  {
    if best.area < Area(c) <= limit then Choice(Area(c), c) else best
  }

  /** The search over three candidates, unrolled. */
  lemma SelectBestThree(c0: Size, c1: Size, c2: Size, limit: int)
    ensures SelectBest([c0, c1, c2], limit, Choice(0, Empty))
            == Step(Step(Step(Choice(0, Empty), c0, limit), c1, limit), c2, limit)
  {
    var b0 := Choice(0, Empty);
    var b1 := Step(b0, c0, limit);
    var b2 := Step(b1, c1, limit);
    var b3 := Step(b2, c2, limit);
    assert [c0, c1, c2][1..] == [c1, c2];
    assert [c1, c2][1..] == [c2];
    assert [c2][1..] == [];
    assert SelectBest([c2], limit, b2) == SelectBest([], limit, b3) == b3;
    assert SelectBest([c1, c2], limit, b1) == SelectBest([c2], limit, b2);
    assert SelectBest([c0, c1, c2], limit, b0) == SelectBest([c1, c2], limit, b1);
  }

  // The `fit_area` examples below take the size as a parameter fixed by
  // `requires s == Vector(...)` rather than writing the literal into the
  // call: with a literal argument the verifier unrolls the floor square root
  // search eagerly and runs out of resources, while the parameter lets the
  // proof go through `FitAreaFrom` with the roots given.

  /** `Size(200, 300).fit_area(7)`: the first candidate, 2x3, is the only one within 7 pixels. */
  lemma FitArea200x300Into7(s: Size)
    requires s == Vector(200, 300)
    ensures FitArea(s, 7, true, true) == Ok(Vector(2, 3))
  {
    assert s.x * s.x * 7 == 280000 && s.y * s.y * 7 == 630000 && Area(s) == 60000;
    FitAreaFrom(s, 7, 2, 3);
    SelectBestThree(Vector(2, 3), Vector(2, 4), Vector(3, 3), 7);
  }

  /** `Size(200, 300).fit_area(8)`: one row taller, 2x4, uses all 8 pixels. */
  lemma FitArea200x300Into8(s: Size)
    requires s == Vector(200, 300)
    ensures FitArea(s, 8, true, true) == Ok(Vector(2, 4))
  {
    assert s.x * s.x * 8 == 320000 && s.y * s.y * 8 == 720000 && Area(s) == 60000;
    FitAreaFrom(s, 8, 2, 3);
    SelectBestThree(Vector(2, 3), Vector(2, 4), Vector(3, 3), 8);
  }

  /** `Size(200, 300).fit_area(9)`: one column wider, 3x3, uses all 9 pixels. */
  lemma FitArea200x300Into9(s: Size)
    requires s == Vector(200, 300)
    ensures FitArea(s, 9, true, true) == Ok(Vector(3, 3))
  {
    assert s.x * s.x * 9 == 360000 && s.y * s.y * 9 == 810000 && Area(s) == 60000;
    FitAreaFrom(s, 9, 2, 3);
    SelectBestThree(Vector(2, 3), Vector(2, 4), Vector(3, 3), 9);
  }

  /** `Size(200, 300).fit_area(10)`: the same start as for 9, so 3x3 again. */
  lemma FitArea200x300Into10(s: Size)
    requires s == Vector(200, 300)
    ensures FitArea(s, 10, true, true) == Ok(Vector(3, 3))
  {
    assert s.x * s.x * 10 == 400000 && s.y * s.y * 10 == 900000 && Area(s) == 60000;
    FitAreaFrom(s, 10, 2, 3);
    SelectBestThree(Vector(2, 3), Vector(2, 4), Vector(3, 3), 10);
  }

  /** `Size(200, 300).fit_area(11)`: the start moves to 2x4 and one row taller wins: 2x5, narrower than for 10. */
  lemma FitArea200x300Into11(s: Size)
    requires s == Vector(200, 300)
    ensures FitArea(s, 11, true, true) == Ok(Vector(2, 5))
  {
    assert s.x * s.x * 11 == 440000 && s.y * s.y * 11 == 990000 && Area(s) == 60000;
    FitAreaFrom(s, 11, 2, 4);
    SelectBestThree(Vector(2, 4), Vector(2, 5), Vector(3, 4), 11);
  }

  /** `Size(100, 100).fit_area(64)`: a square shrinks to the exact square root. */
  lemma FitArea100x100Into64(s: Size)
    requires s == Vector(100, 100)
    ensures FitArea(s, 64, true, true) == Ok(Vector(8, 8))
  {
    assert s.x * s.x * 64 == 640000 && s.y * s.y * 64 == 640000 && Area(s) == 10000;
    FitAreaFrom(s, 64, 8, 8);
  }

  /** `Size(100, 100).fit_area(14400)`: a square grows to the exact square root. */
  lemma FitArea100x100Into14400(s: Size)
    requires s == Vector(100, 100)
    ensures FitArea(s, 14400, true, true) == Ok(Vector(120, 120))
  {
    assert s.x * s.x * 14400 == 144000000 && s.y * s.y * 14400 == 144000000 && Area(s) == 10000;
    FitAreaFrom(s, 14400, 120, 120);
  }

  /** `Size(1000, 1).fit_area(100)`: the truncated height is 0 and one row more is 316 pixels: nothing fits. */
  lemma FitArea1000x1Into100(s: Size)
    requires s == Vector(1000, 1)
    ensures FitArea(s, 100, true, true) == Err(AreaUnfittable)
  {
    assert s.x * s.x * 100 == 100000000 && s.y * s.y * 100 == 100 && Area(s) == 1000;
    FitAreaFrom(s, 100, 316, 0);
  }

  /** `dimension.Size.fit_inside` turns a 1000x1 size into a zero height,
      which the `Size` constructor rejects. */
  lemma DimensionFitInsideRejectsThinSize()
    ensures Dimension.FitInside(Dimension.Size(1000, 1), Dimension.Pair(10, 10), true, true)
            == Err(NonPositiveHeight)
    ensures Dimension.FitInside(Dimension.Size(1000, 1), Dimension.Pair(0, 10), true, true)
            == Err(NonPositiveWidth)
  {
    assert 1000.0 / 10.0 == 100.0;
    assert 1.0 / 100.0 == 0.01;
  }

  /** The four-frame animation of `test_workarounds.py`: a 100x100 canvas
      holding 32x32 frames at four offsets. */
  function Animation(): Image
  {
    Image([Frame(32, 32, Page(5, 10, 100, 100)), Frame(32, 32, Page(35, 30, 100, 100)),
           Frame(32, 32, Page(62, 50, 100, 100)), Frame(32, 32, Page(10, 55, 100, 100))])
  }

  /** The animation resized to half its canvas size. */
  function HalvedAnimation(): Image
  {
    Image([Frame(16, 16, Page(3, 5, 50, 50)), Frame(16, 16, Page(18, 15, 50, 50)),
           Frame(16, 16, Page(31, 25, 50, 50)), Frame(16, 16, Page(5, 28, 50, 50))])
  }

  /** Resizing the animation to half its size halves the canvas, gives 16x16
      frames, and places each at its offset times one half, rounded half up:
      (5, 10) becomes (3, 5), (35, 30) becomes (18, 15), and so on. */
  lemma AnimationResizedByHalf(filter: Filter, scale: Resampler, resize: Resampler)
    requires HonoursSize(scale) && HonoursSize(resize) && NeverFails(scale) && NeverFails(resize)
    ensures ImageSize(Animation()).TimesReal(0.5) == Vector(50, 50)
    ensures Resized(Animation(), Vector(50, 50), filter, scale, resize) == Ok(HalvedAnimation())
    ensures ImageSize(HalvedAnimation()) == Vector(50, 50)
  {
    var img := Animation();
    var target := Vector(50, 50);
    ResizedSucceeds(img, target, filter, scale, resize);
    ResizedFrames(img, target, filter, scale, resize);
    assert ResizeRatios(img, target) == (0.5, 0.5);
    var out := Resized(img, target, filter, scale, resize).value;
    assert HalfUpTrunc(16.0) == 16;
    assert HalfUpTrunc(2.5) == 3 && HalfUpTrunc(5.0) == 5;
    assert HalfUpTrunc(17.5) == 18 && HalfUpTrunc(15.0) == 15;
    assert HalfUpTrunc(31.0) == 31 && HalfUpTrunc(25.0) == 25;
    assert HalfUpTrunc(5.0) == 5 && HalfUpTrunc(27.5) == 28;
    assert out.frames[0] == HalvedAnimation().frames[0];
    assert out.frames[1] == HalvedAnimation().frames[1];
    assert out.frames[2] == HalvedAnimation().frames[2];
    assert out.frames[3] == HalvedAnimation().frames[3];
    assert out.frames == HalvedAnimation().frames;
  }

  /** Cropping the animation to its own canvas gives it back. */
  lemma AnimationCroppedToCanvas(crop: Cropper)
    requires KeepsFrames(crop, At(ImageSize(Animation()), Origin))
    ensures At(ImageSize(Animation()), Origin) == NewRectangle(0, 0, 100, 100)
    ensures Cropped(Animation(), NewRectangle(0, 0, 100, 100), false, crop) == Ok(Animation())
  {
    var img := Animation();
    assert ImageSize(img) == Vector(100, 100);
    AtCorners(ImageSize(img), Origin);
    assert NewRectangle(0, 0, 100, 100) == Corners(0, 0, 100, 100);
    forall i | 0 <= i < |img.frames|
      ensures Vector(img.frames[i].page.width, img.frames[i].page.height) == ImageSize(img)
    {
    }
    CropToFullCanvas(img, crop);
  }

  /** The crop rectangles of `test_image.py`, as `Size.at` builds them. */
  lemma CropRectangles()
    ensures At(Vector(50, 50), Vector(25, 25)) == Corners(25, 25, 75, 75)
    ensures At(Vector(50, 50), Vector(-25, -25)) == Corners(-25, -25, 25, 25)
    ensures At(Vector(50, 50), Origin) == Corners(0, 0, 50, 50)
    ensures At(Vector(20, 20), Origin) == Corners(0, 0, 20, 20)
  {
    AtCorners(Vector(50, 50), Vector(25, 25));
    AtCorners(Vector(50, 50), Vector(-25, -25));
    AtCorners(Vector(50, 50), Origin);
    AtCorners(Vector(20, 20), Origin);
  }

  /** A single 200x200 frame cropped to 50x50 at (25, 25): the engine returns
      the 50x50 piece with its offset at the crop corner, and the repage
      moves it to the origin of a 50x50 canvas, so the image size is the
      crop size and the frame's canvas is that size at the origin. */
  lemma CropInsideCanvas(crop: Cropper, w: nat, h: nat)
    requires crop(Frame(200, 200, Page(0, 0, 200, 200)), Corners(25, 25, 75, 75))
             == Ok(Frame(50, 50, Page(25, 25, w, h)))
    ensures Cropped(Image([Frame(200, 200, Page(0, 0, 200, 200))]), Corners(25, 25, 75, 75), false, crop)
            == Ok(Image([Frame(50, 50, Page(0, 0, 50, 50))]))
  {
    var img := Image([Frame(200, 200, Page(0, 0, 200, 200))]);
    var rect: Rectangle := Corners(25, 25, 75, 75);
    assert CropCanvas(img, rect) == rect by {
      AtCorners(ImageSize(img), Origin);
    }
    CroppedSingleFrame(img.frames[0], rect, crop);
  }

  /** A 20x20 frame cropped to 50x50 at (-25, -25): the crop covers the
      whole image, so the canvas keeps the image's own size and the frame
      stays at the origin. */
  lemma CropBeyondCanvas(crop: Cropper, w: nat, h: nat)
    requires crop(Frame(20, 20, Page(0, 0, 20, 20)), Corners(-25, -25, 25, 25))
             == Ok(Frame(20, 20, Page(0, 0, w, h)))
    ensures Cropped(Image([Frame(20, 20, Page(0, 0, 20, 20))]), Corners(-25, -25, 25, 25), false, crop)
            == Ok(Image([Frame(20, 20, Page(0, 0, 20, 20))]))
  {
    var img := Image([Frame(20, 20, Page(0, 0, 20, 20))]);
    var rect: Rectangle := Corners(-25, -25, 25, 25);
    assert CropCanvas(img, rect) == Corners(0, 0, 20, 20) by {
      AtCorners(ImageSize(img), Origin);
    }
    CroppedSingleFrame(img.frames[0], rect, crop);
  }
}
