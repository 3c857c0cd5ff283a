/** The page arithmetic of `Image.resized` and `Image.cropped` in
`sanpera/image.py`.

The engine calls (`ResizeImage`, `ScaleImage`, `CropImage`) are parameters:
a resampler must return a frame of exactly the requested pixel size when it
succeeds, and a cropper is unconstrained. Every new image goes through the
`Image` constructor, which runs `_fix_page` on its frames.
 */
module Transforms {
  import opened Numeric
  import opened Errors
  import opened Geometry
  import opened Canvas

  /** `ResizeImage` or `ScaleImage`: resample a frame to a pixel size. */
  type Resampler = (Frame, nat, nat) -> Result<Frame>

  /** `CropImage`: crop a frame to a rectangle. */
  type Cropper = (Frame, Rectangle) -> Result<Frame>

  /** A resampler that succeeds returns exactly the pixel size asked for. */
  ghost predicate HonoursSize(resample: Resampler)
  {
    forall f: Frame, w: nat, h: nat :: resample(f, w, h).Ok? ==>
      resample(f, w, h).value.columns == w && resample(f, w, h).value.rows == h
  }

  /** The `filter` argument of `resized`: `'box'` selects `ScaleImage`,
      anything else `ResizeImage`. */
  datatype Filter = Box | Default

  /** The extent a resize ratio divides by: the first frame's page extent,
      or its pixel extent when the page's is 0. */
  function Divisor(pageExtent: nat, pixelExtent: nat): nat
  {
    if pageExtent != 0 then pageExtent else pixelExtent
  }

  /** The per-axis resize ratios `target / divisor`, when both divisors are
      non-zero. */
  function ResizeRatios(img: Image, target: Size): (r: (real, real))
    requires |img.frames| > 0
    requires Divisor(img.frames[0].page.width, img.frames[0].columns) != 0
    requires Divisor(img.frames[0].page.height, img.frames[0].rows) != 0
  {
    var f := img.frames[0];
    (target.x as real / Divisor(f.page.width, f.columns) as real,
     target.y as real / Divisor(f.page.height, f.rows) as real)
  }

  /** One iteration of the `resized` loop: resample the frame to the scaled
      pixel size, then overwrite the whole page. The new page has the target
      size and the original offset scaled by the canvas-level ratio, so it
      never depends on the rounded pixel size or on the page the engine
      reports. A negative size reaching an unsigned C field raises. */
  function ResizeFrame(p: Frame, target: Size, rw: real, rh: real, resample: Resampler): (r: Result<Frame>)
    requires HonoursSize(resample)
    ensures r.Ok? ==>
              && target.x >= 0 && target.y >= 0
              && r.value.columns == HalfUpTrunc(p.columns as real * rw)
              && r.value.rows == HalfUpTrunc(p.rows as real * rh)
              && r.value.page == Page(HalfUpTrunc(p.page.x as real * rw), HalfUpTrunc(p.page.y as real * rh),
                                      target.x, target.y)
    ensures (HalfUpTrunc(p.columns as real * rw) < 0 || HalfUpTrunc(p.rows as real * rh) < 0) ==> r == Err(NegativeUnsigned)
  {
    var fw := HalfUpTrunc(p.columns as real * rw);
    var fh := HalfUpTrunc(p.rows as real * rh);
    if fw < 0 || fh < 0 then Err(NegativeUnsigned)
    else
      match resample(p, fw, fh)
      case Err(e) => Err(e)
      case Ok(n) =>
        if target.x < 0 || target.y < 0 then Err(NegativeUnsigned)
        else Ok(Frame(n.columns, n.rows,
                      Page(HalfUpTrunc(p.page.x as real * rw), HalfUpTrunc(p.page.y as real * rh),
                           target.x, target.y)))
  }

  /** The `resized` loop over the stack, stopping at the first failure. */
  function ResizeFrames(frames: seq<Frame>, target: Size, rw: real, rh: real, resample: Resampler)
    : (r: Result<seq<Frame>>)
    requires HonoursSize(resample)
    ensures r.Ok? <==> forall i :: 0 <= i < |frames| ==> ResizeFrame(frames[i], target, rw, rh, resample).Ok?
    ensures r.Ok? ==> |r.value| == |frames|
    ensures r.Ok? ==> forall i :: 0 <= i < |frames| ==>
                        ResizeFrame(frames[i], target, rw, rh, resample) == Ok(r.value[i])
    decreases |frames|
  {
    if |frames| == 0 then Ok([])
    else
      match ResizeFrame(frames[0], target, rw, rh, resample)
      case Err(e) => Err(e)
      case Ok(f) =>
        match ResizeFrames(frames[1..], target, rw, rh, resample)
        case Err(e) =>
          assert exists i :: 1 <= i < |frames| && !ResizeFrame(frames[i], target, rw, rh, resample).Ok? by {
            var j :| 0 <= j < |frames[1..]| && !ResizeFrame(frames[1..][j], target, rw, rh, resample).Ok?;
            assert frames[1..][j] == frames[j + 1];
          }
          Err(e)
        case Ok(rest) =>
          assert forall i :: 1 <= i < |frames| ==> frames[i] == frames[1..][i - 1];
          Ok([f] + rest)
  }

  /** `Image.resized(size, filter)`, page arithmetic only. */
  function Resized(img: Image, target: Size, filter: Filter, scale: Resampler, resize: Resampler)
    : (r: Result<Image>)
    requires HonoursSize(scale) && HonoursSize(resize)
    ensures |img.frames| == 0 ==> r == Err(NullStack)
    ensures |img.frames| > 0 && (Divisor(img.frames[0].page.width, img.frames[0].columns) == 0
                                 || Divisor(img.frames[0].page.height, img.frames[0].rows) == 0)
            ==> r == Err(DivisionByZero)
    ensures r.Ok? ==> |r.value.frames| == |img.frames|
  {
    if |img.frames| == 0 then Err(NullStack)
    else
      var first := img.frames[0];
      if Divisor(first.page.width, first.columns) == 0 || Divisor(first.page.height, first.rows) == 0 then
        Err(DivisionByZero)
      else
        var (rw, rh) := ResizeRatios(img, target);
        var resample := if filter == Box then scale else resize;
        match ResizeFrames(img.frames, target, rw, rh, resample)
        case Err(e) => Err(e)
        case Ok(frames) => Ok(Image(FixPage(frames)))
  }

  /** What `resized` makes of each frame: the pixel size and the offset are
      scaled by the canvas-level ratios, and every page takes the target size,
      or the new pixel size when the target has a zero dimension. */
  lemma ResizedFrames(img: Image, target: Size, filter: Filter, scale: Resampler, resize: Resampler)
    requires HonoursSize(scale) && HonoursSize(resize)
    requires Resized(img, target, filter, scale, resize).Ok?
    ensures var (rw, rh) := ResizeRatios(img, target);
            var out := Resized(img, target, filter, scale, resize).value;
            forall i :: 0 <= i < |img.frames| ==>
              var f, g := img.frames[i], out.frames[i];
              && g.columns == HalfUpTrunc(f.columns as real * rw)
              && g.rows == HalfUpTrunc(f.rows as real * rh)
              && g.page.x == HalfUpTrunc(f.page.x as real * rw)
              && g.page.y == HalfUpTrunc(f.page.y as real * rh)
              && (target.x != 0 && target.y != 0 ==> g.page.width == target.x && g.page.height == target.y)
              && (target.x == 0 || target.y == 0 ==> g.page.width == g.columns && g.page.height == g.rows)
  {
    var (rw, rh) := ResizeRatios(img, target);
    var resample := if filter == Box then scale else resize;
    var frames := ResizeFrames(img.frames, target, rw, rh, resample).value;
    var out := Resized(img, target, filter, scale, resize).value;
    assert out.frames == FixPage(frames);
    forall i | 0 <= i < |img.frames|
      ensures out.frames[i] == FixFramePage(frames[i])
      ensures ResizeFrame(img.frames[i], target, rw, rh, resample) == Ok(frames[i])
    {
    }
  }

  /** Which engine call `resized` uses does not matter beyond the pixel size
      it returns: two resampler pairs that both succeed give the same image.
      In particular the pages come from the original offsets, never from
      what the engine reports. */
  lemma ResizedIgnoresEngine(img: Image, target: Size, filter: Filter,
                             scale1: Resampler, resize1: Resampler, scale2: Resampler, resize2: Resampler)
    requires HonoursSize(scale1) && HonoursSize(resize1) && HonoursSize(scale2) && HonoursSize(resize2)
    requires Resized(img, target, filter, scale1, resize1).Ok?
    requires Resized(img, target, filter, scale2, resize2).Ok?
    ensures Resized(img, target, filter, scale1, resize1) == Resized(img, target, filter, scale2, resize2)
  {
    var (rw, rh) := ResizeRatios(img, target);
    var s1 := if filter == Box then scale1 else resize1;
    var s2 := if filter == Box then scale2 else resize2;
    var f1 := ResizeFrames(img.frames, target, rw, rh, s1).value;
    var f2 := ResizeFrames(img.frames, target, rw, rh, s2).value;
    assert |f1| == |f2|;
    forall i | 0 <= i < |f1|
      ensures f1[i] == f2[i]
    {
      ResizeFrameIgnoresEngine(img.frames[i], target, rw, rh, s1, s2);
    }
    assert f1 == f2;
  }

  /** One frame's result does not depend on which size-honouring resampler
      produced it. */
  lemma ResizeFrameIgnoresEngine(p: Frame, target: Size, rw: real, rh: real, r1: Resampler, r2: Resampler)
    requires HonoursSize(r1) && HonoursSize(r2)
    requires ResizeFrame(p, target, rw, rh, r1).Ok? && ResizeFrame(p, target, rw, rh, r2).Ok?
    ensures ResizeFrame(p, target, rw, rh, r1) == ResizeFrame(p, target, rw, rh, r2)
  {
  }

  /** A resampler that never fails. */
  ghost predicate NeverFails(resample: Resampler)
  {
    forall f: Frame, w: nat, h: nat :: resample(f, w, h).Ok?
  }

  /** With a non-negative target, a non-degenerate first frame and engine
      calls that do not fail, `resized` succeeds. */
  lemma ResizedSucceeds(img: Image, target: Size, filter: Filter, scale: Resampler, resize: Resampler)
    requires HonoursSize(scale) && HonoursSize(resize) && NeverFails(scale) && NeverFails(resize)
    requires |img.frames| > 0
    requires Divisor(img.frames[0].page.width, img.frames[0].columns) != 0
    requires Divisor(img.frames[0].page.height, img.frames[0].rows) != 0
    requires target.x >= 0 && target.y >= 0
    ensures Resized(img, target, filter, scale, resize).Ok?
  {
    var (rw, rh) := ResizeRatios(img, target);
    assert rw >= 0.0 && rh >= 0.0;
    var resample := if filter == Box then scale else resize;
    forall i | 0 <= i < |img.frames|
      ensures ResizeFrame(img.frames[i], target, rw, rh, resample).Ok?
    {
      var p := img.frames[i];
      assert p.columns as real * rw >= 0.0;
      assert p.rows as real * rh >= 0.0;
    }
  }

  /** The `cropped` loop over the stack, stopping at the first failure. */
  function CropFrames(frames: seq<Frame>, rect: Rectangle, crop: Cropper): (r: Result<seq<Frame>>)
    ensures r.Ok? <==> forall i :: 0 <= i < |frames| ==> crop(frames[i], rect).Ok?
    ensures r.Ok? ==> |r.value| == |frames|
    ensures r.Ok? ==> forall i :: 0 <= i < |frames| ==> crop(frames[i], rect) == Ok(r.value[i])
    decreases |frames|
  {
    if |frames| == 0 then Ok([])
    else
      match crop(frames[0], rect)
      case Err(e) => Err(e)
      case Ok(f) =>
        match CropFrames(frames[1..], rect, crop)
        case Err(e) =>
          assert exists i :: 1 <= i < |frames| && !crop(frames[i], rect).Ok? by {
            var j :| 0 <= j < |frames[1..]| && !crop(frames[1..][j], rect).Ok?;
            assert frames[1..][j] == frames[j + 1];
          }
          Err(e)
        case Ok(rest) =>
          assert forall i :: 1 <= i < |frames| ==> frames[i] == frames[1..][i - 1];
          Ok([f] + rest)
  }

  /** The repage block of `cropped`: every offset moves by the same deltas,
      so the frames keep their placement relative to one another, and every
      page gets the same size; the pixels are not touched. */
  function Repage(frames: seq<Frame>, dx: int, dy: int, width: nat, height: nat): (r: seq<Frame>)
    ensures |r| == |frames|
    ensures forall i :: 0 <= i < |frames| ==> r[i].columns == frames[i].columns && r[i].rows == frames[i].rows
    ensures forall i :: 0 <= i < |frames| ==> r[i].page.width == width && r[i].page.height == height
    ensures forall i :: 0 <= i < |frames| ==> r[i].page.x + dx == frames[i].page.x && r[i].page.y + dy == frames[i].page.y
    ensures forall i, j :: 0 <= i < |frames| && 0 <= j < |frames| ==>
              && r[i].page.x - r[j].page.x == frames[i].page.x - frames[j].page.x
              && r[i].page.y - r[j].page.y == frames[i].page.y - frames[j].page.y
  {
    seq(|frames|, i requires 0 <= i < |frames| =>
      Frame(frames[i].columns, frames[i].rows, Page(frames[i].page.x - dx, frames[i].page.y - dy, width, height)))
  }

  /** The new canvas of a repaged crop: the crop rectangle intersected with
      the original image's extent at the origin. */
  function CropCanvas(img: Image, rect: Rectangle): Rectangle
  {
    Intersection(rect, At(ImageSize(img), Origin))
  }

  /** `Image.cropped(rect, preserve_canvas)`, page arithmetic only. */
  function Cropped(img: Image, rect: Rectangle, preserveCanvas: bool, crop: Cropper): (r: Result<Image>)
    ensures |img.frames| == 0 ==> r == Err(NullStack)
    ensures r.Ok? <==> |img.frames| > 0 && forall i :: 0 <= i < |img.frames| ==> crop(img.frames[i], rect).Ok?
    ensures r.Ok? ==> |r.value.frames| == |img.frames|
    ensures r.Ok? && preserveCanvas ==>
              forall i :: 0 <= i < |img.frames| ==>
                r.value.frames[i] == FixFramePage(crop(img.frames[i], rect).value)
    ensures r.Ok? && !preserveCanvas ==>
              var canvas := CropCanvas(img, rect);
              forall i :: 0 <= i < |img.frames| ==>
                var c := FixFramePage(crop(img.frames[i], rect).value);
                var g := r.value.frames[i];
                && g.columns == c.columns && g.rows == c.rows
                && g.page.x == c.page.x - MaxInt(rect.Left(), 0)
                && g.page.y == c.page.y - MaxInt(rect.Top(), 0)
                && g.page.width == canvas.Width() && g.page.height == canvas.Height()
  {
    match CropFrames(img.frames, rect, crop)
    case Err(e) => Err(e)
    case Ok(frames) =>
      if |frames| == 0 then Err(NullStack)
      else
        var fixed := FixPage(frames);
        if preserveCanvas then Ok(Image(fixed))
        else
          var canvas := CropCanvas(img, rect);
          Ok(Image(Repage(fixed, MaxInt(rect.Left(), 0), MaxInt(rect.Top(), 0), canvas.Width(), canvas.Height())))
  }

  /** A repaging crop of a one-frame image, spelled out. */
  lemma CroppedSingleFrame(f: Frame, rect: Rectangle, crop: Cropper)
    requires crop(f, rect).Ok?
    ensures var c := FixFramePage(crop(f, rect).value);
            var canvas := CropCanvas(Image([f]), rect);
            Cropped(Image([f]), rect, false, crop)
              == Ok(Image([Frame(c.columns, c.rows,
                                 Page(c.page.x - MaxInt(rect.Left(), 0), c.page.y - MaxInt(rect.Top(), 0),
                                      canvas.Width(), canvas.Height()))]))
  {
    var c0 := crop(f, rect).value;
    var r := CropFrames([f], rect, crop);
    assert [f][0] == f;
    assert r.Ok? && r.value[0] == c0;
    assert r.value == [c0];
    var c := FixFramePage(c0);
    assert FixPage([c0]) == [c];
    var canvas := CropCanvas(Image([f]), rect);
    var g := Frame(c.columns, c.rows, Page(c.page.x - MaxInt(rect.Left(), 0), c.page.y - MaxInt(rect.Top(), 0),
                                           canvas.Width(), canvas.Height()));
    assert Repage([c], MaxInt(rect.Left(), 0), MaxInt(rect.Top(), 0), canvas.Width(), canvas.Height()) == [g];
  }

  /** After a repaging crop, the image is never larger than the crop
      rectangle nor than the original image, and it is exactly their overlap
      when they overlap. */
  lemma CroppedSizeBounded(img: Image, rect: Rectangle, crop: Cropper)
    requires Cropped(img, rect, false, crop).Ok?
    ensures var s := ImageSize(Cropped(img, rect, false, crop).value);
            && 0 <= s.x <= rect.Width() && 0 <= s.y <= rect.Height()
            && s.x <= ImageSize(img).x && s.y <= ImageSize(img).y
    ensures var s := ImageSize(Cropped(img, rect, false, crop).value);
            var full := At(ImageSize(img), Origin);
            Overlap(rect.x1, rect.x2, full.x1, full.x2) && Overlap(rect.y1, rect.y2, full.y1, full.y2) ==>
              s == Intersection(rect, full).Size() && ContainsRect(full, Intersection(rect, full))
              && ContainsRect(rect, Intersection(rect, full))
  {
    var full := At(ImageSize(img), Origin);
    var canvas := CropCanvas(img, rect);
    var out := Cropped(img, rect, false, crop).value;
    assert ImageSize(out) == Vector(canvas.Width(), canvas.Height());
    if Overlap(rect.x1, rect.x2, full.x1, full.x2) && Overlap(rect.y1, rect.y2, full.y1, full.y2) {
      IntersectionIsGreatestCommonPart(rect, full, rect);
    }
  }

  /** A cropper that keeps each frame's pixel size and page offset, as the
      engine does when the crop covers the whole canvas. */
  ghost predicate KeepsFrames(crop: Cropper, rect: Rectangle)
  {
    forall f: Frame :: crop(f, rect).Ok? && crop(f, rect).value.columns == f.columns
      && crop(f, rect).value.rows == f.rows
      && crop(f, rect).value.page.x == f.page.x && crop(f, rect).value.page.y == f.page.y
  }

  /** Cropping an image to its own full canvas and repaging keeps the image
      size and every frame's pixel size and offset; when every frame's page
      already had the image size, the image comes back unchanged. */
  lemma CropToFullCanvas(img: Image, crop: Cropper)
    requires |img.frames| > 0
    requires KeepsFrames(crop, At(ImageSize(img), Origin))
    ensures var out := Cropped(img, At(ImageSize(img), Origin), false, crop);
            && out.Ok?
            && ImageSize(out.value) == ImageSize(img)
            && |out.value.frames| == |img.frames|
            && (forall i :: 0 <= i < |img.frames| ==>
                  FrameSize(out.value.frames[i]) == FrameSize(img.frames[i])
                  && FrameCanvas(out.value.frames[i]) == FrameCanvas(img.frames[i]))
    ensures (forall i :: 0 <= i < |img.frames| ==>
               Vector(img.frames[i].page.width, img.frames[i].page.height) == ImageSize(img))
            ==> Cropped(img, At(ImageSize(img), Origin), false, crop) == Ok(img)
  {
    var full := At(ImageSize(img), Origin);
    IntersectionWithContainer(full, full);
    assert CropCanvas(img, full) == full;
    var out := Cropped(img, full, false, crop).value;
    forall i | 0 <= i < |img.frames|
      ensures FrameSize(out.frames[i]) == FrameSize(img.frames[i])
      ensures FrameCanvas(out.frames[i]) == FrameCanvas(img.frames[i])
      ensures Vector(img.frames[i].page.width, img.frames[i].page.height) == ImageSize(img) ==>
                out.frames[i] == img.frames[i]
    {
    }
    if forall i :: 0 <= i < |img.frames| ==>
         Vector(img.frames[i].page.width, img.frames[i].page.height) == ImageSize(img) {
      assert out.frames == img.frames;
    }
  }
}
