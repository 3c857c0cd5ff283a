/** Frames and images of `sanpera/image.py`, reduced to their page (virtual
canvas) bookkeeping.

A frame is its pixel size (`columns` x `rows`) plus its page: the offset and
extent of the logical canvas it is drawn on. Pixel content is not modelled.
The unsigned C fields (`columns`, `rows`, page width and height) are `nat`;
the page offset is a signed `int`.
 */
module Canvas {
  import opened Geometry

  datatype Page = Page(x: int, y: int, width: nat, height: nat)

  datatype Frame = Frame(columns: nat, rows: nat, page: Page)

  /** An image: its frames in stack order. No frames is the null stack. */
  datatype Image = Image(frames: seq<Frame>)

  /** `ImageFrame.canvas`: the frame's pixel extent placed at its page
      offset. */
  function FrameCanvas(f: Frame): (r: Rectangle)
    ensures r.Size() == FrameSize(f)
    ensures r.Position() == Vector(f.page.x, f.page.y)
  {
    NewRectangle(f.page.x, f.page.y, f.page.x + f.columns, f.page.y + f.rows)
  }

  /** `ImageFrame.size`: the pixel size, not the page size. */
  function FrameSize(f: Frame): Size
  {
    Vector(f.columns, f.rows)
  }

  /** `ImageFrame.has_canvas`. */
  predicate FrameHasCanvas(f: Frame)
  {
    f.page.x != 0 || f.page.y != 0 || f.page.width != f.columns || f.page.height != f.rows
  }

  /** A frame has no canvas exactly when its canvas is its own pixel extent
      at the origin and its page is as large as its pixels. */
  lemma FrameHasCanvasIff(f: Frame)
    ensures !FrameHasCanvas(f) <==>
              FrameCanvas(f) == At(FrameSize(f), Origin)
              && Vector(f.page.width, f.page.height) == FrameSize(f)
  {
  }

  /** `Image.size`: the first frame's page size; the empty image has the
      empty size. */
  function ImageSize(img: Image): (s: Size)
    ensures |img.frames| == 0 ==> s == Empty
    ensures |img.frames| > 0 ==> s == Vector(img.frames[0].page.width, img.frames[0].page.height)
    ensures s.x >= 0 && s.y >= 0
  {
    if |img.frames| == 0 then Empty
    else Vector(img.frames[0].page.width, img.frames[0].page.height)
  }

  /** `Image.has_canvas`: some frame has a canvas. */
  predicate ImageHasCanvas(img: Image)
  {
    exists i :: 0 <= i < |img.frames| && FrameHasCanvas(img.frames[i])
  }

  /** `Image.has_canvas` is false exactly when every frame's canvas is its
      own pixel extent at the origin; an image without a canvas then reports
      its first frame's pixel size as its size, and the empty image has no
      canvas. */
  lemma ImageHasCanvasIff(img: Image)
    ensures !ImageHasCanvas(img) <==>
              forall i :: 0 <= i < |img.frames| ==>
                && FrameCanvas(img.frames[i]) == At(FrameSize(img.frames[i]), Origin)
                && Vector(img.frames[i].page.width, img.frames[i].page.height) == FrameSize(img.frames[i])
    ensures |img.frames| > 0 && !ImageHasCanvas(img) ==> ImageSize(img) == FrameSize(img.frames[0])
    ensures |img.frames| == 0 ==> !ImageHasCanvas(img)
  {
    forall i | 0 <= i < |img.frames|
      ensures !FrameHasCanvas(img.frames[i]) <==>
                FrameCanvas(img.frames[i]) == At(FrameSize(img.frames[i]), Origin)
                && Vector(img.frames[i].page.width, img.frames[i].page.height) == FrameSize(img.frames[i])
    {
      FrameHasCanvasIff(img.frames[i]);
    }
  }

  /** One frame of `_fix_page`: a page with a zero width or height takes the
      frame's pixel size; its offset, the pixels, and a page that was not
      degenerate stay. */
  function FixFramePage(f: Frame): (r: Frame)
    ensures PageRepaired(r)
    ensures r.columns == f.columns && r.rows == f.rows
    ensures r.page.x == f.page.x && r.page.y == f.page.y
    ensures f.page.width != 0 && f.page.height != 0 ==> r == f
    ensures f.page.width == 0 || f.page.height == 0 ==> Vector(r.page.width, r.page.height) == FrameSize(f)
  {
    if f.page.width == 0 || f.page.height == 0 then
      Frame(f.columns, f.rows, Page(f.page.x, f.page.y, f.columns, f.rows))
    else f
  }

  /** `Image._fix_page`, run by the `Image` constructor on every frame: each
      page ends up repaired, keeping the frame's pixels and offset; a page
      that was not degenerate is kept whole and a degenerate one becomes the
      frame's pixel size. */
  function FixPage(frames: seq<Frame>): (r: seq<Frame>)
    ensures |r| == |frames|
    ensures forall i :: 0 <= i < |frames| ==> PageRepaired(r[i])
    ensures forall i :: 0 <= i < |frames| ==>
              && r[i].columns == frames[i].columns && r[i].rows == frames[i].rows
              && r[i].page.x == frames[i].page.x && r[i].page.y == frames[i].page.y
    ensures forall i :: 0 <= i < |frames| && frames[i].page.width != 0 && frames[i].page.height != 0 ==>
              r[i] == frames[i]
    ensures forall i :: 0 <= i < |frames| && (frames[i].page.width == 0 || frames[i].page.height == 0) ==>
              Vector(r[i].page.width, r[i].page.height) == FrameSize(frames[i])
  {
    seq(|frames|, i requires 0 <= i < |frames| => FixFramePage(frames[i]))
  }

  /** A repaired page is never degenerate unless the pixels are, and
      repairing only touches page sizes. */
  predicate PageRepaired(f: Frame)
  {
    (f.page.width != 0 && f.page.height != 0)
    || (f.page.width == f.columns && f.page.height == f.rows)
  }

  /** `_fix_page` is idempotent: a second pass changes nothing. */
  lemma {:induction false} FixPageIdempotent(frames: seq<Frame>)
    ensures FixPage(FixPage(frames)) == FixPage(frames)
  {
    var once := FixPage(frames);
    var twice := FixPage(once);
    assert |twice| == |once|;
    forall i | 0 <= i < |once|
      ensures twice[i] == once[i]
    {
    }
  }

  /** `_fix_page` leaves `Image.size` repaired: an image whose first frame
      had a degenerate page reports its pixel size instead. */
  lemma FixPageImageSize(frames: seq<Frame>)
    requires |frames| > 0
    ensures var s := ImageSize(Image(FixPage(frames)));
            var f := frames[0];
            if f.page.width == 0 || f.page.height == 0 then s == FrameSize(f)
            else s == Vector(f.page.width, f.page.height)
  {
  }
}
