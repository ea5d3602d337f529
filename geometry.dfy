/**
 * Page geometry shared by extraction and embedding (src/utils/common.js):
 * page sizes from a pdf.js view box and rotation, the bottom-left to
 * top-left flip of annotation rectangles, rescaling between page sizes and
 * the QuadPoints of a text-markup annotation (section 12.5.6.10 of
 * ISO 32000-1). All arithmetic is exact over `real`.
 */
module Geometry {

  /** pdf.js `view`: the page's box [x0, y0, x1, y1] in default user space. */
  datatype ViewBox = ViewBox(x0: real, y0: real, x1: real, y1: real)

  /** `PageSize(width, height)`, the `{":width", ":height"}` record. */
  datatype PageSize = PageSize(width: real, height: real)

  /** A rectangle `[x0, y0, x1, y1]`. */
  datatype Rect = Rect(x0: real, y0: real, x1: real, y1: real)

  predicate Ordered(r: Rect)
  {
    r.x0 <= r.x1 && r.y0 <= r.y1
  }

  /**
   * The page `/Rotate` values (section 7.7.3.3 of ISO 32000-1) for which the
   * displayed page is a quarter turn from its media box.
   */
  predicate QuarterTurn(rotate: int)
  {
    rotate == 90 || rotate == 270
  }

  function Transposed(s: PageSize): PageSize
  {
    PageSize(s.height, s.width)
  }

  /** `getPageSize`: extents of the view box, swapped for a quarter turn. */
  function GetPageSize(view: ViewBox, rotate: int): PageSize
  {
    var width := view.x1 - view.x0;
    var height := view.y1 - view.y0;
    if QuarterTurn(rotate) then PageSize(height, width) else PageSize(width, height)
  }

  /**
   * An unrotated page measures its view box; the size is transposed exactly
   * for rotations of 90 and 270, whatever the view box.
   */
  lemma PageSizeRotation(view: ViewBox, rotate: int)
    ensures GetPageSize(view, 0) == PageSize(view.x1 - view.x0, view.y1 - view.y0)
    ensures GetPageSize(view, 180) == GetPageSize(view, 0)
    ensures QuarterTurn(rotate) ==> GetPageSize(view, rotate) == Transposed(GetPageSize(view, 0))
    ensures !QuarterTurn(rotate) ==> GetPageSize(view, rotate) == GetPageSize(view, 0)
    ensures view.x1 - view.x0 != view.y1 - view.y0 ==>
              (GetPageSize(view, rotate) == Transposed(GetPageSize(view, 0)) <==> QuarterTurn(rotate))
  {
  }

  /**
   * The flip applied to a pdf.js annotation `rect` [r0, r1, r2, r3] on a page
   * of height `height`: the bounding box [r0, H - r3, r2, H - r1] with its
   * origin in the top-left corner.
   */
  function ToTopLeft(r: Rect, height: real): Rect
  {
    Rect(r.x0, height - r.y1, r.x1, height - r.y0)
  }

  /**
   * The flip keeps width and height, keeps an ordered rectangle ordered,
   * keeps a rectangle that lies within the page within the page, and undoes
   * itself.
   */
  lemma ToTopLeftProperties(r: Rect, height: real)
    ensures ToTopLeft(r, height).x1 - ToTopLeft(r, height).x0 == r.x1 - r.x0
    ensures ToTopLeft(r, height).y1 - ToTopLeft(r, height).y0 == r.y1 - r.y0
    ensures Ordered(r) <==> Ordered(ToTopLeft(r, height))
    ensures 0.0 <= r.y0 <= r.y1 <= height ==>
              0.0 <= ToTopLeft(r, height).y0 <= ToTopLeft(r, height).y1 <= height
    ensures ToTopLeft(ToTopLeft(r, height), height) == r
  {
  }

  /**
   * `scaleRect`: x coordinates scale by target width over source width and
   * y coordinates by target height over source height. A zero source
   * dimension is excluded: the source divides by it unchecked.
   */
  function ScaleRect(r: Rect, source: PageSize, target: PageSize): Rect
    requires source.width != 0.0 && source.height != 0.0
  {
    var scaleX := target.width / source.width;
    var scaleY := target.height / source.height;
    Rect(r.x0 * scaleX, r.y0 * scaleY, r.x1 * scaleX, r.y1 * scaleY)
  }

  /** Rescaling to the same page size changes nothing. */
  lemma ScaleRectSameSize(r: Rect, size: PageSize)
    requires size.width != 0.0 && size.height != 0.0
    ensures ScaleRect(r, size, size) == r
  {
  }

  /** Doubling both page dimensions doubles every coordinate. */
  lemma ScaleRectDoubled(r: Rect, size: PageSize)
    requires size.width != 0.0 && size.height != 0.0
    ensures ScaleRect(r, size, PageSize(2.0 * size.width, 2.0 * size.height))
            == Rect(2.0 * r.x0, 2.0 * r.y0, 2.0 * r.x1, 2.0 * r.y1)
  {
  }

  /**
   * Every coordinate keeps its position relative to the page: a point at a
   * given fraction of the source page lies at the same fraction of the
   * target page.
   */
  lemma ScaleRectRelative(r: Rect, source: PageSize, target: PageSize)
    requires source.width != 0.0 && source.height != 0.0
    requires target.width != 0.0 && target.height != 0.0
    ensures ScaleRect(r, source, target).x0 / target.width == r.x0 / source.width
    ensures ScaleRect(r, source, target).y0 / target.height == r.y0 / source.height
    ensures ScaleRect(r, source, target).x1 / target.width == r.x1 / source.width
    ensures ScaleRect(r, source, target).y1 / target.height == r.y1 / source.height
  {
  }

  /** Rescaling there and back again returns the original rectangle. */
  lemma ScaleRectRoundTrip(r: Rect, source: PageSize, target: PageSize)
    requires source.width != 0.0 && source.height != 0.0
    requires target.width != 0.0 && target.height != 0.0
    ensures ScaleRect(ScaleRect(r, source, target), target, source) == r
  {
  }

  /** Positive page sizes keep an ordered rectangle ordered. */
  lemma ScaleRectOrdered(r: Rect, source: PageSize, target: PageSize)
    requires source.width > 0.0 && source.height > 0.0
    requires target.width > 0.0 && target.height > 0.0
    requires Ordered(r)
    ensures Ordered(ScaleRect(r, source, target))
  {
  }

  /**
   * `rectToQuadpoints`: one quadrilateral, its corners in the order
   * upper-left, upper-right, lower-left, lower-right.
   */
  function RectToQuadpoints(r: Rect): seq<seq<real>>
  {
    [[r.x0, r.y0, r.x1, r.y0, r.x0, r.y1, r.x1, r.y1]]
  }

  /** The rectangle spanned by a quad's upper-left and lower-right corners. */
  function QuadBounds(q: seq<real>): Rect
    requires |q| == 8
  {
    Rect(q[0], q[1], q[6], q[7])
  }

  /**
   * A rectangle gives exactly one axis-aligned quad of eight numbers whose
   * corners span that rectangle again.
   */
  lemma QuadpointsSpanRect(r: Rect)
    ensures |RectToQuadpoints(r)| == 1
    ensures var q := RectToQuadpoints(r)[0];
            |q| == 8 && QuadBounds(q) == r &&
            q[1] == q[3] && q[5] == q[7] && q[0] == q[4] && q[2] == q[6]
  {
  }

  /**
   * A highlight at [100, 700, 300, 750] captured on a 612 x 792 page and
   * placed on a 1224 x 1584 page covers [200, 1400, 600, 1500].
   */
  lemma ScaleExampleLetterToDouble()
    ensures ScaleRect(Rect(100.0, 700.0, 300.0, 750.0), PageSize(612.0, 792.0), PageSize(1224.0, 1584.0))
            == Rect(200.0, 1400.0, 600.0, 1500.0)
    ensures RectToQuadpoints(Rect(200.0, 1400.0, 600.0, 1500.0))
            == [[200.0, 1400.0, 600.0, 1400.0, 200.0, 1500.0, 600.0, 1500.0]]
  {
  }
}
