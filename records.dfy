/**
 * The records exchanged between the PDF annotation layer and Logseq
 * (src/types.d.ts): pdf.js' view of a page and its annotations on the
 * way in, and the Logseq highlight record on the way out.
 */
module Records {
  import opened Wrappers
  import opened Geometry
  import opened Color

  /** A pdf.js annotation as `getAnnotations` lists it. */
  datatype PdfJsAnnotation = PdfJsAnnotation(
    subtype: string,
    rect: Rect,                 // PDF-native, origin bottom-left
    color: Rgb,
    overlaidText: Option<string>,
    title: string)              // `titleObj.str`

  /** A pdf.js page: its `view`, its `/Rotate` entry and its annotations. */
  datatype PdfJsPage = PdfJsPage(view: ViewBox, rotate: int, annotations: seq<PdfJsAnnotation>)

  /** `{":x1", ":y1", ":x2", ":y2", ":width", ":height"}` */
  datatype Box = Box(x1: real, y1: real, x2: real, y2: real, width: real, height: real)

  /** `":position"` */
  datatype Position = Position(bounding: Box, rects: seq<Box>, page: int)

  /** `LogseqHighlightAnnotation`: one highlight as Logseq stores it. */
  datatype Highlight = Highlight(
    page: int,
    color: ColorName,           // `":properties" {":color" …}`
    position: Position,
    text: Option<string>,       // `":content" {":text" …}`
    id: string,                 // `":id #uuid"`
    author: string)

  /** `{ ...bounding, ...pageSize }`: a rectangle extended with its page's size. */
  function BoxOf(r: Rect, size: PageSize): Box
  {
    Box(r.x0, r.y0, r.x1, r.y1, size.width, size.height)
  }

  function RectOfBox(b: Box): Rect
  {
    Rect(b.x1, b.y1, b.x2, b.y2)
  }

  function SizeOfBox(b: Box): PageSize
  {
    PageSize(b.width, b.height)
  }

  /** A box splits back into the rectangle and the page size it was built from. */
  lemma BoxRoundTrip(r: Rect, size: PageSize)
    ensures RectOfBox(BoxOf(r, size)) == r && SizeOfBox(BoxOf(r, size)) == size
  {
  }
}
