# logseq-pam highlight pipeline in Dafny

This project models the core of the logseq-pam Logseq plugin. The plugin moves PDF highlight annotations between a PDF and a Logseq graph in both directions.

- **Import.** pdf.js reads every page of a PDF and lists its annotations. Each annotation of subtype `Highlight` becomes a Logseq highlight record. A record holds:
  - the page number;
  - the nearest colour of a five-colour palette;
  - a bounding box flipped to a top-left origin, with the page's size;
  - the overlaid text, a fresh block uuid and the author.
- **Embed.** The plugin reads the records back from the EDN sidecar. It skips the ones whose ids are already marked on the `hls__` highlights page. It converts the rest to embedding records, then adds one mupdf highlight annotation per record. Each annotation's rectangle is rescaled to the target page and becomes one QuadPoints quadrilateral. The document is saved once, incrementally.
- **Path resolution.** `resolvePDFPath` finds the PDF a block links to.

The modules, one file each:

| module | file | models |
|---|---|---|
| `Wrappers` | wrappers.dfy | `Option` and `Result` |
| `JsString` | jsstring.dfy | `String.prototype.replace` with a string pattern, which replaces only the leftmost occurrence |
| `Geometry` | geometry.dfy | `getPageSize`, `PageSize`, the rectangle flip, `scaleRect` and `rectToQuadpoints`, in exact `real` arithmetic |
| `Color` | color.dfy | `COLORS` and `detectColor` |
| `Records` | records.dfy | the record shapes of `src/types.d.ts` |
| `Extract` | extract.dfy | `getHighlightAnnotations` and the page loop of `extractAnnotationsFromPDF` |
| `Marked` | marked.dfy | `getMarkedBlocks` and the `hls__` page naming |
| `Embed` | embed.dfy | the preparation loop of `embedAnnotations`, `embedHighlights` over a `PdfDocument` class (the mupdf document: pages whose annotation lists grow, plus saved revisions), and the command from the resolved file name on |
| `PdfPath` | pdfpath.dfy | `resolvePDFPath`: the regular expression `/\]\(([^)]+\.pdf)/` as leftmost and greedy matching, then `split("/")` |

Four things outside the plugin become parameters:

- **Delta-E.** chroma-js' distance is the function `deltaE: (Rgb, Rgb) -> real`.
- **Block uuids.** Logseq's `newBlockUUID` is an oracle `uuid: nat -> string`. Its n-th answer is `uuid(n)`, and `start` counts the calls already made.
- **Page blocks.** `getPageBlocksTree` is a function `string -> Option<seq<Block>>`. It gives `None` (JavaScript's `null`) for a page that does not exist.
- **Assets directory.** It is a pair of maps from file names to sidecar contents and to PDF pages.

## Model

| member | source | states |
|---|---|---|
| `Geometry.PageSizeRotation` | src/utils/common.js:13-22 | An unrotated page (and one rotated 180°) measures its view box. Rotations of 90 and 270 transpose it. On a non-square page, the size is transposed exactly when the rotation is 90 or 270. |
| `Geometry.ToTopLeftProperties` | src/utils/common.js:139-144 | The flip [r0, H-r3, r2, H-r1] keeps width and height, keeps a rectangle ordered exactly when it was, keeps a rectangle inside the page inside the page, and is its own inverse. |
| `Geometry.ScaleRectSameSize` | src/utils/common.js:277-285 | Rescaling to the same page size is the identity. |
| `Geometry.ScaleRectDoubled` | src/utils/common.js:277-285 | Doubling both page dimensions doubles every coordinate. |
| `Geometry.ScaleRectRelative` | src/utils/common.js:277-285 | Each coordinate keeps its fraction of the page width or height. |
| `Geometry.ScaleRectRoundTrip` | src/utils/common.js:277-285 | Rescaling from source to target and back gives the original rectangle. |
| `Geometry.ScaleRectOrdered` | src/utils/common.js:277-285 | With positive page sizes, an ordered rectangle stays ordered. |
| `Geometry.QuadpointsSpanRect` | src/utils/common.js:246-254 | A rectangle gives exactly one axis-aligned quad of eight numbers, and its corners span the rectangle again. |
| `Geometry.ScaleExampleLetterToDouble` | src/utils/common.js:277-285 | [100,700,300,750] on a 612x792 page becomes [200,1400,600,1500] on a 1224x1584 page, with the expected quad. |
| `Color.ColorByNameInverse` | src/utils/common.js:162-168 | Looking a name up in `COLORS` inverts naming. Exactly the five palette keys are found. |
| `Color.FirstMinIndex` | src/utils/common.js:185-187 | The element a stable ascending sort puts first: no entry is smaller, and every earlier entry is strictly larger. |
| `Color.NearestIsFirstMinimum` | src/utils/common.js:174-189 | No palette entry is nearer than the chosen one. Every entry declared before it is strictly farther, so ties go to declaration order. |
| `Color.NearestOfPaletteColor` | src/utils/common.js:162-189 | A palette colour classifies to itself, given that Delta-E is zero on equal colours and positive on the others. |
| `Color.DetectColor` | src/utils/common.js:174-189 | The loop that fills the `deltae` dictionary, followed by the first sorted key, yields the nearest palette colour. Its distance is minimal over the palette. |
| `Records.BoxRoundTrip` | src/utils/common.js:139-150 | `{...bounding, ...pageSize}` splits back into the rectangle and the page size. |
| `Extract.MakeHighlightShape` | src/utils/common.js:138-156 | A record's bounding box is [r0, H-r3, r2, H-r1] with the page size, keeps the annotation's height and flips back to the annotation's rect. It is the only entry of `:rects`. Both page fields are the page number. Colour, id, text and author are those of the annotation. |
| `Extract.HighlightAnnotationsAppend` | src/utils/common.js:136-137 | Filtering by subtype distributes over concatenation. |
| `Extract.HighlightAnnotationsMembers` | src/utils/common.js:136-137 | Exactly the annotations of subtype "Highlight" are kept. The result is empty exactly when no annotation is a highlight. |
| `Extract.HighlightAnnotationsCount` | src/utils/common.js:136-137 | Each "Highlight" annotation is kept exactly as often as it occurs, and any other annotation never. |
| `Extract.HighlightAnnotationsExample` | src/utils/common.js:137 | "Underline", "StrikeOut" and lower-case "highlight" are dropped. Two "Highlight" annotations are kept in order. |
| `Extract.GetHighlightAnnotations` | src/utils/common.js:134-160 | The per-page loop yields one record per highlight annotation, in order. The k-th record gets the k-th fresh uuid. |
| `Extract.ExtractAnnotationsFromPdf` | src/utils/common.js:107-125 | The page loop concatenates the records of pages 1..numPages. Pages without annotations are skipped. The result is `undefined` exactly when there are no records. |
| `Extract.LocatedHighlightsOnPage` | src/utils/common.js:110-119 | Each located entry names an existing page, and its annotation is a highlight of that page. |
| `Extract.LocatedHighlightsAscending` | src/utils/common.js:110-119 | Located entries come in ascending page order. |
| `Extract.LocatedHighlightsComplete` | src/utils/common.js:110-119 | Every highlight annotation of every page is located, with its 1-based page number. |
| `Extract.DocRecordsAreLocated` | src/utils/common.js:110-156 | The k-th document record is built from the k-th located annotation, on its page with that page's size, under the k-th fresh uuid. |
| `Extract.DocRecordsCount` | src/utils/common.js:110-119 | There are as many records as highlight annotations in the document. |
| `Extract.DocRecordIds` | src/utils/common.js:154 | The k-th record carries the k-th uuid handed out. |
| `Extract.DocRecordIdsDistinct` | src/utils/common.js:154 | If the uuid source never repeats, no two records share an id. |
| `Extract.DocRecordsPageOrder` | src/utils/common.js:110-151 | Records lie on pages of the document, with equal `:page` and `:position :page`, in ascending page order. |
| `Extract.ExtractNothingIff` | src/utils/common.js:121 | Extraction yields nothing exactly when no page has an annotation of subtype "Highlight". |
| `Extract.ReextractionRenamesIds` | src/utils/common.js:145-156 | Extracting the same document twice gives the same records, but under ids disjoint from the first pass's. |
| `JsString.ReplaceFirstAt` | src/utils/common.js:259 | `replace` with a string pattern rewrites only the leftmost occurrence and keeps the text around it. |
| `Marked.GetMarkedBlocks` | src/utils/common.js:256-268 | The walk over the blocks of `"hls__" + name.replace(".md", "")` collects, in order, the `id` property of each block that carries the marker. Blocks without properties are skipped. A page with no block tree (`null`) makes the walk fail. |
| `Marked.MarkedIdsMembers` | src/utils/common.js:261-266 | An id is reported exactly when some block carries both the marker and that id. There are no more entries than blocks, and none when no block is marked. |
| `Marked.MarkedIdsPerBlock` | src/utils/common.js:261-266 | There is one entry per marked block: the k-th id is the `id` property of the k-th marked block. |
| `Marked.MarkedBlocksCount` | src/utils/common.js:261-266 | Each marked block is listed exactly as often as it occurs in the page, and an unmarked block never. |
| `Marked.HlsPageNameExamples` | src/utils/common.js:257-259 | A name without ".md" only gains the prefix. "paper.md" gives "hls__paper". |
| `Embed.ConvertSpec` | src/loseqCommands/embedAnnotations.js:81-89 | A highlight converts exactly when it has a first rect and a palette colour. The record keeps page and author, takes the first rect's width and height as the source size and its corners as the rectangle, and takes the palette RGB. An empty rect list fails. |
| `Embed.SurvivorsMembers` | src/loseqCommands/embedAnnotations.js:78-80 | Exactly the highlights whose id is not marked are converted. None are when all are marked. |
| `Embed.SurvivorsCount` | src/loseqCommands/embedAnnotations.js:77-80 | Each unmarked highlight survives deduplication exactly as often as it occurs in the sidecar, and a marked one never. |
| `Embed.PrepareErrorSticks` | src/loseqCommands/embedAnnotations.js:77-90 | After the first failing conversion, later highlights do not change the outcome. |
| `Embed.PrepareRecords` | src/loseqCommands/embedAnnotations.js:77-90 | The loop gives the error of the first failing unmarked highlight, or the converted unmarked highlights in order. |
| `Embed.PrepareSpec` | src/loseqCommands/embedAnnotations.js:77-90 | Preparation succeeds exactly when every unmarked highlight converts. On success, the k-th record is the k-th survivor's conversion. |
| `Embed.PrepareFirstError` | src/loseqCommands/embedAnnotations.js:84-88 | A failure reports the error of the first survivor that does not convert. Every survivor before it converts. |
| `Embed.PrepareScalable` | src/loseqCommands/embedAnnotations.js:78-85 | Records take their source page size from the first rect of the unmarked highlights. When those rects are sized, the records can be rescaled; marked highlights are never read. |
| `Embed.PdfDocument.Open` | src/loseqCommands/embedAnnotations.js:148 | The opened document holds the file's pages, with nothing saved. |
| `Embed.PdfDocument.CreateHighlight` | src/loseqCommands/embedAnnotations.js:159-165 | A new highlight annotation with the given colour, author and quads is appended to one page. Nothing else changes. |
| `Embed.PdfDocument.SaveToBuffer` | src/loseqCommands/embedAnnotations.js:167 | The saved revision is the current pages. The pages themselves do not change. |
| `Embed.Embedded` | src/loseqCommands/embedAnnotations.js:149-166 | Embedding keeps the number of pages and every page's bounds. |
| `Embed.EmbeddedPerPage` | src/loseqCommands/embedAnnotations.js:149-166 | Each page's annotations become its old annotations followed by those of the records targeting it (`page - 1`), in record order. |
| `Embed.EmbeddedFrame` | src/loseqCommands/embedAnnotations.js:149-166 | Each page keeps its annotations as a prefix and gains one per record targeting it. A page no record targets is unchanged. |
| `Embed.NewAnnotationSpec` | src/loseqCommands/embedAnnotations.js:150-165 | An added annotation is a "Highlight" with the record's colour. It has the author only when the author is truthy. It has one quad spanning the record's rect rescaled to (bounds[2], bounds[3]). |
| `Embed.EmbedHighlights` | src/loseqCommands/embedAnnotations.js:147-169 | Success happens exactly when every record names an existing page. The document then holds the embedded pages and one incremental revision. Otherwise the error names the first bad record, the document holds the records before it, and nothing is saved. |
| `Embed.SidecarNameMismatch` | src/loseqCommands/embedAnnotations.js:51-54 | The sidecar name as written: for "pdf-guide.pdf", embedding looks for "edn-guide.pdf" but the import wrote "pdf-guide.edn". |
| `Embed.SidecarNameSwapsExtension` | src/loseqCommands/importAnnotations.js:68-71 | Replacing the first ".pdf" changes only the extension of a name whose only ".pdf" is its extension. |
| `Embed.DedupPageMismatch` | src/loseqCommands/embedAnnotations.js:76 | The highlights page as written: for "a.md.pdf", embedding queries "hls__a" but the import created "hls__a.md". |
| `Embed.DedupPageOfPdfName` | src/loseqCommands/importAnnotations.js:76-78 | The page the import creates for `stem + ".pdf"` is `"hls__" + stem`, when neither ".pdf" nor ".md" occurs earlier. |
| `Embed.EmbedAnnotations` | src/loseqCommands/embedAnnotations.js:51-107 | These outcomes are distinguished: a missing PDF or sidecar; no `highlights` key, or no unmarked highlight; a highlights page that does not exist, whose null block tree makes `getMarkedBlocks` throw; a preparation error; an embedding error, which names the first prepared record whose page does not exist and that page. When every record is on a page, the result is the revision of the embedded file. |
| `Embed.ReembedOnSamePage` | src/utils/common.js:139-150 | An extracted record reads back as a record with the same page, author, size, flipped rectangle and colour. On a page of the same size, its quad is exactly the flipped annotation rectangle. |
| `PdfPath.FirstLink` | src/utils/fs-util.js:142 | The match is at the leftmost position where the expression matches, and it is the longest capture there. |
| `PdfPath.SplitJoin` | src/utils/fs-util.js:144 | Joining the segments of `split("/")` gives back the path. No segment holds "/". |
| `PdfPath.JoinSplit` | src/utils/fs-util.js:144 | Splitting the join of "/"-free segments gives the segments back. |
| `PdfPath.ResolvePdfPathSpec` | src/utils/fs-util.js:141-146 | No match gives `undefined` exactly when no position matches. A match comes from the leftmost "](" that starts a link, and its path is the longest capture. The path ends in ".pdf" after at least one character, holds no ")", and is what the segments join back to. |
| `PdfPath.ResolvePdfPathSegments` | src/utils/fs-util.js:141-146 | The list of segments is never empty, and no segment holds "/" (a segment can be empty, as in "/x.pdf"). The last segment, which callers `pop()` as the file name, ends the path. |
| `PdfPath.ResolveGreedyExample` | src/utils/fs-util.js:142 | "](a.pdf.pdf)" captures "a.pdf.pdf", running to the last ".pdf" before ")". |
| `PdfPath.ResolveLeftmostExample` | src/utils/fs-util.js:142 | "[d](../a/d.pdf) [e](e.pdf)" resolves to ["..", "a", "d.pdf"]: only the leftmost link counts. |

## Left out

- pdf.js and mupdf internals (parsing, `getAnnotations`, `getBounds`, writing bytes): documents are given as page lists, and a saved buffer is a `Revision` value.
- Loading pdf.js can fail, which makes `extractAnnotationsFromPDF` return `undefined`. A document that fails to parse rejects the promise. Neither is modelled, since both belong to the library.
- chroma-js Delta-E is a parameter, not the CIEDE2000 formula. Floating-point rounding is not modelled, and all geometry is exact over `real`.
- Extract.MakeHighlightShape: a null `annot.color` or a missing `titleObj` (both throw in the source) are not modelled. Annotations always carry an RGB colour and a title string.
- Geometry.ScaleRectSameSize: a zero source page dimension is excluded by `requires` on `ScaleRect`. The source divides by it unchecked and would produce Infinity or NaN.
- Embed.EmbedHighlights: it requires every record to have a non-zero source page size, for the same reason.
- The EDN text (`objToLogseqEDN`, `parseEDNString`) is not modelled. `Embed.Stored` keeps exactly the fields that embedding reads back. A missing `author` reads as "".
- mupdf's interpretation of `setColor` with 0–255 channel values is not modelled. The annotation records the RGB it was given.
- `createAnnotation`, `setColor`, `setAuthor`, `setQuadPoints` and `update` are one primitive, `PdfDocument.CreateHighlight`.
- Child blocks of a highlights page are not walked, as in the source.
- Logseq's `newBlockUUID` is an oracle, so uniqueness of ids is a hypothesis of `Extract.DocRecordIdsDistinct`.
- File handles, `readFile`, `writeFile`, the export file picker, `reportStatus` and UI messages are not modelled, and neither is the re-import that `embedAnnotations` triggers at its end. `Embed.EmbedAnnotations` starts from the resolved file name and ends with the baked revision.
- `creatMDContent`, `removeMarkedBlocks`, `importAnnotations`, `uploadWithAnnotations`, command registration and the settings UI are outside this model. Only the file names `importAnnotations` derives are used, for the findings below.
- Page numbers of sidecar records are integers. A non-integer `page` in the EDN would make mupdf's `loadPage` fail differently, and is not modelled.
- Embed.EmbedAnnotations: it uses the corrected sidecar name and highlights page from the findings below, not the names as written.
- Embed.EmbedAnnotations: it requires the first rects of the unmarked highlights of the PDF's own sidecar to have a non-zero size, since those are the rects rescaled by `embedHighlights`.

## Findings

| source | as written | input that shows it | evidently intended | confidence | as-written member | corrected member |
|---|---|---|---|---|---|---|
| src/loseqCommands/embedAnnotations.js:52 | The sidecar is looked up as `fileName.replace("pdf", "edn")`, which replaces the first "pdf" anywhere in the name. The import writes it as `name.replace(".pdf", ".edn")` (src/loseqCommands/importAnnotations.js:69). | "pdf-guide.pdf": embedding looks for "edn-guide.pdf", but the import wrote "pdf-guide.edn". | Replace the ".pdf" extension, as the import does. | high (not executed) | `Embed.SidecarNameMismatch` | `Embed.SidecarNameSwapsExtension` |
| src/loseqCommands/embedAnnotations.js:76 | Marked blocks are queried on `getMarkedBlocks(name.replace(".pdf", ""))`. The import creates the page from `name.replace(".pdf", ".md")` (src/loseqCommands/importAnnotations.js:78), and both strip the first ".md" (src/utils/common.js:54, 259). | "a.md.pdf": embedding queries "hls__a", but the import created "hls__a.md". When no "hls__a" page exists, `getPageBlocksTree` gives `null`, the walk at src/utils/common.js:261 throws and nothing is embedded. When an unrelated "hls__a" page exists (from importing "a.pdf", say), its marks are used instead, so highlights already embedded are embedded again. | Query the page that the import created. | medium (not executed) | `Embed.DedupPageMismatch` | `Embed.DedupPageOfPdfName` |
