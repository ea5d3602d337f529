/**
 * Embedding highlight records back into a PDF
 * (src/loseqCommands/embedAnnotations.js): the record-preparation loop of
 * `embedAnnotations` and `embedHighlights`, which adds one highlight
 * annotation per record to an opened mupdf document and saves it once,
 * incrementally. The mupdf document is the class `PdfDocument`, a store of
 * pages whose annotation lists only grow.
 */
module Embed {
  import opened Wrappers
  import opened JsString
  import opened Geometry
  import opened Color
  import opened Records
  import opened Marked
  import Extract

  /**
   * A highlight as read back from the EDN sidecar: its page, author,
   * `position.rects.list`, colour name and `id.val`. A missing author
   * reads as "".
   */
  datatype StoredHighlight = StoredHighlight(page: int, author: string, rects: seq<Box>,
                                             color: string, id: string)

  /** A prepared record (`unMarked`): page, author, source page size, rectangle and RGB colour. */
  datatype EmbedRecord = EmbedRecord(page: int, author: string, pageSize: PageSize, rect: Rect, color: Rgb)

  /**
   * What makes the preparation loop throw: an empty `rects.list` (reading
   * `width` of `undefined`) or a colour name that is not a key of `COLORS`
   * (calling `map` on `undefined`).
   */
  datatype PrepareError = NoRect(id: string) | UnknownColor(id: string, name: string)

  /** Already embedded: its id is among the marked ids. */
  predicate AlreadyMarked(h: StoredHighlight, marked: seq<Option<string>>)
  {
    Some(h.id) in marked
  }

  /** The conversion of one unmarked highlight; only the first rect is read. */
  function Convert(h: StoredHighlight): Result<EmbedRecord, PrepareError>
  {
    if |h.rects| == 0 then Err(NoRect(h.id))
    else
      var rectObj := h.rects[0];
      match ColorByName(h.color)
      case None => Err(UnknownColor(h.id, h.color))
      case Some(c) => Ok(EmbedRecord(h.page, h.author, SizeOfBox(rectObj), RectOfBox(rectObj), RgbOf(c)))
  }

  /**
   * A highlight converts when it has a rect and a palette colour; the record
   * then keeps its page and author, takes width and height of the first
   * rect as the source page size, its corners as the rectangle and the
   * palette RGB of its colour.
   */
  lemma ConvertSpec(h: StoredHighlight)
    ensures Convert(h).Ok? <==> |h.rects| > 0 && ColorByName(h.color).Some?
    ensures |h.rects| == 0 ==> Convert(h) == Err(NoRect(h.id))
    ensures Convert(h).Ok? ==>
              var r := Convert(h).value;
              var b := h.rects[0];
              r.page == h.page && r.author == h.author &&
              r.pageSize == PageSize(b.width, b.height) &&
              r.rect == Rect(b.x1, b.y1, b.x2, b.y2) &&
              NameOf(ColorByName(h.color).value) == h.color &&
              r.color == RgbOf(ColorByName(h.color).value)
  {
    if Convert(h).Ok? {
      ColorByNameInverse(h.color, ColorByName(h.color).value);
    }
  }

  /** The highlights not yet marked, in their original order. */
  function Survivors(hs: seq<StoredHighlight>, marked: seq<Option<string>>): seq<StoredHighlight>
  {
    if |hs| == 0 then []
    else
      var last := hs[|hs| - 1];
      Survivors(hs[..|hs| - 1], marked) + (if AlreadyMarked(last, marked) then [] else [last])
  }

  /**
   * The preparation loop as a function: the survivors converted in order,
   * or the error of the first survivor that does not convert.
   */
  function Prepare(hs: seq<StoredHighlight>, marked: seq<Option<string>>): Result<seq<EmbedRecord>, PrepareError>
  {
    if |hs| == 0 then Ok([])
    else
      var last := hs[|hs| - 1];
      match Prepare(hs[..|hs| - 1], marked)
      case Err(e) => Err(e)
      case Ok(acc) =>
        if AlreadyMarked(last, marked) then Ok(acc)
        else
          match Convert(last)
          case Err(e) => Err(e)
          case Ok(r) => Ok(acc + [r])
  }

  /** Once a prefix has failed, the whole list fails with the same error. */
  lemma {:induction false} PrepareErrorSticks(hs: seq<StoredHighlight>, marked: seq<Option<string>>, i: nat)
    requires i <= |hs|
    requires Prepare(hs[..i], marked).Err?
    ensures Prepare(hs, marked) == Prepare(hs[..i], marked)
    decreases |hs| - i
  {
    if i < |hs| {
      var init := hs[..|hs| - 1];
      assert init[..i] == hs[..i];
      PrepareErrorSticks(init, marked, i);
    } else {
      assert hs[..i] == hs;
    }
  }

  /**
   * The loop of lines 77-90: skips marked highlights and converts the others
   * in order; the first failing conversion throws.
   */
  method PrepareRecords(annotations: seq<StoredHighlight>, marked: seq<Option<string>>)
    returns (r: Result<seq<EmbedRecord>, PrepareError>)
    ensures r == Prepare(annotations, marked)
  {
    var highlights: seq<EmbedRecord> := [];
    for i := 0 to |annotations|
      invariant Prepare(annotations[..i], marked) == Ok(highlights)
    {
      assert annotations[..i + 1][..i] == annotations[..i];
      var highlight := annotations[i];
      if Some(highlight.id) in marked {
        continue;
      }
      if |highlight.rects| == 0 {
        PrepareErrorSticks(annotations, marked, i + 1);
        return Err(NoRect(highlight.id));
      }
      var rectObj := highlight.rects[0];
      var pageSize := PageSize(rectObj.width, rectObj.height);
      var rect := Rect(rectObj.x1, rectObj.y1, rectObj.x2, rectObj.y2);
      var colord := ColorByName(highlight.color);
      if colord.None? {
        PrepareErrorSticks(annotations, marked, i + 1);
        return Err(UnknownColor(highlight.id, highlight.color));
      }
      var unMarked := EmbedRecord(highlight.page, highlight.author, pageSize, rect, RgbOf(colord.value));
      highlights := highlights + [unMarked];
    }
    assert annotations[..|annotations|] == annotations;
    return Ok(highlights);
  }

  /** Exactly the unmarked highlights survive; none does when all are marked. */
  lemma {:induction false} SurvivorsMembers(hs: seq<StoredHighlight>, marked: seq<Option<string>>)
    ensures forall h :: h in Survivors(hs, marked) <==> h in hs && !AlreadyMarked(h, marked)
    ensures (forall h :: h in hs ==> AlreadyMarked(h, marked)) <==> Survivors(hs, marked) == []
  {
    if |hs| > 0 {
      var init := hs[..|hs| - 1];
      SurvivorsMembers(init, marked);
      assert hs == init + [hs[|hs| - 1]];
    }
  }

  /** Each unmarked highlight survives exactly as often as it occurs, a marked one never. */
  lemma {:induction false} SurvivorsCount(hs: seq<StoredHighlight>, marked: seq<Option<string>>)
    ensures forall h :: multiset(Survivors(hs, marked))[h] ==
              if AlreadyMarked(h, marked) then 0 else multiset(hs)[h]
  {
    if |hs| > 0 {
      var init := hs[..|hs| - 1];
      var last := hs[|hs| - 1];
      SurvivorsCount(init, marked);
      assert hs == init + [last];
      assert multiset(hs) == multiset(init) + multiset{last};
    }
  }

  /** Every highlight of the list converts. */
  predicate AllConvert(s: seq<StoredHighlight>)
  {
    forall k :: 0 <= k < |s| ==> Convert(s[k]).Ok?
  }

  /**
   * Preparation succeeds exactly when every survivor converts; the records
   * are then the survivors' conversions, in order.
   */
  lemma {:induction false} PrepareSpec(hs: seq<StoredHighlight>, marked: seq<Option<string>>)
    ensures Prepare(hs, marked).Ok? <==> AllConvert(Survivors(hs, marked))
    ensures Prepare(hs, marked).Ok? ==>
              |Prepare(hs, marked).value| == |Survivors(hs, marked)| &&
              forall k :: 0 <= k < |Survivors(hs, marked)| ==>
                Ok(Prepare(hs, marked).value[k]) == Convert(Survivors(hs, marked)[k])
  {
    if |hs| > 0 {
      var init := hs[..|hs| - 1];
      var last := hs[|hs| - 1];
      PrepareSpec(init, marked);
      var s0 := Survivors(init, marked);
      var s := Survivors(hs, marked);
      assert s[..|s0|] == s0;
      if Prepare(init, marked).Err? {
        var k :| 0 <= k < |s0| && Convert(s0[k]).Err?;
        assert s[k] == s0[k];
        assert !AllConvert(s);
      } else if AlreadyMarked(last, marked) {
        assert s == s0;
      } else {
        assert s == s0 + [last];
        var acc := Prepare(init, marked).value;
        if Convert(last).Ok? {
          var out := Prepare(hs, marked).value;
          assert out == acc + [Convert(last).value];
          forall k | 0 <= k < |s|
            ensures Ok(out[k]) == Convert(s[k])
          {
            if k < |s0| {
              assert out[k] == acc[k] && s[k] == s0[k];
            }
          }
        } else {
          assert Convert(s[|s0|]).Err?;
          assert !AllConvert(s);
        }
      }
    }
  }

  /** A failing preparation reports the error of the first survivor that does not convert. */
  lemma {:induction false} PrepareFirstError(hs: seq<StoredHighlight>, marked: seq<Option<string>>)
    requires Prepare(hs, marked).Err?
    ensures exists k :: 0 <= k < |Survivors(hs, marked)| &&
              Convert(Survivors(hs, marked)[k]) == Err(Prepare(hs, marked).error) &&
              forall j :: 0 <= j < k ==> Convert(Survivors(hs, marked)[j]).Ok?
  {
    var init := hs[..|hs| - 1];
    var last := hs[|hs| - 1];
    var s0 := Survivors(init, marked);
    var s := Survivors(hs, marked);
    assert s[..|s0|] == s0;
    if Prepare(init, marked).Err? {
      PrepareFirstError(init, marked);
      var k :| 0 <= k < |s0| && Convert(s0[k]) == Err(Prepare(init, marked).error) &&
               forall j :: 0 <= j < k ==> Convert(s0[j]).Ok?;
      assert forall j :: 0 <= j <= k ==> s[j] == s0[j];
      assert Prepare(hs, marked) == Prepare(init, marked);
      assert Convert(s[k]) == Err(Prepare(hs, marked).error);
      assert forall j :: 0 <= j < k ==> Convert(s[j]).Ok?;
    } else {
      PrepareSpec(init, marked);
      assert !AlreadyMarked(last, marked);
      assert s == s0 + [last];
      assert forall j :: 0 <= j < |s0| ==> s[j] == s0[j];
      assert forall j :: 0 <= j < |s0| ==> Convert(s[j]).Ok?;
      assert Convert(s[|s0|]) == Err(Prepare(hs, marked).error);
    }
  }

  /* ---------------- the mupdf document ---------------- */

  /** A mupdf annotation: subtype, colour, author when set, and QuadPoints. */
  datatype MuAnnotation = MuAnnotation(subtype: string, color: Option<Rgb>, author: Option<string>,
                                       quadPoints: seq<seq<real>>)

  /** A mupdf page: `getBounds()` [x0, y0, x1, y1] and its annotations. */
  datatype MuPage = MuPage(bounds: Rect, annotations: seq<MuAnnotation>)

  datatype SaveMode = Incremental | Full

  /** What `saveToBuffer` writes: the mode and the pages as saved. */
  datatype Revision = Revision(mode: SaveMode, pages: seq<MuPage>)

  /** An opened mupdf document. */
  class PdfDocument {
    var pages: seq<MuPage>
    var revisions: seq<Revision>

    /** `PDFDocument.openDocument`: the file's pages, nothing saved yet. */
    constructor Open(file: seq<MuPage>)
      ensures pages == file && revisions == []
    {
      pages := file;
      revisions := [];
    }

    /**
     * `page.createAnnotation("Highlight")` on the page at 0-based `index`,
     * then `setColor`, `setAuthor` when an author is given,
     * `setQuadPoints` and `update`: the new annotation goes after the
     * page's existing ones, and nothing else changes.
     */
    method CreateHighlight(index: nat, color: Rgb, author: Option<string>, quads: seq<seq<real>>)
      requires index < |pages|
      modifies this
      ensures pages == old(pages)[index := old(pages)[index].(annotations :=
                         old(pages)[index].annotations + [MuAnnotation("Highlight", Some(color), author, quads)])]
      ensures revisions == old(revisions)
    {
      var page := pages[index];
      var annotation := MuAnnotation("Highlight", Some(color), author, quads);
      pages := pages[index := page.(annotations := page.annotations + [annotation])];
    }

    /** `saveToBuffer(mode)`: records a revision of the current pages. */
    method SaveToBuffer(mode: SaveMode) returns (buffer: Revision)
      modifies this
      ensures buffer == Revision(mode, pages)
      ensures pages == old(pages) && revisions == old(revisions) + [buffer]
    {
      buffer := Revision(mode, pages);
      revisions := revisions + [buffer];
    }
  }

  /** The page size `embedHighlights` targets: `(bounds[2], bounds[3])`. */
  function TargetSize(bounds: Rect): PageSize
  {
    PageSize(bounds.x1, bounds.y1)
  }

  /** A record can be rescaled: its source page size has no zero dimension. */
  predicate Scalable(r: EmbedRecord)
  {
    r.pageSize.width != 0.0 && r.pageSize.height != 0.0
  }

  /** The record's 1-based page exists among `count` pages. */
  predicate OnPage(r: EmbedRecord, count: nat)
  {
    1 <= r.page <= count
  }

  /** The quads of a record placed on a page with the given bounds. */
  function PlacedQuads(r: EmbedRecord, bounds: Rect): seq<seq<real>>
    requires Scalable(r)
  {
    RectToQuadpoints(ScaleRect(r.rect, r.pageSize, TargetSize(bounds)))
  }

  /** The highlight annotation one record adds to a page with the given bounds. */
  function NewAnnotation(r: EmbedRecord, bounds: Rect): MuAnnotation
    requires Scalable(r)
  {
    MuAnnotation("Highlight", Some(r.color), if r.author != "" then Some(r.author) else None,
                 PlacedQuads(r, bounds))
  }

  /** The pages after adding one annotation per record, records in order. */
  function Embedded(pages: seq<MuPage>, rs: seq<EmbedRecord>): (result: seq<MuPage>)
    requires forall r :: r in rs ==> Scalable(r) && OnPage(r, |pages|)
    ensures |result| == |pages|
    ensures forall i :: 0 <= i < |pages| ==> result[i].bounds == pages[i].bounds
  {
    if |rs| == 0 then pages
    else
      var prev := Embedded(pages, rs[..|rs| - 1]);
      var r := rs[|rs| - 1];
      assert r in rs;
      assert OnPage(r, |pages|);
      var i := r.page - 1;
      prev[i := prev[i].(annotations := prev[i].annotations + [NewAnnotation(r, prev[i].bounds)])]
  }

  /** The records that target the 0-based page `index`, in order. */
  function Targeting(rs: seq<EmbedRecord>, index: int): seq<EmbedRecord>
  {
    if |rs| == 0 then []
    else
      var last := rs[|rs| - 1];
      Targeting(rs[..|rs| - 1], index) + (if last.page - 1 == index then [last] else [])
  }

  lemma {:induction false} TargetingScalable(rs: seq<EmbedRecord>, index: int)
    requires forall r :: r in rs ==> Scalable(r)
    ensures forall r :: r in Targeting(rs, index) ==> Scalable(r) && r.page - 1 == index
  {
    if |rs| > 0 {
      TargetingScalable(rs[..|rs| - 1], index);
    }
  }

  /** The annotations that the records targeting a page add to it, in record order. */
  function NewAnnotations(rs: seq<EmbedRecord>, bounds: Rect): seq<MuAnnotation>
    requires forall r :: r in rs ==> Scalable(r)
  {
    seq(|rs|, k requires 0 <= k < |rs| => NewAnnotation(rs[k], bounds))
  }

  /**
   * Page by page, embedding appends to the page's existing annotations the
   * annotations of the records that target it, in record order, and keeps
   * its bounds.
   */
  lemma {:induction false} EmbeddedPerPage(pages: seq<MuPage>, rs: seq<EmbedRecord>, index: nat)
    requires forall r :: r in rs ==> Scalable(r) && OnPage(r, |pages|)
    requires index < |pages|
    ensures forall r :: r in Targeting(rs, index) ==> Scalable(r)
    ensures Embedded(pages, rs)[index]
            == MuPage(pages[index].bounds,
                      pages[index].annotations + NewAnnotations(Targeting(rs, index), pages[index].bounds))
  {
    TargetingScalable(rs, index);
    if |rs| > 0 {
      var init := rs[..|rs| - 1];
      var last := rs[|rs| - 1];
      EmbeddedPerPage(pages, init, index);
      var before := NewAnnotations(Targeting(init, index), pages[index].bounds);
      if last.page - 1 == index {
        assert NewAnnotations(Targeting(rs, index), pages[index].bounds)
               == before + [NewAnnotation(last, pages[index].bounds)];
      } else {
        assert Targeting(rs, index) == Targeting(init, index);
      }
    }
  }

  /**
   * What embedding leaves alone: every page keeps its bounds and its
   * pre-existing annotations as a prefix, a page that no record targets is
   * unchanged, and a page gains exactly one annotation per record that
   * targets it.
   */
  lemma EmbeddedFrame(pages: seq<MuPage>, rs: seq<EmbedRecord>, index: nat)
    requires forall r :: r in rs ==> Scalable(r) && OnPage(r, |pages|)
    requires index < |pages|
    ensures var after := Embedded(pages, rs)[index];
            after.bounds == pages[index].bounds &&
            |after.annotations| == |pages[index].annotations| + |Targeting(rs, index)| &&
            after.annotations[..|pages[index].annotations|] == pages[index].annotations
    ensures (forall r :: r in rs ==> r.page - 1 != index) ==> Embedded(pages, rs)[index] == pages[index]
  {
    EmbeddedPerPage(pages, rs, index);
    if forall r :: r in rs ==> r.page - 1 != index {
      TargetingNone(rs, index);
    }
  }

  lemma {:induction false} TargetingNone(rs: seq<EmbedRecord>, index: int)
    requires forall r :: r in rs ==> r.page - 1 != index
    ensures Targeting(rs, index) == []
  {
    if |rs| > 0 {
      TargetingNone(rs[..|rs| - 1], index);
    }
  }

  /**
   * Every annotation added is a highlight carrying its record's colour, its
   * author only when the author is non-empty, and a single quad that is the
   * record's rectangle rescaled from the record's page size to
   * `(bounds[2], bounds[3])`.
   */
  lemma NewAnnotationSpec(r: EmbedRecord, bounds: Rect)
    requires Scalable(r)
    ensures var a := NewAnnotation(r, bounds);
            var q := ScaleRect(r.rect, r.pageSize, PageSize(bounds.x1, bounds.y1));
            a.subtype == "Highlight" && a.color == Some(r.color) &&
            (a.author.Some? <==> r.author != "") &&
            (a.author.Some? ==> a.author.value == r.author) &&
            |a.quadPoints| == 1 && |a.quadPoints[0]| == 8 && QuadBounds(a.quadPoints[0]) == q
  {
    QuadpointsSpanRect(ScaleRect(r.rect, r.pageSize, TargetSize(bounds)));
  }

  /** Why `embedHighlights` fails: record `index` names page `page`, which does not exist. */
  datatype EmbedError = PageOutOfRange(index: nat, page: int)

  /**
   * `embedHighlights`: opens the file, adds one highlight per record to page
   * `page - 1` in record order, and saves once, incrementally, after the
   * last record. A record whose page does not exist throws: the records
   * before it stay in the in-memory document, which is not saved. The
   * opened document is returned so that its final state can be stated.
   */
  method EmbedHighlights(highlights: seq<EmbedRecord>, fileData: seq<MuPage>)
    returns (r: Result<Revision, EmbedError>, document: PdfDocument)
    requires forall h :: h in highlights ==> Scalable(h)
    ensures fresh(document)
    ensures r.Ok? <==> forall h :: h in highlights ==> OnPage(h, |fileData|)
    ensures r.Ok? ==>
              document.pages == Embedded(fileData, highlights) &&
              r.value == Revision(Incremental, document.pages) &&
              document.revisions == [r.value]
    ensures r.Err? ==>
              var k := r.error.index;
              k < |highlights| && r.error.page == highlights[k].page &&
              !OnPage(highlights[k], |fileData|) &&
              (forall j :: 0 <= j < k ==> OnPage(highlights[j], |fileData|)) &&
              document.pages == Embedded(fileData, highlights[..k]) &&
              document.revisions == []
  {
    document := new PdfDocument.Open(fileData);
    for i := 0 to |highlights|
      invariant forall j :: 0 <= j < i ==> OnPage(highlights[j], |fileData|)
      invariant document.pages == Embedded(fileData, highlights[..i])
      invariant document.revisions == []
    {
      var highlight := highlights[i];
      assert highlight in highlights;
      assert highlights[..i + 1][..i] == highlights[..i];
      if !(1 <= highlight.page <= |document.pages|) {
        return Err(PageOutOfRange(i, highlight.page)), document;
      }
      var index := highlight.page - 1;
      var pageBounds := document.pages[index].bounds;
      var pageSize := PageSize(pageBounds.x1, pageBounds.y1);
      var normalizedRects := ScaleRect(highlight.rect, highlight.pageSize, pageSize);
      var normalizedQuads := RectToQuadpoints(normalizedRects);
      var author := if highlight.author != "" then Some(highlight.author) else None;
      document.CreateHighlight(index, highlight.color, author, normalizedQuads);
    }
    assert highlights[..|highlights|] == highlights;
    var buffer := document.SaveToBuffer(Incremental);
    return Ok(buffer), document;
  }

  /* ---------------- file names and the embedAnnotations command ---------------- */

  /**
   * The EDN sidecar name as `embedAnnotations` derives it:
   * `fileName.replace("pdf", "edn")`, the first "pdf" anywhere in the name.
   */
  function EmbedSidecarName(fileName: string): string
  {
    ReplaceFirst(fileName, "pdf", "edn")
  }

  /**
   * The EDN sidecar name as the import writes it:
   * `name.replace(".pdf", ".edn")`. Embedding reads the sidecar under this
   * name in this model.
   */
  function SidecarName(fileName: string): string
  {
    ReplaceFirst(fileName, ".pdf", ".edn")
  }

  /**
   * For "pdf-guide.pdf" the import writes "pdf-guide.edn" while embedding
   * looks for "edn-guide.pdf", so embedding does not find the sidecar.
   */
  lemma SidecarNameMismatch()
    ensures EmbedSidecarName("pdf-guide.pdf") == "edn-guide.pdf"
    ensures SidecarName("pdf-guide.pdf") == "pdf-guide.edn"
  {
    EmbedSidecarNameOfGuide();
    SidecarNameOfGuide();
  }

  lemma EmbedSidecarNameOfGuide()
    ensures EmbedSidecarName("pdf-guide.pdf") == "edn-guide.pdf"
  {
    ReplaceFirstAt("pdf-guide.pdf", "pdf", "edn", 0);
  }

  lemma SidecarNameOfGuide()
    ensures SidecarName("pdf-guide.pdf") == "pdf-guide.edn"
  {
    var n := "pdf-guide.pdf";
    NoDotBefore(n, ".pdf", 9);
    ReplaceFirstAt(n, ".pdf", ".edn", 9);
    assert n[..9] == "pdf-guide";
  }

  /** A pattern starting with '.' cannot occur before the first '.' of a name. */
  lemma NoDotBefore(s: string, pat: string, i: nat)
    requires |pat| > 0 && pat[0] == '.'
    requires i <= |s| && forall j :: 0 <= j < i ==> s[j] != '.'
    ensures forall j :: 0 <= j < i ==> !OccursAt(s, pat, j)
  {
    forall j | 0 <= j < i
      ensures !OccursAt(s, pat, j)
    {
      NotOccursAtByChar(s, pat, j, 0);
    }
  }

  /**
   * A name `stem + ".pdf"` whose only ".pdf" is its extension gets the
   * sidecar `stem + ".edn"`: only the extension changes.
   */
  lemma SidecarNameSwapsExtension(stem: string)
    requires forall j :: 0 <= j < |stem| ==> !OccursAt(stem + ".pdf", ".pdf", j)
    ensures SidecarName(stem + ".pdf") == stem + ".edn"
  {
    var n := stem + ".pdf";
    assert n[|stem|..|stem| + 4] == ".pdf";
    ReplaceFirstAt(n, ".pdf", ".edn", |stem|);
    assert n[..|stem|] == stem;
  }

  /**
   * The highlights page `embedAnnotations` queries for marked blocks:
   * `getMarkedBlocks(name.replace(".pdf", ""))`.
   */
  function EmbedDedupPage(fileName: string): string
  {
    HlsPageName(ReplaceFirst(fileName, ".pdf", ""))
  }

  /**
   * The highlights page the import creates for the same PDF:
   * `creatMDContent(…, name.replace(".pdf", ".md"))`. Embedding queries this
   * page in this model.
   */
  function DedupPage(fileName: string): string
  {
    HlsPageName(ReplaceFirst(fileName, ".pdf", ".md"))
  }

  /**
   * For "a.md.pdf" the import creates "hls__a.md" while embedding queries
   * "hls__a", so no highlight is recognised as already embedded.
   */
  lemma DedupPageMismatch()
    ensures EmbedDedupPage("a.md.pdf") == "hls__a"
    ensures DedupPage("a.md.pdf") == "hls__a.md"
  {
    EmbedDedupPageOfMdName();
    DedupPageOfMdName();
  }

  lemma EmbedDedupPageOfMdName()
    ensures EmbedDedupPage("a.md.pdf") == "hls__a"
  {
    ReplacePdfOfMdName("");
    StripMdAfterA("");
  }

  lemma DedupPageOfMdName()
    ensures DedupPage("a.md.pdf") == "hls__a.md"
  {
    ReplacePdfOfMdName(".md");
    StripMdAfterA(".md");
  }

  /** In "a.md.pdf" the first ".pdf" is the extension. */
  lemma ReplacePdfOfMdName(rep: string)
    ensures ReplaceFirst("a.md.pdf", ".pdf", rep) == "a.md" + rep
  {
    var n := "a.md.pdf";
    NotOccursAtByChar(n, ".pdf", 0, 0);
    NotOccursAtByChar(n, ".pdf", 1, 1);
    NotOccursAtByChar(n, ".pdf", 2, 0);
    NotOccursAtByChar(n, ".pdf", 3, 0);
    ReplaceFirstAt(n, ".pdf", rep, 4);
    assert n[..4] == "a.md";
  }

  /** In a name starting "a.md" the first ".md" follows the "a", whatever comes after. */
  lemma StripMdAfterA(rest: string)
    ensures ReplaceFirst("a.md" + rest, ".md", "") == "a" + rest
  {
    var n := "a.md" + rest;
    NotOccursAtByChar(n, ".md", 0, 0);
    assert n[1..4] == ".md";
    ReplaceFirstAt(n, ".md", "", 1);
    assert n[..1] == "a";
    assert n[4..] == rest;
  }

  /**
   * A name `stem + ".pdf"` in which neither ".pdf" nor ".md" occurs before
   * the extension maps to the highlights page `"hls__" + stem`.
   */
  lemma DedupPageOfPdfName(stem: string)
    requires forall j :: 0 <= j < |stem| ==> !OccursAt(stem + ".pdf", ".pdf", j)
    requires forall j :: 0 <= j < |stem| ==> !OccursAt(stem + ".md", ".md", j)
    ensures DedupPage(stem + ".pdf") == HlsPrefix + stem
  {
    var n := stem + ".pdf";
    assert n[|stem|..|stem| + 4] == ".pdf";
    ReplaceFirstAt(n, ".pdf", ".md", |stem|);
    assert n[..|stem|] == stem;
    var m := stem + ".md";
    assert ReplaceFirst(n, ".pdf", ".md") == m;
    assert m[|stem|..|stem| + 3] == ".md";
    ReplaceFirstAt(m, ".md", "", |stem|);
    assert m[..|stem|] == stem;
  }

  /** How one run of the embed command ends. */
  datatype EmbedOutcome =
    | MissingFile                          // the PDF or its sidecar is not among the assets
    | NoRecentAnnotations                  // no `highlights` key, or every highlight already marked
    | HighlightsPageMissing                // `getMarkedBlocks` iterates a null block tree and throws
    | PreparationFailed(cause: PrepareError)
    | EmbeddingFailed(failure: EmbedError)
    | Baked(buffer: Revision)

  /** Every first rect of the given highlights has a non-zero size. */
  predicate SizedRects(hs: seq<StoredHighlight>)
  {
    forall h :: h in hs && |h.rects| > 0 ==> h.rects[0].width != 0.0 && h.rects[0].height != 0.0
  }

  /**
   * Prepared records take their page size from the first rect of the
   * highlights that survive; when those are sized, the records can be
   * rescaled. Marked highlights are never read.
   */
  lemma {:induction false} PrepareScalable(hs: seq<StoredHighlight>, marked: seq<Option<string>>)
    requires SizedRects(Survivors(hs, marked))
    requires Prepare(hs, marked).Ok?
    ensures forall r :: r in Prepare(hs, marked).value ==> Scalable(r)
  {
    if |hs| > 0 {
      var init := hs[..|hs| - 1];
      var last := hs[|hs| - 1];
      assert Prepare(init, marked).Ok?;
      assert Survivors(hs, marked) == Survivors(init, marked) + (if AlreadyMarked(last, marked) then [] else [last]);
      PrepareScalable(init, marked);
      if !AlreadyMarked(last, marked) {
        assert last in Survivors(hs, marked);
      }
    }
  }

  /**
   * `embedAnnotations` from the resolved file name on (lines 51-112, file
   * and UI plumbing aside): look up the PDF and its sidecar among the
   * assets, collect the marked ids of the PDF's highlights page, prepare
   * the unmarked highlights and, when any survive, embed them into the PDF.
   * `ednAssets` maps a file name to the sidecar's `highlights` list, absent
   * when the key is missing; `pdfAssets` maps a file name to its pages.
   * Only the highlights that survive deduplication need sized rects: they
   * are the only ones rescaled.
   */
  method EmbedAnnotations(fileName: string, marker: string, pageBlocksTree: string -> Option<seq<Block>>,
                          ednAssets: map<string, Option<seq<StoredHighlight>>>,
                          pdfAssets: map<string, seq<MuPage>>)
    returns (outcome: EmbedOutcome)
    requires SidecarName(fileName) in ednAssets && fileName in pdfAssets &&
             ednAssets[SidecarName(fileName)].Some? && pageBlocksTree(DedupPage(fileName)).Some? ==>
               SizedRects(Survivors(ednAssets[SidecarName(fileName)].value,
                                    MarkedIds(pageBlocksTree(DedupPage(fileName)).value, marker)))
    ensures SidecarName(fileName) !in ednAssets || fileName !in pdfAssets ==> outcome == MissingFile
    ensures SidecarName(fileName) in ednAssets && fileName in pdfAssets ==>
              match ednAssets[SidecarName(fileName)]
              case None => outcome == NoRecentAnnotations
              case Some(annotations) =>
                match pageBlocksTree(DedupPage(fileName))
                case None => outcome == HighlightsPageMissing
                case Some(blocks) =>
                  var marked := MarkedIds(blocks, marker);
                  match Prepare(annotations, marked)
                  case Err(e) => outcome == PreparationFailed(e)
                  case Ok(rs) =>
                    var file := pdfAssets[fileName];
                    (rs == [] ==> outcome == NoRecentAnnotations) &&
                    (rs != [] && (forall r :: r in rs ==> OnPage(r, |file|)) ==>
                       (forall r :: r in rs ==> Scalable(r)) &&
                       outcome == Baked(Revision(Incremental, Embedded(file, rs)))) &&
                    (rs != [] && !(forall r :: r in rs ==> OnPage(r, |file|)) ==>
                       exists k :: 0 <= k < |rs| && !OnPage(rs[k], |file|) &&
                         (forall j :: 0 <= j < k ==> OnPage(rs[j], |file|)) &&
                         outcome == EmbeddingFailed(PageOutOfRange(k, rs[k].page)))
  {
    var ednName := SidecarName(fileName);
    if ednName !in ednAssets || fileName !in pdfAssets {
      return MissingFile;
    }
    var ednData := ednAssets[ednName];
    if ednData.None? {
      return NoRecentAnnotations;
    }
    var annotations := ednData.value;
    var query := GetMarkedBlocks(ReplaceFirst(fileName, ".pdf", ".md"), marker, pageBlocksTree);
    if query.None? {
      return HighlightsPageMissing;
    }
    var marked := query.value;
    var prepared := PrepareRecords(annotations, marked);
    if prepared.Err? {
      return PreparationFailed(prepared.error);
    }
    var highlights := prepared.value;
    if |highlights| == 0 {
      return NoRecentAnnotations;
    }
    PrepareScalable(annotations, marked);
    var baked, _ := EmbedHighlights(highlights, pdfAssets[fileName]);
    if baked.Err? {
      return EmbeddingFailed(baked.error);
    }
    return Baked(baked.value);
  }

  /* ---------------- from extraction back to embedding ---------------- */

  /**
   * The fields of an extracted record that embedding reads back from the
   * sidecar (the EDN text in between is not modelled).
   */
  function Stored(h: Highlight): StoredHighlight
  {
    StoredHighlight(h.page, h.author, h.position.rects, NameOf(h.color), h.id)
  }

  /**
   * An extracted highlight prepares to a record on the same page with the
   * extraction page's size, the top-left bounding box and the palette RGB
   * of its colour; embedded onto a page whose bounds are [0, 0, W, H] with
   * that same size, its quad is exactly the flipped annotation rectangle.
   */
  lemma ReembedOnSamePage(pageNum: int, size: PageSize, a: PdfJsAnnotation,
                          deltaE: (Rgb, Rgb) -> real, id: string)
    requires size.width != 0.0 && size.height != 0.0
    ensures var h := Extract.MakeHighlight(pageNum, size, a, deltaE, id);
            var flipped := ToTopLeft(a.rect, size.height);
            Convert(Stored(h)) == Ok(EmbedRecord(pageNum, a.title, size, flipped, RgbOf(h.color))) &&
            PlacedQuads(Convert(Stored(h)).value, Rect(0.0, 0.0, size.width, size.height))
              == RectToQuadpoints(flipped)
  {
    var h := Extract.MakeHighlight(pageNum, size, a, deltaE, id);
    ColorByNameInverse(NameOf(h.color), h.color);
    BoxRoundTrip(ToTopLeft(a.rect, size.height), size);
    ScaleRectSameSize(ToTopLeft(a.rect, size.height), size);
  }
}
