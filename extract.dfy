/**
 * Extraction of highlight records from a PDF (src/utils/common.js):
 * `getHighlightAnnotations` for one page and the page loop of
 * `extractAnnotationsFromPDF`. Logseq's `newBlockUUID` is the oracle
 * `uuid`: its n-th answer is `uuid(n)`, and `start` counts the calls made
 * before this extraction.
 */
module Extract {
  import opened Wrappers
  import opened Geometry
  import opened Color
  import opened Records

  /** The only subtype kept; the comparison is exact and case-sensitive. */
  predicate IsHighlight(a: PdfJsAnnotation)
  {
    a.subtype == "Highlight"
  }

  /** The size of a pdf.js page, rotation included. */
  function SizeOfPage(p: PdfJsPage): PageSize
  {
    GetPageSize(p.view, p.rotate)
  }

  /** The record built for one highlight annotation of page `pageNum`. */
  function MakeHighlight(pageNum: int, size: PageSize, a: PdfJsAnnotation,
                         deltaE: (Rgb, Rgb) -> real, id: string): Highlight
  {
    var bounding := BoxOf(ToTopLeft(a.rect, size.height), size);
    Highlight(pageNum, Nearest(a.color, deltaE), Position(bounding, [bounding], pageNum),
              a.overlaidText, id, a.title)
  }

  /**
   * The bounding box is [r0, H - r3, r2, H - r1] with the page's size, keeps
   * the annotation's height, is the single entry of `:rects`, and both page
   * fields are the page number.
   */
  lemma MakeHighlightShape(pageNum: int, size: PageSize, a: PdfJsAnnotation,
                           deltaE: (Rgb, Rgb) -> real, id: string)
    ensures var h := MakeHighlight(pageNum, size, a, deltaE, id);
            var b := h.position.bounding;
            b == Box(a.rect.x0, size.height - a.rect.y1, a.rect.x1, size.height - a.rect.y0,
                     size.width, size.height) &&
            b.y2 - b.y1 == a.rect.y1 - a.rect.y0 &&
            ToTopLeft(RectOfBox(b), size.height) == a.rect &&
            h.position.rects == [b] &&
            h.page == pageNum && h.position.page == pageNum &&
            h.color == Nearest(a.color, deltaE) && h.id == id &&
            h.author == a.title && h.text == a.overlaidText
  {
    ToTopLeftProperties(a.rect, size.height);
  }

  /** The highlight annotations of a list, in list order. */
  function HighlightAnnotations(annots: seq<PdfJsAnnotation>): seq<PdfJsAnnotation>
  {
    if |annots| == 0 then []
    else
      var last := annots[|annots| - 1];
      HighlightAnnotations(annots[..|annots| - 1]) + (if IsHighlight(last) then [last] else [])
  }

  /** Filtering distributes over concatenation. */
  lemma {:induction false} HighlightAnnotationsAppend(xs: seq<PdfJsAnnotation>, ys: seq<PdfJsAnnotation>)
    ensures HighlightAnnotations(xs + ys) == HighlightAnnotations(xs) + HighlightAnnotations(ys)
    decreases |ys|
  {
    if |ys| > 0 {
      var zs := xs + ys;
      assert zs[..|zs| - 1] == xs + ys[..|ys| - 1];
      HighlightAnnotationsAppend(xs, ys[..|ys| - 1]);
    } else {
      assert xs + ys == xs;
    }
  }

  /**
   * Exactly the annotations of subtype "Highlight" are kept and every other
   * subtype is dropped; the result is empty exactly when no annotation is a
   * highlight.
   */
  lemma {:induction false} HighlightAnnotationsMembers(annots: seq<PdfJsAnnotation>)
    ensures forall a :: a in HighlightAnnotations(annots) <==> a in annots && IsHighlight(a)
    ensures |HighlightAnnotations(annots)| <= |annots|
    ensures HighlightAnnotations(annots) == [] <==> forall a :: a in annots ==> !IsHighlight(a)
  {
    if |annots| > 0 {
      var init := annots[..|annots| - 1];
      HighlightAnnotationsMembers(init);
      assert annots == init + [annots[|annots| - 1]];
    }
  }

  /** Each highlight annotation is kept exactly as often as it occurs, any other never. */
  lemma {:induction false} HighlightAnnotationsCount(annots: seq<PdfJsAnnotation>)
    ensures forall a :: multiset(HighlightAnnotations(annots))[a] ==
              if IsHighlight(a) then multiset(annots)[a] else 0
  {
    if |annots| > 0 {
      var init := annots[..|annots| - 1];
      var last := annots[|annots| - 1];
      HighlightAnnotationsCount(init);
      assert annots == init + [last];
      assert multiset(annots) == multiset(init) + multiset{last};
    }
  }

  /**
   * Three annotations of other subtypes and two highlights give exactly the
   * two highlights, in order.
   */
  lemma HighlightAnnotationsExample(r: Rect, c: Rgb)
    ensures var u := PdfJsAnnotation("Underline", r, c, None, "");
            var s := PdfJsAnnotation("StrikeOut", r, c, None, "");
            var h1 := PdfJsAnnotation("Highlight", r, c, None, "first");
            var h2 := PdfJsAnnotation("Highlight", r, c, None, "second");
            var l := PdfJsAnnotation("highlight", r, c, None, "");
            HighlightAnnotations([u, h1, s, l, h2]) == [h1, h2]
  {
    var u := PdfJsAnnotation("Underline", r, c, None, "");
    var s := PdfJsAnnotation("StrikeOut", r, c, None, "");
    var h1 := PdfJsAnnotation("Highlight", r, c, None, "first");
    var h2 := PdfJsAnnotation("Highlight", r, c, None, "second");
    var l := PdfJsAnnotation("highlight", r, c, None, "");
    assert [u][..0] == [];
    assert HighlightAnnotations([u]) == [];
    assert [u, h1][..1] == [u];
    assert HighlightAnnotations([u, h1]) == [h1];
    assert [u, h1, s][..2] == [u, h1];
    assert HighlightAnnotations([u, h1, s]) == [h1];
    assert [u, h1, s, l][..3] == [u, h1, s];
    assert HighlightAnnotations([u, h1, s, l]) == [h1];
    assert [u, h1, s, l, h2][..4] == [u, h1, s, l];
  }

  /** The records of one page: the k-th highlight gets the k-th fresh id. */
  function PageRecords(pageNum: int, size: PageSize, annots: seq<PdfJsAnnotation>,
                       deltaE: (Rgb, Rgb) -> real, uuid: nat -> string, start: nat): seq<Highlight>
  {
    var hs := HighlightAnnotations(annots);
    seq(|hs|, k requires 0 <= k < |hs| => MakeHighlight(pageNum, size, hs[k], deltaE, uuid(start + k)))
  }

  /**
   * `getHighlightAnnotations`: one record per "Highlight" annotation, in
   * order; other subtypes are skipped.
   */
  method GetHighlightAnnotations(pageNum: int, pageSize: PageSize, annots: seq<PdfJsAnnotation>,
                                 deltaE: (Rgb, Rgb) -> real, uuid: nat -> string, start: nat)
    returns (highlights: seq<Highlight>)
    ensures highlights == PageRecords(pageNum, pageSize, annots, deltaE, uuid, start)
  {
    highlights := [];
    for i := 0 to |annots|
      invariant highlights == PageRecords(pageNum, pageSize, annots[..i], deltaE, uuid, start)
    {
      assert annots[..i + 1][..i] == annots[..i];
      var annot := annots[i];
      if annot.subtype != "Highlight" {
        continue;
      }
      var color := DetectColor(annot.color, deltaE);
      var bounding := BoxOf(ToTopLeft(annot.rect, pageSize.height), pageSize);
      var id := uuid(start + |highlights|);
      var highlight := Highlight(pageNum, color, Position(bounding, [bounding], pageNum),
                                 annot.overlaidText, id, annot.title);
      highlights := highlights + [highlight];
    }
    assert annots[..|annots|] == annots;
  }

  /**
   * The records of a whole document: pages in ascending order, page `n`
   * being `pages[n - 1]`, the ids continuing from page to page.
   */
  function DocRecords(pages: seq<PdfJsPage>, deltaE: (Rgb, Rgb) -> real,
                      uuid: nat -> string, start: nat): seq<Highlight>
  {
    if |pages| == 0 then []
    else
      var prev := DocRecords(pages[..|pages| - 1], deltaE, uuid, start);
      var p := pages[|pages| - 1];
      prev + PageRecords(|pages|, SizeOfPage(p), p.annotations, deltaE, uuid, start + |prev|)
  }

  /**
   * `extractAnnotationsFromPDF` after the document is open: visits pages
   * 1..numPages in order and concatenates their records; no record at all
   * gives `undefined` rather than an empty list.
   */
  method ExtractAnnotationsFromPdf(pages: seq<PdfJsPage>, deltaE: (Rgb, Rgb) -> real,
                                   uuid: nat -> string, start: nat)
    returns (r: Option<seq<Highlight>>)
    ensures var all := DocRecords(pages, deltaE, uuid, start);
            r == if |all| == 0 then None else Some(all)
  {
    var pageHighlights: seq<Highlight> := [];
    for pageNum := 1 to |pages| + 1
      invariant pageHighlights == DocRecords(pages[..pageNum - 1], deltaE, uuid, start)
    {
      assert pages[..pageNum][..pageNum - 1] == pages[..pageNum - 1];
      var page := pages[pageNum - 1];
      var annots := page.annotations;
      if |annots| == 0 {
        continue;
      }
      var pageHighlight := GetHighlightAnnotations(pageNum, SizeOfPage(page), annots, deltaE, uuid,
                                                   start + |pageHighlights|);
      pageHighlights := pageHighlights + pageHighlight;
    }
    assert pages[..|pages|] == pages;
    if |pageHighlights| == 0 {
      return None;
    }
    return Some(pageHighlights);
  }

  /**
   * Every highlight annotation of the document paired with its 1-based page
   * number, pages ascending and annotations in list order within a page.
   */
  function LocatedHighlights(pages: seq<PdfJsPage>): seq<(int, PdfJsAnnotation)>
  {
    if |pages| == 0 then []
    else
      var hs := HighlightAnnotations(pages[|pages| - 1].annotations);
      LocatedHighlights(pages[..|pages| - 1]) + seq(|hs|, k requires 0 <= k < |hs| => (|pages|, hs[k]))
  }

  /** A located entry names an existing page and a highlight annotation of it. */
  predicate OnItsPage(pages: seq<PdfJsPage>, entry: (int, PdfJsAnnotation))
  {
    1 <= entry.0 <= |pages| && IsHighlight(entry.1) && entry.1 in pages[entry.0 - 1].annotations
  }

  /**
   * Each located entry is a highlight annotation of the page it names, and
   * that page exists.
   */
  lemma {:induction false} LocatedHighlightsOnPage(pages: seq<PdfJsPage>)
    ensures forall k :: 0 <= k < |LocatedHighlights(pages)| ==> OnItsPage(pages, LocatedHighlights(pages)[k])
  {
    if |pages| > 0 {
      var init := pages[..|pages| - 1];
      var last := pages[|pages| - 1];
      var hs := HighlightAnnotations(last.annotations);
      LocatedHighlightsOnPage(init);
      HighlightAnnotationsMembers(last.annotations);
      var loc := LocatedHighlights(pages);
      var before := LocatedHighlights(init);
      var tail := seq(|hs|, k requires 0 <= k < |hs| => (|pages|, hs[k]));
      assert loc == before + tail;
      forall k | 0 <= k < |loc|
        ensures OnItsPage(pages, loc[k])
      {
        if k < |before| {
          assert loc[k] == before[k];
          assert OnItsPage(init, before[k]);
          assert init[before[k].0 - 1] == pages[before[k].0 - 1];
        } else {
          assert loc[k] == tail[k - |before|] == (|pages|, hs[k - |before|]);
          assert hs[k - |before|] in hs;
        }
      }
    }
  }

  /** Located entries come in ascending page order. */
  lemma {:induction false} LocatedHighlightsAscending(pages: seq<PdfJsPage>)
    ensures forall k, l :: 0 <= k <= l < |LocatedHighlights(pages)| ==>
              LocatedHighlights(pages)[k].0 <= LocatedHighlights(pages)[l].0
  {
    if |pages| > 0 {
      var init := pages[..|pages| - 1];
      var hs := HighlightAnnotations(pages[|pages| - 1].annotations);
      LocatedHighlightsAscending(init);
      LocatedHighlightsOnPage(init);
      var loc := LocatedHighlights(pages);
      var before := LocatedHighlights(init);
      var tail := seq(|hs|, k requires 0 <= k < |hs| => (|pages|, hs[k]));
      assert loc == before + tail;
      forall k | 0 <= k < |loc|
        ensures loc[k].0 <= |pages|
        ensures k >= |before| ==> loc[k].0 == |pages|
        ensures k < |before| ==> loc[k] == before[k]
      {
        if k < |before| {
          assert OnItsPage(init, before[k]);
        }
      }
      forall k, l | 0 <= k <= l < |loc|
        ensures loc[k].0 <= loc[l].0
      {
        if l < |before| {
          assert before[k].0 <= before[l].0;
        }
      }
    }
  }

  /** Every highlight annotation of every page is located, with its page number. */
  lemma {:induction false} LocatedHighlightsComplete(pages: seq<PdfJsPage>)
    ensures forall i, a :: 0 <= i < |pages| && a in pages[i].annotations && IsHighlight(a) ==>
              (i + 1, a) in LocatedHighlights(pages)
  {
    if |pages| > 0 {
      var init := pages[..|pages| - 1];
      var last := pages[|pages| - 1];
      var hs := HighlightAnnotations(last.annotations);
      var tail := seq(|hs|, k requires 0 <= k < |hs| => (|pages|, hs[k]));
      LocatedHighlightsComplete(init);
      HighlightAnnotationsMembers(last.annotations);
      var loc := LocatedHighlights(pages);
      assert loc == LocatedHighlights(init) + tail;
      forall i, a | 0 <= i < |pages| && a in pages[i].annotations && IsHighlight(a)
        ensures (i + 1, a) in loc
      {
        if i < |pages| - 1 {
          assert init[i] == pages[i];
          assert (i + 1, a) in LocatedHighlights(init);
        } else {
          var k :| 0 <= k < |hs| && hs[k] == a;
          assert tail[k] == (i + 1, a);
        }
      }
    }
  }

  /**
   * The k-th record of the document is built from the k-th located
   * highlight annotation, on that annotation's page, with the k-th fresh id.
   */
  lemma {:induction false} DocRecordsAreLocated(pages: seq<PdfJsPage>, deltaE: (Rgb, Rgb) -> real,
                                                uuid: nat -> string, start: nat)
    ensures |DocRecords(pages, deltaE, uuid, start)| == |LocatedHighlights(pages)|
    ensures var all := DocRecords(pages, deltaE, uuid, start);
            var loc := LocatedHighlights(pages);
            forall k :: 0 <= k < |loc| ==>
              1 <= loc[k].0 <= |pages| &&
              all[k] == MakeHighlight(loc[k].0, SizeOfPage(pages[loc[k].0 - 1]), loc[k].1,
                                      deltaE, uuid(start + k))
  {
    if |pages| > 0 {
      var init := pages[..|pages| - 1];
      var last := pages[|pages| - 1];
      DocRecordsAreLocated(init, deltaE, uuid, start);
      var prev := DocRecords(init, deltaE, uuid, start);
      var all := DocRecords(pages, deltaE, uuid, start);
      var loc := LocatedHighlights(pages);
      var hs := HighlightAnnotations(last.annotations);
      forall k | 0 <= k < |loc|
        ensures 1 <= loc[k].0 <= |pages| &&
                all[k] == MakeHighlight(loc[k].0, SizeOfPage(pages[loc[k].0 - 1]), loc[k].1,
                                        deltaE, uuid(start + k))
      {
        if k < |prev| {
          assert init[loc[k].0 - 1] == pages[loc[k].0 - 1];
        } else {
          var j := k - |prev|;
          assert loc[k] == (|pages|, hs[j]);
          assert all[k] == PageRecords(|pages|, SizeOfPage(last), last.annotations, deltaE, uuid, start + |prev|)[j];
        }
      }
    }
  }

  /** The k-th record carries the k-th id handed out by the oracle. */
  lemma DocRecordIds(pages: seq<PdfJsPage>, deltaE: (Rgb, Rgb) -> real, uuid: nat -> string, start: nat)
    ensures var all := DocRecords(pages, deltaE, uuid, start);
            forall k :: 0 <= k < |all| ==> all[k].id == uuid(start + k)
  {
    DocRecordsAreLocated(pages, deltaE, uuid, start);
  }

  /**
   * Records come out page-ascending, each one on a page of the document and
   * with both of its page fields equal.
   */
  lemma DocRecordsPageOrder(pages: seq<PdfJsPage>, deltaE: (Rgb, Rgb) -> real, uuid: nat -> string, start: nat)
    ensures var all := DocRecords(pages, deltaE, uuid, start);
            forall k :: 0 <= k < |all| ==>
              1 <= all[k].page <= |pages| && all[k].position.page == all[k].page
    ensures var all := DocRecords(pages, deltaE, uuid, start);
            forall k, l :: 0 <= k <= l < |all| ==> all[k].page <= all[l].page
  {
    DocRecordsAreLocated(pages, deltaE, uuid, start);
    LocatedHighlightsAscending(pages);
  }

  /**
   * Extraction yields `undefined` exactly when no page has an annotation of
   * subtype "Highlight".
   */
  lemma ExtractNothingIff(pages: seq<PdfJsPage>, deltaE: (Rgb, Rgb) -> real, uuid: nat -> string, start: nat)
    ensures DocRecords(pages, deltaE, uuid, start) == [] <==>
            forall i, a :: 0 <= i < |pages| && a in pages[i].annotations ==> !IsHighlight(a)
  {
    DocRecordsCount(pages, deltaE, uuid, start);
    var loc := LocatedHighlights(pages);
    if |loc| > 0 {
      LocatedHighlightsOnPage(pages);
      assert OnItsPage(pages, loc[0]);
    } else {
      LocatedHighlightsComplete(pages);
    }
  }

  /** There are as many records as located highlight annotations. */
  lemma {:induction false} DocRecordsCount(pages: seq<PdfJsPage>, deltaE: (Rgb, Rgb) -> real,
                                           uuid: nat -> string, start: nat)
    ensures |DocRecords(pages, deltaE, uuid, start)| == |LocatedHighlights(pages)|
  {
    if |pages| > 0 {
      DocRecordsCount(pages[..|pages| - 1], deltaE, uuid, start);
    }
  }

  /** With an oracle that never repeats itself, no two records share an id. */
  lemma DocRecordIdsDistinct(pages: seq<PdfJsPage>, deltaE: (Rgb, Rgb) -> real, uuid: nat -> string, start: nat)
    requires forall m: nat, n: nat :: m != n ==> uuid(m) != uuid(n)
    ensures var all := DocRecords(pages, deltaE, uuid, start);
            forall k, l :: 0 <= k < l < |all| ==> all[k].id != all[l].id
  {
    DocRecordIds(pages, deltaE, uuid, start);
  }

  /**
   * Extraction is not idempotent: extracting the same document again, with
   * ids drawn after those of the first pass, gives the same highlights
   * under ids disjoint from the first pass's, so deduplication by id cannot
   * recognise them.
   */
  lemma ReextractionRenamesIds(pages: seq<PdfJsPage>, deltaE: (Rgb, Rgb) -> real, uuid: nat -> string,
                               start: nat, restart: nat)
    requires forall m: nat, n: nat :: m != n ==> uuid(m) != uuid(n)
    requires restart >= start + |DocRecords(pages, deltaE, uuid, start)|
    ensures var first := DocRecords(pages, deltaE, uuid, start);
            var second := DocRecords(pages, deltaE, uuid, restart);
            |first| == |second| &&
            (forall k :: 0 <= k < |first| ==> first[k].(id := "") == second[k].(id := "")) &&
            (forall k, l :: 0 <= k < |first| && 0 <= l < |second| ==> first[k].id != second[l].id)
  {
    var first := DocRecords(pages, deltaE, uuid, start);
    var second := DocRecords(pages, deltaE, uuid, restart);
    DocRecordsAreLocated(pages, deltaE, uuid, start);
    DocRecordsAreLocated(pages, deltaE, uuid, restart);
    assert |first| == |second|;
    forall k | 0 <= k < |first|
      ensures first[k].(id := "") == second[k].(id := "")
    {
      var loc := LocatedHighlights(pages)[k];
      var size := SizeOfPage(pages[loc.0 - 1]);
      assert first[k] == MakeHighlight(loc.0, size, loc.1, deltaE, uuid(start + k));
      assert second[k] == MakeHighlight(loc.0, size, loc.1, deltaE, uuid(restart + k));
    }
    DocRecordIds(pages, deltaE, uuid, start);
    DocRecordIds(pages, deltaE, uuid, restart);
    forall k, l | 0 <= k < |first| && 0 <= l < |second|
      ensures first[k].id != second[l].id
    {
      assert first[k].id == uuid(start + k);
      assert second[l].id == uuid(restart + l);
      assert start + k < restart + l;
    }
  }
}
