/**
 * `resolvePDFPath` (src/utils/fs-util.js): the path of the leftmost
 * Markdown link target ending in ".pdf", matched by the regular expression
 * /\]\(([^)]+\.pdf)/, split on "/".
 */
module PdfPath {
  import opened Wrappers

  /** No ")" among `s[lo..hi]`. */
  predicate NoCloseParen(s: string, lo: nat, hi: nat)
    requires lo <= hi <= |s|
  {
    forall k :: lo <= k < hi ==> s[k] != ')'
  }

  /** ".pdf" ends at `e`. */
  predicate PdfEndsAt(s: string, e: nat)
  {
    4 <= e <= |s| && s[e - 4..e] == ".pdf"
  }

  /**
   * The regular expression matches at `i` with its group capturing
   * `s[i + 2..e]`: "](" at `i`, then at least one character other than ")"
   * and ".pdf" ending at `e`.
   */
  predicate LinkAt(s: string, i: nat, e: nat)
  {
    i + 7 <= e <= |s| && s[i] == ']' && s[i + 1] == '(' &&
    PdfEndsAt(s, e) && NoCloseParen(s, i + 2, e)
  }

  /** The end of the run of non-")" characters starting at `j`. */
  function RunEnd(s: string, j: nat): (k: nat)
    requires j <= |s|
    ensures j <= k <= |s| && NoCloseParen(s, j, k)
    ensures k < |s| ==> s[k] == ')'
    decreases |s| - j
  {
    if j == |s| || s[j] == ')' then j else RunEnd(s, j + 1)
  }

  /** The largest `e` in `lo..hi` at which ".pdf" ends. */
  function LastPdfEnd(s: string, lo: nat, hi: nat): (r: Option<nat>)
    requires 4 <= lo && hi <= |s|
    ensures r.Some? ==> lo <= r.value <= hi && PdfEndsAt(s, r.value)
    ensures r.Some? ==> forall e: nat :: r.value < e <= hi ==> !PdfEndsAt(s, e)
    ensures r.None? ==> forall e: nat :: lo <= e <= hi ==> !PdfEndsAt(s, e)
    decreases hi
  {
    if hi < lo then None
    else if PdfEndsAt(s, hi) then Some(hi)
    else LastPdfEnd(s, lo, hi - 1)
  }

  /**
   * The match at position `i`, if any: the greedy `[^)]+` runs to the next
   * ")" (or the end) and gives back characters until ".pdf" fits.
   */
  function MatchAt(s: string, i: nat): (r: Option<nat>)
    ensures r.Some? ==> LinkAt(s, i, r.value)
    ensures r.Some? ==> forall e :: r.value < e ==> !LinkAt(s, i, e)
    ensures r.None? ==> forall e :: !LinkAt(s, i, e)
  {
    if i + 2 <= |s| && s[i] == ']' && s[i + 1] == '(' then
      var run := RunEnd(s, i + 2);
      var r := LastPdfEnd(s, i + 7, run);
      assert forall e: nat :: LinkAt(s, i, e) ==> e <= run;
      r
    else None
  }

  /** The leftmost position at or after `from` where the expression matches. */
  function FirstLink(s: string, from: nat): (r: Option<(nat, nat)>)
    requires from <= |s|
    ensures r.Some? ==> from <= r.value.0 && LinkAt(s, r.value.0, r.value.1)
    ensures r.Some? ==> forall e :: r.value.1 < e ==> !LinkAt(s, r.value.0, e)
    ensures r.Some? ==> forall i, e :: from <= i < r.value.0 ==> !LinkAt(s, i, e)
    ensures r.None? ==> forall i, e :: from <= i ==> !LinkAt(s, i, e)
    decreases |s| - from
  {
    match MatchAt(s, from)
    case Some(e) => Some((from, e))
    case None =>
      if from == |s| then
        assert forall i, e :: from <= i ==> !LinkAt(s, i, e);
        None
      else FirstLink(s, from + 1)
  }

  /** `split("/")`: never empty; adjacent or outer separators give empty segments. */
  function Split(s: string): (r: seq<string>)
    ensures |r| >= 1
  {
    if |s| == 0 then [""]
    else
      var rest := Split(s[1..]);
      if s[0] == '/' then [""] + rest else [[s[0]] + rest[0]] + rest[1..]
  }

  /** Segments joined with "/". */
  function Join(segments: seq<string>): string
    requires |segments| >= 1
  {
    if |segments| == 1 then segments[0] else segments[0] + "/" + Join(segments[1..])
  }

  /** Joining the segments of a split gives back the text, and no segment holds a "/". */
  lemma {:induction false} SplitJoin(s: string)
    ensures Join(Split(s)) == s
    ensures forall k :: 0 <= k < |Split(s)| ==> '/' !in Split(s)[k]
  {
    if |s| > 0 {
      var rest := Split(s[1..]);
      SplitJoin(s[1..]);
      if s[0] == '/' {
        assert Split(s) == [""] + rest;
        assert Split(s)[1..] == rest;
        assert s == "" + "/" + s[1..];
      } else {
        var r := Split(s);
        assert r[0] == [s[0]] + rest[0];
        assert r[1..] == rest[1..];
        if |rest| == 1 {
          assert Join(r) == [s[0]] + rest[0];
        } else {
          assert Join(r) == [s[0]] + rest[0] + "/" + Join(rest[1..]);
          assert Join(rest) == rest[0] + "/" + Join(rest[1..]);
        }
        assert s == [s[0]] + s[1..];
        forall k | 0 <= k < |r|
          ensures '/' !in r[k]
        {
          if k > 0 {
            assert r[k] == rest[k];
          }
        }
      }
    }
  }

  /** Splitting the join of "/"-free segments gives back the segments. */
  lemma {:induction false} JoinSplit(segments: seq<string>)
    requires |segments| >= 1
    requires forall k :: 0 <= k < |segments| ==> '/' !in segments[k]
    ensures Split(Join(segments)) == segments
  {
    if |segments| == 1 {
      SplitWithoutSeparator(segments[0]);
    } else {
      JoinSplit(segments[1..]);
      SplitAfterSegment(segments[0], Join(segments[1..]));
    }
  }

  lemma {:induction false} SplitWithoutSeparator(w: string)
    requires '/' !in w
    ensures Split(w) == [w]
  {
    if |w| > 0 {
      assert '/' !in w[1..] by {
        forall c | c in w[1..] ensures c in w { }
      }
      SplitWithoutSeparator(w[1..]);
      assert w == [w[0]] + w[1..];
    }
  }

  lemma {:induction false} SplitAfterSegment(w: string, t: string)
    requires '/' !in w
    ensures Split(w + "/" + t) == [w] + Split(t)
  {
    if |w| == 0 {
      assert w + "/" + t == "/" + t;
      assert ("/" + t)[1..] == t;
    } else {
      assert '/' !in w[1..] by {
        forall c | c in w[1..] ensures c in w { }
      }
      SplitAfterSegment(w[1..], t);
      assert (w + "/" + t)[1..] == w[1..] + "/" + t;
      assert w == [w[0]] + w[1..];
    }
  }

  /** `resolvePDFPath`: `undefined` when nothing matches, else the captured path split on "/". */
  function ResolvePdfPath(blockContent: string): Option<seq<string>>
  {
    match FirstLink(blockContent, 0)
    case None => None
    case Some((i, e)) => Some(Split(blockContent[i + 2..e]))
  }

  /**
   * No match gives `undefined`. A match comes from the leftmost "](" that
   * starts a link, and its path is the longest capture there: it ends in
   * ".pdf" with at least one character before it, holds no ")", follows
   * "](" immediately, and is what the segments join back to.
   */
  lemma ResolvePdfPathSpec(blockContent: string)
    ensures ResolvePdfPath(blockContent).None? <==> forall i, e :: !LinkAt(blockContent, i, e)
    ensures ResolvePdfPath(blockContent).Some? ==>
              var (i, e) := FirstLink(blockContent, 0).value;
              var path := Join(ResolvePdfPath(blockContent).value);
              path == blockContent[i + 2..e] &&
              |path| >= 5 && path[|path| - 4..] == ".pdf" && ')' !in path &&
              blockContent[i..i + 2] == "](" &&
              (forall j, f :: 0 <= j < i ==> !LinkAt(blockContent, j, f)) &&
              (forall f :: e < f ==> !LinkAt(blockContent, i, f))
  {
    var r := FirstLink(blockContent, 0);
    if r.Some? {
      var (i, e) := r.value;
      SplitJoin(blockContent[i + 2..e]);
      CapturedPath(blockContent, i, e);
    }
  }

  /** The capture of a match ends in ".pdf" after at least one character and holds no ")". */
  lemma CapturedPath(s: string, i: nat, e: nat)
    requires LinkAt(s, i, e)
    ensures var path := s[i + 2..e];
            |path| >= 5 && path[|path| - 4..] == ".pdf" && ')' !in path && s[i..i + 2] == "]("
  {
    var path := s[i + 2..e];
    assert path[|path| - 4..] == s[e - 4..e];
    forall k | 0 <= k < |path|
      ensures path[k] != ')'
    {
      assert path[k] == s[i + 2 + k];
    }
  }

  /**
   * The result is never empty and no segment holds a "/"; the last segment,
   * the file name callers pop, ends the path and is preceded by "/" unless
   * it is the whole path.
   */
  lemma ResolvePdfPathSegments(blockContent: string)
    requires ResolvePdfPath(blockContent).Some?
    ensures var segs := ResolvePdfPath(blockContent).value;
            |segs| >= 1 && (forall k :: 0 <= k < |segs| ==> '/' !in segs[k]) &&
            var path := Join(segs);
            var name := segs[|segs| - 1];
            |name| <= |path| && path[|path| - |name|..] == name &&
            (|name| < |path| ==> path[|path| - |name| - 1] == '/')
  {
    var segs := ResolvePdfPath(blockContent).value;
    SplitJoin(Join(segs));
    var (i, e) := FirstLink(blockContent, 0).value;
    SplitJoin(blockContent[i + 2..e]);
    JoinLast(segs);
  }

  lemma {:induction false} JoinLast(segs: seq<string>)
    requires |segs| >= 1
    ensures var path := Join(segs);
            var name := segs[|segs| - 1];
            |name| <= |path| && path[|path| - |name|..] == name &&
            (|segs| > 1 ==> |name| < |path| && path[|path| - |name| - 1] == '/')
  {
    if |segs| > 1 {
      JoinLast(segs[1..]);
      var path := Join(segs);
      var tail := Join(segs[1..]);
      assert path == segs[0] + "/" + tail;
      assert path[|path| - |tail|..] == tail;
      assert path[|path| - |tail| - 1] == '/';
    }
  }

  /** The capture is greedy within a link: it runs to the last ".pdf" before ")". */
  lemma ResolveGreedyExample()
    ensures ResolvePdfPath("](a.pdf.pdf)") == Some(["a.pdf.pdf"])
  {
    var s := "](a.pdf.pdf)";
    assert s == "](" + "a.pdf.pdf" + ")";
    assert s[7..11] == ".pdf";
    assert LinkAt(s, 0, 11);
    assert s[11] == ')';
    assert !NoCloseParen(s, 2, 12);
    var r := FirstLink(s, 0);
    assert r.Some? && r.value == (0, 11);
    assert s[2..11] == "a.pdf.pdf";
    SplitWithoutSeparator("a.pdf.pdf");
  }

  /**
   * Of two links only the leftmost is used, and a relative path splits into
   * its directories and the file name.
   */
  lemma ResolveLeftmostExample()
    ensures ResolvePdfPath("[d](../a/d.pdf) [e](e.pdf)") == Some(["..", "a", "d.pdf"])
  {
    LeftmostLinkOfExample();
    ExamplePathSlice();
    SplitOfExamplePath();
  }

  lemma ExamplePathSlice()
    ensures "[d](../a/d.pdf) [e](e.pdf)"[4..14] == "../a/d.pdf"
  {
    var s := "[d](../a/d.pdf) [e](e.pdf)";
    assert s[4..14] == [s[4], s[5], s[6], s[7], s[8], s[9], s[10], s[11], s[12], s[13]];
  }

  lemma LeftmostLinkOfExample()
    ensures FirstLink("[d](../a/d.pdf) [e](e.pdf)", 0) == Some((2, 14))
  {
    var s := "[d](../a/d.pdf) [e](e.pdf)";
    assert s[10..14] == ".pdf";
    assert LinkAt(s, 2, 14);
    assert forall e :: 14 < e ==> !LinkAt(s, 2, e) by {
      assert s[14] == ')';
    }
    assert forall e :: !LinkAt(s, 0, e) && !LinkAt(s, 1, e);
  }

  lemma SplitOfExamplePath()
    ensures Split("../a/d.pdf") == ["..", "a", "d.pdf"]
  {
    var segs := ["..", "a", "d.pdf"];
    assert Join(segs[2..]) == "d.pdf";
    assert Join(segs[1..]) == "a" + "/" + "d.pdf";
    assert Join(segs) == ".." + "/" + "a/d.pdf" == "../a/d.pdf";
    assert forall k :: 0 <= k < |segs| ==> '/' !in segs[k];
    JoinSplit(segs);
  }
}
