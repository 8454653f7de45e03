/** The vision candidate finder (`find_signature_candidates_by_ocr`) after rasterisation and
    recognition: the OCR words and the line segments of each page are inputs. */
module OcrFinder {
  import opened Common
  import opened Coords
  import opened Keywords
  import opened Candidates
  import opened Dedup

  /** One word reported by the recogniser, in image pixels; `conf` is already an integer. */
  datatype OcrWord = OcrWord(text: string, conf: int, left: real, top: real, width: real, height: real)

  /** A line segment from the line detector, in image pixels. */
  datatype Segment = Segment(x1: real, y1: real, x2: real, y2: real)

  /** One page: its image size in pixels, its media box size in points, its recognised words,
      and the detected segments, `None` when the line detection raised. */
  datatype PageScan = PageScan(imgW: nat, imgH: nat, pdfW: real, pdfH: real,
                               words: seq<OcrWord>, lines: Option<seq<Segment>>)

  const MIN_CONF: int := 30
  const SIG_WIDTH: real := 120.0
  const SIG_HEIGHT: real := 45.0
  const OCR_MIN_SCORE: real := 0.5
  const REASON_TEXT_LIMIT: nat := 20
  /** A segment is near-horizontal when its ends differ by less than this many pixels in y. */
  const LINE_MAX_RISE: real := 10.0
  /** The pixel height of the box mapped for a segment. */
  const LINE_PROBE_HEIGHT: real := 20.0
  const LINE_HEIGHT: real := 40.0
  const LINE_SCORE: real := 0.45
  const LINE_REASON: string := "line_detect"

  /** `f"ocr: {text[:20]}"`. */
  function OcrReason(text: string): string {
    "ocr: " + text[..if |text| < REASON_TEXT_LIMIT then |text| else REASON_TEXT_LIMIT]
  }

  predicate IsOcrCandidate(c: Candidate) {
    |c.reason| >= 5 && c.reason[..5] == "ocr: "
  }

  predicate IsLineCandidate(c: Candidate) {
    c.reason == LINE_REASON
  }

  lemma LineIsNotOcr(c: Candidate)
    ensures IsLineCandidate(c) ==> !IsOcrCandidate(c)
  {
    if IsLineCandidate(c) {
      assert c.reason[0] == 'l';
    }
  }

  /** The word rule: recognised with confidence above 30 and a signature label. */
  predicate WordQualifies(w: OcrWord, ratio: (string, string) -> real) {
    w.conf > MIN_CONF && IsSignatureText(w.text, ratio)
  }

  /** The word's box on the page. */
  function WordBox(scan: PageScan, w: OcrWord): PdfRect {
    ConvertOcrToPdfCoords(w.left, w.top, w.width, w.height, scan.imgW, scan.imgH, scan.pdfW, scan.pdfH)
  }

  /** The candidate for a qualifying word: a fixed 120 x 45 box starting where the word
      starts, centred vertically on the word, scored by the recognition confidence but never
      below 0.5. */
  function WordCandidate(page: nat, scan: PageScan, w: OcrWord): (c: Candidate)
    ensures var m := WordBox(scan, w);
            && c.page == page && c.x == m.x
            && c.width == SIG_WIDTH && c.height == SIG_HEIGHT
            && c.y + SIG_HEIGHT / 2.0 == m.y + m.h / 2.0
            && c.score.Some?
            && Score(c) >= OCR_MIN_SCORE && Score(c) >= w.conf as real / 100.0
            && (Score(c) == OCR_MIN_SCORE || Score(c) == w.conf as real / 100.0)
            && IsOcrCandidate(c) && !IsLineCandidate(c)
  {
    var m := WordBox(scan, w);
    var newBoxY := m.y + m.h / 2.0 - SIG_HEIGHT / 2.0;
    var c := Candidate(page, m.x, newBoxY, SIG_WIDTH, SIG_HEIGHT,
                       Some(Max(OCR_MIN_SCORE, w.conf as real / 100.0)), OcrReason(w.text));
    assert c.reason[..5] == "ocr: " && c.reason[0] != LINE_REASON[0];
    c
  }

  predicate LineQualifies(s: Segment) {
    Abs(s.y2 - s.y1) < LINE_MAX_RISE
  }

  /** The segment's probe box on the page: from its leftmost and upper end, as wide as the
      segment, 20 pixels high. */
  function LineBox(scan: PageScan, s: Segment): PdfRect {
    ConvertOcrToPdfCoords(Min(s.x1, s.x2), Min(s.y1, s.y2), Abs(s.x2 - s.x1), LINE_PROBE_HEIGHT,
                          scan.imgW, scan.imgH, scan.pdfW, scan.pdfH)
  }

  /** The candidate for a near-horizontal segment: placed at the mapped probe box, as wide as
      the segment on the page, 40 points high, scored 0.45. */
  function LineCandidate(page: nat, scan: PageScan, s: Segment): (c: Candidate)
    ensures var m := LineBox(scan, s);
            && c.page == page && c.x == m.x && c.y == m.y && c.width == m.w
            && c.height == LINE_HEIGHT && c.score == Some(LINE_SCORE)
            && IsLineCandidate(c) && !IsOcrCandidate(c)
  {
    var m := LineBox(scan, s);
    assert LINE_REASON[..5] != "ocr: " by { assert LINE_REASON[0] == 'l'; }
    Candidate(page, m.x, m.y, m.w, LINE_HEIGHT, Some(LINE_SCORE), LINE_REASON)
  }

  /** The OCR pass over the words of one page, in order. */
  function WordCandidates(page: nat, scan: PageScan, words: seq<OcrWord>,
                          ratio: (string, string) -> real): seq<Candidate> {
    if words == [] then []
    else
      var w := words[|words| - 1];
      WordCandidates(page, scan, words[..|words| - 1], ratio)
      + (if WordQualifies(w, ratio) then [WordCandidate(page, scan, w)] else [])
  }

  /** The line pass over the segments of one page, in order. */
  function LineCandidates(page: nat, scan: PageScan, segs: seq<Segment>): seq<Candidate> {
    if segs == [] then []
    else
      var s := segs[|segs| - 1];
      LineCandidates(page, scan, segs[..|segs| - 1])
      + (if LineQualifies(s) then [LineCandidate(page, scan, s)] else [])
  }

  /** One page's candidates: the OCR pass, then the line pass. */
  function PageCandidates(page: nat, scan: PageScan, ratio: (string, string) -> real): seq<Candidate> {
    WordCandidates(page, scan, scan.words, ratio)
    + match scan.lines
      case None => []
      case Some(segs) => LineCandidates(page, scan, segs)
  }

  /** All candidates of the pages, page after page, before deduplication. */
  function RawCandidates(pages: seq<PageScan>, ratio: (string, string) -> real): seq<Candidate> {
    if pages == [] then []
    else
      RawCandidates(pages[..|pages| - 1], ratio)
      + PageCandidates(|pages| - 1, pages[|pages| - 1], ratio)
  }

  /** The OCR pass over one page's words. */
  method OcrPass(pageIndex: nat, scan: PageScan, ratio: (string, string) -> real)
    returns (found: seq<Candidate>)
    ensures found == WordCandidates(pageIndex, scan, scan.words, ratio)
  {
    found := [];
    var i := 0;
    while i < |scan.words|
      invariant 0 <= i <= |scan.words|
      invariant found == WordCandidates(pageIndex, scan, scan.words[..i], ratio)
    {
      var w := scan.words[i];
      assert scan.words[..i + 1][..i] == scan.words[..i];
      if w.conf > MIN_CONF && FuzzyMatch(w.text, KEYWORDS, CUTOFF, ratio) {
        found := found + [WordCandidate(pageIndex, scan, w)];
      }
      i := i + 1;
    }
    assert scan.words[..i] == scan.words;
  }

  /** The line pass over one page's detected segments. */
  method LinePass(pageIndex: nat, scan: PageScan, lines: seq<Segment>)
    returns (found: seq<Candidate>)
    ensures found == LineCandidates(pageIndex, scan, lines)
  {
    found := [];
    var k := 0;
    while k < |lines|
      invariant 0 <= k <= |lines|
      invariant found == LineCandidates(pageIndex, scan, lines[..k])
    {
      var ln := lines[k];
      assert lines[..k + 1][..k] == lines[..k];
      if Abs(ln.y2 - ln.y1) < LINE_MAX_RISE {
        found := found + [LineCandidate(pageIndex, scan, ln)];
      }
      k := k + 1;
    }
    assert lines[..k] == lines;
  }

  /** `find_signature_candidates_by_ocr`: `None` stands for a document that cannot be opened
      or rasterised, which yields no candidates. */
  method FindSignatureCandidatesByOcr(doc: Option<seq<PageScan>>, ratio: (string, string) -> real)
    returns (ranked: seq<Candidate>)
    ensures doc.None? ==> ranked == []
    ensures doc.Some? ==> ranked == Deduplicate(RawCandidates(doc.value, ratio), THRESHOLD)
    ensures SortedDesc(ranked) && Separated(ranked, THRESHOLD)
    ensures forall i, j :: 0 <= i < j < |ranked| ==> !(IsLineCandidate(ranked[i]) && IsOcrCandidate(ranked[j]))
  {
    if doc.None? {
      return [];
    }
    var pages := doc.value;
    var candidates: seq<Candidate> := [];
    var pageIndex := 0;
    while pageIndex < |pages|
      invariant 0 <= pageIndex <= |pages|
      invariant candidates == RawCandidates(pages[..pageIndex], ratio)
    {
      var scan := pages[pageIndex];
      ghost var upto := pages[..pageIndex + 1];
      assert upto[..pageIndex] == pages[..pageIndex] && upto[pageIndex] == scan;
      assert RawCandidates(upto, ratio) == candidates + PageCandidates(pageIndex, scan, ratio);
      var found := OcrPass(pageIndex, scan, ratio);
      if scan.lines.Some? {
        var lineFound := LinePass(pageIndex, scan, scan.lines.value);
        found := found + lineFound;
      }
      assert found == PageCandidates(pageIndex, scan, ratio);
      candidates := candidates + found;
      pageIndex := pageIndex + 1;
    }
    assert pages[..pageIndex] == pages;
    var unique := RemoveDuplicateCandidates(candidates, THRESHOLD);
    ranked := SortByScoreDesc(unique);
    SortOfSortedIsIdentity(unique);
    RankedOcrBeforeLines(pages, ratio);
  }

  /** Exactly the qualifying words yield candidates, each the word's own. */
  lemma {:induction false} WordCandidatesExactly(page: nat, scan: PageScan, words: seq<OcrWord>,
                                                 ratio: (string, string) -> real)
    ensures forall c :: c in WordCandidates(page, scan, words, ratio) <==>
              exists k :: 0 <= k < |words| && WordQualifies(words[k], ratio)
                          && c == WordCandidate(page, scan, words[k])
  {
    if words != [] {
      var init := words[..|words| - 1];
      WordCandidatesExactly(page, scan, init, ratio);
      forall k | 0 <= k < |init| ensures init[k] == words[k] { }
    }
  }

  /** Exactly the near-horizontal segments yield candidates, each the segment's own. */
  lemma {:induction false} LineCandidatesExactly(page: nat, scan: PageScan, segs: seq<Segment>)
    ensures forall c :: c in LineCandidates(page, scan, segs) <==>
              exists k :: 0 <= k < |segs| && LineQualifies(segs[k]) && c == LineCandidate(page, scan, segs[k])
  {
    if segs != [] {
      var init := segs[..|segs| - 1];
      LineCandidatesExactly(page, scan, init);
      forall k | 0 <= k < |init| ensures init[k] == segs[k] { }
    }
  }

  /** Every candidate of a page is on that page and is an OCR candidate scoring at least 0.5
      or a line candidate scoring 0.45. */
  lemma PageCandidatesShape(page: nat, scan: PageScan, ratio: (string, string) -> real)
    ensures forall c :: c in PageCandidates(page, scan, ratio) ==>
              && c.page == page
              && ((IsOcrCandidate(c) && Score(c) >= OCR_MIN_SCORE)
                  || (IsLineCandidate(c) && Score(c) == LINE_SCORE))
  {
    WordCandidatesExactly(page, scan, scan.words, ratio);
    if scan.lines.Some? {
      LineCandidatesExactly(page, scan, scan.lines.value);
    }
  }

  /** Every candidate of all pages carries the index of a page of the document and is one
      of that page's candidates. */
  lemma {:induction false} RawCandidatesByPage(pages: seq<PageScan>, ratio: (string, string) -> real)
    ensures forall c :: c in RawCandidates(pages, ratio) ==>
              0 <= c.page < |pages| && c in PageCandidates(c.page, pages[c.page], ratio)
  {
    if pages != [] {
      var n := |pages| - 1;
      var init := pages[..n];
      RawCandidatesByPage(init, ratio);
      PageCandidatesShape(n, pages[n], ratio);
      forall c | c in RawCandidates(pages, ratio)
        ensures 0 <= c.page < |pages| && c in PageCandidates(c.page, pages[c.page], ratio)
      {
        if c in RawCandidates(init, ratio) {
          assert init[c.page] == pages[c.page];
        }
      }
    }
  }

  /** Every candidate of every page is among the candidates of all pages. */
  lemma {:induction false} RawCandidatesCoverPage(pages: seq<PageScan>, p: nat, ratio: (string, string) -> real)
    requires p < |pages|
    ensures forall c :: c in PageCandidates(p, pages[p], ratio) ==> c in RawCandidates(pages, ratio)
  {
    var n := |pages| - 1;
    var init := pages[..n];
    assert RawCandidates(pages, ratio) == RawCandidates(init, ratio) + PageCandidates(n, pages[n], ratio);
    if p < n {
      assert init[p] == pages[p];
      RawCandidatesCoverPage(init, p, ratio);
    }
  }

  /** Every candidate found is on a page of the document and is an OCR candidate scoring at
      least 0.5 or a line candidate scoring 0.45. */
  lemma RawCandidatesShape(pages: seq<PageScan>, ratio: (string, string) -> real)
    ensures forall c :: c in RawCandidates(pages, ratio) ==>
              && 0 <= c.page < |pages|
              && ((IsOcrCandidate(c) && Score(c) >= OCR_MIN_SCORE)
                  || (IsLineCandidate(c) && Score(c) == LINE_SCORE))
  {
    RawCandidatesByPage(pages, ratio);
    forall c | c in RawCandidates(pages, ratio)
      ensures (IsOcrCandidate(c) && Score(c) >= OCR_MIN_SCORE) || (IsLineCandidate(c) && Score(c) == LINE_SCORE)
    {
      PageCandidatesShape(c.page, pages[c.page], ratio);
    }
  }

  /** After deduplication and ranking, every OCR candidate comes before every line
      candidate, and every candidate is on a page of the document. */
  lemma RankedOcrBeforeLines(pages: seq<PageScan>, ratio: (string, string) -> real)
    ensures var ranked := Deduplicate(RawCandidates(pages, ratio), THRESHOLD);
            && (forall i, j :: 0 <= i < j < |ranked| ==> !(IsLineCandidate(ranked[i]) && IsOcrCandidate(ranked[j])))
            && (forall c :: c in ranked ==> 0 <= c.page < |pages|)
  {
    var raw := RawCandidates(pages, ratio);
    var ranked := Deduplicate(raw, THRESHOLD);
    DeduplicateProperties(raw, THRESHOLD);
    RawCandidatesShape(pages, ratio);
    forall i, j | 0 <= i < j < |ranked| ensures !(IsLineCandidate(ranked[i]) && IsOcrCandidate(ranked[j])) {
      var a, b := ranked[i], ranked[j];
      assert a in raw && b in raw;
      assert Score(a) >= Score(b);
      LineIsNotOcr(a);
      LineIsNotOcr(b);
    }  }
}
