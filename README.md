# Signature placement: a Dafny model of `signer_utils.py`

This project models the decision logic of an automated e-signature service. The service
finds where a signature belongs in a document and stamps a signature image there. The
model covers these parts of `signer_utils.py`:

- the **coordinate mapper** (`convert_ocr_to_pdf_coords`). It turns a pixel box with a
  top-left origin into a PDF box with a bottom-left origin.
- the **keyword matcher** (`fuzzy_match`). A keyword matches when it occurs in the
  lower-cased text, or when its similarity ratio with that text reaches the cutoff.
- the **deduplicator** (`remove_duplicate_candidates`). It sorts the candidates stably by
  descending score, then greedily drops any candidate that lies near an already kept one
  on both axes.
- the **vision candidate finder** (`find_signature_candidates_by_ocr`), starting from the
  recognised words and detected line segments of each page. It follows the 120 × 45 box
  rule for words, the 0.45 rule for lines, and the final dedup-then-sort ranking.
- the **text-layer extractors** (`extract_emails_and_sigboxes_from_pdf`,
  `extract_emails_and_sigpos_from_docx`). They pad the box of each matching word, flag
  signature paragraphs, and collect emails.
- the **placement selection** of `overlay_signature_on_pdf_at_candidates`. It groups the
  candidates by page and chooses what each page of the document draws.

Every library the code calls becomes an input:

- the difflib similarity ratio is the parameter `ratio`, applied as `ratio(lowered text, keyword)`;
- `EMAIL_RE.findall` is the parameter `findEmails`;
- Tesseract's words and the line detector's segments are fields of `PageScan`;
- pdfplumber's words and page text are fields of `TextPage`;
- python-docx gives a sequence of paragraph texts;
- the number of pages PyPDF2 reports is `numPages`.

A document that cannot be opened appears as `None`.

Modules: `Common` (option type, absolute value, subsequence embedding), `Coords`,
`Keywords`, `Candidates` (the candidate record and Python's stable `sorted` by descending
score), `Dedup`, `OcrFinder`, `TextLayer`, `Overlay`.

### Behaviour of the code worth knowing

- The deduplicator does not compare pages (signer_utils.py:94). A candidate on one page
  suppresses a candidate at the same spot on another page (`Dedup.CrossPageSuppression`).
- The PDF extractor takes emails only from each page's full text, not from the word
  tokens (signer_utils.py:130-133). It returns them through `list(set(...))`, so their
  order is unspecified (signer_utils.py:146). The DOCX extractor keeps first-seen order
  (signer_utils.py:155-157, 162).
- Email matching is whatever `findEmails` does. The regex of signer_utils.py:24 is
  case-sensitive, and nothing in the code folds the case of an email.
- `signer_utils.py` has no fixed default box when no signature text is found, and no
  error fallback in the overlay (signer_utils.py:240-278).

## Model

| member | source | states |
|---|---|---|
| Coords.ConvertOcrToPdfCoords | signer_utils.py:65-74 | a zero image width or height gives exactly (0, 0, ocr_w, ocr_h); otherwise x and w scale by pdf_w/img_w, h scales by pdf_h/img_h, and y is inverted: the box's top edge on the page lies ocr_y scaled pixels below the page top, its bottom edge ocr_y + ocr_h below |
| Coords.PixelRoundTrip | signer_utils.py:65-74 | on a non-degenerate image and page, mapping a pixel box to the page and back returns the same pixel box |
| Coords.PdfRoundTrip | signer_utils.py:65-74 | on a non-degenerate image and page, mapping a page box to pixels and back returns the same page box, so the mapping is a bijection |
| Coords.LowerInImageIsLowerOnPage | signer_utils.py:72 | a box lower in the image (larger pixel top) has both edges lower on the page |
| Keywords.AnyKeywordHits | signer_utils.py:46-49 | the loop over the keywords returns true exactly when some keyword occurs in the text or reaches the cutoff ratio |
| Keywords.FuzzyMatch | signer_utils.py:41-49 | empty text never matches; otherwise the text matches exactly when some keyword occurs in its lower-cased form or has ratio at least the cutoff with it |
| Keywords.SubstringMatchesAtAnyCutoff | signer_utils.py:43-48 | a keyword occurring in the lower-cased non-empty text makes it match for every cutoff and every ratio function |
| Keywords.MatchMonotoneInCutoff | signer_utils.py:47 | lowering the cutoff never turns a match into a non-match |
| Keywords.SignatureWordAlwaysMatches | signer_utils.py:25-48 | with the default keywords, any text containing "signature" or "sign here" in any letter case matches, whatever the ratio |
| Keywords.PleaseSignHereMatches | signer_utils.py:25-48 | the label "Please Sign Here" matches with the default keywords, whatever the ratio |
| Candidates.SortByScoreDescCorrect | signer_utils.py:91 | `SortByScoreDesc`, Python's stable `sorted` by descending score written as an insertion sort, returns a permutation of its input in descending score (missing score counts as 0), and candidates of equal score keep their input order |
| Candidates.SortOfSortedIsIdentity | signer_utils.py:239 | sorting a list already in descending score order returns it unchanged |
| Dedup.RemoveDuplicateCandidates | signer_utils.py:88-99 | the nested loops with the break return `Deduplicate`, which is `Greedy` (keep a candidate unless one kept before it is near on both axes) over `SortByScoreDesc` of the input; the result is in descending score order, no two kept candidates are within the threshold on both axes, and it is a subsequence of the sorted input |
| Dedup.GreedyIsSubsequence | signer_utils.py:93-98 | the greedy pass keeps a subsequence of its input, in input order |
| Dedup.GreedySeparated | signer_utils.py:93-98 | no two kept candidates are closer than the threshold on both axes |
| Dedup.GreedyKeepsFirst | signer_utils.py:91-98 | the first candidate of the sorted list is always kept, in first place |
| Dedup.DroppedIsCovered | signer_utils.py:93-98 | every candidate is either kept or lies within the threshold on both axes of a kept candidate that comes earlier in the ranking and has a score at least its own |
| Dedup.GreedyOfSeparated | signer_utils.py:93-98 | a list with no candidate near an earlier one passes through unchanged |
| Dedup.DeduplicateProperties | signer_utils.py:88-99 | the output is sorted, separated, a subsequence of the sorted input, made only of input candidates, and when the input is non-empty it starts with the best-ranked candidate, whose score is the maximum |
| Dedup.DeduplicateIdempotent | signer_utils.py:88-99 | deduplicating the output again returns it unchanged |
| Dedup.TwoCandidates | signer_utils.py:94 | the strict threshold on each axis: two candidates are both kept exactly when they are at least the threshold apart on one axis; otherwise only the higher-scoring one is kept |
| Dedup.CrossPageSuppression | signer_utils.py:94 | two candidates at the same position on different pages collapse to the higher-scoring one |
| OcrFinder.LineIsNotOcr | signer_utils.py:217-232 | a line candidate's reason never carries the OCR prefix |
| OcrFinder.WordCandidate | signer_utils.py:199-218 | a word's candidate starts at the mapped word's x, is 120 wide and 45 high, is centred vertically on the mapped word, has score max(0.5, conf/100), and carries an "ocr: " reason |
| OcrFinder.LineCandidate | signer_utils.py:228-233 | a segment's candidate sits at the mapped probe box of the leftmost and upper end, is as wide as the mapped segment and 40 high, and scores 0.45 with reason "line_detect" |
| OcrFinder.OcrPass | signer_utils.py:196-218 | the loop over the recognised words yields the candidates of the qualifying words, in order |
| OcrFinder.LinePass | signer_utils.py:225-233 | the loop over the detected segments yields the candidates of the near-horizontal segments, in order |
| OcrFinder.WordCandidatesExactly | signer_utils.py:196-198 | a word yields a candidate exactly when its confidence exceeds 30 and it matches the default keywords, and each candidate is the word's own |
| OcrFinder.LineCandidatesExactly | signer_utils.py:226-228 | a segment yields a candidate exactly when its ends differ by less than 10 pixels in y |
| OcrFinder.PageCandidatesShape | signer_utils.py:196-233 | every candidate of a page is on that page, and is either an OCR candidate scoring at least 0.5 or a line candidate scoring 0.45 |
| OcrFinder.RawCandidatesByPage | signer_utils.py:187-233 | every collected candidate is on a page of the document and is one of that page's candidates |
| OcrFinder.RawCandidatesCoverPage | signer_utils.py:187-233 | every candidate of every page is collected |
| OcrFinder.RawCandidatesShape | signer_utils.py:187-233 | every collected candidate is on a page of the document and is an OCR candidate scoring at least 0.5 or a line candidate scoring 0.45 |
| OcrFinder.RankedOcrBeforeLines | signer_utils.py:237-239 | after deduplication and ranking, every OCR candidate precedes every line candidate, and every candidate is on a page of the document |
| OcrFinder.FindSignatureCandidatesByOcr | signer_utils.py:175-239 | an unopenable document yields no candidates; otherwise the result is the deduplication of the collected candidates (the final sort changes nothing); it is sorted, separated, and no line candidate precedes an OCR candidate |
| TextLayer.DistinctProperties | signer_utils.py:155-157 | `Distinct`, the list the `not in` append loop builds, has no repeats, holds exactly the found values, and lists them in order of first occurrence |
| TextLayer.AddNewEmails | signer_utils.py:131-133 | the `not in` append loop extends the first-seen list of what was seen before by the newly found emails |
| TextLayer.SigBoxFor | signer_utils.py:137-143 | a matching word's box is on its page, starts 5 left of the word, ends at the word's right edge (the page width when missing), runs from 4 above its top to 45 below its bottom, with missing coordinates read as 0 |
| TextLayer.PageBoxes | signer_utils.py:135-143 | the loop over a page's words yields the boxes of the matching words, in order |
| TextLayer.PageSigBoxesExactly | signer_utils.py:135-143 | a word yields a box exactly when it matches the default keywords, and each box is that word's own |
| TextLayer.EmptyWordYieldsNoBox | signer_utils.py:136 | a word with no text or empty text yields no box |
| TextLayer.OnePageScenario | signer_utils.py:135-143 | the word "Signature" at x 72 to 130, top 700, bottom 712 on page 0 yields exactly the box (0, 67, 130, 696, 757) |
| TextLayer.ListOfSet | signer_utils.py:146 | `list(set(...))` returns each value once, the same values, in some order, and an empty list for an empty input |
| TextLayer.ExtractEmailsAndSigboxesFromPdf | signer_utils.py:124-146 | an unopenable PDF gives no emails and no boxes; otherwise the emails are without repeats and are exactly those found in the pages' full texts, and the boxes are those of all matching words, page after page |
| TextLayer.ExtractEmailsAndSigposFromDocx | signer_utils.py:148-162 | an unopenable document gives nothing; otherwise the emails are those of the paragraphs in first-seen order without repeats, and the positions are the flagged paragraphs |
| TextLayer.SigPositionsExactly | signer_utils.py:158-159 | a paragraph is flagged exactly when it contains "signature" in any letter case or the tag "[[SIGN_HERE]]"; each position carries a paragraph's index and its text; positions are in increasing index order |
| Overlay.GroupByPage | signer_utils.py:246-248 | the dictionary has a key for exactly the pages that some candidate is on, and each key maps to that page's candidates in input order |
| Overlay.OverlayPlan | signer_utils.py:250-257 | there is exactly one draw list per page of the document, in page order, and each is the page's selection |
| Overlay.OnPageExactly | signer_utils.py:246-248 | `OnPage`, the value of `cands_by_page[p]`, holds exactly the input candidates on that page, in input order |
| Overlay.FirstOnPage | signer_utils.py:255-256 | the first candidate of a page's group is the earliest input candidate on that page |
| Overlay.DrawListProperties | signer_utils.py:246-257 | `ToDraw`, the `to_draw` list of a page: a page draws nothing exactly when no candidate is on it; it never draws a candidate of another page; with pick_first it draws exactly the earliest candidate on it; otherwise it draws all its candidates, in input order |
| Overlay.OutOfRangeNeverDrawn | signer_utils.py:250-257 | a candidate whose page is outside the document is drawn on no page |
| Overlay.TwoPageScenario | signer_utils.py:250-257 | a single candidate on page 0 is drawn on page 0 and not on page 1 |

## Left out

- `app.py`: web routing, uploads, hashing, tokens, email delivery and `send_file` are
  plumbing around the core.
- `get_ocr_reader` and `extract_emails_from_image`: a process-wide lazy EasyOCR
  singleton, then a regex over its output.
- `preprocess_image_for_ocr_cv`, Canny and the Hough line detection, rasterisation with
  `convert_from_path`, and the Tesseract call inside `safe_ocr_image`. These are library
  calls, so their outputs are inputs (`PageScan`).
- OcrFinder.FindSignatureCandidatesByOcr: assumes the recognition step returns the page's
  words. As written it raises instead. `safe_ocr_image` gets the single-channel image
  of signer_utils.py:81 and :85 and converts it with `COLOR_RGB2BGR` (signer_utils.py:54),
  which needs three or four channels. Its `except` then reads `keys`, which is only bound
  at signer_utils.py:57, so it raises `UnboundLocalError` (signer_utils.py:62). The call
  at signer_utils.py:195 is outside the only `try` (signer_utils.py:180-185), so for every
  readable PDF with a page the error escapes the finder. The model does not capture this
  escaping error.
- The line detector: the code calls `cv2.H_HoughLinesP`, which OpenCV does not
  provide. At run time this raises, and the `except` swallows it, so no line candidate
  ever appears. The model keeps the line rule as written. `PageScan.lines == None`
  stands for a failed detection, and the model does not decide which case happens.
- `convert_image_to_pdf`, PDF and DOCX parsing, and the drawing, merging and writing
  in `overlay_signature_on_pdf_at_candidates`. These are file formats and rendering done
  by libraries.
- `overlay_signature_on_pdf`: `app.py` imports it, but `signer_utils.py` does not
  define it.
- The difflib `SequenceMatcher` ratio and the `EMAIL_RE` regular expression are not
  modelled. They are the parameters `ratio` and `findEmails`.
- Keywords.Lower: lower-cases ASCII letters only, because Python's Unicode case mapping
  is not modelled.
- Floating point: coordinates and scores are exact reals, so rounding is not modelled.
- The parsing of the confidence string `int(float(conf))`, and the default of 0 for a
  missing or `'-1'` confidence. `OcrWord.conf` is the resulting integer.
- Page sizes and image sizes are inputs. The model assumes the rasteriser and
  `PdfReader` report the same number of pages, and does not model the `IndexError`
  that would otherwise escape.
- Exceptions in the middle of a document. The text-layer extractors catch them and
  return what was collected so far. The model only covers a document that fails to
  open (`None`) or one that is read completely.
- Logging.
- The `dpi` parameter of `find_signature_candidates_by_ocr` only affects
  rasterisation, which is an input here.
