/** The text-layer path: emails and signature boxes from a PDF's text layer
    (`extract_emails_and_sigboxes_from_pdf`) and emails and signature paragraphs from a DOCX
    (`extract_emails_and_sigpos_from_docx`). Parsing is done by libraries and is an input
    here; `EMAIL_RE.findall` is passed in as `findEmails`. */
module TextLayer {
  import opened Common
  import opened Keywords

  // ---------------------------------------------------------------- first-seen dedup

  /** `s` without repeats, each value where it is first seen: what the loop
      `if e not in emails: emails.append(e)` builds. */
  function Distinct(s: seq<string>): seq<string> {
    if s == [] then []
    else
      var d := Distinct(s[..|s| - 1]);
      if s[|s| - 1] in d then d else d + [s[|s| - 1]]
  }

  /** The position where `e` first occurs in `s`. */
  function FirstIndex(s: seq<string>, e: string): (k: nat)
    requires e in s
    ensures k < |s| && s[k] == e && e !in s[..k]
  {
    if s[0] == e then 0
    else
      var k := FirstIndex(s[1..], e);
      assert s[..k + 1] == [s[0]] + s[1..][..k];
      k + 1
  }

  lemma {:induction false} FirstIndexOfExtension(s: seq<string>, x: string, e: string)
    requires e in s
    ensures FirstIndex(s + [x], e) == FirstIndex(s, e)
  {
    if s[0] != e {
      assert (s + [x])[1..] == s[1..] + [x];
      FirstIndexOfExtension(s[1..], x, e);
    }
  }

  /** The first-seen list has no repeats, holds exactly the values of `s`, and lists them
      in the order in which they are first seen. */
  lemma {:induction false} DistinctProperties(s: seq<string>)
    ensures NoDuplicates(Distinct(s))
    ensures forall e :: e in Distinct(s) <==> e in s
    ensures forall i, j :: 0 <= i < j < |Distinct(s)| ==>
              Distinct(s)[i] in s && Distinct(s)[j] in s &&
              FirstIndex(s, Distinct(s)[i]) < FirstIndex(s, Distinct(s)[j])
  {
    if s != [] {
      var init, last := s[..|s| - 1], s[|s| - 1];
      assert s == init + [last];
      DistinctProperties(init);
      var d := Distinct(init);
      forall e | e in init ensures FirstIndex(s, e) == FirstIndex(init, e) {
        FirstIndexOfExtension(init, last, e);
      }
      if last !in d {
        assert FirstIndex(s, last) == |init|;
      }
    }
  }

  /** One step of the append loop. */
  lemma DistinctExtend(s: seq<string>, e: string)
    ensures Distinct(s + [e]) == if e in Distinct(s) then Distinct(s) else Distinct(s) + [e]
  {
  }

  /** The loop `for e in found: if e not in emails: emails.append(e)`. */
  method AddNewEmails(ghost seen: seq<string>, emails: seq<string>, found: seq<string>)
    returns (out: seq<string>)
    requires emails == Distinct(seen)
    ensures out == Distinct(seen + found)
  {
    out := emails;
    var i := 0;
    assert seen + found[..0] == seen;
    while i < |found|
      invariant 0 <= i <= |found|
      invariant out == Distinct(seen + found[..i])
    {
      DistinctExtend(seen + found[..i], found[i]);
      assert seen + found[..i + 1] == seen + found[..i] + [found[i]];
      if found[i] !in out {
        out := out + [found[i]];
      }
      i := i + 1;
    }
    assert found[..i] == found;
  }

  /** Every email `findEmails` reports in the texts, text after text. */
  function FoundEmails(texts: seq<string>, findEmails: string -> seq<string>): seq<string> {
    if texts == [] then []
    else FoundEmails(texts[..|texts| - 1], findEmails) + findEmails(texts[|texts| - 1])
  }

  lemma FoundEmailsExtend(texts: seq<string>, t: string, findEmails: string -> seq<string>)
    ensures FoundEmails(texts + [t], findEmails) == FoundEmails(texts, findEmails) + findEmails(t)
  {
  }

  // ---------------------------------------------------------------- PDF

  /** A word of pdfplumber's `extract_words()`; each key may be missing. */
  datatype TextWord = TextWord(text: Option<string>, x0: Option<real>, x1: Option<real>,
                               top: Option<real>, bottom: Option<real>)

  /** A page: its width, its `extract_text()` (which may be `None`), and its words. */
  datatype TextPage = TextPage(width: real, fullText: Option<string>, words: seq<TextWord>)

  /** A signature box in text-layout units (origin top-left). */
  datatype SigBox = SigBox(page: nat, x0: real, x1: real, y0Top: real, y1Bottom: real)

  const PAD_LEFT: real := 5.0
  const PAD_TOP: real := 4.0
  const PAD_BOTTOM: real := 45.0

  /** `page.extract_text() or ""`. */
  function PageText(p: TextPage): string {
    p.fullText.GetOr("")
  }

  function PageTexts(pages: seq<TextPage>): (texts: seq<string>)
    ensures |texts| == |pages|
    ensures forall i :: 0 <= i < |pages| ==> texts[i] == PageText(pages[i])
  {
    seq(|pages|, i requires 0 <= i < |pages| => PageText(pages[i]))
  }

  /** A word of the text layer that is a signature label. */
  predicate WordMatches(w: TextWord, ratio: (string, string) -> real) {
    IsSignatureText(w.text.GetOr(""), ratio)
  }

  /** The box for a matching word: 5 points left of the word, to its right edge (the page's
      right edge when the word has none), from 4 points above it to 45 points below it. */
  function SigBoxFor(pageno: nat, page: TextPage, w: TextWord): (b: SigBox)
    ensures b.page == pageno
    ensures b.x0 + PAD_LEFT == w.x0.GetOr(0.0)
    ensures b.x1 == w.x1.GetOr(page.width)
    ensures b.y0Top + PAD_TOP == w.top.GetOr(0.0)
    ensures b.y1Bottom - PAD_BOTTOM == w.bottom.GetOr(0.0)
    ensures b.y1Bottom - b.y0Top == (w.bottom.GetOr(0.0) - w.top.GetOr(0.0)) + PAD_TOP + PAD_BOTTOM
  {
    SigBox(pageno, w.x0.GetOr(0.0) - PAD_LEFT, w.x1.GetOr(page.width),
           w.top.GetOr(0.0) - PAD_TOP, w.bottom.GetOr(0.0) + PAD_BOTTOM)
  }

  /** The boxes of one page's words, in order. */
  function PageSigBoxes(pageno: nat, page: TextPage, words: seq<TextWord>,
                        ratio: (string, string) -> real): seq<SigBox> {
    if words == [] then []
    else
      var w := words[|words| - 1];
      PageSigBoxes(pageno, page, words[..|words| - 1], ratio)
      + (if WordMatches(w, ratio) then [SigBoxFor(pageno, page, w)] else [])
  }

  /** The boxes of all pages, page after page. */
  function AllSigBoxes(pages: seq<TextPage>, ratio: (string, string) -> real): seq<SigBox> {
    if pages == [] then []
    else
      var n := |pages| - 1;
      AllSigBoxes(pages[..n], ratio) + PageSigBoxes(n, pages[n], pages[n].words, ratio)
  }

  /** One page's boxes, as built by the loop over `page.extract_words()`. */
  method PageBoxes(pageno: nat, page: TextPage, ratio: (string, string) -> real)
    returns (boxes: seq<SigBox>)
    ensures boxes == PageSigBoxes(pageno, page, page.words, ratio)
  {
    boxes := [];
    var i := 0;
    while i < |page.words|
      invariant 0 <= i <= |page.words|
      invariant boxes == PageSigBoxes(pageno, page, page.words[..i], ratio)
    {
      var w := page.words[i];
      assert page.words[..i + 1][..i] == page.words[..i];
      if FuzzyMatch(w.text.GetOr(""), KEYWORDS, CUTOFF, ratio) {
        boxes := boxes + [SigBoxFor(pageno, page, w)];
      }
      i := i + 1;
    }
    assert page.words[..i] == page.words;
  }

  /** `extract_emails_and_sigboxes_from_pdf`: `None` stands for a PDF that cannot be
      opened, which yields no emails and no boxes. The emails come back as `list(set(...))`,
      in no particular order. */
  method ExtractEmailsAndSigboxesFromPdf(doc: Option<seq<TextPage>>, ratio: (string, string) -> real,
                                         findEmails: string -> seq<string>)
    returns (emails: seq<string>, sigBoxes: seq<SigBox>)
    ensures NoDuplicates(emails)
    ensures doc.None? ==> emails == [] && sigBoxes == []
    ensures doc.Some? ==>
              && (forall e :: e in emails <==> e in FoundEmails(PageTexts(doc.value), findEmails))
              && sigBoxes == AllSigBoxes(doc.value, ratio)
  {
    var collected: seq<string> := [];
    sigBoxes := [];
    if doc.Some? {
      var pages := doc.value;
      var pageno := 0;
      while pageno < |pages|
        invariant 0 <= pageno <= |pages|
        invariant collected == Distinct(FoundEmails(PageTexts(pages[..pageno]), findEmails))
        invariant sigBoxes == AllSigBoxes(pages[..pageno], ratio)
      {
        var page := pages[pageno];
        ghost var seen := FoundEmails(PageTexts(pages[..pageno]), findEmails);
        var fullText := page.fullText.GetOr("");
        collected := AddNewEmails(seen, collected, findEmails(fullText));
        var boxes := PageBoxes(pageno, page, ratio);
        ghost var upto := pages[..pageno + 1];
        assert upto[..pageno] == pages[..pageno] && upto[pageno] == page;
        assert PageTexts(upto) == PageTexts(pages[..pageno]) + [fullText];
        FoundEmailsExtend(PageTexts(pages[..pageno]), fullText, findEmails);
        sigBoxes := sigBoxes + boxes;
        pageno := pageno + 1;
      }
      assert pages[..pageno] == pages;
    }
    DistinctProperties(FoundEmails(PageTexts(doc.GetOr([])), findEmails));
    emails := ListOfSet(collected);
  }

  /** `list(set(s))`: the values of `s` once each, in an order left open. */
  method ListOfSet(s: seq<string>) returns (r: seq<string>)
    ensures NoDuplicates(r)
    ensures forall e :: e in r <==> e in s
    ensures s == [] ==> r == []
  {
    var pool := set e | e in s;
    r := [];
    while pool != {}
      invariant s == [] ==> r == []
      invariant NoDuplicates(r)
      invariant forall e :: e in s <==> e in r || e in pool
      invariant forall e :: e in r ==> e !in pool
      decreases |pool|
    {
      var e :| e in pool;
      r := r + [e];
      pool := pool - {e};
    }
  }

  /** Exactly the matching words yield boxes, each the word's own; boxes of a page are on
      that page. */
  lemma {:induction false} PageSigBoxesExactly(pageno: nat, page: TextPage, words: seq<TextWord>,
                                               ratio: (string, string) -> real)
    ensures forall b :: b in PageSigBoxes(pageno, page, words, ratio) <==>
              exists k :: 0 <= k < |words| && WordMatches(words[k], ratio)
                          && b == SigBoxFor(pageno, page, words[k])
  {
    if words != [] {
      var init := words[..|words| - 1];
      PageSigBoxesExactly(pageno, page, init, ratio);
      forall k | 0 <= k < |init| ensures init[k] == words[k] { }
    }
  }

  /** A word with no text never yields a box. */
  lemma EmptyWordYieldsNoBox(pageno: nat, page: TextPage, w: TextWord, ratio: (string, string) -> real)
    requires w.text.None? || w.text == Some("")
    ensures PageSigBoxes(pageno, page, [w], ratio) == []
  {
  }

  /** A document with a signature label on its only page: the one word "Signature" at
      known coordinates yields exactly one box, padded as specified. */
  lemma OnePageScenario(ratio: (string, string) -> real)
    ensures var w := TextWord(Some("Signature"), Some(72.0), Some(130.0), Some(700.0), Some(712.0));
            var page := TextPage(612.0, Some("Signature"), [w]);
            AllSigBoxes([page], ratio) == [SigBox(0, 67.0, 130.0, 696.0, 757.0)]
  {
    var w := TextWord(Some("Signature"), Some(72.0), Some(130.0), Some(700.0), Some(712.0));
    var page := TextPage(612.0, Some("Signature"), [w]);
    var t := Lower("Signature");
    assert t == "signature";
    assert OccursAt(t, "signature", 0);
    assert Contains(t, "signature");
    SignatureWordAlwaysMatches("Signature", ratio);
    assert WordMatches(w, ratio);
    assert [w][..0] == [];
    assert PageSigBoxes(0, page, [w], ratio) == [SigBoxFor(0, page, w)];
    assert [page][..0] == [];
    assert AllSigBoxes([page], ratio) == PageSigBoxes(0, page, [w], ratio);
  }

  // ---------------------------------------------------------------- DOCX

  /** A flagged paragraph: its index and its text. */
  datatype SigPosition = SigPosition(paraIndex: nat, text: string)

  const SIGN_HERE_TAG: string := "[[SIGN_HERE]]"

  /** The paragraph rule: "signature" in any letter case, or the literal tag. */
  predicate IsSignatureParagraph(text: string) {
    Contains(Lower(text), "signature") || Contains(text, SIGN_HERE_TAG)
  }

  /** The flagged paragraphs, in document order. */
  function SigPositions(paras: seq<string>): seq<SigPosition> {
    if paras == [] then []
    else
      var n := |paras| - 1;
      SigPositions(paras[..n]) + (if IsSignatureParagraph(paras[n]) then [SigPosition(n, paras[n])] else [])
  }

  /** `extract_emails_and_sigpos_from_docx`: `None` stands for a document that cannot be
      opened. Emails are kept in first-seen order. */
  method ExtractEmailsAndSigposFromDocx(doc: Option<seq<string>>, findEmails: string -> seq<string>)
    returns (emails: seq<string>, positions: seq<SigPosition>)
    ensures doc.None? ==> emails == [] && positions == []
    ensures doc.Some? ==> emails == Distinct(FoundEmails(doc.value, findEmails))
                          && positions == SigPositions(doc.value)
  {
    emails, positions := [], [];
    if doc.Some? {
      var paras := doc.value;
      var i := 0;
      while i < |paras|
        invariant 0 <= i <= |paras|
        invariant emails == Distinct(FoundEmails(paras[..i], findEmails))
        invariant positions == SigPositions(paras[..i])
      {
        var text := paras[i];
        assert paras[..i + 1] == paras[..i] + [text];
        assert paras[..i + 1][..i] == paras[..i];
        FoundEmailsExtend(paras[..i], text, findEmails);
        emails := AddNewEmails(FoundEmails(paras[..i], findEmails), emails, findEmails(text));
        if Contains(Lower(text), "signature") || Contains(text, SIGN_HERE_TAG) {
          positions := positions + [SigPosition(i, text)];
        }
        i := i + 1;
      }
      assert paras[..i] == paras;
    }
  }

  /** A paragraph is flagged exactly when the rule holds for it; every position names a
      paragraph of the document with its own text; positions are in increasing order. */
  lemma {:induction false} SigPositionsExactly(paras: seq<string>)
    ensures forall i :: 0 <= i < |paras| ==>
              (SigPosition(i, paras[i]) in SigPositions(paras) <==> IsSignatureParagraph(paras[i]))
    ensures forall p :: p in SigPositions(paras) ==>
              p.paraIndex < |paras| && p.text == paras[p.paraIndex] && IsSignatureParagraph(p.text)
    ensures forall i, j :: 0 <= i < j < |SigPositions(paras)| ==>
              SigPositions(paras)[i].paraIndex < SigPositions(paras)[j].paraIndex
  {
    if paras != [] {
      var n := |paras| - 1;
      var init := paras[..n];
      SigPositionsExactly(init);
      forall i | 0 <= i < n ensures init[i] == paras[i] { }
    }
  }
}
