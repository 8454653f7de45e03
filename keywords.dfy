/** The keyword matcher (`fuzzy_match`): does a piece of recognised text look like a
    signature label? The similarity ratio of Python's `difflib.SequenceMatcher` is not
    modelled; it is passed in as `ratio`, applied as `ratio(text, keyword)`. */
module Keywords {

  /** The default keyword list, in the order the source tries it. */
  const KEYWORDS: seq<string> := [
    "signature", "sign here", "sign:", "sig.", "authorised signatory",
    "signed by", "please sign", "customer signature", "employee signature",
    "signatur", "signat", "siganture", "signature:"
  ]

  /** The default fuzzy cutoff. */
  const CUTOFF: real := 0.70

  function LowerChar(c: char): char {
    if 'A' <= c <= 'Z' then (c as int + 32) as char else c
  }

  /** `str.lower()` on the ASCII letters. */
  function Lower(s: string): (r: string)
    ensures |r| == |s|
    ensures forall i :: 0 <= i < |s| ==> r[i] == LowerChar(s[i])
  {
    seq(|s|, i requires 0 <= i < |s| => LowerChar(s[i]))
  }

  /** Python's `kw in t`: `kw` occurs as a contiguous piece of `t` (the empty string occurs
      in every string). */
  predicate Contains(t: string, kw: string) {
    exists i :: 0 <= i <= |t| - |kw| && OccursAt(t, kw, i)
  }

  /** `kw` occurs in `t` starting at index `i`. */
  predicate OccursAt(t: string, kw: string, i: int) {
    0 <= i <= |t| - |kw| && t[i..i + |kw|] == kw
  }

  /** The test made for one keyword: substring first, similarity ratio second. */
  predicate KeywordHit(t: string, kw: string, cutoff: real, ratio: (string, string) -> real) {
    Contains(t, kw) || ratio(t, kw) >= cutoff
  }

  /** The loop over the keywords, stopping at the first that hits. */
  function AnyKeywordHits(t: string, kws: seq<string>, cutoff: real,
                          ratio: (string, string) -> real): (r: bool)
    ensures r <==> exists k :: 0 <= k < |kws| && KeywordHit(t, kws[k], cutoff, ratio)
  {
    if kws == [] then false
    else if KeywordHit(t, kws[0], cutoff, ratio) then true
    else
      var rest := AnyKeywordHits(t, kws[1..], cutoff, ratio);
      assert forall k :: 1 <= k < |kws| ==> kws[k] == kws[1..][k - 1];
      rest
  }

  /** `fuzzy_match(text, keywords, cutoff)`: false for empty text; otherwise true exactly
      when some keyword occurs in, or is similar enough to, the lower-cased text. */
  function FuzzyMatch(text: string, keywords: seq<string>, cutoff: real,
                      ratio: (string, string) -> real): (r: bool)
    ensures text == [] ==> !r
    ensures r <==> text != [] &&
                   exists k :: 0 <= k < |keywords| && KeywordHit(Lower(text), keywords[k], cutoff, ratio)
  {
    if text == [] then false else AnyKeywordHits(Lower(text), keywords, cutoff, ratio)
  }

  /** `fuzzy_match(text)` with the default keywords and cutoff. */
  predicate IsSignatureText(text: string, ratio: (string, string) -> real) {
    FuzzyMatch(text, KEYWORDS, CUTOFF, ratio)
  }

  /** A keyword occurring in the lower-cased text decides the match whatever the cutoff and
      whatever the similarity ratio says. */
  lemma SubstringMatchesAtAnyCutoff(text: string, keywords: seq<string>, k: nat,
                                    cutoff: real, ratio: (string, string) -> real)
    requires text != [] && k < |keywords|
    requires Contains(Lower(text), keywords[k])
    ensures FuzzyMatch(text, keywords, cutoff, ratio)
  {
  }

  /** Lowering the cutoff never turns a match into a non-match. */
  lemma MatchMonotoneInCutoff(text: string, keywords: seq<string>, lo: real, hi: real,
                              ratio: (string, string) -> real)
    requires lo <= hi
    requires FuzzyMatch(text, keywords, hi, ratio)
    ensures FuzzyMatch(text, keywords, lo, ratio)
  {
  }

  /** Any text whose lower-cased form contains "signature" is a signature label for every
      similarity ratio, as is any text containing the words "sign here" in any letter case. */
  lemma SignatureWordAlwaysMatches(text: string, ratio: (string, string) -> real)
    requires Contains(Lower(text), "signature") || Contains(Lower(text), "sign here")
    ensures IsSignatureText(text, ratio)
  {
  }

  /** A label as printed on a form: "Please Sign Here" matches for every similarity ratio. */
  lemma PleaseSignHereMatches(ratio: (string, string) -> real)
    ensures IsSignatureText("Please Sign Here", ratio)
  {
    var t := Lower("Please Sign Here");
    assert t == "please sign here";
    assert OccursAt(t, "please sign", 0);
    assert KEYWORDS[6] == "please sign";
    SubstringMatchesAtAnyCutoff("Please Sign Here", KEYWORDS, 6, CUTOFF, ratio);
  }
}
