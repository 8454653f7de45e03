/** Placement selection of `overlay_signature_on_pdf_at_candidates`: candidates are grouped
    by page in input order, and each page of the document draws the first of its candidates
    or all of them. The result is the per-page list of candidates whose rectangles the
    signature image is stretched into; rendering and merging are not modelled. */
module Overlay {
  import opened Common
  import opened Candidates

  /** `cands_by_page[p]`: the candidates for page `p`, in input order. */
  function OnPage(cands: seq<Candidate>, p: int): seq<Candidate> {
    if cands == [] then []
    else
      var n := |cands| - 1;
      OnPage(cands[..n], p) + (if cands[n].page == p then [cands[n]] else [])
  }

  /** `to_draw` for page `p`; empty when `p` is not a key of `cands_by_page`. */
  function ToDraw(cands: seq<Candidate>, p: int, pickFirst: bool): seq<Candidate> {
    var on := OnPage(cands, p);
    if on == [] then [] else if pickFirst then [on[0]] else on
  }

  /** The grouping loop: `cands_by_page.setdefault(c["page"], []).append(c)` for each
      candidate; a page is a key exactly when some candidate is on it. */
  method GroupByPage(candidates: seq<Candidate>) returns (byPage: map<int, seq<Candidate>>)
    ensures forall p :: p in byPage <==> OnPage(candidates, p) != []
    ensures forall p :: p in byPage ==> byPage[p] == OnPage(candidates, p)
  {
    byPage := map[];
    var i := 0;
    while i < |candidates|
      invariant 0 <= i <= |candidates|
      invariant forall p :: p in byPage <==> OnPage(candidates[..i], p) != []
      invariant forall p :: p in byPage ==> byPage[p] == OnPage(candidates[..i], p)
    {
      var c := candidates[i];
      forall p ensures OnPage(candidates[..i + 1], p)
                       == OnPage(candidates[..i], p) + (if c.page == p then [c] else [])
      {
        OnPageStep(candidates, i, p);
      }
      if c.page in byPage {
        byPage := byPage[c.page := byPage[c.page] + [c]];
      } else {
        byPage := byPage[c.page := [c]];
      }
      i := i + 1;
    }
    assert candidates[..i] == candidates;
  }

  /** The loop over the document's pages: what `overlay_signature_on_pdf_at_candidates`
      draws on each of its `numPages` pages. */
  method OverlayPlan(numPages: nat, candidates: seq<Candidate>, pickFirst: bool)
    returns (plan: seq<seq<Candidate>>)
    ensures |plan| == numPages
    ensures forall p :: 0 <= p < numPages ==> plan[p] == ToDraw(candidates, p, pickFirst)
  {
    var byPage := GroupByPage(candidates);
    plan := [];
    var pIndex := 0;
    while pIndex < numPages
      invariant 0 <= pIndex <= numPages
      invariant |plan| == pIndex
      invariant forall p :: 0 <= p < pIndex ==> plan[p] == ToDraw(candidates, p, pickFirst)
    {
      var toDraw: seq<Candidate> := [];
      if pIndex in byPage {
        toDraw := if pickFirst then [byPage[pIndex][0]] else byPage[pIndex];
      }
      plan := plan + [toDraw];
      pIndex := pIndex + 1;
    }
  }

  lemma OnPageStep(cands: seq<Candidate>, i: nat, p: int)
    requires i < |cands|
    ensures OnPage(cands[..i + 1], p) == OnPage(cands[..i], p) + (if cands[i].page == p then [cands[i]] else [])
  {
    assert cands[..i + 1][..i] == cands[..i];
  }

  /** The candidates for a page are exactly the input candidates on that page, in input
      order. */
  lemma {:induction false} OnPageExactly(cands: seq<Candidate>, p: int)
    ensures forall c :: c in OnPage(cands, p) ==> c.page == p && c in cands
    ensures forall i :: 0 <= i < |cands| && cands[i].page == p ==> cands[i] in OnPage(cands, p)
    ensures IsSubsequence(OnPage(cands, p), cands)
  {
    var idx := OnPageEmbeds(cands, p);
    OnPageMembers(cands, p);
  }

  lemma {:induction false} OnPageMembers(cands: seq<Candidate>, p: int)
    ensures forall c :: c in OnPage(cands, p) ==> c.page == p && c in cands
    ensures forall i :: 0 <= i < |cands| && cands[i].page == p ==> cands[i] in OnPage(cands, p)
  {
    if cands != [] {
      var n := |cands| - 1;
      var init := cands[..n];
      OnPageMembers(init, p);
      forall i | 0 <= i < n ensures init[i] == cands[i] { }
    }
  }

  lemma {:induction false} OnPageEmbeds(cands: seq<Candidate>, p: int) returns (idx: seq<nat>)
    ensures Embeds(idx, OnPage(cands, p), cands)
  {
    if cands == [] {
      idx := [];
    } else {
      var n := |cands| - 1;
      var init := cands[..n];
      var prev := OnPageEmbeds(init, p);
      assert cands == init + [cands[n]];
      EmbedsSnoc(prev, OnPage(init, p), init, cands[n]);
      idx := if cands[n].page == p then prev + [n] else prev;
    }
  }

  /** The first candidate for a page is the first candidate of the input on that page. */
  lemma {:induction false} FirstOnPage(cands: seq<Candidate>, p: int) returns (i: nat)
    requires OnPage(cands, p) != []
    ensures i < |cands| && cands[i].page == p && OnPage(cands, p)[0] == cands[i]
    ensures forall j :: 0 <= j < i ==> cands[j].page != p
  {
    var n := |cands| - 1;
    var init := cands[..n];
    if OnPage(init, p) == [] {
      OnPageMembers(init, p);
      i := n;
      forall j | 0 <= j < n ensures cands[j].page != p {
        assert init[j] == cands[j];
      }
    } else {
      i := FirstOnPage(init, p);
      assert cands[i] == init[i];
      forall j | 0 <= j < i ensures cands[j].page != p {
        assert init[j] == cands[j];
      }
    }
  }

  /** What a page draws: nothing when no candidate is on it; with `pickFirst` exactly the
      first of its candidates; otherwise every candidate on it, in input order; and never a
      candidate of another page, so never one whose page lies outside the document. */
  lemma DrawListProperties(cands: seq<Candidate>, numPages: nat, pickFirst: bool, p: int)
    requires 0 <= p < numPages
    ensures ToDraw(cands, p, pickFirst) == [] <==> forall i :: 0 <= i < |cands| ==> cands[i].page != p
    ensures forall c :: c in ToDraw(cands, p, pickFirst) ==> c.page == p && 0 <= c.page < numPages
    ensures pickFirst && ToDraw(cands, p, pickFirst) != [] ==>
              exists i :: 0 <= i < |cands| && ToDraw(cands, p, pickFirst) == [cands[i]] && cands[i].page == p
                          && forall j :: 0 <= j < i ==> cands[j].page != p
    ensures !pickFirst ==> IsSubsequence(ToDraw(cands, p, pickFirst), cands)
                           && forall i :: 0 <= i < |cands| && cands[i].page == p ==>
                                cands[i] in ToDraw(cands, p, pickFirst)
  {
    OnPageExactly(cands, p);
    if OnPage(cands, p) != [] {
      var i := FirstOnPage(cands, p);
      assert OnPage(cands, p)[0] in OnPage(cands, p);
    }
  }

  /** A candidate whose page is not a page of the document is drawn on no page. */
  lemma OutOfRangeNeverDrawn(cands: seq<Candidate>, numPages: nat, pickFirst: bool, c: Candidate)
    requires c.page < 0 || c.page >= numPages
    ensures forall p :: 0 <= p < numPages ==> c !in ToDraw(cands, p, pickFirst)
  {
    forall p | 0 <= p < numPages ensures c !in ToDraw(cands, p, pickFirst) {
      DrawListProperties(cands, numPages, pickFirst, p);
    }
  }

  /** A two-page document with one candidate on its first page: the first page draws that
      candidate, the second page draws nothing. */
  lemma TwoPageScenario(c: Candidate, pickFirst: bool)
    requires c.page == 0
    ensures ToDraw([c], 0, pickFirst) == [c] && ToDraw([c], 1, pickFirst) == []
  {
    assert [c][..0] == [];
    assert OnPage([c], 0) == OnPage([], 0) + [c];
    assert OnPage([c], 1) == OnPage([], 1);
  }
}
