/** The candidate deduplicator (`remove_duplicate_candidates`): sort by descending score,
    then keep a candidate unless a candidate kept before it is closer than the threshold on
    both axes. The page of a candidate plays no part in the comparison. */
module Dedup {
  import opened Common
  import opened Candidates

  /** The default proximity threshold, in PDF points. */
  const THRESHOLD: real := 30.0

  /** `c` and `u` are closer than `t` on the x axis and on the y axis. */
  predicate Near(c: Candidate, u: Candidate, t: real) {
    Abs(c.x - u.x) < t && Abs(c.y - u.y) < t
  }

  predicate NearAny(c: Candidate, kept: seq<Candidate>, t: real) {
    exists k :: 0 <= k < |kept| && Near(c, kept[k], t)
  }

  /** No candidate of `s` is near one before it. */
  predicate Separated(s: seq<Candidate>, t: real) {
    forall i, j :: 0 <= i < j < |s| ==> !Near(s[j], s[i], t)
  }

  /** The greedy pass over a list already in ranking order: the kept list after the
      candidates of `s` have been visited left to right. */
  function Greedy(s: seq<Candidate>, t: real): seq<Candidate> {
    if s == [] then []
    else
      var kept := Greedy(s[..|s| - 1], t);
      var c := s[|s| - 1];
      if NearAny(c, kept, t) then kept else kept + [c]
  }

  /** What `remove_duplicate_candidates(candidates, t)` returns. */
  function Deduplicate(candidates: seq<Candidate>, t: real): seq<Candidate> {
    Greedy(SortByScoreDesc(candidates), t)
  }

  /** `remove_duplicate_candidates`: the nested loops with the `is_duplicate` flag. */
  method RemoveDuplicateCandidates(candidates: seq<Candidate>, threshold: real)
    returns (out: seq<Candidate>)
    ensures out == Deduplicate(candidates, threshold)
    ensures SortedDesc(out) && Separated(out, threshold)
    ensures IsSubsequence(out, SortByScoreDesc(candidates))
  {
    var sorted := SortByScoreDesc(candidates);
    out := [];
    var i := 0;
    while i < |sorted|
      invariant 0 <= i <= |sorted|
      invariant out == Greedy(sorted[..i], threshold)
    {
      var c := sorted[i];
      var isDuplicate := false;
      var j := 0;
      while j < |out|
        invariant 0 <= j <= |out|
        invariant !isDuplicate
        invariant forall k :: 0 <= k < j ==> !Near(c, out[k], threshold)
      {
        if Abs(c.x - out[j].x) < threshold && Abs(c.y - out[j].y) < threshold {
          isDuplicate := true;
          break;
        }
        j := j + 1;
      }
      assert isDuplicate <==> NearAny(c, out, threshold);
      assert sorted[..i + 1][..i] == sorted[..i];
      if !isDuplicate {
        out := out + [c];
      }
      i := i + 1;
    }
    assert sorted[..|sorted|] == sorted;
    DeduplicateProperties(candidates, threshold);
  }

  /** Everything the greedy pass keeps comes from its input. */
  lemma {:induction false} GreedyKeepsInputs(s: seq<Candidate>, t: real)
    ensures forall x :: x in Greedy(s, t) ==> x in s
  {
    if s != [] {
      GreedyKeepsInputs(s[..|s| - 1], t);
    }
  }

  /** The greedy pass keeps its input's order: it is a subsequence of the input. */
  lemma {:induction false} GreedyEmbeds(s: seq<Candidate>, t: real) returns (idx: seq<nat>)
    ensures Embeds(idx, Greedy(s, t), s)
    ensures forall i :: 0 <= i < |idx| ==> idx[i] < |s|
  {
    if s == [] {
      idx := [];
    } else {
      var init := s[..|s| - 1];
      var prev := GreedyEmbeds(init, t);
      assert s == init + [s[|s| - 1]];
      EmbedsSnoc(prev, Greedy(init, t), init, s[|s| - 1]);
      if NearAny(s[|s| - 1], Greedy(init, t), t) {
        idx := prev;
      } else {
        idx := prev + [|s| - 1];
      }
    }
  }

  lemma GreedyIsSubsequence(s: seq<Candidate>, t: real)
    ensures IsSubsequence(Greedy(s, t), s)
  {
    var idx := GreedyEmbeds(s, t);
  }

  /** No two kept candidates are near each other. */
  lemma {:induction false} GreedySeparated(s: seq<Candidate>, t: real)
    ensures Separated(Greedy(s, t), t)
  {
    if s != [] {
      GreedySeparated(s[..|s| - 1], t);
    }
  }

  /** A pass over a list in ranking order keeps it in ranking order. */
  lemma {:induction false} GreedySorted(s: seq<Candidate>, t: real)
    requires SortedDesc(s)
    ensures SortedDesc(Greedy(s, t))
  {
    var idx := GreedyEmbeds(s, t);
    var g := Greedy(s, t);
    forall i, j | 0 <= i < j < |g| ensures Score(g[i]) >= Score(g[j]) {
      assert idx[i] < idx[j];
    }
  }

  /** The kept list of a prefix is a prefix of the kept list. */
  lemma {:induction false} GreedyPrefix(s: seq<Candidate>, t: real, k: nat)
    requires k <= |s|
    ensures Greedy(s[..k], t) <= Greedy(s, t)
    decreases |s|
  {
    if k < |s| {
      var init := s[..|s| - 1];
      assert init[..k] == s[..k];
      GreedyPrefix(init, t, k);
    } else {
      assert s[..k] == s;
    }
  }

  /** The first candidate, the best ranked one, is always kept, in first place. */
  lemma GreedyKeepsFirst(s: seq<Candidate>, t: real)
    requires s != []
    ensures Greedy(s, t) != [] && Greedy(s, t)[0] == s[0]
  {
  }

  /** Every candidate is kept, or else it is near a kept candidate that comes before it in
      the ranking and so has a score at least its own. */
  lemma DroppedIsCovered(s: seq<Candidate>, t: real, k: nat)
    requires SortedDesc(s) && k < |s|
    ensures || s[k] in Greedy(s, t)
            || exists m :: 0 <= m < k && s[m] in Greedy(s, t) && Near(s[k], s[m], t)
                           && Score(s[m]) >= Score(s[k])
  {
    var upto := s[..k + 1];
    assert upto[..k] == s[..k];
    GreedyPrefix(s, t, k + 1);
    GreedyPrefix(s, t, k);
    var before := Greedy(s[..k], t);
    if NearAny(s[k], before, t) {
      var m :| 0 <= m < |before| && Near(s[k], before[m], t);
      GreedyKeepsInputs(s[..k], t);
      assert before[m] in s[..k];
      var n :| 0 <= n < k && s[..k][n] == before[m];
      assert s[n] == before[m];
      assert Greedy(s, t)[m] == before[m];
    } else {
      assert Greedy(upto, t) == before + [s[k]];
      assert Greedy(s, t)[|before|] == s[k];
    }
  }

  /** A list in which no candidate is near an earlier one passes unchanged. */
  lemma {:induction false} GreedyOfSeparated(s: seq<Candidate>, t: real)
    requires Separated(s, t)
    ensures Greedy(s, t) == s
  {
    if s != [] {
      var init := s[..|s| - 1];
      assert Separated(init, t);
      GreedyOfSeparated(init, t);
      assert !NearAny(s[|s| - 1], init, t);
      assert init + [s[|s| - 1]] == s;
    }
  }

  /** The deduplicated list is in ranking order, separated, and a subsequence of the
      ranked input; and its first element is the best ranked input candidate. */
  lemma DeduplicateProperties(candidates: seq<Candidate>, t: real)
    ensures var out := Deduplicate(candidates, t);
            && SortedDesc(out) && Separated(out, t)
            && IsSubsequence(out, SortByScoreDesc(candidates))
            && (forall x :: x in out ==> x in candidates)
            && (candidates != [] ==> out != [] && out[0] == SortByScoreDesc(candidates)[0]
                                     && forall c :: c in candidates ==> Score(out[0]) >= Score(c))
  {
    var sorted := SortByScoreDesc(candidates);
    SortByScoreDescCorrect(candidates);
    GreedySorted(sorted, t);
    GreedySeparated(sorted, t);
    GreedyIsSubsequence(sorted, t);
    GreedyKeepsInputs(sorted, t);
    forall x | x in Greedy(sorted, t) ensures x in candidates {
      assert x in multiset(sorted);
    }
    if candidates != [] {
      assert sorted != [] by {
        assert candidates[0] in multiset(sorted);
      }
      GreedyKeepsFirst(sorted, t);
      forall c | c in candidates ensures Score(sorted[0]) >= Score(c) {
        assert c in multiset(sorted);
        var m :| 0 <= m < |sorted| && sorted[m] == c;
      }
    }
  }

  /** Deduplicating a deduplicated list changes nothing. */
  lemma DeduplicateIdempotent(candidates: seq<Candidate>, t: real)
    ensures Deduplicate(Deduplicate(candidates, t), t) == Deduplicate(candidates, t)
  {
    var out := Deduplicate(candidates, t);
    DeduplicateProperties(candidates, t);
    SortOfSortedIsIdentity(out);
    GreedyOfSeparated(out, t);
  }

  /** The threshold is strict on each axis: two candidates are both kept exactly when they
      are at least `t` apart on one of the axes; otherwise only the better ranked one is. */
  lemma TwoCandidates(a: Candidate, b: Candidate, t: real)
    requires Score(a) >= Score(b)
    ensures Deduplicate([a, b], t)
            == if Abs(a.x - b.x) >= t || Abs(a.y - b.y) >= t then [a, b] else [a]
  {
    var s := [a, b];
    assert SortByScoreDesc([b]) == [b];
    assert SortByScoreDesc(s) == InsertDesc(a, [b]) == s;
    assert s[..1] == [a];
    assert [a][..0] == [];
    assert Greedy([a], t) == [a];
  }

  /** The page is not compared: a candidate on another page at the same spot is dropped. */
  lemma CrossPageSuppression(a: Candidate, b: Candidate, t: real)
    requires t > 0.0 && Score(a) >= Score(b)
    requires a.page != b.page && a.x == b.x && a.y == b.y
    ensures Deduplicate([a, b], t) == [a]
  {
    TwoCandidates(a, b, t);
  }
}
