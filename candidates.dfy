/** Signature candidates and the ranking order: Python's `sorted` by descending score,
    which is stable (equal scores keep their input order, also with `reverse=True`). */
module Candidates {
  import opened Common

  /** A proposed signature placement in PDF points. `score` is the dict entry read with
      `c.get("score", 0)`, so it may be missing. */
  datatype Candidate = Candidate(page: int, x: real, y: real, width: real, height: real,
                                 score: Option<real>, reason: string)

  /** The ranking key: a missing score counts as 0. */
  function Score(c: Candidate): real {
    c.score.GetOr(0.0)
  }

  predicate SortedDesc(s: seq<Candidate>) {
    forall i, j :: 0 <= i < j < |s| ==> Score(s[i]) >= Score(s[j])
  }

  /** The candidates of `s` whose score is `v`, in their order in `s`. */
  function WithScore(s: seq<Candidate>, v: real): seq<Candidate> {
    if s == [] then []
    else (if Score(s[0]) == v then [s[0]] else []) + WithScore(s[1..], v)
  }

  /** Put `c`, which came earlier in the input than everything in `s`, in front of the
      first candidate that does not outrank it. */
  function InsertDesc(c: Candidate, s: seq<Candidate>): seq<Candidate> {
    if s == [] || Score(s[0]) <= Score(c) then [c] + s
    else [s[0]] + InsertDesc(c, s[1..])
  }

  /** `sorted(s, key=lambda c: -score(c))`, as a stable insertion sort. */
  function SortByScoreDesc(s: seq<Candidate>): seq<Candidate> {
    if s == [] then [] else InsertDesc(s[0], SortByScoreDesc(s[1..]))
  }

  lemma {:induction false} InsertDescPermutes(c: Candidate, s: seq<Candidate>)
    ensures multiset(InsertDesc(c, s)) == multiset(s) + multiset{c}
  {
    if s != [] && Score(s[0]) > Score(c) {
      InsertDescPermutes(c, s[1..]);
      assert s == [s[0]] + s[1..];
    }
  }

  lemma {:induction false} InsertDescSorted(c: Candidate, s: seq<Candidate>)
    requires SortedDesc(s)
    ensures SortedDesc(InsertDesc(c, s))
  {
    if s != [] && Score(s[0]) > Score(c) {
      var t := InsertDesc(c, s[1..]);
      InsertDescSorted(c, s[1..]);
      InsertDescPermutes(c, s[1..]);
      forall k | 0 <= k < |t| ensures Score(s[0]) >= Score(t[k]) {
        assert t[k] in multiset(t);
        if t[k] != c {
          assert t[k] in multiset(s[1..]);
          var m :| 0 <= m < |s[1..]| && s[1..][m] == t[k];
          assert s[1..][m] == s[m + 1];
        }
      }
      var r := InsertDesc(c, s);
      assert r == [s[0]] + t;
      forall i, j | 0 <= i < j < |r| ensures Score(r[i]) >= Score(r[j]) {
        if i > 0 {
          assert r[i] == t[i - 1] && r[j] == t[j - 1];
        } else {
          assert r[j] == t[j - 1];
        }
      }
    }
  }

  lemma {:induction false} InsertDescWithScore(c: Candidate, s: seq<Candidate>, v: real)
    ensures WithScore(InsertDesc(c, s), v)
            == (if Score(c) == v then [c] + WithScore(s, v) else WithScore(s, v))
  {
    var r := InsertDesc(c, s);
    if s == [] || Score(s[0]) <= Score(c) {
      assert r[1..] == s;
    } else {
      var t := InsertDesc(c, s[1..]);
      InsertDescWithScore(c, s[1..], v);
      assert r[1..] == t;
    }
  }

  /** The sort returns a permutation of its input, in descending order of score, with
      candidates of equal score in their input order. */
  lemma {:induction false} SortByScoreDescCorrect(s: seq<Candidate>)
    ensures SortedDesc(SortByScoreDesc(s))
    ensures multiset(SortByScoreDesc(s)) == multiset(s)
    ensures forall v :: WithScore(SortByScoreDesc(s), v) == WithScore(s, v)
  {
    if s != [] {
      SortByScoreDescCorrect(s[1..]);
      InsertDescSorted(s[0], SortByScoreDesc(s[1..]));
      InsertDescPermutes(s[0], SortByScoreDesc(s[1..]));
      assert s == [s[0]] + s[1..];
      forall v ensures WithScore(SortByScoreDesc(s), v) == WithScore(s, v) {
        InsertDescWithScore(s[0], SortByScoreDesc(s[1..]), v);
        assert WithScore(s, v) == (if Score(s[0]) == v then [s[0]] else []) + WithScore(s[1..], v);
      }
    }
  }

  /** Sorting a list that is already in descending order changes nothing; so the second,
      final sort of the OCR finder is the identity on the deduplicated list. */
  lemma {:induction false} SortOfSortedIsIdentity(s: seq<Candidate>)
    requires SortedDesc(s)
    ensures SortByScoreDesc(s) == s
  {
    if s != [] {
      assert SortedDesc(s[1..]) by {
        forall i, j | 0 <= i < j < |s[1..]| ensures Score(s[1..][i]) >= Score(s[1..][j]) {
          assert s[1..][i] == s[i + 1] && s[1..][j] == s[j + 1];
        }
      }
      SortOfSortedIsIdentity(s[1..]);
      assert s == [s[0]] + s[1..];
    }
  }
}
