/** Ranking of scored documents: the descending sort by similarity score and
    the selection of the first `top_values` rows, reduced to (label, score)
    pairs. The sort does not promise any order among equal scores. */
module Ranking {

  /** One row of the result: the document label and its similarity score. */
  datatype ScoredResult = ScoredResult(docLabel: string, score: real)

  /** Scores never increase from one row to a later one. */
  ghost predicate SortedDescending(s: seq<ScoredResult>) {
    forall i, j :: 0 <= i < j < |s| ==> s[i].score >= s[j].score
  }

  /** A row in front of a descending list keeps it descending when it scores
      at least as high as the list's first row. */
  lemma ConsSorted(h: ScoredResult, t: seq<ScoredResult>)
    requires SortedDescending(t)
    requires t != [] ==> h.score >= t[0].score
    ensures SortedDescending([h] + t)
  {
    var s := [h] + t;
    forall i, j | 0 <= i < j < |s|
      ensures s[i].score >= s[j].score
    {
      if i == 0 && j > 1 {
        assert s[j] == t[j - 1];
      }
    }
  }

  /** Inserts `x` into a descending list in front of the first row whose
      score is not higher than its own. */
  function InsertByScore(s: seq<ScoredResult>, x: ScoredResult): (r: seq<ScoredResult>)
    requires SortedDescending(s)
    ensures SortedDescending(r)
    ensures multiset(r) == multiset(s) + multiset{x}
    ensures r[0] == x || (s != [] && r[0] == s[0])
  {
    if s == [] || x.score >= s[0].score then
      ConsSorted(x, s);
      [x] + s
    else
      var rest := InsertByScore(s[1..], x);
      ConsSorted(s[0], rest);
      assert s == [s[0]] + s[1..];
      [s[0]] + rest
  }

  /** `sort_values(by=["similarity_score"], ascending=False)`: the rows,
      rearranged so that scores do not increase. */
  method SortByScoreDescending(xs: seq<ScoredResult>) returns (ys: seq<ScoredResult>)
    ensures SortedDescending(ys)
    ensures multiset(ys) == multiset(xs)
  {
    ys := [];
    for i := 0 to |xs|
      invariant SortedDescending(ys)
      invariant multiset(ys) == multiset(xs[..i])
    {
      assert xs[..i + 1] == xs[..i] + [xs[i]];
      ys := InsertByScore(ys, xs[i]);
    }
    assert xs[..|xs|] == xs;
  }

  /** Where Python's slice `[:stop]` ends on a sequence of length `n`:
      a negative `stop` counts from the end. */
  function SliceEnd(stop: int, n: nat): (e: nat)
    ensures e <= n
  {
    if stop >= 0 then (if stop <= n then stop else n)
    else if n + stop >= 0 then n + stop else 0
  }

  /** `iloc[:top_values]`: the first rows of the sorted table. */
  function TopK(sorted: seq<ScoredResult>, topValues: int): (r: seq<ScoredResult>)
    ensures |r| <= |sorted| && r == sorted[..|r|]
  {
    sorted[..SliceEnd(topValues, |sorted|)]
  }

  /** `r` is a true top-K of `pool`: sorted by non-increasing score, made of
      rows of `pool` each used at most as often as it occurs there, and no
      row left out scores higher than any row returned. */
  ghost predicate IsTopK(r: seq<ScoredResult>, pool: seq<ScoredResult>) {
    && SortedDescending(r)
    && multiset(r) <= multiset(pool)
    && forall e, i :: e in multiset(pool) - multiset(r) && 0 <= i < |r| ==> e.score <= r[i].score
  }

  /** Splitting a sorted list leaves no row in the back scoring higher than
      a row in the front. */
  lemma SortedSplitDominates(sorted: seq<ScoredResult>, k: nat, e: ScoredResult, i: nat)
    requires SortedDescending(sorted) && k <= |sorted|
    requires e in multiset(sorted[k..]) && i < k
    ensures e.score <= sorted[i].score
  {
    var rest := sorted[k..];
    var j :| 0 <= j < |rest| && rest[j] == e;
    assert sorted[k + j] == e;
  }

  /** Taking the front of a list away from it leaves its back. */
  lemma FrontAndBack(s: seq<ScoredResult>, k: nat)
    requires k <= |s|
    ensures multiset(s) - multiset(s[..k]) == multiset(s[k..])
  {
    assert s == s[..k] + s[k..];
  }

  /** The front of a descending list is a true top-K of the whole list. */
  lemma PrefixIsTopK(sorted: seq<ScoredResult>, k: nat)
    requires SortedDescending(sorted) && k <= |sorted|
    ensures IsTopK(sorted[..k], sorted)
  {
    var r := sorted[..k];
    FrontAndBack(sorted, k);
    assert multiset(r) <= multiset(sorted) by {
      assert sorted == r + sorted[k..];
    }
    forall e, i | e in multiset(sorted) - multiset(r) && 0 <= i < |r|
      ensures e.score <= r[i].score
    {
      SortedSplitDominates(sorted, k, e, i);
    }
  }

  /** The first rows of a descending sort of the pool are a true top-K of it;
      there are `min(top_values, |pool|)` of them for `top_values >= 0`, and
      for a negative `top_values` all but the last `-top_values` rows. */
  lemma TopKOfSortedIsTopK(pool: seq<ScoredResult>, sorted: seq<ScoredResult>, topValues: int)
    requires SortedDescending(sorted) && multiset(sorted) == multiset(pool)
    ensures var r := TopK(sorted, topValues);
      && IsTopK(r, pool)
      && (topValues >= 0 ==> |r| == if topValues <= |pool| then topValues else |pool|)
      && (topValues < 0 ==> |r| == if |pool| + topValues >= 0 then |pool| + topValues else 0)
  {
    assert |pool| == |sorted| by {
      assert |multiset(sorted)| == |multiset(pool)|;
    }
    PrefixIsTopK(sorted, SliceEnd(topValues, |sorted|));
  }

  /** A sub-multiset is no larger. */
  lemma SubMultisetSize(small: multiset<ScoredResult>, large: multiset<ScoredResult>)
    requires small <= large
    ensures |small| <= |large|
  {
    assert large == small + (large - small);
  }

  /** Every row of a sorted list scores at least as high as the row at
      position `i` if it lies before it, and at most as high if after. */
  lemma SortedAround(s: seq<ScoredResult>, i: nat, e: ScoredResult)
    requires SortedDescending(s) && i < |s|
    ensures e in multiset(s[..i + 1]) ==> e.score >= s[i].score
    ensures e in multiset(s[i..]) ==> e.score <= s[i].score
  {
    if e in multiset(s[..i + 1]) {
      var j :| 0 <= j < |s[..i + 1]| && s[..i + 1][j] == e;
      assert s[j] == e;
    }
    if e in multiset(s[i..]) {
      var m :| 0 <= m < |s[i..]| && s[i..][m] == e;
      assert s[i + m] == e;
    }
  }

  /** Counting one row: if it cannot lie in the back of `b` and cannot be
      left out of `b`, then it occurs among the first `i + 1` rows of `a` no
      more often than among the first `i` rows of `b`. */
  lemma FrontWithinBack(pool: seq<ScoredResult>, a: seq<ScoredResult>, b: seq<ScoredResult>, i: nat, e: ScoredResult)
    requires i < |a| && i < |b|
    requires multiset(a) <= multiset(pool)
    requires e in multiset(a[..i + 1]) ==> e !in multiset(b[i..])
    requires e in multiset(a[..i + 1]) ==> multiset(pool)[e] <= multiset(b)[e]
    ensures multiset(a[..i + 1])[e] <= multiset(b[..i])[e]
  {
    if e in multiset(a[..i + 1]) {
      assert multiset(a)[e] >= multiset(a[..i + 1])[e] by {
        assert a == a[..i + 1] + a[i + 1..];
      }
      assert multiset(b)[e] == multiset(b[..i])[e] by {
        assert b == b[..i] + b[i..];
      }
    }
  }

  /** A row that occurs in the pool more often than in a true top-K scores no
      higher than any returned row. */
  lemma LeftOutScoresNoHigher(pool: seq<ScoredResult>, b: seq<ScoredResult>, i: nat, e: ScoredResult)
    requires IsTopK(b, pool) && i < |b|
    requires multiset(b)[e] < multiset(pool)[e]
    ensures e.score <= b[i].score
  {
    assert e in multiset(pool) - multiset(b);
  }

  /** Position by position, a true top-K scores no higher than any other
      true top-K of the same length. */
  lemma TopKScoreBound(pool: seq<ScoredResult>, a: seq<ScoredResult>, b: seq<ScoredResult>, i: nat)
    requires IsTopK(a, pool) && IsTopK(b, pool) && |a| == |b| && i < |a|
    ensures a[i].score <= b[i].score
  {
    if a[i].score > b[i].score {
      assert |a[..i + 1]| == i + 1 && |b[..i]| == i;
      forall e | true
        ensures multiset(a[..i + 1])[e] <= multiset(b[..i])[e]
      {
        SortedAround(a, i, e);
        SortedAround(b, i, e);
        if multiset(b)[e] < multiset(pool)[e] {
          LeftOutScoresNoHigher(pool, b, i, e);
        }
        FrontWithinBack(pool, a, b, i, e);
      }
      SubMultisetSize(multiset(a[..i + 1]), multiset(b[..i]));
    }
  }

  /** A true top-K is unique up to the order of rows with equal scores: any
      two of the same length have the same score at every position. */
  lemma TopKScoresAgree(pool: seq<ScoredResult>, a: seq<ScoredResult>, b: seq<ScoredResult>)
    requires IsTopK(a, pool) && IsTopK(b, pool) && |a| == |b|
    ensures forall i :: 0 <= i < |a| ==> a[i].score == b[i].score
  {
    forall i | 0 <= i < |a|
      ensures a[i].score == b[i].score
    {
      TopKScoreBound(pool, a, b, i);
      TopKScoreBound(pool, b, a, i);
    }
  }
}
