/**
 * Rolling score trends per issuer. After the rows are sorted, each row's
 * trend is the mean of its own predicted score and of at most `w - 1`
 * earlier scores of the same issuer (3 for the short-term trend, 10 for the
 * long-term one). A window shrinks at the start of a group and never looks
 * at later rows.
 */
module Trends {
  import opened Sorting

  const ShortWindow: nat := 3
  const LongWindow: nat := 10

  function Sum(s: seq<real>): real {
    if s == [] then 0.0 else s[0] + Sum(s[1..])
  }

  function Mean(s: seq<real>): real
    requires s != []
  {
    Sum(s) / (|s| as real)
  }

  function Min(s: seq<real>): (m: real)
    requires s != []
    ensures forall k :: 0 <= k < |s| ==> m <= s[k]
    ensures m in s
  {
    if |s| == 1 then s[0]
    else var rest := Min(s[1..]); if s[0] <= rest then s[0] else rest
  }

  function Max(s: seq<real>): (m: real)
    requires s != []
    ensures forall k :: 0 <= k < |s| ==> s[k] <= m
    ensures m in s
  {
    if |s| == 1 then s[0]
    else var rest := Max(s[1..]); if rest <= s[0] then s[0] else rest
  }

  lemma {:induction false} SumAppend(s: seq<real>, x: real)
    ensures Sum(s + [x]) == Sum(s) + x
  {
    if s != [] {
      assert (s + [x])[1..] == s[1..] + [x];
      SumAppend(s[1..], x);
    }
  }

  lemma {:induction false} SumBetween(s: seq<real>, lo: real, hi: real)
    requires forall k :: 0 <= k < |s| ==> lo <= s[k] <= hi
    ensures (|s| as real) * lo <= Sum(s) <= (|s| as real) * hi
  {
    if s != [] {
      SumBetween(s[1..], lo, hi);
      var m := |s[1..]| as real;
      assert (|s| as real) * lo == lo + m * lo;
      assert (|s| as real) * hi == hi + m * hi;
    }
  }

  lemma QuotientBetween(total: real, n: real, lo: real, hi: real)
    requires n > 0.0 && n * lo <= total <= n * hi
    ensures lo <= total / n <= hi
  {
    var q := total / n;
    assert q * n == total;
    assert n * lo <= n * q <= n * hi;
  }

  /** A mean lies between the smallest and the largest value averaged. */
  lemma MeanWithinRange(s: seq<real>)
    requires s != []
    ensures Min(s) <= Mean(s) <= Max(s)
  {
    var lo, hi := Min(s), Max(s);
    SumBetween(s, lo, hi);
    MeanBetween(s, lo, hi);
  }

  lemma MeanBetween(s: seq<real>, lo: real, hi: real)
    requires s != []
    requires (|s| as real) * lo <= Sum(s) <= (|s| as real) * hi
    ensures lo <= Mean(s) <= hi
  {
    QuotientBetween(Sum(s), |s| as real, lo, hi);
  }

  /** The scores of the rows before position `n` that belong to issuer `id`, in row order. */
  function GroupPrefix(ids: seq<int>, scores: seq<real>, id: int, n: nat): (g: seq<real>)
    requires |ids| == |scores| && n <= |ids|
    ensures |g| <= n
  {
    if n == 0 then []
    else GroupPrefix(ids, scores, id, n - 1) + (if ids[n - 1] == id then [scores[n - 1]] else [])
  }

  /** The last `w` elements of `s`, or all of them when there are fewer. */
  function Last(s: seq<real>, w: nat): (r: seq<real>)
    ensures |r| == if |s| <= w then |s| else w
    ensures r == s[|s| - |r|..]
  {
    if |s| <= w then s else s[|s| - w..]
  }

  /**
   * The scores row k's trend averages: the last `w` scores of row k's issuer
   * among rows 0..k. It is never empty and ends with row k's own score.
   */
  function Window(ids: seq<int>, scores: seq<real>, k: nat, w: nat): (win: seq<real>)
    requires |ids| == |scores| && k < |ids| && w >= 1
    ensures 1 <= |win| <= w
    ensures win[|win| - 1] == scores[k]
  {
    Last(GroupPrefix(ids, scores, ids[k], k + 1), w)
  }

  predicate NonDecreasing(ids: seq<int>) {
    forall p, q :: 0 <= p < q < |ids| ==> ids[p] <= ids[q]
  }

  lemma {:induction false} GroupPrefixAbsent(ids: seq<int>, scores: seq<real>, id: int, n: nat)
    requires |ids| == |scores| && n <= |ids|
    requires forall p :: 0 <= p < n ==> ids[p] != id
    ensures GroupPrefix(ids, scores, id, n) == []
  {
    if n > 0 {
      GroupPrefixAbsent(ids, scores, id, n - 1);
    }
  }

  /** When rows start..n-1 form the whole group so far, the group's prefix is exactly their scores. */
  lemma {:induction false} GroupPrefixOfRun(ids: seq<int>, scores: seq<real>, start: nat, n: nat)
    requires |ids| == |scores| && start < n <= |ids|
    requires forall p :: start <= p < n ==> ids[p] == ids[start]
    requires forall p :: 0 <= p < start ==> ids[p] != ids[start]
    ensures GroupPrefix(ids, scores, ids[start], n) == scores[start..n]
    decreases n
  {
    if n == start + 1 {
      GroupPrefixAbsent(ids, scores, ids[start], start);
    } else {
      GroupPrefixOfRun(ids, scores, start, n - 1);
      assert scores[start..n] == scores[start..n - 1] + [scores[n - 1]];
    }
  }

  /** A group's prefix up to an earlier row is a prefix of its prefix up to a later one. */
  lemma {:induction false} GroupPrefixGrows(ids: seq<int>, scores: seq<real>, id: int, n: nat, m: nat)
    requires |ids| == |scores| && n <= m <= |ids|
    ensures |GroupPrefix(ids, scores, id, n)| <= |GroupPrefix(ids, scores, id, m)|
    ensures GroupPrefix(ids, scores, id, n) == GroupPrefix(ids, scores, id, m)[..|GroupPrefix(ids, scores, id, n)|]
    decreases m
  {
    if n < m {
      GroupPrefixGrows(ids, scores, id, n, m - 1);
      var shorter := GroupPrefix(ids, scores, id, m - 1);
      assert GroupPrefix(ids, scores, id, m)[..|shorter|] == shorter;
    }
  }

  /**
   * Row k is at position i of its issuer's group (i being the number of
   * earlier rows of that issuer), and its window is exactly positions
   * max(0, i - w + 1) .. i of the whole group.
   */
  lemma WindowIsGroupPositions(ids: seq<int>, scores: seq<real>, k: nat, w: nat)
    requires |ids| == |scores| && k < |ids| && w >= 1
    ensures var group, i := GroupPrefix(ids, scores, ids[k], |ids|), |GroupPrefix(ids, scores, ids[k], k)|;
      && i < |group|
      && group[i] == scores[k]
      && Window(ids, scores, k, w) == group[if i + 1 >= w then i + 1 - w else 0..i + 1]
  {
    var group := GroupPrefix(ids, scores, ids[k], |ids|);
    var upTo := GroupPrefix(ids, scores, ids[k], k + 1);
    GroupPrefixGrows(ids, scores, ids[k], k + 1, |ids|);
    assert upTo == GroupPrefix(ids, scores, ids[k], k) + [scores[k]];
    assert upTo == group[..|upTo|];
  }

  /** The first row of an issuer's group has both trends equal to its own score. */
  lemma FirstRowTrendIsOwnScore(ids: seq<int>, scores: seq<real>, k: nat, w: nat)
    requires |ids| == |scores| && k < |ids| && w >= 1
    requires forall p :: 0 <= p < k ==> ids[p] != ids[k]
    ensures Window(ids, scores, k, w) == [scores[k]]
    ensures Mean(Window(ids, scores, k, w)) == scores[k]
  {
    GroupPrefixAbsent(ids, scores, ids[k], k);
    assert Sum([scores[k]]) == scores[k] + Sum([]);
  }

  /** When no issuer repeats, every row is its issuer's first, so every trend is the row's own score. */
  lemma DistinctIssuersTrendIsOwnScore(ids: seq<int>, scores: seq<real>, w: nat)
    requires |ids| == |scores| && w >= 1 && Distinct(ids)
    ensures forall k :: 0 <= k < |ids| ==> Mean(Window(ids, scores, k, w)) == scores[k]
  {
    forall k | 0 <= k < |ids|
      ensures Mean(Window(ids, scores, k, w)) == scores[k]
    {
      FirstRowTrendIsOwnScore(ids, scores, k, w);
    }
  }

  /** A group's prefix reads only the rows before `n`. */
  lemma {:induction false} GroupPrefixIgnoresLaterRows(ids: seq<int>, scores: seq<real>, ids': seq<int>, scores': seq<real>, id: int, n: nat)
    requires |ids| == |scores| && |ids'| == |scores'| && n <= |ids| && n <= |ids'|
    requires ids[..n] == ids'[..n] && scores[..n] == scores'[..n]
    ensures GroupPrefix(ids, scores, id, n) == GroupPrefix(ids', scores', id, n)
  {
    if n > 0 {
      assert ids[..n - 1] == ids'[..n - 1] && scores[..n - 1] == scores'[..n - 1];
      assert ids[n - 1] == ids[..n][n - 1] && ids'[n - 1] == ids'[..n][n - 1];
      assert scores[n - 1] == scores[..n][n - 1] && scores'[n - 1] == scores'[..n][n - 1];
      GroupPrefixIgnoresLaterRows(ids, scores, ids', scores', id, n - 1);
    }
  }

  /** No later row affects a row's window, hence its trend: rolling never looks ahead. */
  lemma WindowIgnoresLaterRows(ids: seq<int>, scores: seq<real>, ids': seq<int>, scores': seq<real>, k: nat, w: nat)
    requires |ids| == |scores| && |ids'| == |scores'| && k < |ids| && k < |ids'| && w >= 1
    requires ids[..k + 1] == ids'[..k + 1] && scores[..k + 1] == scores'[..k + 1]
    ensures Window(ids, scores, k, w) == Window(ids', scores', k, w)
  {
    assert ids[k] == ids[..k + 1][k] && ids'[k] == ids'[..k + 1][k];
    GroupPrefixIgnoresLaterRows(ids, scores, ids', scores', ids[k], k + 1);
  }

  /**
   * One issuer with twelve rows scored 1, 2, ..., 12: at the twelfth row the
   * long-term trend averages scores 3..12 and the short-term one scores 10..12.
   */
  lemma TwelveRowExample(ids: seq<int>, scores: seq<real>)
    requires |ids| == 12 && |scores| == 12
    requires forall p :: 0 <= p < 12 ==> ids[p] == ids[0]
    requires forall p :: 0 <= p < 12 ==> scores[p] == (p + 1) as real
    ensures Mean(Window(ids, scores, 11, LongWindow)) == 7.5
    ensures Mean(Window(ids, scores, 11, ShortWindow)) == 11.0
  {
    WindowOfRun(ids, scores, 0, 11, LongWindow);
    WindowOfRun(ids, scores, 0, 11, ShortWindow);
    SumOfCountingScores(scores, 2);
    SumOfCountingScores(scores, 9);
    assert scores[2..12] == scores[2..] && scores[9..12] == scores[9..];
  }

  /** (lo + 1) + (lo + 2) + ... + 12. */
  function SeriesTo12(lo: nat): int
    decreases 12 - lo
  {
    if lo >= 12 then 0 else lo + 1 + SeriesTo12(lo + 1)
  }

  /** For scores 1, 2, ..., 12, the scores of rows lo..11 add up to (lo + 1) + ... + 12. */
  lemma {:induction false} SumOfCountingScores(scores: seq<real>, lo: nat)
    requires |scores| == 12 && lo <= 12
    requires forall p :: 0 <= p < 12 ==> scores[p] == (p + 1) as real
    ensures Sum(scores[lo..]) == SeriesTo12(lo) as real
    decreases 12 - lo
  {
    if lo < 12 {
      SumOfCountingScores(scores, lo + 1);
      assert scores[lo..][1..] == scores[lo + 1..];
    }
  }

  /** Within a run of rows of one issuer that starts its group, a window is a slice of the run. */
  lemma WindowOfRun(ids: seq<int>, scores: seq<real>, start: nat, k: nat, w: nat)
    requires |ids| == |scores| && start <= k < |ids| && w >= 1
    requires forall p :: start <= p <= k ==> ids[p] == ids[start]
    requires forall p :: 0 <= p < start ==> ids[p] != ids[start]
    ensures Window(ids, scores, k, w) == scores[if start >= k + 1 - w then start else k + 1 - w..k + 1]
  {
    var group := GroupPrefix(ids, scores, ids[k], k + 1);
    assert ids[k] == ids[start];
    GroupPrefixOfRun(ids, scores, start, k + 1);
    assert group == scores[start..k + 1];
    if |group| > w {
      assert group[|group| - w..] == scores[k + 1 - w..k + 1];
    }
  }

  /** The trend of every row: the mean of its window. */
  ghost function AllTrends(ids: seq<int>, scores: seq<real>, w: nat): seq<real>
    requires |ids| == |scores| && w >= 1
  {
    seq(|ids|, k requires 0 <= k < |ids| => Mean(Window(ids, scores, k, w)))
  }

  /** Every trend computed so far is the mean of its row's window. */
  ghost predicate TrendsUpTo(ids: seq<int>, scores: seq<real>, w: nat, trend: seq<real>)
    requires |ids| == |scores| && |trend| <= |ids| && w >= 1
  {
    trend == AllTrends(ids, scores, w)[..|trend|]
  }

  /** The running sum over rows lo..k, divided by their count, is row k's trend. */
  lemma MeanOfRunWindow(ids: seq<int>, scores: seq<real>, start: nat, lo: nat, k: nat, w: nat, sum: real)
    requires |ids| == |scores| && start <= lo <= k < |ids| && w >= 1
    requires forall p :: start <= p <= k ==> ids[p] == ids[start]
    requires forall p :: 0 <= p < start ==> ids[p] != ids[start]
    requires lo == if start >= k + 1 - w then start else k + 1 - w
    requires sum == Sum(scores[lo..k + 1])
    ensures Mean(Window(ids, scores, k, w)) == sum / ((k + 1 - lo) as real)
  {
    var win := Window(ids, scores, k, w);
    WindowOfRun(ids, scores, start, k, w);
    assert win == scores[lo..k + 1];
    assert Sum(win) == sum && |win| == k + 1 - lo;
  }

  /** Appending row k's own trend keeps every trend so far right. */
  lemma PrefixExtend(all: seq<real>, trend: seq<real>)
    requires |trend| < |all| && trend == all[..|trend|]
    ensures trend + [all[|trend|]] == all[..|trend| + 1]
  {
    assert all[..|trend| + 1] == all[..|trend|] + [all[|trend|]];
  }

  /** Once row k is taken into the running state, its sum over its count is row k's trend. */
  lemma RollingStep(ids: seq<int>, scores: seq<real>, w: nat, start: nat, lo: nat, sum: real, k: nat, trend: seq<real>)
    requires |ids| == |scores| && k < |ids| && w >= 1 && |trend| == k
    requires RunState(ids, scores, w, start, lo, sum, k + 1)
    requires TrendsUpTo(ids, scores, w, trend)
    ensures lo <= k
    ensures TrendsUpTo(ids, scores, w, trend + [sum / ((k + 1 - lo) as real)])
  {
    MeanOfRunWindow(ids, scores, start, lo, k, w, sum);
    PrefixExtend(AllTrends(ids, scores, w), trend);
  }

  /** In rows sorted by issuer, a row whose issuer differs from the previous one is its issuer's first. */
  lemma NewGroup(ids: seq<int>, k: nat)
    requires NonDecreasing(ids) && 0 < k < |ids| && ids[k] != ids[k - 1]
    ensures forall p :: 0 <= p < k ==> ids[p] != ids[k]
  {
    assert forall p :: 0 <= p < k ==> ids[p] <= ids[k - 1] < ids[k];
  }

  lemma SumExtend(s: seq<real>, lo: nat, hi: nat)
    requires lo <= hi < |s|
    ensures Sum(s[lo..hi + 1]) == Sum(s[lo..hi]) + s[hi]
  {
    assert s[lo..hi + 1] == s[lo..hi] + [s[hi]];
    SumAppend(s[lo..hi], s[hi]);
  }

  lemma SumShrink(s: seq<real>, lo: nat, hi: nat)
    requires lo < hi <= |s|
    ensures Sum(s[lo + 1..hi]) == Sum(s[lo..hi]) - s[lo]
  {
    assert s[lo..hi][1..] == s[lo + 1..hi];
  }

  /**
   * The running state after rows 0..k-1: rows start..k-1 are the current
   * issuer's rows so far, and `sum` adds up the scores of the window rows lo..k-1.
   */
  ghost predicate RunState(ids: seq<int>, scores: seq<real>, w: nat, start: nat, lo: nat, sum: real, k: nat)
    requires |ids| == |scores|
  {
    && start <= lo <= k <= |ids|
    && (0 < k ==> start < k)
    && lo == (if start >= k - w then start else k - w)
    && (forall p :: start <= p < k ==> ids[p] == ids[start])
    && (start < |ids| ==> forall p :: 0 <= p < start ==> ids[p] != ids[start])
    && sum == Sum(scores[lo..k])
  }

  /** Takes row k into the running state: a new group restarts it, and a full window drops its oldest score. */
  method Slide(ids: seq<int>, scores: seq<real>, w: nat, start: nat, lo: nat, sum: real, k: nat)
    returns (start': nat, lo': nat, sum': real)
    requires |ids| == |scores| && k < |ids| && w >= 1 && NonDecreasing(ids)
    requires RunState(ids, scores, w, start, lo, sum, k)
    ensures RunState(ids, scores, w, start', lo', sum', k + 1)
  {
    start', lo', sum' := start, lo, sum;
    if k > 0 && ids[k] != ids[k - 1] {
      // a new issuer group starts at row k
      NewGroup(ids, k);
      start', lo', sum' := k, k, 0.0;
    }
    SumExtend(scores, lo', k);
    sum' := sum' + scores[k];
    if k + 1 - lo' > w {
      SumShrink(scores, lo', k + 1);
      sum' := sum' - scores[lo'];
      lo' := lo' + 1;
    }
  }

  /**
   * Rolling means of `scores` over windows of `w` within each issuer group,
   * for rows sorted by issuer: one running sum, reset where a new issuer
   * starts, gaining the current score and dropping the one that leaves the window.
   */
  method GroupedRollingMean(ids: seq<int>, scores: seq<real>, w: nat) returns (trend: seq<real>)
    requires |ids| == |scores| && w >= 1
    requires NonDecreasing(ids)
    ensures |trend| == |scores|
    ensures forall k :: 0 <= k < |scores| ==> trend[k] == Mean(Window(ids, scores, k, w))
  {
    trend := [];
    var start, lo, sum := 0, 0, 0.0;
    var k := 0;
    while k < |scores|
      invariant 0 <= k <= |scores|
      invariant |trend| == k
      invariant TrendsUpTo(ids, scores, w, trend)
      invariant RunState(ids, scores, w, start, lo, sum, k)
    {
      start, lo, sum := Slide(ids, scores, w, start, lo, sum, k);
      RollingStep(ids, scores, w, start, lo, sum, k, trend);
      trend := trend + [sum / ((k + 1 - lo) as real)];
      k := k + 1;
    }
  }
}
