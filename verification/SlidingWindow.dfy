/**
 Sliding windows over ascending timestamps, shared by the rate limiter and the agent sandbox: what
 pruning keeps, and why a limit enforced at admission bounds every interval of the window's length.
 */
module SlidingWindow {

  ghost predicate Ascending(h: seq<int>) {
    forall i, j :: 0 <= i < j < |h| ==> h[i] <= h[j]
  }

  /** The first `n` timestamps, without those at or before `start`. */
  function KeepAfter(ts: seq<int>, n: nat, start: int): (r: seq<int>)
    requires n <= |ts|
    ensures |r| <= n
  {
    if n == 0 then []
    else KeepAfter(ts, n - 1, start) + if ts[n - 1] > start then [ts[n - 1]] else []
  }

  /** How many of the first `n` timestamps are after `start`. */
  function CountAfter(h: seq<int>, n: nat, start: int): nat
    requires n <= |h|
  {
    if n == 0 then 0
    else CountAfter(h, n - 1, start) + if h[n - 1] > start then 1 else 0
  }

  /** How many of the first `n` timestamps lie in the interval (lo, hi]. */
  function CountIn(h: seq<int>, n: nat, lo: int, hi: int): nat
    requires n <= |h|
  {
    if n == 0 then 0
    else CountIn(h, n - 1, lo, hi) + if lo < h[n - 1] <= hi then 1 else 0
  }

  /** `ts` is exactly the part of the history after `start`. */
  ghost predicate IsRecent(ts: seq<int>, h: seq<int>, start: int) {
    && |ts| <= |h|
    && (forall i :: 0 <= i < |ts| ==> ts[i] == h[|h| - |ts| + i] && ts[i] > start)
    && (forall i :: 0 <= i < |h| - |ts| ==> h[i] <= start)
  }

  /** Any `limit + 1` successive timestamps span at least the window. */
  ghost predicate Spaced(h: seq<int>, limit: nat, window: int) {
    forall i :: limit <= i < |h| ==> h[i] - h[i - limit] >= window
  }

  lemma {:induction false} NothingRecent(ts: seq<int>, n: nat, start: int)
    requires n <= |ts| && forall i :: 0 <= i < n ==> ts[i] <= start
    ensures KeepAfter(ts, n, start) == []
  {
    if n != 0 { NothingRecent(ts, n - 1, start); }
  }

  /** Pruning an ascending list keeps the suffix after `start`. */
  lemma {:induction false} PruningKeepsSuffix(ts: seq<int>, n: nat, start: int)
    requires Ascending(ts) && n <= |ts|
    ensures var r := KeepAfter(ts, n, start);
            && (forall i :: 0 <= i < |r| ==> r[i] == ts[n - |r| + i] && r[i] > start)
            && (forall i :: 0 <= i < n - |r| ==> ts[i] <= start)
  {
    if n != 0 {
      PruningKeepsSuffix(ts, n - 1, start);
      if ts[n - 1] <= start { NothingRecent(ts, n, start); }
    }
  }

  lemma {:induction false} RecentIsAscending(ts: seq<int>, h: seq<int>, start: int)
    requires IsRecent(ts, h, start) && Ascending(h)
    ensures Ascending(ts)
  {
    assert forall i :: 0 <= i < |ts| ==> ts[i] == h[|h| - |ts| + i];
  }

  lemma {:induction false} RecentSplits(ts: seq<int>, h: seq<int>, start: int)
    requires IsRecent(ts, h, start)
    ensures forall i :: 0 <= i < |h| ==> (h[i] > start <==> |h| - |ts| <= i)
  {
    forall i | |h| - |ts| <= i < |h|
      ensures h[i] > start
    {
      assert ts[i - (|h| - |ts|)] == h[i];
    }
  }

  lemma {:induction false} CountAfterOfRecent(h: seq<int>, n: nat, k: nat, start: int)
    requires k <= n <= |h|
    requires forall i :: 0 <= i < n - k ==> h[i] <= start
    requires forall i :: n - k <= i < n ==> h[i] > start
    ensures CountAfter(h, n, start) == k
  {
    if n != 0 { CountAfterOfRecent(h, n - 1, if k == 0 then 0 else k - 1, start); }
  }

  lemma {:induction false} RecentIsCounted(ts: seq<int>, h: seq<int>, start: int)
    requires IsRecent(ts, h, start)
    ensures CountAfter(h, |h|, start) == |ts|
  {
    RecentSplits(ts, h, start);
    CountAfterOfRecent(h, |h|, |ts|, start);
  }

  /** Admitting below the limit keeps the spacing. */
  lemma {:induction false} AdmittingKeepsSpacing(ts: seq<int>, h: seq<int>, limit: nat, window: int, now: int)
    requires Spaced(h, limit, window) && IsRecent(ts, h, now - window) && |ts| < limit
    ensures Spaced(h + [now], limit, window)
  {
  }

  /** Spacing bounds what is recent at any time not before the history. */
  lemma {:induction false} SpacingBoundsRecent(ts: seq<int>, h: seq<int>, limit: nat, window: int, now: int)
    requires Spaced(h, limit, window) && IsRecent(ts, h, now - window)
    requires forall i :: 0 <= i < |h| ==> h[i] <= now
    ensures |ts| <= limit
  {
    RecentSplits(ts, h, now - window);
    forall i | 0 <= i < |h| - limit
      ensures h[i] <= now - window
    {
      assert h[i + limit] - h[i] >= window by { assert h[i + limit] - h[(i + limit) - limit] >= window; }
    }
    // the first position after the pruned part is at or after the last one that spacing pushes out
    assert |ts| > 0 ==> h[|h| - |ts|] > now - window;
  }

  lemma {:induction false} CountSkipsPrefix(h: seq<int>, n: nat, m: nat, lo: int, hi: int)
    requires m <= n <= |h|
    requires forall i :: 0 <= i < m ==> h[i] <= lo
    ensures CountIn(h, n, lo, hi) <= n - m
  {
    if n > m {
      CountSkipsPrefix(h, n - 1, m, lo, hi);
    } else if n > 0 {
      CountSkipsPrefix(h, n - 1, n - 1, lo, hi);
    }
  }

  /** Spacing bounds every interval (t - window, t], at every t and not only at admissions. */
  lemma {:induction false} SpacingBoundsEveryInterval(h: seq<int>, n: nat, limit: nat, window: int, t: int)
    requires Ascending(h) && Spaced(h, limit, window) && n <= |h|
    ensures CountIn(h, n, t - window, t) <= limit
  {
    if n > limit {
      if t - window < h[n - 1] <= t {
        assert h[n - 1] - h[n - 1 - limit] >= window;
        CountSkipsPrefix(h, n, n - limit, t - window, t);
      } else {
        SpacingBoundsEveryInterval(h, n - 1, limit, window, t);
      }
    } else {
      CountSkipsPrefix(h, n, 0, t - window, t);
    }
  }

  // ---------------------------------------------------------------- pruning, on lists that stand for a history

  lemma {:induction false} KeepOfPrefix(a: seq<int>, b: seq<int>, n: nat, start: int)
    requires n <= |a|
    ensures KeepAfter(a + b, n, start) == KeepAfter(a, n, start)
  {
    if n != 0 { KeepOfPrefix(a, b, n - 1, start); }
  }

  lemma {:induction false} KeepAppend(a: seq<int>, x: int, start: int)
    ensures KeepAfter(a + [x], |a| + 1, start) == KeepAfter(a, |a|, start) + if x > start then [x] else []
  {
    KeepOfPrefix(a, [x], |a|, start);
  }

  lemma {:induction false} KeepUnfolds(ts: seq<int>, n: nat, start: int)
    requires n <= |ts|
    ensures n == 0 ==> KeepAfter(ts, n, start) == []
    ensures n > 0 && ts[n - 1] > start ==> KeepAfter(ts, n, start) == KeepAfter(ts, n - 1, start) + [ts[n - 1]]
    ensures n > 0 && ts[n - 1] <= start ==> KeepAfter(ts, n, start) == KeepAfter(ts, n - 1, start)
  {
  }

  /** Pruning twice is pruning at the later start. */
  lemma {:induction false} PruneTwice(ts: seq<int>, n: nat, before: int, start: int)
    requires n <= |ts| && before <= start
    ensures var r := KeepAfter(ts, n, before);
            KeepAfter(r, |r|, start) == KeepAfter(ts, n, start)
  {
    hide KeepAfter;
    KeepUnfolds(ts, n, before);
    KeepUnfolds(ts, n, start);
    if n == 0 {
      KeepUnfolds([], 0, start);
    } else {
      PruneTwice(ts, n - 1, before, start);
      KeepAppend(KeepAfter(ts, n - 1, before), ts[n - 1], start);
    }
  }

  /** What is recent is determined by the history and the start. */
  lemma {:induction false} RecentIsUnique(ts: seq<int>, ts': seq<int>, h: seq<int>, start: int)
    requires IsRecent(ts, h, start) && IsRecent(ts', h, start)
    ensures ts == ts'
  {
    RecentIsCounted(ts, h, start);
    RecentIsCounted(ts', h, start);
  }

  lemma {:induction false} PrunedHistoryIsRecent(h: seq<int>, start: int)
    requires Ascending(h)
    ensures IsRecent(KeepAfter(h, |h|, start), h, start)
  {
    PruningKeepsSuffix(h, |h|, start);
  }

  /** `ts` stands for the history: pruned at any start from `from` on, it leaves what is recent. */
  ghost predicate PrunesLike(ts: seq<int>, h: seq<int>, from: int) {
    forall start :: from <= start ==> PrunesLikeAt(ts, h, start)
  }

  ghost predicate PrunesLikeAt(ts: seq<int>, h: seq<int>, start: int) {
    IsRecent(KeepAfter(ts, |ts|, start), h, start)
  }

  lemma {:induction false} PruningStillStands(ts: seq<int>, h: seq<int>, from: int, start: int)
    requires PrunesLike(ts, h, from) && from <= start
    ensures PrunesLike(KeepAfter(ts, |ts|, start), h, start)
    ensures IsRecent(KeepAfter(ts, |ts|, start), h, start)
  {
    var r := KeepAfter(ts, |ts|, start);
    forall later | start <= later
      ensures PrunesLikeAt(r, h, later)
    {
      PruneTwice(ts, |ts|, start, later);
      assert PrunesLikeAt(ts, h, later);
    }
    assert PrunesLikeAt(ts, h, start);
  }

  lemma {:induction false} NothingStandsForThePast(h: seq<int>, from: int)
    requires forall i :: 0 <= i < |h| ==> h[i] <= from
    ensures PrunesLike([], h, from)
  {
  }

  lemma {:induction false} RecordingStillStands(ts: seq<int>, h: seq<int>, from: int, now: int)
    requires PrunesLike(ts, h, from)
    requires forall i :: 0 <= i < |h| ==> h[i] <= now
    ensures PrunesLike(ts + [now], h + [now], from)
  {
    forall start | from <= start
      ensures PrunesLikeAt(ts + [now], h + [now], start)
    {
      KeepAppend(ts, now, start);
      assert PrunesLikeAt(ts, h, start);
      var r := KeepAfter(ts, |ts|, start);
      if now <= start {
        RecentIsUnique(r, [], h, start);
      }
    }
  }
}
