/** What the rate limiter guarantees over whole runs: bounds, exact denials, and invisible cleanup. */
module RateLimiterResults {
  import opened Wrappers
  import opened OrderedMap
  import opened SlidingWindow
  import opened RateLimiter
  import opened RateLimiterRuns

  // ---------------------------------------------------------------- bounds

  /**
   Every interval (at - windowMs, at], at every time, holds at most the limit of the requests that a key
   was admitted since its bucket was last evicted for capacity.
   */
  lemma {:induction false} IntervalsAreBounded(tiers: Tiers, cap: int, es: seq<Event>, n: nat,
      t: RateLimitTier, identifier: string, at: int)
    requires Clocked(es) && n <= |es|
    ensures var h := History(tiers, cap, es, n, KeyFor(t, identifier));
            CountIn(h, |h|, at - tiers(t).windowMs, at) <= Max(0, tiers(t).maxRequests + tiers(t).burstAllowance)
  {
    hide History, WindowsAfter, KeyFor, BucketStands, CountIn;
    RunKeepsKey(tiers, cap, es, n, t, identifier);
    var h := History(tiers, cap, es, n, KeyFor(t, identifier));
    SpacingBoundsEveryInterval(h, |h|, Max(0, tiers(t).Limit()), tiers(t).windowMs, at);
  }

  /**
   With a positive window a bucket is sorted and holds exactly the admitted times inside the window before its last
   access.
   */
  lemma {:induction false} BucketShowsTheWindow(tiers: Tiers, cap: int, es: seq<Event>, n: nat,
      t: RateLimitTier, identifier: string)
    requires Clocked(es) && n <= |es| && 0 < tiers(t).windowMs
    requires Has(WindowsAfter(tiers, cap, es, n), KeyFor(t, identifier))
    ensures var h := History(tiers, cap, es, n, KeyFor(t, identifier));
            var b := Get(WindowsAfter(tiers, cap, es, n), KeyFor(t, identifier)).value;
            && b.timestamps == KeepAfter(h, |h|, b.lastAccess - tiers(t).windowMs)
            && Ascending(b.timestamps)
  {
    hide History, WindowsAfter, KeyFor, PrunesLike, KeepAfter;
    RunKeepsKey(tiers, cap, es, n, t, identifier);
    var h := History(tiers, cap, es, n, KeyFor(t, identifier));
    var b := Get(WindowsAfter(tiers, cap, es, n), KeyFor(t, identifier)).value;
    var start := b.lastAccess - tiers(t).windowMs;
    PrunedHistoryIsRecent(h, start);
    RecentIsUnique(b.timestamps, KeepAfter(h, |h|, start), h, start);
    RecentIsAscending(b.timestamps, h, start);
  }

  /**
   What a check reports is exact: it is admitted if and only if its key's admitted requests inside the window are
   below the limit, and the reported count and remainder are those of the window after the check.
   */
  lemma {:induction false} ReportIsExact(tiers: Tiers, cap: int, es: seq<Event>, i: nat)
    requires Clocked(es) && i < |es| && es[i].Check? && 0 < tiers(es[i].tier).windowMs
    ensures var conf, key := tiers(es[i].tier), KeyFor(es[i].tier, es[i].identifier);
            var before, after := History(tiers, cap, es, i, key), History(tiers, cap, es, i + 1, key);
            var r, start := ResultOf(tiers, cap, es, i), es[i].now - conf.windowMs;
            && (r.allowed <==> CountAfter(before, |before|, start) < conf.maxRequests + conf.burstAllowance)
            && r.currentRequests == CountAfter(after, |after|, start)
            && r.remainingRequests == Max(0, conf.maxRequests + conf.burstAllowance - r.currentRequests)
  {
    hide WindowsAfter, KeyFor, KeyInv, BucketStands, CheckStep, History, Ascending, Spaced, IsRecent;
    var conf, key, now := tiers(es[i].tier), KeyFor(es[i].tier, es[i].identifier), es[i].now;
    var before, start := History(tiers, cap, es, i, key), now - conf.windowMs;
    var kept := KeepAfter(before, |before|, start);
    RunKeepsKey(tiers, cap, es, i, es[i].tier, es[i].identifier);
    InvariantOrders(WindowsAfter(tiers, cap, es, i), before, key, conf, Clock(es, i));
    ResultIsLogAnswer(tiers, cap, es, i);
    PrunedHistoryIsRecent(before, start);
    RecentIsCounted(kept, before, start);
    HistoryAfterCheck(tiers, cap, es, i);
    CountAppend(before, now, start);
  }

  lemma InvariantOrders(w: Windows, h: seq<int>, key: string, conf: TierConfig, clock: int)
    requires KeyInv(w, h, key, conf, clock)
    ensures Ascending(h)
  {
  }

  lemma {:induction false} HistoryAfterCheck(tiers: Tiers, cap: int, es: seq<Event>, i: nat)
    requires i < |es| && es[i].Check?
    ensures var key := KeyFor(es[i].tier, es[i].identifier);
            History(tiers, cap, es, i + 1, key)
            == History(tiers, cap, es, i, key) + if ResultOf(tiers, cap, es, i).allowed then [es[i].now] else []
  {
    hide WindowsAfter, KeyFor, CheckStep, EvictionCount;
    EvictionSparesKey(cap, WindowsAfter(tiers, cap, es, i), es[i]);
    AdmittedMeansAllowed(tiers, cap, es, i, KeyFor(es[i].tier, es[i].identifier));
  }

  lemma {:induction false} CountAppend(h: seq<int>, x: int, start: int)
    ensures CountAfter(h + [x], |h| + 1, start) == CountAfter(h, |h|, start) + if x > start then 1 else 0
    ensures h + [] == h
  {
    CountOfPrefix(h, [x], |h|, start);
  }

  lemma {:induction false} CountOfPrefix(a: seq<int>, b: seq<int>, n: nat, start: int)
    requires n <= |a|
    ensures CountAfter(a + b, n, start) == CountAfter(a, n, start)
  {
    if n != 0 { CountOfPrefix(a, b, n - 1, start); }
  }

  /** The limiter never tracks more buckets than its capacity, or one when the capacity is not positive. */
  lemma {:induction false} TrackedBucketsAreBounded(tiers: Tiers, cap: int, es: seq<Event>, n: nat)
    requires n <= |es|
    ensures |WindowsAfter(tiers, cap, es, n)| <= Max(1, cap)
  {
    hide StepWindows;
    if n != 0 {
      TrackedBucketsAreBounded(tiers, cap, es, n - 1);
      StepKeepsSize(tiers, cap, WindowsAfter(tiers, cap, es, n - 1), es[n - 1]);
    }
  }

  lemma {:induction false} StepKeepsSize(tiers: Tiers, cap: int, w: Windows, e: Event)
    requires |w| <= Max(1, cap)
    ensures |StepWindows(tiers, cap, w, e)| <= Max(1, cap)
  {
    hide KeepAfter, KeyFor, Answer;
  }

  // ---------------------------------------------------------------- runs that never reach capacity

  /** Every check on a key without a bucket finds room. */
  ghost predicate NeverFull(tiers: Tiers, cap: int, es: seq<Event>, n: nat)
    requires n <= |es|
  {
    forall i :: 0 <= i < n && es[i].Check? ==> FindsRoom(WindowsAfter(tiers, cap, es, i), cap, es[i])
  }

  lemma {:induction false} NeverFullBefore(tiers: Tiers, cap: int, es: seq<Event>, m: nat, n: nat)
    requires m <= n <= |es| && NeverFull(tiers, cap, es, n)
    ensures NeverFull(tiers, cap, es, m)
  {
    hide FindsRoom, WindowsAfter;
  }

  predicate FindsRoom(w: Windows, cap: int, e: Event)
    requires e.Check?
  {
    Has(w, KeyFor(e.tier, e.identifier)) || |w| < cap
  }

  /** The keys that the first `n` events check. */
  function KeysUsed(es: seq<Event>, n: nat): set<string>
    requires n <= |es|
  {
    if n == 0 then {}
    else if es[n - 1].Check? then KeysUsed(es, n - 1) + {KeyFor(es[n - 1].tier, es[n - 1].identifier)}
    else KeysUsed(es, n - 1)
  }

  lemma {:induction false} KeysUsedGrow(es: seq<Event>, m: nat, n: nat)
    requires m <= n <= |es|
    ensures KeysUsed(es, m) <= KeysUsed(es, n)
  {
    if m < n { KeysUsedGrow(es, m, n - 1); }
  }

  lemma {:induction false} WindowsUnfold(tiers: Tiers, cap: int, es: seq<Event>, n: nat)
    requires n <= |es|
    ensures n == 0 ==> WindowsAfter(tiers, cap, es, n) == [] && Distinct(WindowsAfter(tiers, cap, es, n))
    ensures n != 0 ==>
              && WindowsAfter(tiers, cap, es, n)
                  == StepWindows(tiers, cap, WindowsAfter(tiers, cap, es, n - 1), es[n - 1])
              && KeysUsed(es, n - 1) <= KeysUsed(es, n)
              && (forall key :: es[n - 1].Is(key) ==> key in KeysUsed(es, n))
  {
    hide StepWindows, KeyFor;
  }

  lemma {:induction false} BucketsAreUsedKeys(tiers: Tiers, cap: int, es: seq<Event>, n: nat)
    requires n <= |es|
    ensures Distinct(WindowsAfter(tiers, cap, es, n))
    ensures forall b :: b in WindowsAfter(tiers, cap, es, n) ==> b.key in KeysUsed(es, n)
  {
    hide *;
    WindowsUnfold(tiers, cap, es, n);
    if n != 0 {
      BucketsAreUsedKeys(tiers, cap, es, n - 1);
      StepAddsOwnKey(tiers, cap, WindowsAfter(tiers, cap, es, n - 1), es[n - 1]);
    }
  }

  lemma {:induction false} StepAddsOwnKey(tiers: Tiers, cap: int, w: Windows, e: Event)
    requires Distinct(w)
    ensures Distinct(StepWindows(tiers, cap, w, e))
    ensures forall b :: b in StepWindows(tiers, cap, w, e) ==> e.Is(b.key) || exists b' :: b' in w && b'.key == b.key
  {
    StepKeepsDistinct(tiers, cap, w, e);
    var w' := StepWindows(tiers, cap, w, e);
    forall b | b in w' && !e.Is(b.key)
      ensures b in w
    {
      GetIffMember(w', b.key, b.val);
      if e.Check? {
        GetAfterCheck(tiers, cap, w, e, b.key);
      } else {
        GetAfterClean(tiers, w, e.now, b.key);
      }
      GetIffMember(w, b.key, b.val);
    }
  }

  /** Distinct keys, all from a set, are no more than the set has, and fewer when one is missing. */
  lemma {:induction false} DistinctKeysFit<V>(w: seq<Entry<string, V>>, keys: set<string>, missing: string)
    requires Distinct(w) && missing in keys
    requires forall i :: 0 <= i < |w| ==> w[i].key in keys && w[i].key != missing
    ensures |w| < |keys|
  {
    if w == [] {
      assert keys != {};
    } else {
      var k := w[|w| - 1].key;
      DistinctKeysFit(w[..|w| - 1], keys - {k}, missing);
    }
  }

  /** A run that uses no more keys than the capacity never reaches it. */
  lemma {:induction false} FewKeysNeverFull(tiers: Tiers, cap: int, es: seq<Event>)
    requires |KeysUsed(es, |es|)| <= cap
    ensures NeverFull(tiers, cap, es, |es|)
  {
    forall i | 0 <= i < |es| && es[i].Check?
      ensures FindsRoom(WindowsAfter(tiers, cap, es, i), cap, es[i])
    {
      var w := WindowsAfter(tiers, cap, es, i);
      var key := KeyFor(es[i].tier, es[i].identifier);
      BucketsAreUsedKeys(tiers, cap, es, i);
      KeysUsedGrow(es, i, |es|);
      KeysUsedGrow(es, i + 1, |es|);
      HasIffMember(w, key);
      if !Has(w, key) {
        DistinctKeysFit(w, KeysUsed(es, |es|), key);
      }
    }
  }

  // ---------------------------------------------------------------- the sliding log

  /** The reference: admit a check when fewer than the limit of its key's admitted times are inside the window. */
  function SlidingLog(tiers: Tiers, es: seq<Event>, n: nat, key: string): seq<int>
    requires n <= |es|
  {
    if n == 0 then []
    else
      var log := SlidingLog(tiers, es, n - 1, key);
      if es[n - 1].Is(key) && LogAnswer(tiers, log, es[n - 1]).allowed then log + [es[n - 1].now] else log
  }

  function LogAnswer(tiers: Tiers, log: seq<int>, e: Event): RateLimitResult
    requires e.Check?
  {
    Answer(tiers(e.tier), e.tier, KeepAfter(log, |log|, e.now - tiers(e.tier).windowMs), e.now)
  }

  /** In a run, a check answers what the log of its key's history says. */
  lemma {:induction false} ResultIsLogAnswer(tiers: Tiers, cap: int, es: seq<Event>, i: nat)
    requires Clocked(es) && i < |es| && es[i].Check?
    ensures ResultOf(tiers, cap, es, i)
            == LogAnswer(tiers, History(tiers, cap, es, i, KeyFor(es[i].tier, es[i].identifier)), es[i])
  {
    hide History, WindowsAfter, KeyFor, KeyInv, Distinct, CheckStep, Answer, KeepAfter;
    RunKeepsKey(tiers, cap, es, i, es[i].tier, es[i].identifier);
    assert Clock(es, i) <= es[i].now;
    CheckKeepsOwnKey(tiers, cap, WindowsAfter(tiers, cap, es, i),
                     History(tiers, cap, es, i, KeyFor(es[i].tier, es[i].identifier)), es[i], Clock(es, i));
  }

  /** In a run that never reaches capacity, the history of a key is its sliding log. */
  lemma {:induction false} HistoryIsSlidingLog(tiers: Tiers, cap: int, es: seq<Event>, n: nat,
      t: RateLimitTier, identifier: string)
    requires Clocked(es) && n <= |es| && NeverFull(tiers, cap, es, n)
    ensures History(tiers, cap, es, n, KeyFor(t, identifier)) == SlidingLog(tiers, es, n, KeyFor(t, identifier))
  {
    hide KeyFor, CheckStep, LogAnswer, StepWindows;
    if n != 0 {
      HistoryIsSlidingLog(tiers, cap, es, n - 1, t, identifier);
      var e, w := es[n - 1], WindowsAfter(tiers, cap, es, n - 1);
      if e.Check? {
        assert FindsRoom(w, cap, e);
        RoomEvictsNothing(cap, w, e, KeyFor(t, identifier));
        ResultIsLogAnswer(tiers, cap, es, n - 1);
      }
    }
  }

  lemma {:induction false} RoomEvictsNothing(cap: int, w: Windows, e: Event, key: string)
    requires e.Check? && FindsRoom(w, cap, e)
    ensures !Evicts(cap, w, e, key)
  {
  }

  /** The checks among the first `n` events. */
  function Checks(es: seq<Event>, n: nat): seq<Event>
    requires n <= |es|
  {
    if n == 0 then []
    else if es[n - 1].Check? then Checks(es, n - 1) + [es[n - 1]]
    else Checks(es, n - 1)
  }

  /** The answers the limiter gives to them, in order. */
  function Answers(tiers: Tiers, cap: int, es: seq<Event>, n: nat): seq<RateLimitResult>
    requires n <= |es|
  {
    if n == 0 then []
    else if es[n - 1].Check? then Answers(tiers, cap, es, n - 1) + [ResultOf(tiers, cap, es, n - 1)]
    else Answers(tiers, cap, es, n - 1)
  }

  function LogAnswers(tiers: Tiers, cs: seq<Event>, n: nat): seq<RateLimitResult>
    requires n <= |cs| && forall i :: 0 <= i < |cs| ==> cs[i].Check?
  {
    if n == 0 then []
    else
      var e := cs[n - 1];
      LogAnswers(tiers, cs, n - 1) + [LogAnswer(tiers, SlidingLog(tiers, cs, n - 1, KeyFor(e.tier, e.identifier)), e)]
  }

  lemma {:induction false} ChecksAreChecks(es: seq<Event>, n: nat)
    requires n <= |es|
    ensures forall i :: 0 <= i < |Checks(es, n)| ==> Checks(es, n)[i].Check?
  {
    if n != 0 { ChecksAreChecks(es, n - 1); }
  }

  lemma {:induction false} LogOfPrefix(tiers: Tiers, a: seq<Event>, b: seq<Event>, n: nat, key: string)
    requires n <= |a|
    ensures SlidingLog(tiers, a + b, n, key) == SlidingLog(tiers, a, n, key)
  {
    hide LogAnswer, KeyFor;
    if n != 0 { LogOfPrefix(tiers, a, b, n - 1, key); }
  }

  lemma {:induction false} LogAnswersOfPrefix(tiers: Tiers, a: seq<Event>, b: seq<Event>, n: nat)
    requires n <= |a| && forall i :: 0 <= i < |a + b| ==> (a + b)[i].Check?
    requires forall i :: 0 <= i < |a| ==> a[i].Check?
    ensures LogAnswers(tiers, a + b, n) == LogAnswers(tiers, a, n)
  {
    hide LogAnswer, KeyFor, SlidingLog;
    if n != 0 {
      LogAnswersOfPrefix(tiers, a, b, n - 1);
      LogOfPrefix(tiers, a, b, n - 1, KeyFor(a[n - 1].tier, a[n - 1].identifier));
      assert (a + b)[n - 1] == a[n - 1];
    }
  }

  /** The sliding log does not see cleanups. */
  lemma {:induction false} LogIgnoresCleanups(tiers: Tiers, es: seq<Event>, n: nat, key: string)
    requires n <= |es|
    ensures SlidingLog(tiers, es, n, key) == SlidingLog(tiers, Checks(es, n), |Checks(es, n)|, key)
  {
    hide LogAnswer, KeyFor;
    if n != 0 {
      LogIgnoresCleanups(tiers, es, n - 1, key);
      var cs := Checks(es, n - 1);
      if es[n - 1].Check? {
        LogOfPrefix(tiers, cs, [es[n - 1]], |cs|, key);
      }
    }
  }

  /** In a run that never reaches capacity, a check answers what the log of the checks before it says. */
  lemma {:induction false} AnswerFollowsTheLog(tiers: Tiers, cap: int, es: seq<Event>, i: nat)
    requires Clocked(es) && i < |es| && es[i].Check? && NeverFull(tiers, cap, es, i)
    ensures var key := KeyFor(es[i].tier, es[i].identifier);
            ResultOf(tiers, cap, es, i) == LogAnswer(tiers, SlidingLog(tiers, Checks(es, i), |Checks(es, i)|, key),
                es[i])
  {
    hide LogAnswer, KeyFor, SlidingLog, ResultOf, NeverFull, History, Checks;
    ResultIsLogAnswer(tiers, cap, es, i);
    HistoryIsSlidingLog(tiers, cap, es, i, es[i].tier, es[i].identifier);
    LogIgnoresCleanups(tiers, es, i, KeyFor(es[i].tier, es[i].identifier));
  }

  lemma {:induction false} LogAnswersAppend(tiers: Tiers, cs: seq<Event>, e: Event)
    requires e.Check? && forall i :: 0 <= i < |cs| ==> cs[i].Check?
    ensures LogAnswers(tiers, cs + [e], |cs| + 1)
            == LogAnswers(tiers, cs, |cs|) + [LogAnswer(tiers,
                SlidingLog(tiers, cs, |cs|, KeyFor(e.tier, e.identifier)), e)]
  {
    hide LogAnswer, KeyFor, SlidingLog;
    LogOfPrefix(tiers, cs, [e], |cs|, KeyFor(e.tier, e.identifier));
    LogAnswersOfPrefix(tiers, cs, [e], |cs|);
  }

  lemma {:induction false} AnswersUnfold(tiers: Tiers, cap: int, es: seq<Event>, n: nat)
    requires n <= |es|
    ensures n == 0 ==> Answers(tiers, cap, es, n) == LogAnswers(tiers, [], 0) && Checks(es, n) == []
    ensures n != 0 && es[n - 1].Check? ==>
              && Checks(es, n) == Checks(es, n - 1) + [es[n - 1]]
              && Answers(tiers, cap, es, n) == Answers(tiers, cap, es, n - 1) + [ResultOf(tiers, cap, es, n - 1)]
    ensures n != 0 && !es[n - 1].Check? ==>
              Checks(es, n) == Checks(es, n - 1) && Answers(tiers, cap, es, n) == Answers(tiers, cap, es, n - 1)
  {
    hide ResultOf, LogAnswer, SlidingLog;
  }

  /** In a run that never reaches capacity, the answers are a function of the checks alone. */
  lemma {:induction false} AnswersFollowTheLog(tiers: Tiers, cap: int, es: seq<Event>, n: nat)
    requires Clocked(es) && n <= |es| && NeverFull(tiers, cap, es, n)
    ensures forall i :: 0 <= i < |Checks(es, n)| ==> Checks(es, n)[i].Check?
    ensures Answers(tiers, cap, es, n) == LogAnswers(tiers, Checks(es, n), |Checks(es, n)|)
  {
    hide *;
    ChecksAreChecks(es, n);
    AnswersUnfold(tiers, cap, es, n);
    if n != 0 {
      var cs, e := Checks(es, n - 1), es[n - 1];
      NeverFullBefore(tiers, cap, es, n - 1, n);
      AnswersFollowTheLog(tiers, cap, es, n - 1);
      if e.Check? {
        AnswerFollowsTheLog(tiers, cap, es, n - 1);
        LogAnswersAppend(tiers, cs, e);
      }
    }
  }

  /**
   Cleanup is invisible. Two runs with the same checks, and cleanups inserted anywhere in either, give
   the same answers in full, when the checks use no more keys than the capacity.
   */
  lemma {:induction false} CleanupIsInvisibleWithFewKeys(tiers: Tiers, cap: int, es: seq<Event>, fs: seq<Event>)
    requires Clocked(es) && Clocked(fs)
    requires Checks(es, |es|) == Checks(fs, |fs|)
    requires |KeysUsed(es, |es|)| <= cap
    ensures Answers(tiers, cap, es, |es|) == Answers(tiers, cap, fs, |fs|)
  {
    hide Answers, LogAnswers, NeverFull;
    KeysAreOfChecks(es, |es|);
    KeysAreOfChecks(fs, |fs|);
    FewKeysNeverFull(tiers, cap, es);
    FewKeysNeverFull(tiers, cap, fs);
    AnswersFollowTheLog(tiers, cap, es, |es|);
    AnswersFollowTheLog(tiers, cap, fs, |fs|);
  }

  lemma {:induction false} KeysOfPrefix(a: seq<Event>, b: seq<Event>, n: nat)
    requires n <= |a|
    ensures KeysUsed(a + b, n) == KeysUsed(a, n)
  {
    hide KeyFor;
    if n != 0 { KeysOfPrefix(a, b, n - 1); }
  }

  lemma {:induction false} KeysAreOfChecks(es: seq<Event>, n: nat)
    requires n <= |es|
    ensures KeysUsed(es, n) == KeysUsed(Checks(es, n), |Checks(es, n)|)
  {
    hide KeyFor;
    if n != 0 {
      KeysAreOfChecks(es, n - 1);
      if es[n - 1].Check? { KeysOfPrefix(Checks(es, n - 1), [es[n - 1]], |Checks(es, n - 1)|); }
    }
  }

  // ---------------------------------------------------------------- denials are exact

  /** The reset time of a denial falls in the future, and the retry hint reaches it with under a second to spare. */
  lemma {:induction false} RetryHintIsTight(reset: int, now: int)
    requires now < reset
    ensures reset <= now + 1000 * RetryAfter(reset, now) < reset + 1000
  {
  }

  /**
   When a denial was due to a full window, a later check on the same log is admitted exactly from the reset time on.
   */
  lemma {:induction false} DenialOnLogIsExact(tiers: Tiers, h: seq<int>, e: Event, e': Event)
    requires e.Check? && e'.Check? && e'.tier == e.tier && e.now <= e'.now
    requires HistoryFits(h, tiers(e.tier), e.now) && 1 <= tiers(e.tier).Limit()
    requires forall i :: 0 <= i < |h| ==> 0 < h[i]
    requires !LogAnswer(tiers, h, e).allowed
    ensures var reset := LogAnswer(tiers, h, e).resetTimeMs;
            && e.now < reset
            && (LogAnswer(tiers, h, e').allowed <==> reset <= e'.now)
  {
    hide KeepAfter, Ascending, Spaced;
    var conf := tiers(e.tier);
    var start, start' := e.now - conf.windowMs, e'.now - conf.windowMs;
    var kept, kept' := KeepAfter(h, |h|, start), KeepAfter(h, |h|, start');
    PrunedHistoryIsRecent(h, start);
    PrunedHistoryIsRecent(h, start');
    SpacingBoundsRecent(kept, h, conf.Limit(), conf.windowMs, e.now);
    SpacingBoundsRecent(kept', h, conf.Limit(), conf.windowMs, e'.now);
    assert kept[0] == h[|h| - conf.Limit()];
    RecentSplits(kept', h, start');
  }

  /** Between `from` and `to` no event evicts the key, and its checks all come before `reset`. */
  ghost predicate OnlyEarlyRetries(tiers: Tiers, cap: int, es: seq<Event>, from: nat, to: nat, key: string, reset: int)
    requires to <= |es|
  {
    forall i :: from <= i < to ==>
      && !Evicts(cap, WindowsAfter(tiers, cap, es, i), es[i], key)
      && (es[i].Is(key) ==> es[i].now < reset)
  }

  /** Early retries are all denied, so they leave the history as the denial found it. */
  lemma {:induction false} EarlyRetriesAreDenied(tiers: Tiers, cap: int, es: seq<Event>, a: nat, n: nat)
    requires Clocked(es) && a < n <= |es| && es[a].Check?
    requires 1 <= tiers(es[a].tier).Limit() && forall i :: 0 <= i < |es| ==> 0 < es[i].now
    requires !ResultOf(tiers, cap, es, a).allowed
    requires OnlyEarlyRetries(tiers, cap, es, a, n, KeyFor(es[a].tier, es[a].identifier),
             ResultOf(tiers, cap, es, a).resetTimeMs)
    ensures History(tiers, cap, es, n, KeyFor(es[a].tier, es[a].identifier))
            == History(tiers, cap, es, a, KeyFor(es[a].tier, es[a].identifier))
  {
    hide KeyFor, WindowsAfter, ResultOf, Evicts, Admits;
    var key := KeyFor(es[a].tier, es[a].identifier);
    var e, w := es[n - 1], WindowsAfter(tiers, cap, es, n - 1);
    assert !Evicts(cap, w, e, key);
    if a + 1 < n {
      EarlyRetriesAreDenied(tiers, cap, es, a, n - 1);
      if e.Is(key) {
        KeysAreFaithful(es[a].tier, es[a].identifier, e.tier, e.identifier);
        RetryFollowsDenial(tiers, cap, es, a, n - 1);
      }
    }
    AdmittedMeansAllowed(tiers, cap, es, n - 1, key);
  }

  lemma {:induction false} AdmittedMeansAllowed(tiers: Tiers, cap: int, es: seq<Event>, i: nat, key: string)
    requires i < |es|
    ensures Admits(tiers, cap, WindowsAfter(tiers, cap, es, i), es[i], key) <==>
            es[i].Is(key) && ResultOf(tiers, cap, es, i).allowed
  {
    hide CheckStep, WindowsAfter;
  }

  lemma {:induction false} HistoryIsPositive(tiers: Tiers, cap: int, es: seq<Event>, n: nat, key: string)
    requires n <= |es| && forall i :: 0 <= i < |es| ==> 0 < es[i].now
    ensures forall i :: 0 <= i < |History(tiers, cap, es, n, key)| ==> 0 < History(tiers, cap, es, n, key)[i]
  {
    hide Evicts, Admits, StepWindows;
    if n != 0 { HistoryIsPositive(tiers, cap, es, n - 1, key); }
  }

  lemma {:induction false} RetryFollowsDenial(tiers: Tiers, cap: int, es: seq<Event>, a: nat, b: nat)
    requires Clocked(es) && a < b < |es| && es[a].Check? && es[b].Check?
    requires es[b].tier == es[a].tier && es[b].identifier == es[a].identifier
    requires 1 <= tiers(es[a].tier).Limit() && forall i :: 0 <= i < |es| ==> 0 < es[i].now
    requires !ResultOf(tiers, cap, es, a).allowed
    requires History(tiers, cap, es, b, KeyFor(es[a].tier, es[a].identifier))
             == History(tiers, cap, es, a, KeyFor(es[a].tier, es[a].identifier))
    ensures var reset := ResultOf(tiers, cap, es, a).resetTimeMs;
            && es[a].now < reset
            && (ResultOf(tiers, cap, es, b).allowed <==> reset <= es[b].now)
  {
    hide KeyFor, LogAnswer, History, HistoryFits, ResultOf, WindowsAfter;
    ResultIsLogAnswer(tiers, cap, es, a);
    ResultIsLogAnswer(tiers, cap, es, b);
    HistoryAtCheck(tiers, cap, es, a);
    DenialOnLogIsExact(tiers, History(tiers, cap, es, a, KeyFor(es[a].tier, es[a].identifier)), es[a], es[b]);
  }

  lemma {:induction false} HistoryAtCheck(tiers: Tiers, cap: int, es: seq<Event>, i: nat)
    requires Clocked(es) && i < |es| && es[i].Check? && forall j :: 0 <= j < |es| ==> 0 < es[j].now
    ensures var h := History(tiers, cap, es, i, KeyFor(es[i].tier, es[i].identifier));
            HistoryFits(h, tiers(es[i].tier), es[i].now) && forall j :: 0 <= j < |h| ==> 0 < h[j]
  {
    hide KeyFor, History, HistoryFits, BucketStands, WindowsAfter;
    var h := History(tiers, cap, es, i, KeyFor(es[i].tier, es[i].identifier));
    RunKeepsKey(tiers, cap, es, i, es[i].tier, es[i].identifier);
    FitsLater(h, tiers(es[i].tier), Clock(es, i), es[i].now);
    HistoryIsPositive(tiers, cap, es, i, KeyFor(es[i].tier, es[i].identifier));
  }

  lemma FitsLater(h: seq<int>, conf: TierConfig, clock: int, now: int)
    requires HistoryFits(h, conf, clock) && clock <= now
    ensures HistoryFits(h, conf, now)
  {
  }

  /**
   A denial is exact. After a denied check, and whatever other checks and cleanups follow that do not
   evict the key, every retry before the reset time is denied and the first one at or after it is
   admitted; the retry hint reaches the reset time with under a second to spare.
   */
  lemma {:induction false} DenialIsExact(tiers: Tiers, cap: int, es: seq<Event>, a: nat, b: nat)
    requires Clocked(es) && a < b < |es| && es[a].Check? && es[b].Check?
    requires es[b].tier == es[a].tier && es[b].identifier == es[a].identifier
    requires 1 <= tiers(es[a].tier).Limit() && forall i :: 0 <= i < |es| ==> 0 < es[i].now
    requires !ResultOf(tiers, cap, es, a).allowed
    requires OnlyEarlyRetries(tiers, cap, es, a, b, KeyFor(es[a].tier, es[a].identifier),
             ResultOf(tiers, cap, es, a).resetTimeMs)
    ensures var denial := ResultOf(tiers, cap, es, a);
            && (ResultOf(tiers, cap, es, b).allowed <==> denial.resetTimeMs <= es[b].now)
            && denial.resetTimeMs <= es[a].now + 1000 * denial.retryAfterSeconds < denial.resetTimeMs + 1000
  {
    hide History, WindowsAfter, KeyFor, OnlyEarlyRetries, KeepAfter;
    EarlyRetriesAreDenied(tiers, cap, es, a, b);
    RetryFollowsDenial(tiers, cap, es, a, b);
    RetryHintIsTight(ResultOf(tiers, cap, es, a).resetTimeMs, es[a].now);
  }

  /** A run as `DenialIsExact` describes it: the second check comes too early, and the third at the reset time. */
  lemma {:induction false} DenialsHappen()
    ensures var tiers: Tiers := _ => TierConfig(1, 10, 0);
            var es := [Check("a", SENSITIVE, 1), Check("a", SENSITIVE, 5), Check("a", SENSITIVE, 11)];
            && Clocked(es) && !ResultOf(tiers, 2, es, 1).allowed && ResultOf(tiers, 2, es, 1).resetTimeMs == 11
            && OnlyEarlyRetries(tiers, 2, es, 1, 2, KeyFor(SENSITIVE, "a"), 11)
  {
    hide KeyFor, OnlyEarlyRetries;
    var tiers: Tiers := _ => TierConfig(1, 10, 0);
    var es := [Check("a", SENSITIVE, 1), Check("a", SENSITIVE, 5), Check("a", SENSITIVE, 11)];
    var key := KeyFor(SENSITIVE, "a");
    var w := [Entry(key, BucketView([1], 1))];
    FirstCheckOpensBucket(tiers, "a", 1);
    assert WindowsAfter(tiers, 2, es, 0) == [];
    assert WindowsAfter(tiers, 2, es, 1) == w;
    assert KeepAfter([1], 1, -5) == [1];
    assert Get(w, key) == Some(BucketView([1], 1));
    EarlyRetry(tiers, es, key);
  }

  lemma {:induction false} FirstCheckOpensBucket(tiers: Tiers, identifier: string, now: int)
    requires 1 <= tiers(SENSITIVE).Limit()
    ensures CheckStep(tiers, 2, [], identifier, SENSITIVE, now).windows
            == [Entry(KeyFor(SENSITIVE, identifier), BucketView([now], now))]
  {
    hide KeyFor;
    var key := KeyFor(SENSITIVE, identifier);
    assert Get<string, BucketView>([], key) == None;
    assert EvictIfFull([], 2) == [];
    assert KeepAfter([], 0, now - tiers(SENSITIVE).windowMs) + [now] == [now];
    assert Put([], key, BucketView([now], now)) == [Entry(key, BucketView([now], now))];
  }

  lemma {:induction false} EarlyRetry(tiers: Tiers, es: seq<Event>, key: string)
    requires |es| == 3 && es[1].Check? && KeyFor(es[1].tier, es[1].identifier) == key && es[1].now < 11
    ensures OnlyEarlyRetries(tiers, 2, es, 1, 2, key, 11)
  {
    EvictionSparesKey(2, WindowsAfter(tiers, 2, es, 1), es[1]);
  }
}
