/**
 Cleanups inserted into a run that never reaches capacity change no answer: the run with more cleanups holds
 no more buckets, so it never reaches capacity either.
 */
module RateLimiterCleanup {
  import opened Wrappers
  import opened OrderedMap
  import SlidingWindow
  import opened RateLimiter
  import opened RateLimiterRuns
  import opened RateLimiterResults

  /** The first `m` events of `fs` are the first `n` of `es` with cleanups inserted. */
  predicate Inserts(es: seq<Event>, n: nat, fs: seq<Event>, m: nat)
    requires n <= |es| && m <= |fs|
    decreases n + m
  {
    if m == 0 then n == 0
    else
      || (fs[m - 1].Clean? && Inserts(es, n, fs, m - 1))
      || (n > 0 && es[n - 1] == fs[m - 1] && Inserts(es, n - 1, fs, m - 1))
  }

  lemma {:induction false} InsertingKeepsChecks(es: seq<Event>, n: nat, fs: seq<Event>, m: nat)
    requires n <= |es| && m <= |fs| && Inserts(es, n, fs, m)
    ensures Checks(es, n) == Checks(fs, m)
    decreases n + m
  {
    if m != 0 {
      if fs[m - 1].Clean? && Inserts(es, n, fs, m - 1) {
        InsertingKeepsChecks(es, n, fs, m - 1);
      } else {
        InsertingKeepsChecks(es, n - 1, fs, m - 1);
      }
    }
  }

  // ---------------------------------------------------------------- fewer buckets

  /** The other map has a bucket for the key, last accessed at the same time. */
  predicate HasCounterpart(w': Windows, w: Windows, key: string) {
    Get(w', key).Some? ==> Get(w, key).Some? && Get(w, key).value.lastAccess == Get(w', key).value.lastAccess
  }

  /** Every bucket of the one map has a counterpart in the other. */
  ghost predicate Covered(w': Windows, w: Windows) {
    Distinct(w') && Distinct(w) && forall key :: HasCounterpart(w', w, key)
  }

  function KeysOf(w: Windows, n: nat): set<string>
    requires n <= |w|
  {
    if n == 0 then {} else KeysOf(w, n - 1) + {w[n - 1].key}
  }

  lemma {:induction false} KeyIsOf(w: Windows, n: nat, i: nat)
    requires i < n <= |w|
    ensures w[i].key in KeysOf(w, n)
  {
    if i < n - 1 { KeyIsOf(w, n - 1, i); }
  }

  lemma {:induction false} LaterKeyIsNew(w: Windows, n: nat, i: nat)
    requires Distinct(w) && n <= i < |w|
    ensures w[i].key !in KeysOf(w, n)
  {
    if n != 0 { LaterKeyIsNew(w, n - 1, i); }
  }

  lemma {:induction false} KeysAreAsMany(w: Windows, n: nat)
    requires Distinct(w) && n <= |w|
    ensures |KeysOf(w, n)| == n
  {
    hide Distinct;
    if n != 0 {
      KeysAreAsMany(w, n - 1);
      LaterKeyIsNew(w, n - 1, n - 1);
    }
  }

  lemma {:induction false} DistinctKeysWithin(w: Windows, n: nat, keys: set<string>)
    requires Distinct(w) && n <= |w| && forall i :: 0 <= i < n ==> w[i].key in keys
    ensures n <= |keys|
  {
    if n != 0 { DistinctKeysWithin(w, n - 1, keys - {w[n - 1].key}); }
  }

  /** A covered map has no more buckets, and fewer when a key is missing from it. */
  lemma {:induction false} CoveredIsSmaller(w': Windows, w: Windows, key: string)
    requires Covered(w', w)
    ensures |w'| <= |w|
    ensures Has(w, key) && !Has(w', key) ==> |w'| < |w|
  {
    hide IndexOf;
    var keys := KeysOf(w, |w|);
    KeysAreAsMany(w, |w|);
    forall i | 0 <= i < |w'|
      ensures w'[i].key in keys
    {
      var k := w'[i].key;
      GetIffMember(w', k, w'[i].val);
      assert HasCounterpart(w', w, k);
      HasIffMember(w, k);
      var j :| 0 <= j < |w| && w[j].key == k;
      KeyIsOf(w, |w|, j);
    }
    DistinctKeysWithin(w', |w'|, keys);
    if Has(w, key) && !Has(w', key) {
      HasIffMember(w, key);
      HasIffMember(w', key);
      var j :| 0 <= j < |w| && w[j].key == key;
      KeyIsOf(w, |w|, j);
      DistinctKeysFit(w', keys, key);
    }
  }

  // ---------------------------------------------------------------- one event

  /** An extra cleanup on the covered side keeps it covered. */
  lemma {:induction false} ExtraCleaningKeepsCovered(tiers: Tiers, w': Windows, w: Windows, now: int)
    requires Covered(w', w)
    ensures Covered(CleanStep(tiers, w', |w'|, now), w)
  {
    hide CleanStep, Distinct, Get, IdleLimit;
    GetAfterClean(tiers, w', now, "");
    forall key
      ensures HasCounterpart(CleanStep(tiers, w', |w'|, now), w, key)
    {
      assert HasCounterpart(w', w, key);
      GetAfterClean(tiers, w', now, key);
    }
  }

  /** A cleanup on both sides drops a bucket from the covered side when it drops its counterpart. */
  lemma {:induction false} CleaningKeepsCovered(tiers: Tiers, w': Windows, w: Windows, now: int)
    requires Covered(w', w)
    ensures Covered(CleanStep(tiers, w', |w'|, now), CleanStep(tiers, w, |w|, now))
  {
    hide CleanStep, Distinct, Get, IdleLimit;
    GetAfterClean(tiers, w', now, "");
    GetAfterClean(tiers, w, now, "");
    forall key
      ensures HasCounterpart(CleanStep(tiers, w', |w'|, now), CleanStep(tiers, w, |w|, now), key)
    {
      assert HasCounterpart(w', w, key);
      GetAfterClean(tiers, w', now, key);
      GetAfterClean(tiers, w, now, key);
    }
  }

  /** A check that finds room on the covering side finds room on the covered one, and keeps it covered. */
  lemma {:induction false} CheckingKeepsCovered(tiers: Tiers, cap: int, w': Windows, w: Windows, e: Event)
    requires Covered(w', w) && e.Check? && FindsRoom(w, cap, e) && |w| <= Max(0, cap)
    ensures FindsRoom(w', cap, e) && Covered(StepWindows(tiers, cap, w', e), StepWindows(tiers, cap, w, e))
    ensures |StepWindows(tiers, cap, w, e)| <= Max(0, cap)
  {
    hide StepWindows, Distinct, Get, Has, Settled, KeyFor;
    CoveredIsSmaller(w', w, KeyFor(e.tier, e.identifier));
    RoomOnNonEmpty(w, KeyFor(e.tier, e.identifier));
    StepKeepsDistinct(tiers, cap, w', e);
    StepKeepsDistinct(tiers, cap, w, e);
    RoomKeepsSize(tiers, cap, w, e);
    forall key
      ensures HasCounterpart(StepWindows(tiers, cap, w', e), StepWindows(tiers, cap, w, e), key)
    {
      assert HasCounterpart(w', w, key);
      GetAfterCheck(tiers, cap, w', e, key);
      GetAfterCheck(tiers, cap, w, e, key);
      RoomEvictsNothing(cap, w', e, key);
      RoomEvictsNothing(cap, w, e, key);
      SettledNow(tiers, w', e);
      SettledNow(tiers, w, e);
    }
  }

  lemma RoomOnNonEmpty(w: Windows, key: string)
    ensures Has(w, key) ==> |w| > 0
  {
  }

  lemma SettledNow(tiers: Tiers, w: Windows, e: Event)
    requires e.Check?
    ensures Settled(tiers, w, e).lastAccess == e.now
  {
  }

  lemma {:induction false} RoomKeepsSize(tiers: Tiers, cap: int, w: Windows, e: Event)
    requires e.Check? && FindsRoom(w, cap, e) && |w| <= Max(0, cap)
    ensures |StepWindows(tiers, cap, w, e)| <= Max(0, cap)
  {
    hide SlidingWindow.KeepAfter, KeyFor, Answer, Timestamps;
  }

  // ---------------------------------------------------------------- whole runs

  /** Inserting cleanups keeps a run from reaching capacity, and its buckets covered. */
  lemma {:induction false} InsertingKeepsRoom(tiers: Tiers, cap: int, es: seq<Event>, n: nat, fs: seq<Event>, m: nat)
    requires n <= |es| && m <= |fs| && Inserts(es, n, fs, m) && NeverFull(tiers, cap, es, n)
    ensures NeverFull(tiers, cap, fs, m)
    ensures Covered(WindowsAfter(tiers, cap, fs, m), WindowsAfter(tiers, cap, es, n))
    ensures |WindowsAfter(tiers, cap, es, n)| <= Max(0, cap)
    decreases n + m
  {
    hide FindsRoom, Covered, CleanStep, CheckStep, KeyFor;
    if m == 0 {
      NothingIsCovered(tiers, cap, es, fs);
    } else if fs[m - 1].Clean? && Inserts(es, n, fs, m - 1) {
      InsertingKeepsRoom(tiers, cap, es, n, fs, m - 1);
      ExtraCleaningKeepsCovered(tiers, WindowsAfter(tiers, cap, fs, m - 1), WindowsAfter(tiers, cap, es, n),
          fs[m - 1].now);
    } else {
      var e, w', w := es[n - 1], WindowsAfter(tiers, cap, fs, m - 1), WindowsAfter(tiers, cap, es, n - 1);
      NeverFullBefore(tiers, cap, es, n - 1, n);
      InsertingKeepsRoom(tiers, cap, es, n - 1, fs, m - 1);
      if e.Check? {
        CheckingKeepsCovered(tiers, cap, w', w, e);
      } else {
        CleaningKeepsCovered(tiers, w', w, e.now);
        CleaningShrinks(tiers, w, |w|, e.now);
      }
    }
  }

  lemma CleaningShrinks(tiers: Tiers, w: Windows, n: nat, now: int)
    requires n <= |w|
    ensures |CleanStep(tiers, w, n, now)| <= n
  {
  }

  lemma NothingIsCovered(tiers: Tiers, cap: int, es: seq<Event>, fs: seq<Event>)
    ensures Covered(WindowsAfter(tiers, cap, fs, 0), WindowsAfter(tiers, cap, es, 0))
    ensures |WindowsAfter(tiers, cap, es, 0)| == 0
  {
  }

  /**
   Cleanup is invisible. Inserting cleanups anywhere into a run that never reaches capacity changes no answer,
   in any field, and the run still never reaches capacity.
   */
  lemma {:induction false} CleanupIsInvisible(tiers: Tiers, cap: int, es: seq<Event>, fs: seq<Event>)
    requires Clocked(es) && Clocked(fs) && Inserts(es, |es|, fs, |fs|)
    requires NeverFull(tiers, cap, es, |es|)
    ensures Answers(tiers, cap, fs, |fs|) == Answers(tiers, cap, es, |es|)
    ensures NeverFull(tiers, cap, fs, |fs|)
  {
    hide Answers, LogAnswers, NeverFull, Inserts, Clocked;
    InsertingKeepsChecks(es, |es|, fs, |fs|);
    InsertingKeepsRoom(tiers, cap, es, |es|, fs, |fs|);
    AnswersFollowTheLog(tiers, cap, es, |es|);
    AnswersFollowTheLog(tiers, cap, fs, |fs|);
  }
}
