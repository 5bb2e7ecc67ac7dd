/**
 Whole runs of the rate limiter: checks and cleanups, in any order, under a clock that never goes
 back. The history of a key is the list of its admitted times since its bucket was last evicted for
 capacity; the sliding log is the reference that knows no buckets, no cleanup and no eviction.
 */
module RateLimiterRuns {
  import opened Wrappers
  import opened OrderedMap
  import opened SlidingWindow
  import opened RateLimiter

  datatype Event =
    | Check(identifier: string, tier: RateLimitTier, now: int)
    | Clean(now: int)
  {
    predicate Is(key: string) {
      Check? && KeyFor(tier, identifier) == key
    }
  }

  ghost predicate Clocked(es: seq<Event>) {
    forall i, j :: 0 <= i < j < |es| ==> es[i].now <= es[j].now
  }

  /** The time of the last of the first `n` events; before the first one, its time. */
  function Clock(es: seq<Event>, n: nat): int
    requires n <= |es|
  {
    if es == [] then 0 else if n == 0 then es[0].now else es[n - 1].now
  }

  function StepWindows(tiers: Tiers, cap: int, w: Windows, e: Event): Windows {
    match e
    case Check(identifier, tier, now) => CheckStep(tiers, cap, w, identifier, tier, now).windows
    case Clean(now) => CleanStep(tiers, w, |w|, now)
  }

  /** The buckets after the first `n` events of a run that starts empty. */
  function WindowsAfter(tiers: Tiers, cap: int, es: seq<Event>, n: nat): Windows
    requires n <= |es|
  {
    if n == 0 then [] else StepWindows(tiers, cap, WindowsAfter(tiers, cap, es, n - 1), es[n - 1])
  }

  function ResultOf(tiers: Tiers, cap: int, es: seq<Event>, i: nat): RateLimitResult
    requires i < |es| && es[i].Check?
  {
    CheckStep(tiers, cap, WindowsAfter(tiers, cap, es, i), es[i].identifier, es[i].tier, es[i].now).result
  }

  predicate Admits(tiers: Tiers, cap: int, w: Windows, e: Event, key: string) {
    e.Is(key) && CheckStep(tiers, cap, w, e.identifier, e.tier, e.now).result.allowed
  }

  /** The event evicts the key's bucket to make room for a new one. */
  predicate Evicts(cap: int, w: Windows, e: Event, key: string) {
    && e.Check? && !Has(w, KeyFor(e.tier, e.identifier))
    && IndexOf(w, key) < EvictionCount(w, cap)
  }

  function StepHistory(tiers: Tiers, cap: int, w: Windows, h: seq<int>, e: Event, key: string): seq<int> {
    (if Evicts(cap, w, e, key) then [] else h) + (if Admits(tiers, cap, w, e, key) then [e.now] else [])
  }

  function History(tiers: Tiers, cap: int, es: seq<Event>, n: nat, key: string): seq<int>
    requires n <= |es|
  {
    if n == 0 then []
    else StepHistory(tiers, cap, WindowsAfter(tiers, cap, es, n - 1), History(tiers, cap, es, n - 1, key), es[n - 1],
        key)
  }

  // ---------------------------------------------------------------- what one event keeps, for one key

  /** The bucket stands for the history; a missing bucket means every admitted time has left the window. */
  ghost predicate BucketStands(b: Option<BucketView>, h: seq<int>, window: int, clock: int) {
    match b
    case None => forall i :: 0 <= i < |h| ==> h[i] <= clock - window
    case Some(v) =>
      && v.lastAccess <= clock
      && (forall i :: 0 <= i < |h| ==> h[i] <= v.lastAccess)
      && PrunesLike(v.timestamps, h, v.lastAccess - window)
      && (0 < window ==> IsRecent(v.timestamps, h, v.lastAccess - window))
  }

  ghost predicate HistoryFits(h: seq<int>, conf: TierConfig, clock: int) {
    && Ascending(h)
    && (forall i :: 0 <= i < |h| ==> h[i] <= clock)
    && Spaced(h, Max(0, conf.Limit()), conf.windowMs)
  }

  ghost predicate KeyInv(w: Windows, h: seq<int>, key: string, conf: TierConfig, clock: int) {
    HistoryFits(h, conf, clock) && BucketStands(Get(w, key), h, conf.windowMs, clock)
  }

  /** What a check prunes its bucket to is what is recent in the history, bucket or no bucket. */
  lemma {:induction false} PrunedBucketIsRecent(w: Windows, h: seq<int>, key: string, conf: TierConfig,
      clock: int, now: int)
    requires KeyInv(w, h, key, conf, clock) && clock <= now
    ensures var ts := Timestamps(w, key);
            var kept := KeepAfter(ts, |ts|, now - conf.windowMs);
            && IsRecent(kept, h, now - conf.windowMs)
            && PrunesLike(kept, h, now - conf.windowMs)
            && kept == KeepAfter(h, |h|, now - conf.windowMs)
            && |kept| <= Max(0, conf.Limit())
  {
    var start := now - conf.windowMs;
    var ts := Timestamps(w, key);
    match Get(w, key) {
      case None => NothingStandsForThePast(h, start);
      case Some(v) => PruningStillStands(v.timestamps, h, v.lastAccess - conf.windowMs, start);
    }
    var kept := KeepAfter(ts, |ts|, start);
    PrunedHistoryIsRecent(h, start);
    RecentIsUnique(kept, KeepAfter(h, |h|, start), h, start);
    SpacingBoundsRecent(kept, h, Max(0, conf.Limit()), conf.windowMs, now);
  }

  /** The bucket a check leaves behind. */
  function Settled(tiers: Tiers, w: Windows, e: Event): BucketView
    requires e.Check?
  {
    var conf := tiers(e.tier);
    var ts := Timestamps(w, KeyFor(e.tier, e.identifier));
    var kept := KeepAfter(ts, |ts|, e.now - conf.windowMs);
    BucketView(if Answer(conf, e.tier, kept, e.now).allowed then kept + [e.now] else kept, e.now)
  }

  /** A check sets its own bucket, and leaves another key's alone or evicts it. */
  lemma {:induction false} GetAfterCheck(tiers: Tiers, cap: int, w: Windows, e: Event, key: string)
    requires e.Check? && Distinct(w)
    ensures Get(StepWindows(tiers, cap, w, e), key)
            == if e.Is(key) then Some(Settled(tiers, w, e)) else if Evicts(cap, w, e, key) then None else Get(w, key)
  {
    hide KeepAfter, Answer, Timestamps, KeyFor;
    var own := KeyFor(e.tier, e.identifier);
    var room := if Has(w, own) then w else EvictIfFull(w, cap);
    GetAfterDrop(w, EvictionCount(w, cap), key);
    assert StepWindows(tiers, cap, w, e) == Put(room, own, Settled(tiers, w, e));
    GetAfterPut(room, own, Settled(tiers, w, e), key);
  }

  lemma {:induction false} DenialStands(kept: seq<int>, h: seq<int>, conf: TierConfig, clock: int, now: int)
    requires HistoryFits(h, conf, clock) && clock <= now
    requires IsRecent(kept, h, now - conf.windowMs) && PrunesLike(kept, h, now - conf.windowMs)
    ensures HistoryFits(h, conf, now) && BucketStands(Some(BucketView(kept, now)), h, conf.windowMs, now)
  {
  }

  lemma {:induction false} AdmissionStands(kept: seq<int>, h: seq<int>, conf: TierConfig, clock: int, now: int)
    requires HistoryFits(h, conf, clock) && clock <= now && |kept| < conf.Limit()
    requires IsRecent(kept, h, now - conf.windowMs) && PrunesLike(kept, h, now - conf.windowMs)
    ensures HistoryFits(h + [now], conf, now)
    ensures BucketStands(Some(BucketView(kept + [now], now)), h + [now], conf.windowMs, now)
  {
    AdmittingKeepsSpacing(kept, h, Max(0, conf.Limit()), conf.windowMs, now);
    RecordingStillStands(kept, h, now - conf.windowMs, now);
  }

  /** A check on the key itself. */
  lemma {:induction false} CheckKeepsOwnKey(tiers: Tiers, cap: int, w: Windows, h: seq<int>, e: Event, clock: int)
    requires e.Check? && Distinct(w) && clock <= e.now
    requires KeyInv(w, h, KeyFor(e.tier, e.identifier), tiers(e.tier), clock)
    ensures var key := KeyFor(e.tier, e.identifier);
            var c := CheckStep(tiers, cap, w, e.identifier, e.tier, e.now);
            && KeyInv(c.windows, if c.result.allowed then h + [e.now] else h, key, tiers(e.tier), e.now)
            && c.result == Answer(tiers(e.tier), e.tier, KeepAfter(h, |h|, e.now - tiers(e.tier).windowMs), e.now)
  {
    hide Put, Get, Has, EvictIfFull, Timestamps, KeyFor, HistoryFits, BucketStands, PrunesLike, IsRecent, KeepAfter;
    var conf, key := tiers(e.tier), KeyFor(e.tier, e.identifier);
    var ts := Timestamps(w, key);
    var kept := KeepAfter(ts, |ts|, e.now - conf.windowMs);
    PrunedBucketIsRecent(w, h, key, conf, clock, e.now);
    GetAfterCheck(tiers, cap, w, e, key);
    if Answer(conf, e.tier, kept, e.now).allowed {
      AdmissionStands(kept, h, conf, clock, e.now);
    } else {
      DenialStands(kept, h, conf, clock, e.now);
    }
  }

  /** Cleanup keeps exactly the buckets that are not idle. */
  lemma {:induction false} CleanKeepsMembers(tiers: Tiers, w: Windows, n: nat, now: int)
    requires Distinct(w) && n <= |w|
    ensures var r := CleanStep(tiers, w, n, now);
            && Distinct(r)
            && (forall e :: e in r <==> e in w[..n] && now - e.val.lastAccess <= IdleLimit(tiers, e.key))
  {
    if n != 0 {
      CleanKeepsMembers(tiers, w, n - 1, now);
      assert w[..n] == w[..n - 1] + [w[n - 1]];
      var r := CleanStep(tiers, w, n - 1, now);
      forall i | 0 <= i < |r|
        ensures r[i].key != w[n - 1].key
      {
        assert r[i] in r && r[i] in w[..n - 1];
      }
    }
  }

  lemma {:induction false} GetAfterClean(tiers: Tiers, w: Windows, now: int, key: string)
    requires Distinct(w)
    ensures var b := Get(w, key);
            Get(CleanStep(tiers, w, |w|, now), key)
            == if b.Some? && now - b.value.lastAccess > IdleLimit(tiers, key) then None else b
    ensures Distinct(CleanStep(tiers, w, |w|, now))
  {
    CleanKeepsMembers(tiers, w, |w|, now);
    var r := CleanStep(tiers, w, |w|, now);
    assert w[..|w|] == w;
    var b, c := Get(w, key), Get(r, key);
    if c.Some? {
      GetIffMember(r, key, c.value);
      GetIffMember(w, key, c.value);
    } else if b.Some? {
      GetIffMember(w, key, b.value);
      GetIffMember(r, key, b.value);
    }
  }

  lemma {:induction false} LaterClock(b: Option<BucketView>, h: seq<int>, conf: TierConfig, clock: int, now: int)
    requires HistoryFits(h, conf, clock) && BucketStands(b, h, conf.windowMs, clock) && clock <= now
    ensures HistoryFits(h, conf, now) && BucketStands(b, h, conf.windowMs, now)
  {
  }

  lemma {:induction false} EvictionStartsOver(conf: TierConfig, clock: int)
    ensures HistoryFits([], conf, clock) && BucketStands(None, [], conf.windowMs, clock)
  {
  }

  /** A dropped bucket held only times that every later check would prune. */
  lemma {:induction false} CleaningKeepsKey(tiers: Tiers, w: Windows, h: seq<int>, t: RateLimitTier,
      identifier: string, clock: int, now: int)
    requires Distinct(w) && clock <= now && KeyInv(w, h, KeyFor(t, identifier), tiers(t), clock)
    ensures KeyInv(CleanStep(tiers, w, |w|, now), h, KeyFor(t, identifier), tiers(t), now)
  {
    var key := KeyFor(t, identifier);
    KeysAreFaithful(t, identifier, t, identifier);
    GetAfterClean(tiers, w, now, key);
    LaterClock(Get(w, key), h, tiers(t), clock, now);
  }

  lemma {:induction false} StepKeepsKey(tiers: Tiers, cap: int, w: Windows, h: seq<int>, e: Event,
                                        t: RateLimitTier, identifier: string, clock: int)
    requires Distinct(w) && clock <= e.now && KeyInv(w, h, KeyFor(t, identifier), tiers(t), clock)
    ensures Distinct(StepWindows(tiers, cap, w, e))
    ensures KeyInv(StepWindows(tiers, cap, w, e), StepHistory(tiers, cap, w, h, e, KeyFor(t, identifier)),
                   KeyFor(t, identifier), tiers(t), e.now)
  {
    hide CheckStep, CleanStep, HistoryFits, BucketStands, KeyFor, EvictionCount;
    var key := KeyFor(t, identifier);
    StepKeepsDistinct(tiers, cap, w, e);
    match e
    case Clean(now) =>
      CleaningKeepsKey(tiers, w, h, t, identifier, clock, now);
      assert StepHistory(tiers, cap, w, h, e, key) == h;
    case Check(i', t', now) =>
      if KeyFor(t', i') == key {
        KeysAreFaithful(t, identifier, t', i');
        CheckKeepsOwnKey(tiers, cap, w, h, e, clock);
        EvictionSparesKey(cap, w, e);
        var c := CheckStep(tiers, cap, w, i', t', now);
        assert StepHistory(tiers, cap, w, h, e, key) == if c.result.allowed then h + [now] else h;
      } else {
        GetAfterCheck(tiers, cap, w, e, key);
        if Evicts(cap, w, e, key) {
          EvictionStartsOver(tiers(t), now);
          assert StepHistory(tiers, cap, w, h, e, key) == [];
        } else {
          LaterClock(Get(w, key), h, tiers(t), clock, now);
          assert StepHistory(tiers, cap, w, h, e, key) == h;
        }
      }
  }

  /** A check never evicts its own key: it evicts only when it has no bucket yet. */
  lemma EvictionSparesKey(cap: int, w: Windows, e: Event)
    requires e.Check?
    ensures !Evicts(cap, w, e, KeyFor(e.tier, e.identifier))
  {
  }

  lemma {:induction false} StepKeepsDistinct(tiers: Tiers, cap: int, w: Windows, e: Event)
    requires Distinct(w)
    ensures Distinct(StepWindows(tiers, cap, w, e))
  {
    match e
    case Clean(now) => GetAfterClean(tiers, w, now, "");
    case Check(_, _, _) =>
  }

  lemma {:induction false} RunKeepsKey(tiers: Tiers, cap: int, es: seq<Event>, n: nat, t: RateLimitTier,
      identifier: string)
    requires Clocked(es) && n <= |es|
    ensures Distinct(WindowsAfter(tiers, cap, es, n))
    ensures KeyInv(WindowsAfter(tiers, cap, es, n), History(tiers, cap, es, n, KeyFor(t, identifier)),
                   KeyFor(t, identifier), tiers(t), Clock(es, n))
  {
    hide StepWindows, StepHistory, KeyFor;
    if n == 0 {
      EvictionStartsOver(tiers(t), Clock(es, 0));
    } else {
      hide KeyInv, Distinct;
      RunKeepsKey(tiers, cap, es, n - 1, t, identifier);
      assert Clock(es, n - 1) <= es[n - 1].now;
      StepKeepsKey(tiers, cap, WindowsAfter(tiers, cap, es, n - 1),
          History(tiers, cap, es, n - 1, KeyFor(t, identifier)),
                   es[n - 1], t, identifier, Clock(es, n - 1));
    }
  }
}
