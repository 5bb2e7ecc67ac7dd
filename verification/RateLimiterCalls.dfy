/**
 What one call does to the limiter, said from its arguments and the buckets alone: which buckets a check
 removes, keeps and writes, which a cleanup drops, and what an answer reports.
 */
module RateLimiterCalls {
  import opened Wrappers
  import opened OrderedMap
  import opened SlidingWindow
  import opened RateLimiter
  import opened RateLimiterRuns

  predicate HasKey(w: Windows, key: string) {
    exists i :: 0 <= i < |w| && w[i].key == key
  }

  /**
   A check on a new key at capacity drops the oldest tenth of the capacity, at least one bucket, and keeps the others
   in order.
   */
  lemma {:induction false} CheckAtCapacityEvicts(tiers: Tiers, cap: int, w: Windows, identifier: string,
      tier: RateLimitTier, now: int)
    requires Distinct(w) && |w| >= cap && !HasKey(w, KeyFor(tier, identifier))
    ensures var w', n := CheckStep(tiers, cap, w, identifier, tier, now).windows, Min(Max(1, cap / 10), |w|);
            && |w'| == |w| - n + 1
            && (forall i :: n <= i < |w| ==> w'[i - n] == w[i])
            && w'[|w| - n].key == KeyFor(tier, identifier)
  {
    hide KeyFor, Answer, KeepAfter, Timestamps, Put, Has, IndexOf;
    var key, room := KeyFor(tier, identifier), w[EvictionCount(w, cap)..];
    HasIffMember(w, key);
    var b := CheckedBucket(tiers, cap, w, identifier, tier, now);
    PutKeepsPositions(room, key, b);
    assert CheckStep(tiers, cap, w, identifier, tier, now).windows == room + [Entry(key, b)];
  }

  /** The bucket a check puts under its key. */
  lemma {:induction false} CheckedBucket(tiers: Tiers, cap: int, w: Windows, identifier: string, tier: RateLimitTier,
      now: int) returns (b: BucketView)
    ensures var key := KeyFor(tier, identifier);
            && b.lastAccess == now
            && CheckStep(tiers, cap, w, identifier, tier, now).windows
               == Put(if Has(w, key) then w else EvictIfFull(w, cap), key, b)
  {
    hide KeyFor, Answer, KeepAfter, Timestamps, Put, Has;
    b := Settled(tiers, w, Check(identifier, tier, now));
  }

  /** A check with room, or on a key that has a bucket, removes nothing and writes only its own bucket. */
  lemma {:induction false} CheckWithRoomKeeps(tiers: Tiers, cap: int, w: Windows, identifier: string,
      tier: RateLimitTier, now: int)
    requires Distinct(w) && (|w| < cap || HasKey(w, KeyFor(tier, identifier)))
    ensures var w', key := CheckStep(tiers, cap, w, identifier, tier, now).windows, KeyFor(tier, identifier);
            && |w'| == |w| + (if HasKey(w, key) then 0 else 1)
            && (forall i :: 0 <= i < |w| ==> w'[i].key == w[i].key && (w[i].key != key ==> w'[i] == w[i]))
            && (forall i :: 0 <= i < |w'| && w'[i].key == key ==> w'[i].val.lastAccess == now)
            && HasKey(w', key)
  {
    hide KeyFor, Answer, KeepAfter, Timestamps, Put, Has, IndexOf;
    var key := KeyFor(tier, identifier);
    HasIffMember(w, key);
    assert w[0..] == w;
    var b := CheckedBucket(tiers, cap, w, identifier, tier, now);
    PutKeepsPositions(w, key, b);
    var w' := CheckStep(tiers, cap, w, identifier, tier, now).windows;
    assert w' == Put(w, key, b);
    if HasKey(w, key) {
      var i :| 0 <= i < |w| && w[i].key == key;
      assert w'[i].key == key;
    } else {
      assert w'[|w|].key == key;
    }
  }

  /** Event `e` evicts the key exactly when it opens a bucket at capacity and the key's is among the oldest tenth. */
  lemma {:induction false} EvictsExactly(cap: int, w: Windows, e: Event, i: nat)
    requires Distinct(w) && i < |w|
    ensures Evicts(cap, w, e, w[i].key) <==>
            && e.Check? && !HasKey(w, KeyFor(e.tier, e.identifier)) && |w| >= cap
            && i < Max(1, cap / 10)
  {
    hide KeyFor;
    IndexIsPosition(w, i);
    if e.Check? { HasIffMember(w, KeyFor(e.tier, e.identifier)); }
  }

  /**
   A cleanup drops a bucket exactly when it was idle for longer than its tier's window, or a minute for a window of
   0.
   */
  lemma {:induction false} CleaningIsExact(tiers: Tiers, w: Windows, now: int, t: RateLimitTier, identifier: string)
    requires Distinct(w)
    ensures var b := Get(w, KeyFor(t, identifier));
            var window := if tiers(t).windowMs == 0 then 60_000 else tiers(t).windowMs;
            Get(CleanStep(tiers, w, |w|, now), KeyFor(t, identifier))
            == if b.Some? && now - b.value.lastAccess > window then None else b
  {
    hide KeyFor, CleanStep;
    GetAfterClean(tiers, w, now, KeyFor(t, identifier));
    KeysAreFaithful(t, identifier, t, identifier);
  }

  /** What a cleanup keeps, it keeps in order. */
  lemma {:induction false} CleaningKeepsOrder(tiers: Tiers, w: Windows, n: nat, now: int) returns (from: seq<nat>)
    requires n <= |w|
    ensures var r := CleanStep(tiers, w, n, now);
            && |from| == |r|
            && (forall i :: 0 <= i < |r| ==> from[i] < n && r[i] == w[from[i]])
            && (forall i, j :: 0 <= i < j < |r| ==> from[i] < from[j])
  {
    hide IdleLimit;
    from := [];
    if n != 0 {
      from := CleaningKeepsOrder(tiers, w, n - 1, now);
      if now - w[n - 1].val.lastAccess <= IdleLimit(tiers, w[n - 1].key) { from := from + [n - 1]; }
    }
  }

  /**
   Every field of an answer, for a bucket pruned to `kept`. The retry hint is the least number of whole seconds, from
   one on, that reaches the reset.
   */
  lemma {:induction false} AnswerIsExact(conf: TierConfig, tier: RateLimitTier, kept: seq<int>, now: int)
    ensures var a := Answer(conf, tier, kept, now);
            && (a.allowed <==> |kept| < conf.maxRequests + conf.burstAllowance)
            && a.tier == tier && a.maxRequests == conf.maxRequests + conf.burstAllowance
            && a.currentRequests == |kept| + (if a.allowed then 1 else 0)
            && a.remainingRequests == Max(0, a.maxRequests - a.currentRequests)
            && (a.allowed ==> a.retryAfterSeconds == 0 && a.resetTimeMs == now + conf.windowMs)
            && (!a.allowed && kept != [] && kept[0] != 0 ==> a.resetTimeMs == kept[0] + conf.windowMs)
            && (!a.allowed && (kept == [] || kept[0] == 0) ==> a.resetTimeMs == now + conf.windowMs)
            && (!a.allowed ==>
                  && a.retryAfterSeconds >= 1 && now + 1000 * a.retryAfterSeconds >= a.resetTimeMs
                  && (a.retryAfterSeconds > 1 ==> now + 1000 * (a.retryAfterSeconds - 1) < a.resetTimeMs))
  {
  }
}
