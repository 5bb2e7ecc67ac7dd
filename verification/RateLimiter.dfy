/**
 The application rate limiter (src/server/rate-limiter.ts): per-key sliding windows with pruning,
 periodic cleanup and capacity eviction. The class is the limiter with its mutable buckets;
 `CheckStep` and `CleanStep` say what one call does to the bucket contents.
 */
module RateLimiter {
  import opened Wrappers
  import opened OrderedMap
  import opened SlidingWindow

  datatype RateLimitTier = UNAUTHENTICATED | AUTHENTICATED | SENSITIVE

  datatype TierConfig = TierConfig(maxRequests: int, windowMs: int, burstAllowance: int) {
    function Limit(): int {
      maxRequests + burstAllowance
    }
  }

  type Tiers = RateLimitTier -> TierConfig

  /** Tiers that may each be absent. */
  type TierOptions = RateLimitTier -> Option<TierConfig>

  function DefaultTier(t: RateLimitTier): TierConfig {
    match t
    case UNAUTHENTICATED => TierConfig(100, 60_000, 20)
    case AUTHENTICATED => TierConfig(600, 60_000, 100)
    case SENSITIVE => TierConfig(30, 60_000, 5)
  }

  function TierFrom(options: TierOptions, t: RateLimitTier): TierConfig {
    if options(t).Some? then options(t).value else DefaultTier(t)
  }

  datatype RateLimitResult = RateLimitResult(
    allowed: bool, tier: RateLimitTier, currentRequests: nat, maxRequests: int,
    remainingRequests: int, retryAfterSeconds: int, resetTimeMs: int)

  // ---------------------------------------------------------------- keys

  function TierName(t: RateLimitTier): string {
    match t
    case UNAUTHENTICATED => "UNAUTHENTICATED"
    case AUTHENTICATED => "AUTHENTICATED"
    case SENSITIVE => "SENSITIVE"
  }

  function KeyFor(t: RateLimitTier, identifier: string): string {
    TierName(t) + ":" + identifier
  }

  /** The part of a key before its first colon, counted from `from`. */
  function FirstColon(key: string, from: nat): (i: nat)
    requires from <= |key|
    ensures from <= i <= |key|
    ensures i < |key| ==> key[i] == ':'
    ensures forall j :: from <= j < i ==> key[j] != ':'
    decreases |key| - from
  {
    if from == |key| || key[from] == ':' then from else FirstColon(key, from + 1)
  }

  /** The tier a key names, as cleanup recovers it; None when the first segment is no tier. */
  function TierOfKey(key: string): Option<RateLimitTier> {
    var head := key[..FirstColon(key, 0)];
    if head == TierName(UNAUTHENTICATED) then Some(UNAUTHENTICATED)
    else if head == TierName(AUTHENTICATED) then Some(AUTHENTICATED)
    else if head == TierName(SENSITIVE) then Some(SENSITIVE)
    else None
  }

  lemma {:induction false} HeadOfKey(t: RateLimitTier, identifier: string)
    ensures var key := KeyFor(t, identifier); key[..FirstColon(key, 0)] == TierName(t)
  {
    var key, name := KeyFor(t, identifier), TierName(t);
    assert key[|name|] == ':';
    assert forall i :: 0 <= i < |name| ==> key[i] == name[i] != ':';
  }

  /** The tier comes back from any key, also when the identifier holds colons, and keys do not collide. */
  lemma {:induction false} KeysAreFaithful(t: RateLimitTier, identifier: string, t': RateLimitTier, identifier': string)
    ensures TierOfKey(KeyFor(t, identifier)) == Some(t)
    ensures KeyFor(t, identifier) == KeyFor(t', identifier') <==> t == t' && identifier == identifier'
  {
    HeadOfKey(t, identifier);
    HeadOfKey(t', identifier');
    assert KeyFor(t, identifier)[|TierName(t)| + 1..] == identifier;
    assert KeyFor(t', identifier')[|TierName(t')| + 1..] == identifier';
  }

  // ---------------------------------------------------------------- one call, on bucket contents

  datatype BucketView = BucketView(timestamps: seq<int>, lastAccess: int)

  type Windows = seq<Entry<string, BucketView>>

  /** One tenth of the capacity, rounded down, and at least one. */
  function EvictTarget(cap: int): nat {
    Max(1, cap / 10)
  }

  /** How many of the oldest buckets a check on a new key evicts. */
  function EvictionCount(w: Windows, cap: int): nat {
    if |w| < cap then 0 else Min(EvictTarget(cap), |w|)
  }

  function EvictIfFull(w: Windows, cap: int): Windows {
    w[EvictionCount(w, cap)..]
  }

  /** The answer to a check whose pruned bucket is `kept`; a first timestamp of 0 is falsy and reads as `now`. */
  function Answer(conf: TierConfig, tier: RateLimitTier, kept: seq<int>, now: int): RateLimitResult {
    if |kept| >= conf.Limit() then
      var oldest := if kept != [] && kept[0] != 0 then kept[0] else now;
      var reset := oldest + conf.windowMs;
      RateLimitResult(false, tier, |kept|, conf.Limit(), 0, RetryAfter(reset, now), reset)
    else
      RateLimitResult(true, tier, |kept| + 1, conf.Limit(), conf.Limit() - |kept| - 1, 0, now + conf.windowMs)
  }

  /** Whole seconds until the reset, rounded up, and at least one. */
  function RetryAfter(reset: int, now: int): int {
    Max(1, (reset - now + 999) / 1000)
  }

  datatype Checked = Checked(windows: Windows, result: RateLimitResult)

  function Timestamps(w: Windows, key: string): seq<int> {
    var b := Get(w, key);
    if b.Some? then b.value.timestamps else []
  }

  function CheckStep(tiers: Tiers, cap: int, w: Windows, identifier: string, tier: RateLimitTier, now: int): Checked {
    var conf := tiers(tier);
    var key := KeyFor(tier, identifier);
    var ts := Timestamps(w, key);
    var kept := KeepAfter(ts, |ts|, now - conf.windowMs);
    var answer := Answer(conf, tier, kept, now);
    var room := if Has(w, key) then w else EvictIfFull(w, cap);
    Checked(Put(room, key, BucketView(if answer.allowed then kept + [now] else kept, now)), answer)
  }

  /** The idle time after which cleanup drops a bucket: its tier's window, or a minute when that is 0 or unknown. */
  function IdleLimit(tiers: Tiers, key: string): int {
    var t := TierOfKey(key);
    if t.None? || tiers(t.value).windowMs == 0 then 60_000 else tiers(t.value).windowMs
  }

  /** What cleanup leaves of the first `n` buckets. */
  function CleanStep(tiers: Tiers, w: Windows, n: nat, now: int): (r: Windows)
    requires n <= |w|
    ensures |r| <= n
  {
    if n == 0 then []
    else CleanStep(tiers, w, n - 1, now)
         + if now - w[n - 1].val.lastAccess > IdleLimit(tiers, w[n - 1].key) then [] else [w[n - 1]]
  }

  // ---------------------------------------------------------------- the limiter

  /** `filter((ts) => ts > start)`. */
  method Prune(timestamps: seq<int>, start: int) returns (kept: seq<int>)
    ensures kept == KeepAfter(timestamps, |timestamps|, start)
  {
    kept := [];
    for i := 0 to |timestamps|
      invariant kept == KeepAfter(timestamps, i, start)
    {
      if timestamps[i] > start { kept := kept + [timestamps[i]]; }
    }
  }

  /** Division rounded up, as `Math.ceil` of a quotient of integers. */
  function CeilDiv(a: int, b: int): (q: int)
    requires b > 0
    ensures b * (q - 1) < a <= b * q
  {
    -((-a) / b)
  }

  /** Deny with a retry hint when the pruned bucket is full, admit otherwise. */
  method Decide(config: TierConfig, tier: RateLimitTier, kept: seq<int>, now: int) returns (answer: RateLimitResult)
    ensures answer == Answer(config, tier, kept, now)
  {
    var effectiveLimit := config.maxRequests + config.burstAllowance;
    if |kept| >= effectiveLimit {
      var oldestInWindow := if kept != [] && kept[0] != 0 then kept[0] else now;
      var resetTimeMs := oldestInWindow + config.windowMs;
      var retryAfterSeconds := Max(1, CeilDiv(resetTimeMs - now, 1000));
      return RateLimitResult(false, tier, |kept|, effectiveLimit, 0, retryAfterSeconds, resetTimeMs);
    }
    return RateLimitResult(true, tier, |kept| + 1, effectiveLimit, effectiveLimit - (|kept| + 1), 0,
        now + config.windowMs);
  }

  /** The map with a bucket for the key in place, and the key's position in it. */
  function Placed(w: Windows, cap: int, key: string, now: int): Windows {
    if Has(w, key) then w else EvictIfFull(w, cap) + [Entry(key, BucketView([], now))]
  }

  lemma {:induction false} PlacedHoldsKey(w: Windows, cap: int, key: string, now: int)
    requires Distinct(w)
    ensures var p := Placed(w, cap, key, now);
            var i := IndexOf(p, key);
            i < |p| && p[i].key == key && p[i].val.timestamps == Timestamps(w, key)
  {
    if !Has(w, key) {
      GetAfterDrop(w, EvictionCount(w, cap), key);
      PutTwice(EvictIfFull(w, cap), key, BucketView([], now), BucketView([], now));
    }
  }

  /** Overwriting the placed bucket is setting the key in the map with room for it. */
  lemma {:induction false} OverwritingPlaced(w: Windows, cap: int, key: string, now: int, b: BucketView)
    requires Distinct(w)
    ensures var p := Placed(w, cap, key, now);
            var i := IndexOf(p, key);
            i < |p| && p[i := Entry(key, b)] == Put(if Has(w, key) then w else EvictIfFull(w, cap), key, b)
  {
    if !Has(w, key) {
      GetAfterDrop(w, EvictionCount(w, cap), key);
      PutTwice(EvictIfFull(w, cap), key, BucketView([], now), b);
      assert Placed(w, cap, key, now) == Put(EvictIfFull(w, cap), key, BucketView([], now));
    }
  }

  /** Delete keys in insertion order until `target` are gone or none is left. */
  method DeleteOldest<V>(m: seq<Entry<string, V>>, target: nat) returns (rest: seq<Entry<string, V>>)
    ensures rest == m[Min(target, |m|)..]
  {
    rest := m;
    var evicted := 0;
    while evicted < target && rest != []
      invariant evicted <= target && evicted <= |m| && rest == m[evicted..]
    {
      RemoveOldest(rest);
      rest := Remove(rest, rest[0].key);
      evicted := evicted + 1;
    }
  }

  class WindowBucket {
    var timestamps: seq<int>
    var lastAccess: int

    constructor (now: int)
      ensures timestamps == [] && lastAccess == now
    {
      timestamps := [];
      lastAccess := now;
    }
  }

  ghost predicate DifferentBuckets(w: seq<Entry<string, WindowBucket>>) {
    forall i, j :: 0 <= i < j < |w| ==> w[i].val != w[j].val
  }

  class ApplicationRateLimiter {
    const tiers: Tiers
    const maxTrackedEntries: int
    const cleanupTimer: Option<int>
    var windows: seq<Entry<string, WindowBucket>>
    ghost var view: Windows

    ghost function Buckets(): set<object>
      reads this
    {
      set i | 0 <= i < |windows| :: windows[i].val
    }

    /** The view shows the contents of the buckets. */
    ghost predicate Shown()
      reads this, Buckets()
    {
      && |view| == |windows|
      && (forall i :: 0 <= i < |windows| ==>
            view[i] == Entry(windows[i].key, BucketView(windows[i].val.timestamps, windows[i].val.lastAccess)))
    }

    /** Every key has a bucket object of its own. */
    ghost predicate Valid()
      reads this, Buckets()
    {
      Shown() && Distinct(view) && DifferentBuckets(windows)
    }

    /**
     Absent tiers are the default ones, and an absent capacity (0) means 50 000. The timer runs on a positive interval
     only.
     */
    constructor (options: TierOptions, maxTrackedEntries: int, cleanupIntervalMs: int)
      ensures Valid() && view == []
      ensures forall t :: options(t).Some? ==> tiers(t) == options(t).value
      ensures options(UNAUTHENTICATED).None? ==> tiers(UNAUTHENTICATED) == TierConfig(100, 60_000, 20)
      ensures options(AUTHENTICATED).None? ==> tiers(AUTHENTICATED) == TierConfig(600, 60_000, 100)
      ensures options(SENSITIVE).None? ==> tiers(SENSITIVE) == TierConfig(30, 60_000, 5)
      ensures this.maxTrackedEntries == if maxTrackedEntries == 0 then 50_000 else maxTrackedEntries
      ensures cleanupTimer == if cleanupIntervalMs > 0 then Some(cleanupIntervalMs) else None
    {
      tiers := t => TierFrom(options, t);
      this.maxTrackedEntries := if maxTrackedEntries == 0 then 50_000 else maxTrackedEntries;
      cleanupTimer := if cleanupIntervalMs > 0 then Some(cleanupIntervalMs) else None;
      windows := [];
      view := [];
    }

    method EvictIfFullNow()
      requires Valid()
      modifies this`windows, this`view
      ensures Valid() && Buckets() <= old(Buckets())
      ensures view == EvictIfFull(old(view), maxTrackedEntries)
    {
      if |windows| < maxTrackedEntries {
        assert view[0..] == view;
        return;
      }
      var rest := DeleteOldest(windows, Max(1, maxTrackedEntries / 10));
      ghost var n := EvictionCount(view, maxTrackedEntries);
      assert forall i :: 0 <= i < |rest| ==> rest[i] == windows[i + n];
      windows, view := rest, view[n..];
    }

    /** The position of the key's bucket, created empty (after eviction) when there is none. */
    method BucketFor(key: string, now: int) returns (index: nat)
      requires Valid()
      modifies this`windows, this`view
      ensures Valid() && fresh(Buckets() - old(Buckets()))
      ensures index < |view| && view[index].key == key && index == IndexOf(view, key)
      ensures view == Placed(old(view), maxTrackedEntries, key, now)
    {
      SameKeysSameIndex(windows, view, key);
      index := IndexOf(windows, key);
      if index == |windows| {
        EvictIfFullNow();
        GetAfterDrop(old(view), EvictionCount(old(view), maxTrackedEntries), key);
        SameKeysSameIndex(windows, view, key);
        var created := new WindowBucket(now);
        index := |windows|;
        PutTwice(view, key, BucketView([], now), BucketView([], now));
        windows := Put(windows, key, created);
        view := Put(view, key, BucketView([], now));
      }
    }

    /** The bucket's timestamps after `start`. */
    method PruneBucket(index: nat, start: int) returns (kept: seq<int>)
      requires Valid() && index < |view|
      ensures kept == KeepAfter(view[index].val.timestamps, |view[index].val.timestamps|, start)
    {
      kept := Prune(windows[index].val.timestamps, start);
    }

    /** Overwrite one bucket's fields, and nothing else. */
    method Store(index: nat, timestamps: seq<int>, now: int)
      requires Valid() && index < |view|
      modifies this`view, Buckets()
      ensures Valid() && view == old(view)[index := Entry(old(view)[index].key, BucketView(timestamps, now))]
      ensures Buckets() == old(Buckets())
    {
      var bucket := windows[index].val;
      bucket.lastAccess := now;
      bucket.timestamps := timestamps;
      view := view[index := Entry(view[index].key, BucketView(timestamps, now))];
    }

    method CheckLimit(identifier: string, tier: RateLimitTier, now: int) returns (result: RateLimitResult)
      requires Valid()
      modifies this`windows, this`view, Buckets()
      ensures Valid() && fresh(Buckets() - old(Buckets()))
      ensures Checked(view, result) == CheckStep(tiers, maxTrackedEntries, old(view), identifier, tier, now)
    {
      hide Shown, Distinct, DifferentBuckets, Has, IndexOf, Put, EvictIfFull, Placed, Answer, KeepAfter, Timestamps;
      var config := tiers(tier);
      var key := KeyFor(tier, identifier);
      var windowStart := now - config.windowMs;

      var index := BucketFor(key, now);
      PlacedHoldsKey(old(view), maxTrackedEntries, key, now);
      var kept := PruneBucket(index, windowStart);
      result := Decide(config, tier, kept, now);
      var timestamps := if result.allowed then kept + [now] else kept;
      OverwritingPlaced(old(view), maxTrackedEntries, key, now, BucketView(timestamps, now));
      Store(index, timestamps, now);
    }

    method CleanExpired(now: int) returns (evictedCount: nat)
      requires Valid()
      modifies this`windows, this`view
      ensures Valid() && Buckets() <= old(Buckets())
      ensures view == CleanStep(tiers, old(view), |old(view)|, now)
      ensures evictedCount == |old(view)| - |view|
    {
      hide TierOfKey;
      evictedCount := 0;
      var kept: seq<Entry<string, WindowBucket>> := [];
      ghost var shown: Windows := [];
      for i := 0 to |windows|
        invariant shown == CleanStep(tiers, view, i, now)
        invariant |kept| == |shown| == i - evictedCount
        invariant forall j :: 0 <= j < |kept| ==>
                    shown[j] == Entry(kept[j].key, BucketView(kept[j].val.timestamps, kept[j].val.lastAccess))
        invariant forall j :: 0 <= j < |kept| ==> exists k :: 0 <= k < i && kept[j] == windows[k]
        invariant forall j, l :: 0 <= j < l < |kept| ==> kept[j].key != kept[l].key && kept[j].val != kept[l].val
      {
        var e := windows[i];
        var tier := TierOfKey(e.key);
        var windowMs := if tier.Some? && tiers(tier.value).windowMs != 0 then tiers(tier.value).windowMs else 60_000;
        if now - e.val.lastAccess > windowMs {
          evictedCount := evictedCount + 1;
        } else {
          kept := kept + [e];
          shown := shown + [view[i]];
        }
      }
      windows := kept;
      view := shown;
    }

    method GetTrackedCount() returns (n: nat)
      requires Valid()
      ensures n == |view|
    {
      return |windows|;
    }

    method Reset()
      modifies this`windows, this`view
      ensures Valid() && view == []
    {
      windows, view := [], [];
    }
  }
}
