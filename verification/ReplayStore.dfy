/**
 The bounded in-memory replay store (src/integrations/auth/replay-store.ts:38-115): an
 insertion-ordered map from nonce to expiry, cleaned by a prefix scan and bounded by evicting
 the oldest entry. The class is the store; `ConsumeStep` is what one call does; the second
 half proves that a whole run of calls behaves like a window over the history of accepted nonces.
 */
module ReplayStore {
  import opened Wrappers
  import opened OrderedMap

  type Store = seq<Entry<string, int>>

  // ---------------------------------------------------------------- one call

  /** First position at or after `from` that is unexpired, where the prefix scan stops. */
  function FirstLive(s: Store, now: int, from: nat): (i: nat)
    requires from <= |s|
    ensures from <= i <= |s|
    ensures i < |s| ==> now <= s[i].val
    ensures forall j :: from <= j < i ==> s[j].val < now
    decreases |s| - from
  {
    if from == |s| || now <= s[from].val then from else FirstLive(s, now, from + 1)
  }

  /** The prefix scan: delete expired entries from the front, stop at the first live one. */
  function DropExpired(s: Store, now: int): Store {
    s[FirstLive(s, now, 0)..]
  }

  /** A stored expiry of 0 is falsy in the source and reads as absent. */
  predicate HoldsLive(s: Store, nonce: string, now: int) {
    var e := Get(s, nonce);
    e.Some? && e.value != 0 && now <= e.value
  }

  /** Make room for one entry. An empty-string key at the front is falsy and is not evicted. */
  function EvictOldest(s: Store, cap: nat): Store {
    if |s| >= cap && s != [] && s[0].key != "" then s[1..] else s
  }

  datatype Consumed = Consumed(store: Store, isNew: bool)

  function ConsumeStep(s: Store, cap: nat, nonce: string, ttl: int, now: int): Consumed {
    var live := DropExpired(s, now);
    if HoldsLive(live, nonce, now) then Consumed(live, false)
    else Consumed(Put(EvictOldest(live, cap), nonce, now + ttl), true)
  }

  class InMemoryReplayProtectionStore {
    var store: Store
    const maxEntries: nat

    constructor (maxEntries: nat := 100_000)
      ensures store == [] && this.maxEntries == maxEntries
    {
      this.store := [];
      this.maxEntries := maxEntries;
    }

    method CleanExpired(now: int)
      modifies this`store
      ensures store == DropExpired(old(store), now)
    {
      ghost var dropped: nat := 0;
      while store != [] && now > store[0].val
        invariant dropped <= |old(store)| && store == old(store)[dropped..]
        invariant forall j :: 0 <= j < dropped ==> old(store)[j].val < now
        decreases |store|
      {
        RemoveOldest(store);
        store := Remove(store, store[0].key);
        dropped := dropped + 1;
      }
      assert dropped < |old(store)| ==> store[0] == old(store)[dropped];
    }

    method Has(nonce: string, now: int) returns (present: bool)
      modifies this`store
      ensures present == HoldsLive(DropExpired(old(store), now), nonce, now)
      ensures store == var live := DropExpired(old(store), now);
                       var e := Get(live, nonce);
                       if e.Some? && e.value != 0 && now > e.value then Remove(live, nonce) else live
    {
      CleanExpired(now);
      var expiry := Get(store, nonce);
      if expiry.None? || expiry.value == 0 { return false; }
      if now > expiry.value {
        store := Remove(store, nonce);
        return false;
      }
      return true;
    }

    method Record(nonce: string, ttlMs: int, now: int)
      modifies this`store
      ensures store == Put(EvictOldest(DropExpired(old(store), now), maxEntries), nonce, now + ttlMs)
    {
      CleanExpired(now);
      if |store| >= maxEntries && |store| > 0 && store[0].key != "" {
        RemoveOldest(store);
        store := Remove(store, store[0].key);
      }
      store := Put(store, nonce, now + ttlMs);
    }

    method Consume(nonce: string, ttlMs: int, now: int) returns (isNew: bool)
      modifies this`store
      ensures Consumed(store, isNew) == ConsumeStep(old(store), maxEntries, nonce, ttlMs, now)
    {
      CleanExpired(now);
      var existing := Get(store, nonce);
      if existing.Some? && existing.value != 0 && now <= existing.value { return false; }
      if |store| >= maxEntries && |store| > 0 && store[0].key != "" {
        RemoveOldest(store);
        store := Remove(store, store[0].key);
      }
      store := Put(store, nonce, now + ttlMs);
      return true;
    }

    method Clear()
      modifies this`store
      ensures store == []
    {
      store := [];
    }
  }

  /**
   On any store, sorted or not, a nonce is refused exactly when an entry holds it with an expiry, other than 0,
   that has not passed; an accepted one is held afterwards until its own expiry.
   */
  lemma {:induction false} ConsumeIsExact(s: Store, cap: nat, nonce: string, ttl: int, now: int)
    requires Distinct(s)
    ensures var c := ConsumeStep(s, cap, nonce, ttl, now);
            && (c.isNew <==> !exists i :: 0 <= i < |s| && s[i].key == nonce && s[i].val != 0 && now <= s[i].val)
            && (c.isNew ==> Entry(nonce, now + ttl) in c.store)
  {
    hide IndexOf, DropExpired, Put, EvictOldest;
    HeldLiveExactly(s, nonce, now);
    PutHolds(EvictOldest(DropExpired(s, now), cap), nonce, now + ttl);
  }

  lemma {:induction false} HeldLiveExactly(s: Store, nonce: string, now: int)
    requires Distinct(s)
    ensures HoldsLive(DropExpired(s, now), nonce, now)
            <==> exists i :: 0 <= i < |s| && s[i].key == nonce && s[i].val != 0 && now <= s[i].val
  {
    hide IndexOf;
    var n, live := FirstLive(s, now, 0), DropExpired(s, now);
    GetIffMember(live, nonce, if Get(live, nonce).Some? then Get(live, nonce).value else 0);
    if HoldsLive(live, nonce, now) {
      var j :| 0 <= j < |live| && live[j] == Entry(nonce, Get(live, nonce).value);
      assert s[n + j] == live[j];
    }
    if i :| 0 <= i < |s| && s[i].key == nonce && s[i].val != 0 && now <= s[i].val {
      assert live[i - n] == s[i];
      GetIffMember(live, nonce, s[i].val);
    }
  }

  lemma {:induction false} PutHolds(s: Store, nonce: string, expiry: int)
    ensures Entry(nonce, expiry) in Put(s, nonce, expiry)
  {
    assert Put(s, nonce, expiry)[IndexOf(s, nonce)] == Entry(nonce, expiry);
  }

  // ---------------------------------------------------------------- whole runs

  /** One use of a nonce: an attempted consumption, or an accepted one in a history. */
  datatype Use = Use(nonce: string, at: int)

  /** The attempts a run may make: nonempty nonces, a clock that starts at or after the epoch and never goes back. */
  ghost predicate ClockedRun(es: seq<Use>) {
    && (forall i :: 0 <= i < |es| ==> es[i].nonce != "" && es[i].at >= 0)
    && (forall i, j :: 0 <= i < j < |es| ==> es[i].at <= es[j].at)
  }

  datatype Run = Run(store: Store, accepted: seq<Use>)

  /** The store, and the accepted attempts in order, after the first `n` attempts on an initially empty store. */
  function RunStore(es: seq<Use>, n: nat, cap: nat, ttl: int): Run
    requires n <= |es|
  {
    if n == 0 then Run([], [])
    else
      var before := RunStore(es, n - 1, cap, ttl);
      var e := es[n - 1];
      var c := ConsumeStep(before.store, cap, e.nonce, ttl, e.at);
      Run(c.store, if c.isNew then before.accepted + [e] else before.accepted)
  }

  /** How many of the first `n` uses are unexpired at `now`. */
  function Unexpired(h: seq<Use>, n: nat, ttl: int, now: int): (c: nat)
    requires n <= |h|
    ensures c <= n
  {
    if n == 0 then 0
    else Unexpired(h, n - 1, ttl, now) + if now <= h[n - 1].at + ttl then 1 else 0
  }

  /** How many of the latest uses the store should hold: min(cap, number unexpired). */
  function WindowSize(h: seq<Use>, cap: nat, ttl: int, now: int): (n: nat)
    ensures n <= |h| && n <= cap
  {
    Min(cap, Unexpired(h, |h|, ttl, now))
  }

  /** The nonce is one of the last `n` uses of the history. */
  predicate UsedInLast(h: seq<Use>, n: nat, nonce: string)
    requires n <= |h|
  {
    exists i :: |h| - n <= i < |h| && h[i].nonce == nonce
  }

  /** The reference: no map, no eviction, no scan; refuse exactly the nonces in the window. */
  function Reference(es: seq<Use>, n: nat, cap: nat, ttl: int): seq<Use>
    requires n <= |es|
  {
    if n == 0 then []
    else
      var h := Reference(es, n - 1, cap, ttl);
      var e := es[n - 1];
      if UsedInLast(h, WindowSize(h, cap, ttl, e.at), e.nonce) then h else h + [e]
  }

  ghost predicate Ordered(h: seq<Use>) {
    forall i, j :: 0 <= i < j < |h| ==> h[i].at <= h[j].at
  }

  /** Accepted uses are in order, after the epoch, and not later than the clock. */
  ghost predicate History(h: seq<Use>, now: int) {
    && Ordered(h)
    && forall i :: 0 <= i < |h| ==> h[i].nonce != "" && 0 <= h[i].at <= now
  }

  /** The store holds the last `n` uses of the history, oldest first, each expiring one lifetime after its use. */
  ghost predicate StoresLast(s: Store, h: seq<Use>, n: nat, ttl: int) {
    && |s| == n <= |h|
    && forall i :: 0 <= i < n ==> s[i] == Entry(h[|h| - n + i].nonce, h[|h| - n + i].at + ttl)
  }

  /** The store is the window over the accepted history as of `now`, and holds no nonce twice. */
  ghost predicate IsWindow(s: Store, h: seq<Use>, cap: nat, ttl: int, now: int) {
    && History(h, now)
    && StoresLast(s, h, WindowSize(h, cap, ttl, now), ttl)
    && Distinct(s)
  }

  /** In an ordered history the unexpired uses are exactly a suffix. */
  lemma {:induction false} UnexpiredIsSuffix(h: seq<Use>, n: nat, ttl: int, now: int)
    requires Ordered(h) && n <= |h|
    ensures forall i :: 0 <= i < n ==> (now <= h[i].at + ttl <==> n - Unexpired(h, n, ttl, now) <= i)
  {
    if n != 0 {
      UnexpiredIsSuffix(h, n - 1, ttl, now);
      if n > 1 { assert h[n - 2].at <= h[n - 1].at; }
    }
  }

  /** Fewer uses are unexpired later. */
  lemma {:induction false} UnexpiredShrinks(h: seq<Use>, n: nat, ttl: int, before: int, now: int)
    requires before <= now && n <= |h|
    ensures Unexpired(h, n, ttl, now) <= Unexpired(h, n, ttl, before)
  {
    if n != 0 { UnexpiredShrinks(h, n - 1, ttl, before, now); }
  }

  lemma {:induction false} UnexpiredOfPrefix(h: seq<Use>, g: seq<Use>, n: nat, ttl: int, now: int)
    requires n <= |h|
    ensures Unexpired(h + g, n, ttl, now) == Unexpired(h, n, ttl, now)
  {
    if n != 0 { UnexpiredOfPrefix(h, g, n - 1, ttl, now); }
  }

  /** The sizes of two windows say where the history has expired in between. */
  lemma {:induction false} WindowSizes(h: seq<Use>, cap: nat, ttl: int, before: int, now: int)
    requires Ordered(h) && before <= now
    ensures var n, n' := WindowSize(h, cap, ttl, before), WindowSize(h, cap, ttl, now);
            && n' <= n
            && (forall i :: |h| - n <= i < |h| - n' ==> h[i].at + ttl < now)
            && (forall i :: |h| - n' <= i < |h| ==> now <= h[i].at + ttl)
  {
    UnexpiredIsSuffix(h, |h|, ttl, now);
    UnexpiredShrinks(h, |h|, ttl, before, now);
  }

  lemma {:induction false} WindowAfterAccepting(h: seq<Use>, cap: nat, ttl: int, e: Use)
    requires 0 <= ttl
    ensures WindowSize(h + [e], cap, ttl, e.at) == Min(cap, WindowSize(h, cap, ttl, e.at) + 1)
  {
    UnexpiredOfPrefix(h, [e], |h|, ttl, e.at);
  }

  /** The prefix scan cuts the last `n` stored uses down to the last `n'`, when exactly those are unexpired. */
  lemma {:induction false} ScanCutsTail(s: Store, h: seq<Use>, n: nat, n': nat, ttl: int, now: int)
    requires n' <= n && StoresLast(s, h, n, ttl) && Distinct(s)
    requires forall i :: |h| - n <= i < |h| - n' ==> h[i].at + ttl < now
    requires forall i :: |h| - n' <= i < |h| ==> now <= h[i].at + ttl
    ensures StoresLast(DropExpired(s, now), h, n', ttl) && Distinct(DropExpired(s, now))
  {
    if n' > 0 { assert now <= s[n - n'].val; }
    assert FirstLive(s, now, 0) == n - n';
  }

  /** Over live stored uses the lookup finds exactly the nonces of the tail. */
  lemma {:induction false} HoldsLiveIffUsed(s: Store, h: seq<Use>, n: nat, ttl: int, now: int, nonce: string)
    requires 0 < ttl && History(h, now) && StoresLast(s, h, n, ttl)
    requires forall i :: |h| - n <= i < |h| ==> now <= h[i].at + ttl
    ensures HoldsLive(s, nonce, now) <==> UsedInLast(h, n, nonce)
  {
    var i := IndexOf(s, nonce);
    if UsedInLast(h, n, nonce) {
      var j :| |h| - n <= j < |h| && h[j].nonce == nonce;
      assert s[j - (|h| - n)].key == nonce;
    } else {
      assert forall k :: 0 <= k < n ==> s[k].key == h[|h| - n + k].nonce;
    }
  }

  /** Accepting a new nonce slides the tail by one, evicting the oldest use when the store is full. */
  lemma {:induction false} AcceptingSlidesTail(s: Store, h: seq<Use>, n: nat, cap: nat, ttl: int, e: Use)
    requires 1 <= cap && n <= cap && History(h, e.at) && StoresLast(s, h, n, ttl) && Distinct(s)
    requires !UsedInLast(h, n, e.nonce)
    ensures var s' := Put(EvictOldest(s, cap), e.nonce, e.at + ttl);
            StoresLast(s', h + [e], Min(cap, n + 1), ttl) && Distinct(s')
  {
    hide Put, IndexOf;
    var kept := EvictOldest(s, cap);
    forall i | 0 <= i < n
      ensures s[i].key == h[|h| - n + i].nonce && s[i].key != e.nonce && s[i].key != ""
    {
      assert h[|h| - n + i].nonce != "" && h[|h| - n + i].nonce != e.nonce;
    }
    assert kept == if n == cap then s[1..] else s;
    PutKeepsPositions(kept, e.nonce, e.at + ttl);
  }

  lemma {:induction false} HistoryGrows(h: seq<Use>, before: int, e: Use)
    requires History(h, before) && before <= e.at && 0 <= e.at && e.nonce != ""
    ensures History(h, e.at) && History(h + [e], e.at)
  {
  }

  /** Cleaning turns the window of an earlier time into the window of a later one, and the lookup reads it. */
  lemma {:induction false} CleaningKeepsWindow(s: Store, h: seq<Use>, cap: nat, ttl: int, before: int,
      now: int, nonce: string)
    requires ttl > 0 && before <= now && IsWindow(s, h, cap, ttl, before)
    ensures IsWindow(DropExpired(s, now), h, cap, ttl, now)
    ensures HoldsLive(DropExpired(s, now), nonce, now) <==> UsedInLast(h, WindowSize(h, cap, ttl, now), nonce)
  {
    var n := WindowSize(h, cap, ttl, now);
    WindowSizes(h, cap, ttl, before, now);
    ScanCutsTail(s, h, WindowSize(h, cap, ttl, before), n, ttl, now);
    HoldsLiveIffUsed(DropExpired(s, now), h, n, ttl, now, nonce);
  }

  lemma {:induction false} AcceptingKeepsWindow(s: Store, h: seq<Use>, cap: nat, ttl: int, e: Use)
    requires cap >= 1 && ttl > 0 && e.nonce != "" && 0 <= e.at && IsWindow(s, h, cap, ttl, e.at)
    requires !UsedInLast(h, WindowSize(h, cap, ttl, e.at), e.nonce)
    ensures IsWindow(Put(EvictOldest(s, cap), e.nonce, e.at + ttl), h + [e], cap, ttl, e.at)
  {
    HistoryGrows(h, e.at, e);
    WindowAfterAccepting(h, cap, ttl, e);
    AcceptingSlidesTail(s, h, WindowSize(h, cap, ttl, e.at), cap, ttl, e);
  }

  /** One call at `e.at` on a store that was a window at `before` refuses exactly the window's nonces at `e.at`. */
  lemma {:induction false} ConsumeKeepsWindow(s: Store, h: seq<Use>, cap: nat, ttl: int, before: int, e: Use)
    requires cap >= 1 && ttl > 0 && before <= e.at && e.nonce != "" && 0 <= e.at
    requires IsWindow(s, h, cap, ttl, before)
    ensures var c := ConsumeStep(s, cap, e.nonce, ttl, e.at);
            && (c.isNew <==> !UsedInLast(h, WindowSize(h, cap, ttl, e.at), e.nonce))
            && (c.isNew ==> IsWindow(c.store, h + [e], cap, ttl, e.at))
            && (!c.isNew ==> IsWindow(c.store, h, cap, ttl, e.at))
  {
    hide IsWindow, WindowSize, UsedInLast, DropExpired, HoldsLive, EvictOldest, Put;
    CleaningKeepsWindow(s, h, cap, ttl, before, e.at, e.nonce);
    var live := DropExpired(s, e.at);
    if !UsedInLast(h, WindowSize(h, cap, ttl, e.at), e.nonce) {
      AcceptingKeepsWindow(live, h, cap, ttl, e);
    }
  }

  /** The time of the last of the first `n` attempts, or the epoch before the first. */
  function Clock(es: seq<Use>, n: nat): int
    requires n <= |es|
  {
    if n == 0 then 0 else es[n - 1].at
  }

  lemma EmptyIsWindow(cap: nat, ttl: int)
    ensures IsWindow([], [], cap, ttl, 0)
  {
  }

  /**
   Main result. After any consume-only run the store is exactly the last min(cap, number unexpired)
   accepted uses, in order, without repeats, and the accepted uses are those the map-free reference
   accepts.
   */
  lemma {:induction false} StoreIsWindowOverHistory(es: seq<Use>, n: nat, cap: nat, ttl: int)
    requires ClockedRun(es) && n <= |es| && cap >= 1 && ttl > 0
    ensures var r := RunStore(es, n, cap, ttl);
            IsWindow(r.store, r.accepted, cap, ttl, Clock(es, n)) && r.accepted == Reference(es, n, cap, ttl)
  {
    hide ConsumeStep, IsWindow, WindowSize, UsedInLast;
    if n == 0 {
      EmptyIsWindow(cap, ttl);
    } else {
      StoreIsWindowOverHistory(es, n - 1, cap, ttl);
      var r := RunStore(es, n - 1, cap, ttl);
      ConsumeKeepsWindow(r.store, r.accepted, cap, ttl, Clock(es, n - 1), es[n - 1]);
    }
  }

  /** Hence after every call the store is within its bound, sorted by expiry, and holds no expired entry. */
  lemma {:induction false} StoreIsBoundedSortedAndClean(es: seq<Use>, n: nat, cap: nat, ttl: int)
    requires ClockedRun(es) && n <= |es| && cap >= 1 && ttl > 0
    ensures var s := RunStore(es, n, cap, ttl).store;
            && |s| <= cap
            && (forall i, j :: 0 <= i < j < |s| ==> s[i].val <= s[j].val && s[i].key != s[j].key)
            && (forall i :: 0 <= i < |s| ==> Clock(es, n) <= s[i].val)
  {
    StoreIsWindowOverHistory(es, n, cap, ttl);
    WindowSizes(RunStore(es, n, cap, ttl).accepted, cap, ttl, Clock(es, n), Clock(es, n));
  }

  lemma {:induction false} HeldIffRecent(h: seq<Use>, cap: nat, ttl: int, p: nat, now: int)
    requires Ordered(h) && p < |h|
    ensures |h| - p <= WindowSize(h, cap, ttl, now) <==> now <= h[p].at + ttl && |h| - p <= cap
  {
    UnexpiredIsSuffix(h, |h|, ttl, now);
  }

  /**
   A nonce accepted as number `p` and not accepted since is refused exactly until its lifetime ends
   or `cap` other nonces have been accepted after it.
   */
  lemma {:induction false} RefusedExactlyWhileHeld(es: seq<Use>, n: nat, cap: nat, ttl: int, p: nat, now: int)
    requires ClockedRun(es) && n <= |es| && cap >= 1 && ttl > 0 && Clock(es, n) <= now
    requires p < |RunStore(es, n, cap, ttl).accepted|
    requires var h := RunStore(es, n, cap, ttl).accepted;
             forall j :: p < j < |h| ==> h[j].nonce != h[p].nonce
    ensures var r := RunStore(es, n, cap, ttl);
            var u := r.accepted[p];
            ConsumeStep(r.store, cap, u.nonce, ttl, now).isNew <==> u.at + ttl < now || |r.accepted| - p > cap
  {
    var r := RunStore(es, n, cap, ttl);
    var u := r.accepted[p];
    StoreIsWindowOverHistory(es, n, cap, ttl);
    ConsumeKeepsWindow(r.store, r.accepted, cap, ttl, Clock(es, n), Use(u.nonce, now));
    HeldIffRecent(r.accepted, cap, ttl, p, now);
    var w := WindowSize(r.accepted, cap, ttl, now);
    if UsedInLast(r.accepted, w, u.nonce) {
      var i :| |r.accepted| - w <= i < |r.accepted| && r.accepted[i].nonce == u.nonce;
      assert i <= p;
    }
  }

  /**
   From a store within its capacity, one consumption breaks the bound exactly when it appends a new key to
   a full store whose front is not evicted: there is none, or its key is the empty string.
   */
  lemma {:induction false} BoundBreaksExactly(s: Store, cap: nat, nonce: string, ttl: int, now: int)
    requires |s| <= cap
    ensures var live := DropExpired(s, now);
            |ConsumeStep(s, cap, nonce, ttl, now).store| > cap <==>
            |live| == cap && (live == [] || live[0].key == "") && !OrderedMap.Has(live, nonce)
  {
  }

  /** The nonempty-nonce hypothesis is needed: an empty nonce at the front is never evicted, and the bound breaks. */
  lemma {:induction false} EmptyNonceBreaksTheBound()
    ensures var es := [Use("", 0), Use("a", 0)];
            |RunStore(es, 2, 1, 10).store| == 2
  {
    hide ConsumeStep, DropExpired, Put, IndexOf;
    var es := [Use("", 0), Use("a", 0)];
    var s := [Entry("", 10)];
    assert ConsumeStep([], 1, "", 10, 0).store == s by { FirstUseIsStored(""); }
    assert RunStore(es, 1, 1, 10).store == s;
    SecondUseIsAppended();
  }

  lemma FirstUseIsStored(nonce: string)
    ensures ConsumeStep([], 1, nonce, 10, 0).store == [Entry(nonce, 10)]
  {
  }

  lemma SecondUseIsAppended()
    ensures ConsumeStep([Entry("", 10)], 1, "a", 10, 0).store == [Entry("", 10), Entry("a", 10)]
  {
    assert DropExpired([Entry("", 10)], 0) == [Entry("", 10)];
  }
}
