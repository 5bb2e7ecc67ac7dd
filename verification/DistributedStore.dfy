/**
 The replay store that many nodes share (src/integrations/auth/replay-store.ts:137-216). Each node
 has its own key prefix and its own health flag; the backend map is one shared object. The order of
 the backend's keys is never used, so it is a plain map.
 */
module DistributedStore {
  import opened Wrappers

  type Backend = map<string, int>

  /** How an asynchronous `consume` settles: it rejects, or resolves to false or true. */
  datatype Outcome = Unavailable | Replayed | Consumed

  datatype Settled = Settled(backend: Backend, outcome: Outcome)

  /** A stored expiry of 0 is falsy in the source and reads as absent. */
  predicate HeldIn(b: Backend, key: string, now: int) {
    key in b && b[key] != 0 && now <= b[key]
  }

  /** The atomic check-and-set: unhealthy nodes throw before they look. */
  function ConsumeKey(b: Backend, healthy: bool, key: string, ttl: int, now: int): Settled {
    if !healthy then Settled(b, Unavailable)
    else if HeldIn(b, key, now) then Settled(b, Replayed)
    else Settled(b[key := now + ttl], Consumed)
  }

  /** A lookup deletes the entry it finds expired. */
  function AfterLookup(b: Backend, healthy: bool, key: string, now: int): Backend {
    if healthy && key in b && b[key] != 0 && now > b[key] then b - {key} else b
  }

  class SharedBackend {
    var entries: Backend

    constructor ()
      ensures entries == map[]
    {
      entries := map[];
    }
  }

  class DistributedReplayProtectionStore {
    const prefix: string
    const clusterBackend: SharedBackend
    var isHealthy: bool

    /** An absent or empty prefix means the default one, and an absent backend a new empty one. */
    constructor (keyPrefix: string, sharedBackend: Option<SharedBackend>, simulateFailure: bool)
      ensures prefix == if keyPrefix == "" then "sov:replay:" else keyPrefix
      ensures sharedBackend.Some? ==> clusterBackend == sharedBackend.value
      ensures sharedBackend.None? ==> fresh(clusterBackend) && clusterBackend.entries == map[]
      ensures isHealthy == !simulateFailure
    {
      prefix := if keyPrefix == "" then "sov:replay:" else keyPrefix;
      if sharedBackend.Some? {
        clusterBackend := sharedBackend.value;
      } else {
        clusterBackend := new SharedBackend();
      }
      isHealthy := !simulateFailure;
    }

    method SetHealthy(healthy: bool)
      modifies this`isHealthy
      ensures isHealthy == healthy
    {
      isHealthy := healthy;
    }

    /** None is the exception thrown by an unhealthy node. */
    method Has(nonce: string, now: int) returns (present: Option<bool>)
      modifies clusterBackend
      ensures present == if !isHealthy then None
                         else Some(HeldIn(old(clusterBackend.entries), prefix + nonce, now))
      ensures clusterBackend.entries == AfterLookup(old(clusterBackend.entries), isHealthy, prefix + nonce, now)
    {
      if !isHealthy { return None; }
      var key := prefix + nonce;
      if key !in clusterBackend.entries || clusterBackend.entries[key] == 0 { return Some(false); }
      if now > clusterBackend.entries[key] {
        clusterBackend.entries := clusterBackend.entries - {key};
        return Some(false);
      }
      return Some(true);
    }

    method Record(nonce: string, ttlMs: int, now: int) returns (ok: bool)
      modifies clusterBackend
      ensures ok == isHealthy
      ensures clusterBackend.entries == if ok then old(clusterBackend.entries)[prefix + nonce := now + ttlMs]
                                        else old(clusterBackend.entries)
    {
      if !isHealthy { return false; }
      clusterBackend.entries := clusterBackend.entries[prefix + nonce := now + ttlMs];
      return true;
    }

    method Consume(nonce: string, ttlMs: int, now: int) returns (outcome: Outcome)
      modifies clusterBackend
      ensures Settled(clusterBackend.entries, outcome)
              == ConsumeKey(old(clusterBackend.entries), isHealthy, prefix + nonce, ttlMs, now)
    {
      if !isHealthy { return Unavailable; }
      var key := prefix + nonce;
      if key in clusterBackend.entries {
        var existing := clusterBackend.entries[key];
        if existing != 0 && now <= existing { return Replayed; }
      }
      clusterBackend.entries := clusterBackend.entries[key := now + ttlMs];
      return Consumed;
    }

    method Health() returns (healthy: bool, entryCount: Option<nat>)
      ensures healthy == isHealthy
      ensures entryCount == if isHealthy then Some(|clusterBackend.entries|) else None
    {
      if !isHealthy { return false, None; }
      return true, Some(|clusterBackend.entries|);
    }
  }

  /** Nodes that do not share a prefix do not see each other's nonces. */
  lemma UnsharedPrefixesBothConsume(p: string, q: string, nonce: string, ttl: int, now: int)
    requires p != q
    ensures var first := ConsumeKey(map[], true, p + nonce, ttl, now);
            var second := ConsumeKey(first.backend, true, q + nonce, ttl, now);
            first.outcome == Consumed && second.outcome == Consumed
  {
    assert |p| == |q| ==> (p + nonce)[..|p|] == p && (q + nonce)[..|q|] == q;
  }

  /** When each outcome arises, and what it leaves of every key. */
  lemma {:induction false} SettlingIsExact(b: Backend, healthy: bool, key: string, ttl: int, now: int, other: string)
    ensures var s := ConsumeKey(b, healthy, key, ttl, now);
            && (s.outcome == Unavailable <==> !healthy)
            && (s.outcome == Replayed <==> healthy && key in b && b[key] != 0 && now <= b[key])
            && (s.outcome == Consumed ==> key in s.backend && s.backend[key] == now + ttl)
            && (s.outcome != Consumed ==> s.backend == b)
            && (other != key ==> (other in s.backend <==> other in b) && (other in b ==> s.backend[other] == b[other]))
  {
  }

  /** A lookup on a healthy node forgets the entry it asks for exactly when that has expired, and no other. */
  lemma {:induction false} LookupForgetsExactly(b: Backend, healthy: bool, key: string, now: int, other: string)
    ensures var r := AfterLookup(b, healthy, key, now);
            && (other in r <==> other in b && !(healthy && other == key && b[other] != 0 && b[other] < now))
            && (other in r ==> r[other] == b[other])
  {
  }
}
