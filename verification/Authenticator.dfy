/**
 The authenticator object (src/integrations/auth/credentials.ts:51-189): its replaceable replay store
 and the synchronous check, on either kind of store.
 */
module Authenticator {
  import opened Wrappers
  import opened Credentials
  import Local = ReplayStore
  import Shared = DistributedStore

  datatype ReplayProtectionStore =
    | InMemory(memory: Local.InMemoryReplayProtectionStore)
    | Distributed(node: Shared.DistributedReplayProtectionStore)
  {
    /** The one object that consuming a nonce may change. */
    ghost function State(): object {
      match this
      case InMemory(memory) => memory
      case Distributed(node) => node.clusterBackend
    }
  }

  class EcosystemAuthenticator {
    const env: Env
    var replayStore: ReplayProtectionStore

    constructor (env: Env)
      ensures this.env == env && replayStore.InMemory? && fresh(replayStore.memory)
      ensures replayStore.memory.store == [] && replayStore.memory.maxEntries == 100_000
    {
      this.env := env;
      var memory := new Local.InMemoryReplayProtectionStore(100_000);
      replayStore := InMemory(memory);
    }

    method SetReplayStore(store: ReplayProtectionStore)
      modifies this`replayStore
      ensures replayStore == store
    {
      replayStore := store;
    }

    method ResetReplayStore()
      modifies this`replayStore
      ensures replayStore.InMemory? && fresh(replayStore.memory) && replayStore.memory.store == []
    {
      var memory := new Local.InMemoryReplayProtectionStore(100_000);
      replayStore := InMemory(memory);
    }

    /**
     On an in-memory store this is one `VerifyStep`. On a distributed store the answer to a request that
     passes the gate is always "unavailable", because the consumption only yields a promise; the
     consumption itself has run by then, so the nonce is spent.
     */
    method VerifyCredentials(creds: EcosystemCredentials, body: Option<string>,
                             customStore: Option<ReplayProtectionStore>, now: int)
      returns (result: AuthResult)
      modifies (if customStore.Some? then customStore.value else replayStore).State()
      ensures var chosen := old(if customStore.Some? then customStore.value else replayStore);
              match chosen
              case InMemory(m) =>
                Verified(m.store, result) == VerifyStep(env, old(m.store), m.maxEntries, Attempt(creds, body, now))
              case Distributed(node) =>
                var refusal := Gate(env, creds, now);
                var before := old(node.clusterBackend.entries);
                var spent := Shared.ConsumeKey(before, old(node.isHealthy), node.prefix + creds.nonce,
                    MAX_CLOCK_SKEW_MS, now);
                && result == Refused(if refusal.Some? then refusal.value else ReplayStoreUnavailable)
                && node.clusterBackend.entries == (if refusal.Some? then before else spent.backend)
    {
      var entity := AuthorizedEntity(creds.serviceId);
      if entity.None? { return Refused(UnknownService); }
      if entity.value.businessId != creds.businessId { return Refused(UnknownBusiness); }
      var requested := env.parseTime(creds.timestamp);
      if requested.None? || now - requested.value > MAX_CLOCK_SKEW_MS || requested.value - now > MAX_CLOCK_SKEW_MS {
        return Refused(ExpiredTimestamp);
      }
      var store := if customStore.Some? then customStore.value else replayStore;
      match store {
        case InMemory(m) =>
          var consumed := m.Consume(creds.nonce, MAX_CLOCK_SKEW_MS, now);
          if !consumed { return Refused(ReplayDetected); }
        case Distributed(node) =>
          var promise := node.Consume(creds.nonce, MAX_CLOCK_SKEW_MS, now);
          return Refused(ReplayStoreUnavailable);
      }
      if creds.signature.Some? && creds.signature.value != "" && body.Some? {
        var data := creds.timestamp + ":" + creds.nonce + ":" + body.value;
        var provided := env.fromHex(creds.signature.value);
        var expected := env.fromHex(env.digest(creds.serviceId, data));
        if |provided| != |expected| || provided != expected { return Refused(InvalidSignature); }
      }
      return Authenticated(entity.value.displayName);
    }
  }
}
