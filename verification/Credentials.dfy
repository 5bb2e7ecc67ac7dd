/**
 Credential checks of the ecosystem authenticator (src/integrations/auth/credentials.ts): the
 registry and freshness gate, the signature verdict, and the synchronous path over the in-memory
 replay store, with its single-use theorem over whole runs.
 */
module Credentials {
  import opened Wrappers
  import opened JsStrings
  import opened OrderedMap
  import opened ReplayStore

  /** Five minutes, used both as the freshness bound and as the nonce lifetime. */
  const MAX_CLOCK_SKEW_MS: int := 5 * 60 * 1000

  datatype EcosystemCredentials = EcosystemCredentials(
    serviceId: string, businessId: string, timestamp: string, nonce: string, signature: Option<string>)

  datatype ErrorCode =
    | UnknownService | UnknownBusiness | ExpiredTimestamp | ReplayDetected
    | ReplayStoreUnavailable | InvalidApiKey | InvalidSignature

  datatype AuthResult = Authenticated(entityName: string) | Refused(code: ErrorCode)

  datatype Entity = Entity(businessId: string, displayName: string)

  /**
   The foreign calls: date parsing (None for an invalid date), the keyed digest with the secrets, and hex decoding.
   */
  datatype Env = Env(
    parseTime: string -> Option<int>,
    digest: (string, string) -> string,
    fromHex: string -> seq<bv8>)

  function AuthorizedEntity(serviceId: string): Option<Entity> {
    if serviceId == "sovereign-os" then
      Some(Entity("sovereign-core-hq", "Sovereign OS Kernel & Executive Services"))
    else if serviceId == "metro-task-force" then
      Some(Entity("mtf-hq", "Metro Task Force Operations & Telemetry Feed"))
    else if serviceId == "compliance-labs" then
      Some(Entity("compliance-labs-inc", "Compliance Labs Audit & Attestation Gateway"))
    else if serviceId == "audioblue" then
      Some(Entity("audioblue-media", "AudioBlue Media CI/CD & Build Pipeline"))
    else if serviceId == "gridd-corp" then
      Some(Entity("gridd-holding-corp", "GriDD Corporation Fleet Governance & Posture Aggregator"))
    else None
  }

  predicate IsFresh(env: Env, c: EcosystemCredentials, now: int) {
    var requested := env.parseTime(c.timestamp);
    requested.Some? && -MAX_CLOCK_SKEW_MS <= now - requested.value <= MAX_CLOCK_SKEW_MS
  }

  /** The checks made before the store is touched; None lets the request through. */
  function Gate(env: Env, c: EcosystemCredentials, now: int): Option<ErrorCode> {
    var entity := AuthorizedEntity(c.serviceId);
    if entity.None? then Some(UnknownService)
    else if entity.value.businessId != c.businessId then Some(UnknownBusiness)
    else if !IsFresh(env, c, now) then Some(ExpiredTimestamp)
    else None
  }

  /** The text that is signed. */
  function Joined(c: EcosystemCredentials, body: string): string {
    c.timestamp + ":" + c.nonce + ":" + body
  }

  /** The verdict once the nonce is consumed: a signature counts only with a body to verify it against. */
  function Verdict(env: Env, c: EcosystemCredentials, body: Option<string>): AuthResult {
    var entity := AuthorizedEntity(c.serviceId);
    if entity.None? then Refused(UnknownService)
    else if c.signature.Some? && c.signature.value != "" && body.Some? then
      var expected := env.digest(c.serviceId, Joined(c, body.value));
      if env.fromHex(c.signature.value) != env.fromHex(expected) then Refused(InvalidSignature)
      else Authenticated(entity.value.displayName)
    else Authenticated(entity.value.displayName)
  }

  /** The keyed digest of a service tells any two texts apart, in bytes. */
  ghost predicate DigestIsFaithful(env: Env, serviceId: string) {
    forall d, d' :: env.fromHex(env.digest(serviceId, d)) == env.fromHex(env.digest(serviceId, d')) ==> d == d'
  }

  /**
   Of two requests of a service under one signature, when the first is authenticated, the second is too if
   and only if timestamp, nonce and body join to the same text.
   */
  lemma {:induction false} SignatureBindsTheJoinedText(env: Env, c: EcosystemCredentials, body: string,
      d: EcosystemCredentials, other: string)
    requires c.signature.Some? && c.signature.value != "" && d.signature == c.signature
    requires d.serviceId == c.serviceId && DigestIsFaithful(env, c.serviceId)
    requires Verdict(env, c, Some(body)).Authenticated?
    ensures Verdict(env, d, Some(other)).Authenticated? <==> Joined(d, other) == Joined(c, body)
    ensures !Verdict(env, d, Some(other)).Authenticated? ==> Verdict(env, d, Some(other)) == Refused(InvalidSignature)
  {
  }

  /** In particular, a signature authenticates its credentials with one body only. */
  lemma {:induction false} SignatureBindsTheBody(env: Env, c: EcosystemCredentials, body: string, other: string)
    requires c.signature.Some? && c.signature.value != "" && DigestIsFaithful(env, c.serviceId)
    requires Verdict(env, c, Some(body)).Authenticated? && other != body
    ensures Verdict(env, c, Some(other)) == Refused(InvalidSignature)
  {
    SignatureBindsTheJoinedText(env, c, body, c, other);
    var n := |Joined(c, "")|;
    assert Joined(c, body)[n..] == body && Joined(c, other)[n..] == other;
  }

  /** Joined texts with one timestamp and no colon in either nonce have the same parts. */
  lemma {:induction false} ColonFreeNoncesJoinUniquely(c: EcosystemCredentials, body: string,
      d: EcosystemCredentials, other: string)
    requires c.timestamp == d.timestamp && ':' !in c.nonce && ':' !in d.nonce
    ensures Joined(c, body) == Joined(d, other) <==> c.nonce == d.nonce && body == other
  {
    var n := |c.timestamp| + 1;
    if Joined(c, body) == Joined(d, other) {
      assert Joined(c, body)[n..] == c.nonce + [':'] + body && Joined(d, other)[n..] == d.nonce + [':'] + other;
      FirstSeparatorSplits(c.nonce, body, d.nonce, other, ':');
    }
  }

  /** The condition on nonces is needed: a colon can move from the body into the nonce under one signature. */
  lemma {:induction false} ColonsMoveBetweenNonceAndBody(env: Env, c: EcosystemCredentials, moved: string, rest: string)
    ensures Verdict(env, c.(nonce := c.nonce + ":" + moved), Some(rest)) == Verdict(env, c, Some(moved + ":" + rest))
  {
    assert Joined(c.(nonce := c.nonce + ":" + moved), rest) == Joined(c, moved + ":" + rest);
  }

  // ---------------------------------------------------------------- the synchronous path

  datatype Attempt = Attempt(creds: EcosystemCredentials, body: Option<string>, at: int)

  datatype Verified = Verified(store: Store, result: AuthResult)

  function VerifyStep(env: Env, s: Store, cap: nat, a: Attempt): Verified {
    var refusal := Gate(env, a.creds, a.at);
    if refusal.Some? then Verified(s, Refused(refusal.value))
    else
      var c := ConsumeStep(s, cap, a.creds.nonce, MAX_CLOCK_SKEW_MS, a.at);
      Verified(c.store, if c.isNew then Verdict(env, a.creds, a.body) else Refused(ReplayDetected))
  }

  // ---------------------------------------------------------------- the answer, from the request alone

  /** The registered services, their businesses and their names. */
  predicate Registered(serviceId: string, businessId: string, displayName: string) {
    || (serviceId == "sovereign-os" && businessId == "sovereign-core-hq"
        && displayName == "Sovereign OS Kernel & Executive Services")
    || (serviceId == "metro-task-force" && businessId == "mtf-hq"
        && displayName == "Metro Task Force Operations & Telemetry Feed")
    || (serviceId == "compliance-labs" && businessId == "compliance-labs-inc"
        && displayName == "Compliance Labs Audit & Attestation Gateway")
    || (serviceId == "audioblue" && businessId == "audioblue-media"
        && displayName == "AudioBlue Media CI/CD & Build Pipeline")
    || (serviceId == "gridd-corp" && businessId == "gridd-holding-corp"
        && displayName == "GriDD Corporation Fleet Governance & Posture Aggregator")
  }

  /** Some service is registered under this id. */
  ghost predicate KnownService(serviceId: string) {
    exists businessId, displayName :: Registered(serviceId, businessId, displayName)
  }

  /** The service is registered for this business. */
  ghost predicate KnownBusiness(serviceId: string, businessId: string) {
    exists displayName :: Registered(serviceId, businessId, displayName)
  }

  /** The timestamp parses, and is at most five minutes from the clock on either side. */
  predicate WithinFiveMinutes(env: Env, timestamp: string, now: int) {
    && env.parseTime(timestamp).Some?
    && now - 300_000 <= env.parseTime(timestamp).value <= now + 300_000
  }

  /** A signature and a body came along, and the signature is not the digest of timestamp, nonce and body. */
  predicate BadlySigned(env: Env, c: EcosystemCredentials, body: Option<string>) {
    && c.signature.Some? && c.signature.value != "" && body.Some?
    && env.fromHex(c.signature.value)
       != env.fromHex(env.digest(c.serviceId, c.timestamp + ":" + c.nonce + ":" + body.value))
  }

  lemma {:induction false} RegistryIsExact(serviceId: string, businessId: string, displayName: string)
    ensures AuthorizedEntity(serviceId) == Some(Entity(businessId, displayName))
            <==> Registered(serviceId, businessId, displayName)
  {
  }

  lemma {:induction false} KnownServiceIsRegistered(serviceId: string)
    ensures AuthorizedEntity(serviceId).Some? <==> KnownService(serviceId)
  {
    hide Registered, AuthorizedEntity;
    var e := AuthorizedEntity(serviceId);
    if e.Some? { RegistryIsExact(serviceId, e.value.businessId, e.value.displayName); }
    if b, n :| Registered(serviceId, b, n) { RegistryIsExact(serviceId, b, n); }
  }

  /** What lets a request through to the store, and which refusal stops it. */
  lemma {:induction false} GateIsExact(env: Env, c: EcosystemCredentials, now: int)
    ensures Gate(env, c, now) ==
              if !KnownService(c.serviceId) then Some(UnknownService)
              else if !KnownBusiness(c.serviceId, c.businessId) then Some(UnknownBusiness)
              else if !WithinFiveMinutes(env, c.timestamp, now) then Some(ExpiredTimestamp)
              else None
  {
    hide Registered, AuthorizedEntity;
    var e := AuthorizedEntity(c.serviceId);
    if e.Some? { RegistryIsExact(c.serviceId, e.value.businessId, e.value.displayName); }
    KnownServiceIsRegistered(c.serviceId);
    forall name | Registered(c.serviceId, c.businessId, name)
      ensures e == Some(Entity(c.businessId, name))
    {
      RegistryIsExact(c.serviceId, c.businessId, name);
    }
  }

  /**
   With a consumed nonce, a known request is authenticated under its registered name exactly when it is not badly
   signed.
   */
  lemma {:induction false} VerdictIsExact(env: Env, c: EcosystemCredentials, body: Option<string>)
    requires KnownService(c.serviceId)
    ensures Verdict(env, c, body).Refused? <==> BadlySigned(env, c, body)
    ensures Verdict(env, c, body).Refused? ==> Verdict(env, c, body) == Refused(InvalidSignature)
    ensures Verdict(env, c, body).Authenticated? ==>
              exists businessId :: Registered(c.serviceId, businessId, Verdict(env, c, body).entityName)
  {
    hide Registered, AuthorizedEntity;
    KnownServiceIsRegistered(c.serviceId);
    var e := AuthorizedEntity(c.serviceId);
    RegistryIsExact(c.serviceId, e.value.businessId, e.value.displayName);
  }

  /** The nonce is held in the store, with an expiry that has not passed. */
  ghost predicate HeldNow(s: Store, nonce: string, now: int) {
    exists i :: 0 <= i < |s| && s[i].key == nonce && s[i].val != 0 && now <= s[i].val
  }

  /**
   The whole answer of a synchronous check, from the request, the store and the clock. Only the last two cases
   consume the nonce.
   */
  lemma {:induction false} AnswerIsExact(env: Env, s: Store, cap: nat, a: Attempt)
    requires Distinct(s)
    ensures var c, v := a.creds, VerifyStep(env, s, cap, a);
            if !KnownService(c.serviceId) then v == Verified(s, Refused(UnknownService))
            else if !KnownBusiness(c.serviceId, c.businessId) then v == Verified(s, Refused(UnknownBusiness))
            else if !WithinFiveMinutes(env, c.timestamp, a.at) then v == Verified(s, Refused(ExpiredTimestamp))
            else if HeldNow(s, c.nonce, a.at) then v.result == Refused(ReplayDetected)
            else
              && Entry(c.nonce, a.at + 300_000) in v.store
              && if BadlySigned(env, c, a.body) then v.result == Refused(InvalidSignature)
                 else v.result.Authenticated? && Registered(c.serviceId, c.businessId, v.result.entityName)
  {
    hide Gate, Verdict, ConsumeStep, Registered, BadlySigned;
    GateIsExact(env, a.creds, a.at);
    ConsumeIsExact(s, cap, a.creds.nonce, MAX_CLOCK_SKEW_MS, a.at);
    if KnownService(a.creds.serviceId) {
      VerdictIsExact(env, a.creds, a.body);
      OneBusinessEach(a.creds.serviceId);
    }
  }

  /** A service is registered once. */
  lemma {:induction false} OneBusinessEach(serviceId: string)
    ensures forall b, n, b', n' :: Registered(serviceId, b, n) && Registered(serviceId, b', n') ==> b == b' && n == n'
  {
    hide Registered, AuthorizedEntity;
    forall b, n | Registered(serviceId, b, n)
      ensures AuthorizedEntity(serviceId) == Some(Entity(b, n))
    {
      RegistryIsExact(serviceId, b, n);
    }
  }

  /** A run of attempts: nonempty nonces, a clock that starts at or after the epoch and never goes back. */
  ghost predicate ClockedAttempts(run: seq<Attempt>) {
    && (forall i :: 0 <= i < |run| ==> run[i].creds.nonce != "" && 0 <= run[i].at)
    && (forall i, j :: 0 <= i < j < |run| ==> run[i].at <= run[j].at)
  }

  /** The attempt reaches the store and its nonce is consumed there. */
  predicate Consumes(env: Env, s: Store, cap: nat, a: Attempt) {
    && Gate(env, a.creds, a.at).None?
    && ConsumeStep(s, cap, a.creds.nonce, MAX_CLOCK_SKEW_MS, a.at).isNew
  }

  /** The store, the nonces consumed so far in order, and the time the store was last touched. */
  datatype Progress = Progress(store: Store, used: seq<Use>, touched: int)

  function VerifyRun(env: Env, run: seq<Attempt>, n: nat, cap: nat): Progress
    requires n <= |run|
  {
    if n == 0 then Progress([], [], 0)
    else
      var p := VerifyRun(env, run, n - 1, cap);
      var a := run[n - 1];
      Progress(
        VerifyStep(env, p.store, cap, a).store,
        if Consumes(env, p.store, cap, a) then p.used + [Use(a.creds.nonce, a.at)] else p.used,
        if Gate(env, a.creds, a.at).None? then a.at else p.touched)
  }

  function ResultOf(env: Env, run: seq<Attempt>, i: nat, cap: nat): AuthResult
    requires i < |run|
  {
    VerifyStep(env, VerifyRun(env, run, i, cap).store, cap, run[i]).result
  }

  /** Between two attempts the store is the window over the consumed nonces, as of its last touch. */
  lemma {:induction false} RunKeepsWindow(env: Env, run: seq<Attempt>, n: nat, cap: nat)
    requires ClockedAttempts(run) && n <= |run| && cap >= 1
    ensures var p := VerifyRun(env, run, n, cap);
            && IsWindow(p.store, p.used, cap, MAX_CLOCK_SKEW_MS, p.touched)
            && p.touched <= if n == 0 then 0 else run[n - 1].at
  {
    hide ConsumeStep, IsWindow, WindowSize, UsedInLast, Gate;
    if n == 0 {
      EmptyIsWindow(cap, MAX_CLOCK_SKEW_MS);
    } else {
      RunKeepsWindow(env, run, n - 1, cap);
      var p, a := VerifyRun(env, run, n - 1, cap), run[n - 1];
      assert n > 1 ==> run[n - 2].at <= run[n - 1].at;
      ConsumeKeepsWindow(p.store, p.used, cap, MAX_CLOCK_SKEW_MS, p.touched, Use(a.creds.nonce, a.at));
    }
  }

  /** The list of consumed nonces only grows. */
  lemma {:induction false} UsedOnlyGrows(env: Env, run: seq<Attempt>, i: nat, j: nat, cap: nat)
    requires i <= j <= |run|
    ensures VerifyRun(env, run, i, cap).used <= VerifyRun(env, run, j, cap).used
  {
    hide ConsumeStep, Gate;
    if i < j { UsedOnlyGrows(env, run, i, j - 1, cap); }
  }

  lemma WindowIsOrdered(s: Store, h: seq<Use>, cap: nat, ttl: int, now: int)
    requires IsWindow(s, h, cap, ttl, now)
    ensures Ordered(h)
  {
  }

  /** A nonce consumed by attempt `i` is still held at attempt `j`, within its lifetime and the capacity. */
  lemma {:induction false} StillHeld(env: Env, run: seq<Attempt>, i: nat, j: nat, cap: nat)
    requires ClockedAttempts(run) && i < j < |run| && cap >= 1
    requires Consumes(env, VerifyRun(env, run, i, cap).store, cap, run[i])
    requires |VerifyRun(env, run, j, cap).used| - |VerifyRun(env, run, i, cap).used| <= cap
    requires run[j].at <= run[i].at + MAX_CLOCK_SKEW_MS
    ensures !ConsumeStep(VerifyRun(env, run, j, cap).store, cap, run[i].creds.nonce, MAX_CLOCK_SKEW_MS, run[j].at).isNew
  {
    hide ConsumeStep, IsWindow, WindowSize, Gate;
    var p, q := VerifyRun(env, run, i, cap), VerifyRun(env, run, j, cap);
    var k := |p.used|;
    var u := Use(run[i].creds.nonce, run[i].at);
    UsedOnlyGrows(env, run, i + 1, j, cap);
    assert VerifyRun(env, run, i + 1, cap).used == p.used + [u];
    assert q.used[k] == u;
    RunKeepsWindow(env, run, j, cap);
    ConsumeKeepsWindow(q.store, q.used, cap, MAX_CLOCK_SKEW_MS, q.touched, Use(u.nonce, run[j].at));
    WindowIsOrdered(q.store, q.used, cap, MAX_CLOCK_SKEW_MS, q.touched);
    HeldIffRecent(q.used, cap, MAX_CLOCK_SKEW_MS, k, run[j].at);
  }

  /**
   Single use over whole runs. Credentials stamped no later than the clock at their first acceptance
   are refused at every later presentation, at any time, as long as fewer than `cap` other nonces were
   consumed after theirs within their lifetime; and the refusal consumes nothing.
   */
  lemma {:induction false} AcceptedCredentialsAreSingleUse(env: Env, run: seq<Attempt>, i: nat, j: nat, cap: nat)
    requires ClockedAttempts(run) && i < j < |run| && cap >= 1
    requires Consumes(env, VerifyRun(env, run, i, cap).store, cap, run[i])
    requires run[j].creds.nonce == run[i].creds.nonce && run[j].creds.timestamp == run[i].creds.timestamp
    requires env.parseTime(run[i].creds.timestamp).value <= run[i].at
    requires run[j].at <= run[i].at + MAX_CLOCK_SKEW_MS ==>
               |VerifyRun(env, run, j, cap).used| - |VerifyRun(env, run, i, cap).used| <= cap
    ensures ResultOf(env, run, j, cap).Refused?
    ensures !Consumes(env, VerifyRun(env, run, j, cap).store, cap, run[j])
  {
    hide ConsumeStep, VerifyRun;
    if run[j].at <= run[i].at + MAX_CLOCK_SKEW_MS {
      StillHeld(env, run, i, j, cap);
    }
  }

  /** The credentials, consumed at `first` in an empty store, are consumed again at `again`. */
  predicate ConsumedTwice(env: Env, c: EcosystemCredentials, cap: nat, first: int, again: int) {
    && Gate(env, c, first).None?
    && first <= again
    && Consumes(env, VerifyStep(env, [], cap, Attempt(c, None, first)).store, cap, Attempt(c, None, again))
  }

  /**
   The timestamp hypothesis is exact: acceptable credentials can be consumed a second time if and only
   if they were stamped later than the clock at their first use.
   */
  lemma {:induction false} ReusableExactlyWhenPostdated(env: Env, c: EcosystemCredentials, cap: nat, first: int)
    requires Gate(env, c, first).None? && c.nonce != "" && cap >= 1 && 0 <= first
    ensures (exists again :: ConsumedTwice(env, c, cap, first, again)) <==> first < env.parseTime(c.timestamp).value
  {
    var stamp := env.parseTime(c.timestamp).value;
    var held := [Entry(c.nonce, first + MAX_CLOCK_SKEW_MS)];
    assert VerifyStep(env, [], cap, Attempt(c, None, first)).store == held;
    if first < stamp {
      var again := first + MAX_CLOCK_SKEW_MS + 1;
      assert DropExpired(held, again) == [];
      assert ConsumedTwice(env, c, cap, first, again);
    }
    forall again | ConsumedTwice(env, c, cap, first, again)
      ensures first < stamp
    {
      if again <= first + MAX_CLOCK_SKEW_MS {
        assert DropExpired(held, again) == held;
      }
    }
  }
}
