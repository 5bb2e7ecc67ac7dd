/**
 The asynchronous check as a concurrent protocol (src/integrations/auth/credentials.ts:194-282 over
 src/integrations/auth/replay-store.ts:152-211). Any number of requests on any number of nodes
 interleave at their await points over one shared backend and a clock that never goes back. A run is
 any sequence of events; an event that is not enabled leaves the world as it is, so every
 interleaving is a run.
 */
module AsyncProtocol {
  import opened Wrappers
  import opened Credentials
  import opened DistributedStore

  datatype Node = Node(prefix: string, healthy: bool)

  /** Where a request stands: past the gate, past the health read, past the consumption, or answered. */
  datatype Phase =
    | FreshChecked
    | HealthChecked(healthy: bool)
    | NonceConsumed
    | Done(result: AuthResult)

  /** A request, with the readings it made on the way. */
  datatype Request = Request(
    node: nat, creds: EcosystemCredentials, body: Option<string>, phase: Phase,
    startedAt: int, healthRead: Option<bool>, storeHealth: Option<bool>, storeAt: int)

  datatype World = World(now: int, nodes: seq<Node>, backend: Backend, requests: seq<Request>)

  datatype Event =
    | Tick(to: int)
    | SetHealthy(node: nat, healthy: bool)
    | Lookup(node: nat, nonce: string)
    | Submit(node: nat, creds: EcosystemCredentials, body: Option<string>)
    | ReadHealth(request: nat)
    | Consume(request: nat)
    | Finish(request: nat)

  function KeyOf(w: World, r: Request): string
    requires r.node < |w.nodes|
  {
    w.nodes[r.node].prefix + r.creds.nonce
  }

  function Settle(r: Request, phase: Phase, healthy: bool, now: int): Request {
    r.(phase := phase, storeHealth := Some(healthy), storeAt := now)
  }

  function ConsumeEvent(w: World, i: nat): World
    requires i < |w.requests| && w.requests[i].phase.HealthChecked? && w.requests[i].node < |w.nodes|
  {
    var r := w.requests[i];
    if !r.phase.healthy then
      w.(requests := w.requests[i := r.(phase := Done(Refused(ReplayStoreUnavailable)))])
    else
      var healthy := w.nodes[r.node].healthy;
      var s := ConsumeKey(w.backend, healthy, KeyOf(w, r), MAX_CLOCK_SKEW_MS, w.now);
      var phase := match s.outcome
        case Unavailable => Done(Refused(ReplayStoreUnavailable))
        case Replayed => Done(Refused(ReplayDetected))
        case Consumed => NonceConsumed;
      w.(backend := s.backend, requests := w.requests[i := Settle(r, phase, healthy, w.now)])
  }

  function Step(env: Env, w: World, e: Event): World {
    match e
    case Tick(to) =>
      if w.now <= to then w.(now := to) else w
    case SetHealthy(k, healthy) =>
      if k < |w.nodes| then w.(nodes := w.nodes[k := w.nodes[k].(healthy := healthy)]) else w
    case Lookup(k, nonce) =>
      if k < |w.nodes|
      then w.(backend := AfterLookup(w.backend, w.nodes[k].healthy, w.nodes[k].prefix + nonce, w.now))
      else w
    case Submit(k, creds, body) =>
      if k < |w.nodes| then
        var refusal := Gate(env, creds, w.now);
        var phase := if refusal.Some? then Done(Refused(refusal.value)) else FreshChecked;
        w.(requests := w.requests + [Request(k, creds, body, phase, w.now, None, None, w.now)])
      else w
    case ReadHealth(i) =>
      if i < |w.requests| && w.requests[i].phase.FreshChecked? && w.requests[i].node < |w.nodes| then
        var healthy := w.nodes[w.requests[i].node].healthy;
        w.(requests := w.requests[i := w.requests[i].(phase := HealthChecked(healthy), healthRead := Some(healthy))])
      else w
    case Consume(i) =>
      if i < |w.requests| && w.requests[i].phase.HealthChecked? && w.requests[i].node < |w.nodes|
      then ConsumeEvent(w, i) else w
    case Finish(i) =>
      if i < |w.requests| && w.requests[i].phase.NonceConsumed?
      then w.(requests := w.requests[i := w.requests[i].(phase :=
          Done(Verdict(env, w.requests[i].creds, w.requests[i].body)))])
      else w
  }

  function Execute(env: Env, w: World, es: seq<Event>, n: nat): World
    requires n <= |es|
  {
    if n == 0 then w else Step(env, Execute(env, w, es, n - 1), es[n - 1])
  }

  /** A starting world: no request yet, a clock at or after the epoch. */
  ghost predicate Initial(w: World) {
    w.requests == [] && 0 <= w.now
  }

  /** The request's nonce was consumed: it is waiting to be answered, was authenticated, or failed on its signature. */
  predicate HasConsumed(r: Request) {
    || r.phase.NonceConsumed?
    || (r.phase.Done? && r.phase.result.Authenticated?)
    || r.phase == Done(Refused(InvalidSignature))
  }

  predicate RefusedAsReplay(r: Request) {
    r.phase == Done(Refused(ReplayDetected))
  }

  // ---------------------------------------------------------------- the invariants

  ghost predicate WellPlaced(w: World) {
    && 0 <= w.now
    && (forall i :: 0 <= i < |w.requests| ==> w.requests[i].node < |w.nodes|)
    && (forall i :: 0 <= i < |w.requests| && HasConsumed(w.requests[i]) ==> 0 <= w.requests[i].storeAt <= w.now)
  }

  /** While its lifetime lasts, a consumed nonce is held in the backend. */
  ghost predicate Remembered(w: World, r: Request)
    requires r.node < |w.nodes|
  {
    || r.storeAt + MAX_CLOCK_SKEW_MS < w.now
    || (KeyOf(w, r) in w.backend && r.storeAt + MAX_CLOCK_SKEW_MS <= w.backend[KeyOf(w, r)])
  }

  ghost predicate AllRemembered(w: World)
    requires WellPlaced(w)
  {
    forall i :: 0 <= i < |w.requests| && HasConsumed(w.requests[i]) ==> Remembered(w, w.requests[i])
  }

  predicate Apart(s: int, t: int) {
    s + MAX_CLOCK_SKEW_MS < t || t + MAX_CLOCK_SKEW_MS < s
  }

  predicate SameNonceTwice(w: World, r: Request, r': Request)
    requires r.node < |w.nodes| && r'.node < |w.nodes|
  {
    HasConsumed(r) && HasConsumed(r') && KeyOf(w, r) == KeyOf(w, r')
  }

  /** Two consumptions of one key are strictly more than a lifetime apart. */
  ghost predicate Separated(w: World)
    requires WellPlaced(w)
  {
    forall i, j :: 0 <= i < j < |w.requests| && SameNonceTwice(w, w.requests[i], w.requests[j])
      ==> Apart(w.requests[i].storeAt, w.requests[j].storeAt)
  }

  /** Some request consumed this key at time `at`. */
  ghost predicate ConsumedAt(w: World, key: string, at: int)
    requires WellPlaced(w)
  {
    exists i :: 0 <= i < |w.requests| && HasConsumed(w.requests[i]) && KeyOf(w, w.requests[i]) == key
        && w.requests[i].storeAt == at
  }

  /** Every backend entry was put there by a consumption. */
  ghost predicate EntriesJustified(w: World)
    requires WellPlaced(w)
  {
    forall key :: key in w.backend ==> ConsumedAt(w, key, w.backend[key] - MAX_CLOCK_SKEW_MS)
  }

  /** Some request consumed this key at most one lifetime before `now`. */
  ghost predicate ConsumedWithin(w: World, key: string, now: int)
    requires WellPlaced(w)
  {
    exists at :: now - MAX_CLOCK_SKEW_MS <= at <= now && ConsumedAt(w, key, at)
  }

  /** Every replay refusal has a consumption of the same key at most one lifetime before it. */
  ghost predicate RefusalsJustified(w: World)
    requires WellPlaced(w)
  {
    forall i :: 0 <= i < |w.requests| && RefusedAsReplay(w.requests[i])
      ==> ConsumedWithin(w, KeyOf(w, w.requests[i]), w.requests[i].storeAt)
  }

  /** What each phase says about the readings made on the way. */
  ghost predicate Tracked(env: Env, r: Request) {
    match r.phase
    case FreshChecked => Gate(env, r.creds, r.startedAt).None? && r.healthRead == r.storeHealth == None
    case HealthChecked(h) => Gate(env, r.creds, r.startedAt).None? && r.healthRead == Some(h) && r.storeHealth == None
    case NonceConsumed => Gate(env, r.creds, r.startedAt).None? && r.healthRead == r.storeHealth == Some(true)
    case Done(Authenticated(name)) =>
      Gate(env, r.creds, r.startedAt).None? && r.healthRead == r.storeHealth == Some(true)
      && Verdict(env, r.creds, r.body) == r.phase.result
    case Done(Refused(code)) =>
      match code
      case ReplayStoreUnavailable =>
        Gate(env, r.creds, r.startedAt).None? && (r.healthRead == Some(false) || r.storeHealth == Some(false))
      case ReplayDetected => Gate(env, r.creds, r.startedAt).None? && r.healthRead == r.storeHealth == Some(true)
      case InvalidSignature =>
        Gate(env, r.creds, r.startedAt).None? && r.healthRead == r.storeHealth == Some(true)
        && Verdict(env, r.creds, r.body) == r.phase.result
      case _ => Gate(env, r.creds, r.startedAt) == Some(code) && r.healthRead == r.storeHealth == None
  }

  // ---------------------------------------------------------------- what every event keeps

  ghost predicate AllTracked(env: Env, w: World) {
    forall i :: 0 <= i < |w.requests| ==> Tracked(env, w.requests[i])
  }

  ghost predicate Safe(env: Env, w: World) {
    WellPlaced(w) && AllTracked(env, w) && AllRemembered(w) && Separated(w)
  }

  /** Events other than a consumption change no consumed nonce, no key, and only drop expired entries. */
  ghost predicate Quiet(w: World, w': World) {
    && w.now <= w'.now
    && |w.nodes| == |w'.nodes|
    && (forall k :: 0 <= k < |w.nodes| ==> w'.nodes[k].prefix == w.nodes[k].prefix)
    && |w.requests| <= |w'.requests|
    && (forall i :: 0 <= i < |w.requests| ==>
          var r, r' := w.requests[i], w'.requests[i];
          && r'.node == r.node && r'.creds == r.creds && r'.storeAt == r.storeAt
          && HasConsumed(r') == HasConsumed(r) && RefusedAsReplay(r') == RefusedAsReplay(r))
    && (forall i :: |w.requests| <= i < |w'.requests| ==>
          w'.requests[i].node < |w.nodes| && !HasConsumed(w'.requests[i]) && !RefusedAsReplay(w'.requests[i]))
    && w'.backend.Keys <= w.backend.Keys
    && (forall key :: key in w'.backend ==> w'.backend[key] == w.backend[key])
    && (forall key :: key in w.backend && key !in w'.backend ==> w.backend[key] < w'.now)
  }

  lemma {:induction false} GateRefusals(env: Env, c: EcosystemCredentials, now: int)
    ensures var g := Gate(env, c, now);
            g.None? || g.value == UnknownService || g.value == UnknownBusiness || g.value == ExpiredTimestamp
  {
  }

  lemma {:induction false} ClockAndNodesAreQuiet(env: Env, w: World, e: Event)
    requires WellPlaced(w) && (e.Tick? || e.SetHealthy? || e.Lookup?)
    ensures Quiet(w, Step(env, w, e)) && Step(env, w, e).requests == w.requests
  {
  }

  lemma {:induction false} SubmittingIsQuiet(env: Env, w: World, e: Event)
    requires WellPlaced(w) && AllTracked(env, w) && e.Submit?
    ensures Quiet(w, Step(env, w, e)) && AllTracked(env, Step(env, w, e))
  {
    GateRefusals(env, e.creds, w.now);
  }

  lemma {:induction false} ReadingIsQuiet(env: Env, w: World, e: Event)
    requires WellPlaced(w) && AllTracked(env, w) && e.ReadHealth?
    ensures Quiet(w, Step(env, w, e)) && AllTracked(env, Step(env, w, e))
  {
    hide Gate, Verdict;
    if e.request < |w.requests| { assert Tracked(env, w.requests[e.request]); }
  }

  lemma {:induction false} FinishingIsQuiet(env: Env, w: World, e: Event)
    requires WellPlaced(w) && AllTracked(env, w) && e.Finish?
    ensures Quiet(w, Step(env, w, e)) && AllTracked(env, Step(env, w, e))
  {
    hide Gate, Verdict;
    if e.request < |w.requests| {
      assert Tracked(env, w.requests[e.request]);
      VerdictKnowsTheEntity(env, w.requests[e.request]);
    }
  }

  /** A request that passed the gate is from a registered service, so its verdict is about its signature only. */
  lemma {:induction false} VerdictKnowsTheEntity(env: Env, r: Request)
    ensures Gate(env, r.creds, r.startedAt).None? ==>
              var v := Verdict(env, r.creds, r.body); v.Authenticated? || v == Refused(InvalidSignature)
  {
  }

  lemma {:induction false} QuietKeepsSafe(env: Env, w: World, w': World)
    requires Safe(env, w) && Quiet(w, w') && AllTracked(env, w')
    ensures Safe(env, w')
  {
    forall i | 0 <= i < |w'.requests| && HasConsumed(w'.requests[i])
      ensures i < |w.requests| && Remembered(w', w'.requests[i])
    {
      assert Remembered(w, w.requests[i]);
    }
  }

  lemma {:induction false} ConsumingKeepsRemembered(w: World, i: nat)
    requires WellPlaced(w) && AllRemembered(w) && i < |w.requests| && w.requests[i].phase.HealthChecked?
    ensures WellPlaced(ConsumeEvent(w, i)) && AllRemembered(ConsumeEvent(w, i))
  {
    var w' := ConsumeEvent(w, i);
    forall j | 0 <= j < |w'.requests| && HasConsumed(w'.requests[j])
      ensures Remembered(w', w'.requests[j])
    {
      if j != i { assert Remembered(w, w.requests[j]); }
    }
  }

  /** A consumption goes through only when every earlier one of its key has outlived its lifetime. */
  lemma {:induction false} ConsumingFindsOthersApart(w: World, i: nat, j: nat)
    requires WellPlaced(w) && AllRemembered(w) && i < |w.requests| && w.requests[i].phase.HealthChecked?
    requires j < |w.requests| && HasConsumed(w.requests[j]) && KeyOf(w, w.requests[j]) == KeyOf(w, w.requests[i])
    requires HasConsumed(ConsumeEvent(w, i).requests[i])
    ensures w.requests[j].storeAt + MAX_CLOCK_SKEW_MS < ConsumeEvent(w, i).requests[i].storeAt
  {
    assert Remembered(w, w.requests[j]);
  }

  lemma {:induction false} ConsumingKeepsSeparated(w: World, i: nat)
    requires WellPlaced(w) && AllRemembered(w) && Separated(w)
    requires i < |w.requests| && w.requests[i].phase.HealthChecked?
    requires WellPlaced(ConsumeEvent(w, i))
    ensures Separated(ConsumeEvent(w, i))
  {
    var w' := ConsumeEvent(w, i);
    forall j, k | 0 <= j < k < |w'.requests| && SameNonceTwice(w', w'.requests[j], w'.requests[k])
      ensures Apart(w'.requests[j].storeAt, w'.requests[k].storeAt)
    {
      if j == i {
        ConsumingFindsOthersApart(w, i, k);
      } else if k == i {
        ConsumingFindsOthersApart(w, i, j);
      } else {
        assert SameNonceTwice(w, w.requests[j], w.requests[k]);
      }
    }
  }

  lemma {:induction false} ConsumingKeepsTracked(env: Env, w: World, i: nat)
    requires WellPlaced(w) && AllTracked(env, w) && i < |w.requests| && w.requests[i].phase.HealthChecked?
    ensures AllTracked(env, ConsumeEvent(w, i))
  {
    hide Gate;
    assert Tracked(env, w.requests[i]);
  }

  lemma {:induction false} StepKeepsSafe(env: Env, w: World, e: Event)
    requires Safe(env, w)
    ensures Safe(env, Step(env, w, e))
  {
    hide Gate, Verdict, Tracked, Quiet, ConsumeEvent, AllRemembered, Separated;
    match e
    case Consume(i) =>
      if i < |w.requests| && w.requests[i].phase.HealthChecked? {
        ConsumingKeepsRemembered(w, i);
        ConsumingKeepsSeparated(w, i);
        ConsumingKeepsTracked(env, w, i);
      }
    case Submit(_, _, _) =>
      SubmittingIsQuiet(env, w, e);
      QuietKeepsSafe(env, w, Step(env, w, e));
    case ReadHealth(_) =>
      ReadingIsQuiet(env, w, e);
      QuietKeepsSafe(env, w, Step(env, w, e));
    case Finish(_) =>
      FinishingIsQuiet(env, w, e);
      QuietKeepsSafe(env, w, Step(env, w, e));
    case _ =>
      ClockAndNodesAreQuiet(env, w, e);
      QuietKeepsSafe(env, w, Step(env, w, e));
  }

  lemma {:induction false} RunsAreSafe(env: Env, w: World, es: seq<Event>, n: nat)
    requires Initial(w) && n <= |es|
    ensures Safe(env, Execute(env, w, es, n))
  {
    hide Step;
    if n != 0 {
      RunsAreSafe(env, w, es, n - 1);
      StepKeepsSafe(env, Execute(env, w, es, n - 1), es[n - 1]);
    }
  }
}
