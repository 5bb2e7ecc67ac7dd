/** What the asynchronous answers say of their requests, and a run in which credentials are accepted twice. */
module AsyncAnswers {
  import opened Wrappers
  import opened Credentials
  import opened DistributedStore
  import opened AsyncProtocol

  /**
   What an answer says of the request: which check at its start refused it, and when it was authenticated,
   under its registered name and not badly signed.
   */
  lemma {:induction false} AnswersMatchTheRequest(env: Env, w0: World, es: seq<Event>, i: nat)
    requires Initial(w0)
    requires var w := Execute(env, w0, es, |es|); i < |w.requests| && w.requests[i].phase.Done?
    ensures var r := Execute(env, w0, es, |es|).requests[i];
            var c, answer := r.creds, r.phase.result;
            && (answer == Refused(UnknownService) <==> !KnownService(c.serviceId))
            && (answer == Refused(UnknownBusiness) <==>
                  KnownService(c.serviceId) && !KnownBusiness(c.serviceId, c.businessId))
            && (answer == Refused(ExpiredTimestamp) <==>
                  KnownService(c.serviceId) && KnownBusiness(c.serviceId, c.businessId)
                  && !WithinFiveMinutes(env, c.timestamp, r.startedAt))
            && (answer == Refused(InvalidSignature) ==> BadlySigned(env, c, r.body))
            && (answer.Authenticated? ==>
                  Registered(c.serviceId, c.businessId, answer.entityName) && !BadlySigned(env, c, r.body))
  {
    hide Step, Gate, Verdict, Registered, BadlySigned, Execute;
    RunsAreSafe(env, w0, es, |es|);
    var r := Execute(env, w0, es, |es|).requests[i];
    assert Tracked(env, r);
    GateIsExact(env, r.creds, r.startedAt);
    if Gate(env, r.creds, r.startedAt).None? {
      VerdictIsExact(env, r.creds, r.body);
      OneBusinessEach(r.creds.serviceId);
    }
  }

  /** Which world each event makes: the clock, the health flags and the readings are what the event says. */
  lemma {:induction false} EventsDoWhatTheySay(env: Env, w: World, k: nat, healthy: bool, to: int, i: nat)
    requires k < |w.nodes| && w.now <= to
    requires i < |w.requests| && w.requests[i].node < |w.nodes| && w.requests[i].phase.FreshChecked?
    ensures Step(env, w, Tick(to)) == w.(now := to)
    ensures var w' := Step(env, w, SetHealthy(k, healthy));
            && w'.nodes[k] == Node(w.nodes[k].prefix, healthy) && |w'.nodes| == |w.nodes|
            && (forall l :: 0 <= l < |w.nodes| && l != k ==> w'.nodes[l] == w.nodes[l])
            && w' == w.(nodes := w'.nodes)
    ensures var w', h := Step(env, w, ReadHealth(i)), w.nodes[w.requests[i].node].healthy;
            && |w'.requests| == |w.requests| && w' == w.(requests := w'.requests)
            && w'.requests[i].phase == HealthChecked(h) && w'.requests[i].healthRead == Some(h)
            && (forall j :: 0 <= j < |w.requests| && j != i ==> w'.requests[j] == w.requests[j])
  {
  }

  // ---------------------------------------------------------------- a second use

  /**
   Credentials stamped 0 are consumed at 0; a second request passes the gate in time and consumes them after the
   lifetime.
   */
  function SecondUse(c: EcosystemCredentials): seq<Event> {
    [Submit(0, c, None), ReadHealth(0), Consume(0), Finish(0), Tick(300_000),
     Submit(0, c, None), ReadHealth(1), Tick(300_001), Consume(1), Finish(1)]
  }

  const ONE_NODE: seq<Node> := [Node("p", true)]

  /** A request that was just let through the gate. */
  function Fresh(c: EcosystemCredentials, now: int): Request {
    Request(0, c, None, FreshChecked, now, None, None, now)
  }

  /** A request that read a healthy node, then consumed its nonce at `now` and was authenticated. */
  function Served(c: EcosystemCredentials, startedAt: int, now: int): Request {
    Request(0, c, None, Done(Authenticated("AudioBlue Media CI/CD & Build Pipeline")), startedAt, Some(true),
        Some(true), now)
  }

  function HealthRead(r: Request): Request {
    r.(phase := HealthChecked(true), healthRead := Some(true))
  }

  lemma {:induction false} SubmitStep(env: Env, w: World, c: EcosystemCredentials)
    requires w.nodes == ONE_NODE && Gate(env, c, w.now).None?
    ensures Step(env, w, Submit(0, c, None)) == w.(requests := w.requests + [Fresh(c, w.now)])
  {
  }

  lemma {:induction false} ReadStep(env: Env, w: World, before: seq<Request>, r: Request)
    requires w.nodes == ONE_NODE && w.requests == before + [r] && r.phase.FreshChecked? && r.node == 0
    ensures Step(env, w, ReadHealth(|before|)) == w.(requests := before + [HealthRead(r)])
  {
    assert w.requests[|before| := HealthRead(r)] == before + [HealthRead(r)];
  }

  /** Consuming and finishing, when the key is not held. */
  lemma {:induction false} ServeSteps(env: Env, w: World, before: seq<Request>, c: EcosystemCredentials, startedAt: int)
    requires w.nodes == ONE_NODE && w.requests == before + [HealthRead(Fresh(c, startedAt))]
    requires Verdict(env, c, None) == Authenticated("AudioBlue Media CI/CD & Build Pipeline")
    requires !HeldIn(w.backend, "p" + c.nonce, w.now)
    ensures Step(env, Step(env, w, Consume(|before|)), Finish(|before|))
            == w.(backend := w.backend["p" + c.nonce := w.now + MAX_CLOCK_SKEW_MS],
                  requests := before + [Served(c, startedAt, w.now)])
  {
    var i, served := |before|, Served(c, startedAt, w.now);
    var r := served.(phase := NonceConsumed);
    var w' := w.(backend := w.backend["p" + c.nonce := w.now + MAX_CLOCK_SKEW_MS], requests := w.requests[i := r]);
    assert Step(env, w, Consume(i)) == w';
    assert w.requests[i := r][i := served] == before + [served];
  }

  /** So credentials that are not postdated can still be accepted twice. */
  lemma {:induction false} SecondUseHappens(env: Env, c: EcosystemCredentials)
    requires c.serviceId == "audioblue" && c.businessId == "audioblue-media" && c.signature.None?
    requires env.parseTime(c.timestamp) == Some(0)
    ensures Execute(env, World(0, ONE_NODE, map[], []), SecondUse(c), 10).requests
            == [Served(c, 0, 0), Served(c, 300_000, 300_001)]
  {
    hide Execute, Step, Gate, Verdict, HealthRead;
    var w0 := World(0, ONE_NODE, map[], []);
    SecondUseUnfolds(env, w0, c);
    GateOpens(env, c, 0);
    SubmitStep(env, w0, c);
    var w1 := w0.(requests := [] + [Fresh(c, 0)]);
    ReadStep(env, w1, [], Fresh(c, 0));
    var w2 := w1.(requests := [] + [HealthRead(Fresh(c, 0))]);
    ServeSteps(env, w2, [], c, 0);
    var first := [Served(c, 0, 0)];
    var w3 := World(300_000, ONE_NODE, map["p" + c.nonce := 300_000], first);
    assert [] + first == first;
    TickStep(env, w3.(now := 0), 300_000);
    GateOpens(env, c, 300_000);
    SubmitStep(env, w3, c);
    var w4 := w3.(requests := first + [Fresh(c, 300_000)]);
    ReadStep(env, w4, first, Fresh(c, 300_000));
    var w5 := w4.(requests := first + [HealthRead(Fresh(c, 300_000))]);
    TickStep(env, w5, 300_001);
    ServeSteps(env, w5.(now := 300_001), first, c, 300_000);
  }

  lemma {:induction false} TickStep(env: Env, w: World, to: int)
    requires w.now <= to
    ensures Step(env, w, Tick(to)) == w.(now := to)
  {
  }

  /** The run, one event after the other. */
  lemma {:induction false} SecondUseUnfolds(env: Env, w: World, c: EcosystemCredentials)
    ensures var w4 := Step(env, Step(env, Step(env, Step(env, w, Submit(0, c, None)), ReadHealth(0)), Consume(0)),
            Finish(0));
            var w7 := Step(env, Step(env, Step(env, w4, Tick(300_000)), Submit(0, c, None)), ReadHealth(1));
            Execute(env, w, SecondUse(c), 10) == Step(env, Step(env, Step(env, w7, Tick(300_001)), Consume(1)),
                Finish(1))
  {
    hide Step, Execute;
    var es := SecondUse(c);
    Advance(env, w, es, 0);
    Advance(env, w, es, 1);
    Advance(env, w, es, 2);
    Advance(env, w, es, 3);
    Advance(env, w, es, 4);
    Advance(env, w, es, 5);
    Advance(env, w, es, 6);
    Advance(env, w, es, 7);
    Advance(env, w, es, 8);
    Advance(env, w, es, 9);
  }

  lemma Advance(env: Env, w: World, es: seq<Event>, n: nat)
    requires n < |es|
    ensures Execute(env, w, es, 0) == w
    ensures Execute(env, w, es, n + 1) == Step(env, Execute(env, w, es, n), es[n])
  {
    hide Step;
  }

  lemma GateOpens(env: Env, c: EcosystemCredentials, now: int)
    requires c.serviceId == "audioblue" && c.businessId == "audioblue-media" && c.signature.None?
    requires env.parseTime(c.timestamp) == Some(0) && 0 <= now <= MAX_CLOCK_SKEW_MS
    ensures Gate(env, c, now).None?
    ensures Verdict(env, c, None) == Authenticated("AudioBlue Media CI/CD & Build Pipeline")
  {
  }
}
