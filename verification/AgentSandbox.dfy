/**
 The agent sandbox (src/ai/agent-sandbox.ts): per-agent call history with a one-minute window and loop
 detection, and per-session quotas. The class is the runtime; `Decide` is the verdict on a call given
 its agent's recent calls and its session's total.
 */
module AgentSandbox {
  import opened Wrappers

  const WINDOW_MS: int := 60 * 1000

  datatype CallRecord = CallRecord(timestamp: int, toolName: string, argumentsHash: string) {
    predicate Is(tool: string, hash: string) {
      toolName == tool && argumentsHash == hash
    }
  }

  datatype AgentSandboxConfig = AgentSandboxConfig(
    maxCallsPerMinute: int, maxCallsPerSession: int, maxConsecutiveIdenticalCalls: int, highImpactTools: seq<string>)

  /** Options that may each be absent. */
  datatype Options = Options(
    maxCallsPerMinute: Option<int>, maxCallsPerSession: Option<int>, maxConsecutiveIdenticalCalls: Option<int>,
    highImpactTools: Option<seq<string>>)

  const HIGH_IMPACT_TOOLS: seq<string> := [
    "execute_sql_mutation", "update_iam_roles", "terminate_instances", "transfer_funds",
    "deploy_production_code", "revoke_all_tokens", "modify_firewall_rules"]

  /** `option ?? default`: a given 0 stays 0. */
  function OrElse<T>(option: Option<T>, default: T): T {
    if option.Some? then option.value else default
  }

  function ConfigFrom(options: Options): AgentSandboxConfig {
    AgentSandboxConfig(
      OrElse(options.maxCallsPerMinute, 20), OrElse(options.maxCallsPerSession, 100),
      OrElse(options.maxConsecutiveIdenticalCalls, 3), OrElse(options.highImpactTools, HIGH_IMPACT_TOOLS))
  }

  /** The arguments come in as their hash, an arbitrary function of them. */
  datatype ToolExecutionRequest = ToolExecutionRequest(
    agentId: string, toolName: string, argumentsHash: string, sessionId: Option<string>)
  {
    function Session(): string {
      if sessionId.Some? then sessionId.value else "default-session"
    }
  }

  datatype Reason = SessionQuotaExceeded | RateLimitExceeded | PotentialLoop(times: nat) | HighImpact

  datatype ToolExecutionResult = ToolExecutionResult(
    permitted: bool, reason: Option<Reason>, requiresHumanApproval: bool, callCountInWindow: nat,
    remainingWindowQuota: int, totalSessionCalls: int, isPotentialLoop: bool)
  {
    /** A call is recorded when it is permitted or only waits for approval. */
    predicate Recorded() {
      permitted || requiresHumanApproval
    }
  }

  /** The first `n` calls, without those a window or more before `now`. */
  function Recent(cs: seq<CallRecord>, n: nat, now: int): (r: seq<CallRecord>)
    requires n <= |cs|
    ensures |r| <= n
  {
    if n == 0 then []
    else Recent(cs, n - 1, now) + if now - cs[n - 1].timestamp < WINDOW_MS then [cs[n - 1]] else []
  }

  /** How many of the first `n` calls, counted back from the last, are this one. */
  function Trailing(cs: seq<CallRecord>, n: nat, tool: string, hash: string): (k: nat)
    requires n <= |cs|
    ensures k <= n
    ensures forall i :: n - k <= i < n ==> cs[i].Is(tool, hash)
    ensures k < n ==> !cs[n - k - 1].Is(tool, hash)
  {
    if n == 0 || !cs[n - 1].Is(tool, hash) then 0 else 1 + Trailing(cs, n - 1, tool, hash)
  }

  /** The verdict on a call, given its agent's recent calls and its session's total so far. */
  function Decide(config: AgentSandboxConfig, recent: seq<CallRecord>, total: nat,
      r: ToolExecutionRequest): ToolExecutionResult {
    var count := |recent|;
    var quota := Max(0, config.maxCallsPerMinute - count);
    var identical := Trailing(recent, count, r.toolName, r.argumentsHash);
    if total + 1 > config.maxCallsPerSession then
      ToolExecutionResult(false, Some(SessionQuotaExceeded), false, count, quota, total, false)
    else if count >= config.maxCallsPerMinute then
      ToolExecutionResult(false, Some(RateLimitExceeded), false, count, 0, total, false)
    else if identical >= config.maxConsecutiveIdenticalCalls - 1 then
      ToolExecutionResult(false, Some(PotentialLoop(identical + 1)), false, count, quota, total, true)
    else if r.toolName in config.highImpactTools then
      ToolExecutionResult(false, Some(HighImpact), true, count + 1, Max(0, quota - 1), total + 1, false)
    else
      ToolExecutionResult(true, None, false, count + 1, Max(0, quota - 1), total + 1, false)
  }

  datatype SandboxState = SandboxState(history: map<string, seq<CallRecord>>, counts: map<string, nat>) {
    function CallsOf(agent: string): seq<CallRecord> {
      if agent in history then history[agent] else []
    }

    function TotalOf(session: string): nat {
      if session in counts then counts[session] else 0
    }
  }

  datatype Evaluated = Evaluated(state: SandboxState, result: ToolExecutionResult)

  function EvaluateStep(config: AgentSandboxConfig, s: SandboxState, r: ToolExecutionRequest, now: int): Evaluated {
    var calls := s.CallsOf(r.agentId);
    var recent := Recent(calls, |calls|, now);
    var result := Decide(config, recent, s.TotalOf(r.Session()), r);
    Evaluated(
      if result.Recorded() then
        SandboxState(s.history[r.agentId := recent + [CallRecord(now, r.toolName, r.argumentsHash)]],
                     s.counts[r.Session() := s.TotalOf(r.Session()) + 1])
      else s.(history := s.history[r.agentId := recent]),
      result)
  }

  /** An absent or empty agent id is falsy and resets everything, session counts included. */
  function ResetStep(s: SandboxState, agentId: string): SandboxState {
    if agentId != "" then s.(history := s.history - {agentId}) else SandboxState(map[], map[])
  }

  class AgentSandboxRuntime {
    const config: AgentSandboxConfig
    var callHistory: map<string, seq<CallRecord>>
    var sessionCounts: map<string, nat>

    ghost function State(): SandboxState
      reads this
    {
      SandboxState(callHistory, sessionCounts)
    }

    constructor (options: Options)
      ensures config == ConfigFrom(options) && State() == SandboxState(map[], map[])
      ensures config.maxCallsPerMinute == match options.maxCallsPerMinute { case Some(n) => n case None => 20 }
      ensures config.maxCallsPerSession == match options.maxCallsPerSession { case Some(n) => n case None => 100 }
      ensures config.maxConsecutiveIdenticalCalls
              == match options.maxConsecutiveIdenticalCalls { case Some(n) => n case None => 3 }
      ensures config.highImpactTools == match options.highImpactTools {
                case Some(tools) => tools
                case None => ["execute_sql_mutation", "update_iam_roles", "terminate_instances", "transfer_funds",
                              "deploy_production_code", "revoke_all_tokens", "modify_firewall_rules"] }
    {
      config := ConfigFrom(options);
      callHistory := map[];
      sessionCounts := map[];
    }

    method EvaluateToolExecution(request: ToolExecutionRequest, now: int) returns (result: ToolExecutionResult)
      modifies this
      ensures Evaluated(State(), result) == EvaluateStep(config, old(State()), request, now)
    {
      hide Recent, Decide, ToolExecutionResult.Recorded;
      var agentId, sessionId := request.agentId, request.Session();
      var history := Prune(if agentId in callHistory then callHistory[agentId] else [], now);
      callHistory := callHistory[agentId := history];
      var currentSessionTotal := (if sessionId in sessionCounts then sessionCounts[sessionId] else 0) + 1;
      var recorded;
      result, recorded := Verdict(config, history, currentSessionTotal, request);
      if recorded {
        history := history + [CallRecord(now, request.toolName, request.argumentsHash)];
        callHistory := callHistory[agentId := history];
        sessionCounts := sessionCounts[sessionId := currentSessionTotal];
      }
    }

    method ResetAgentHistory(agentId: string)
      modifies this
      ensures State() == ResetStep(old(State()), agentId)
    {
      if agentId != "" {
        callHistory := callHistory - {agentId};
      } else {
        callHistory, sessionCounts := map[], map[];
      }
    }
  }

  /** `filter((record) => now - record.timestamp < windowMs)`. */
  method Prune(calls: seq<CallRecord>, now: int) returns (kept: seq<CallRecord>)
    ensures kept == Recent(calls, |calls|, now)
  {
    kept := [];
    for i := 0 to |calls|
      invariant kept == Recent(calls, i, now)
    {
      if now - calls[i].timestamp < WINDOW_MS { kept := kept + [calls[i]]; }
    }
  }

  /** Count identical calls back from the last one. */
  method CountBack(calls: seq<CallRecord>, tool: string, hash: string) returns (identical: nat)
    ensures identical == Trailing(calls, |calls|, tool, hash)
  {
    identical := 0;
    var i := |calls|;
    while i > 0
      invariant 0 <= i <= |calls| && identical == |calls| - i
      invariant Trailing(calls, |calls|, tool, hash) == identical + Trailing(calls, i, tool, hash)
    {
      if !calls[i - 1].Is(tool, hash) { break; }
      identical := identical + 1;
      i := i - 1;
    }
  }

  /** The guards in order: session quota, window limit, loop, and then the gate on high-impact tools. */
  method Verdict(config: AgentSandboxConfig, history: seq<CallRecord>, currentSessionTotal: nat,
      request: ToolExecutionRequest)
      returns (result: ToolExecutionResult, recorded: bool)
    requires currentSessionTotal > 0
    ensures result == Decide(config, history, currentSessionTotal - 1, request)
    ensures recorded == result.Recorded()
  {
    hide Trailing;
    var callCountInWindow := |history|;
    var remainingWindowQuota := Max(0, config.maxCallsPerMinute - callCountInWindow);
    if currentSessionTotal > config.maxCallsPerSession {
      return ToolExecutionResult(false, Some(SessionQuotaExceeded), false, callCountInWindow, remainingWindowQuota,
                                 currentSessionTotal - 1, false), false;
    }
    if callCountInWindow >= config.maxCallsPerMinute {
      return ToolExecutionResult(false, Some(RateLimitExceeded), false, callCountInWindow, 0,
                                 currentSessionTotal - 1, false), false;
    }
    var consecutiveIdentical := CountBack(history, request.toolName, request.argumentsHash);
    if consecutiveIdentical >= config.maxConsecutiveIdenticalCalls - 1 {
      return ToolExecutionResult(false, Some(PotentialLoop(consecutiveIdentical + 1)), false, callCountInWindow,
                                 remainingWindowQuota, currentSessionTotal - 1, true), false;
    }
    var requiresHumanApproval := request.toolName in config.highImpactTools;
    return ToolExecutionResult(!requiresHumanApproval, if requiresHumanApproval then Some(HighImpact) else None,
                               requiresHumanApproval, callCountInWindow + 1, Max(0, remainingWindowQuota - 1),
                               currentSessionTotal, false), true;
  }

  // ---------------------------------------------------------------- runs

  datatype Event =
    | Call(request: ToolExecutionRequest, now: int)
    | Reset(agentId: string)

  function StepState(config: AgentSandboxConfig, s: SandboxState, e: Event): SandboxState {
    match e
    case Call(request, now) => EvaluateStep(config, s, request, now).state
    case Reset(agentId) => ResetStep(s, agentId)
  }

  function StateAfter(config: AgentSandboxConfig, es: seq<Event>, n: nat): SandboxState
    requires n <= |es|
  {
    if n == 0 then SandboxState(map[], map[]) else StepState(config, StateAfter(config, es, n - 1), es[n - 1])
  }

  function ResultOf(config: AgentSandboxConfig, es: seq<Event>, i: nat): ToolExecutionResult
    requires i < |es| && es[i].Call?
  {
    EvaluateStep(config, StateAfter(config, es, i), es[i].request, es[i].now).result
  }

  /** Event `i` is a call that was recorded. */
  predicate Records(config: AgentSandboxConfig, es: seq<Event>, i: nat)
    requires i < |es|
  {
    es[i].Call? && ResultOf(config, es, i).Recorded()
  }

  /** The calls recorded for an agent, since it was last reset. */
  function AgentLog(config: AgentSandboxConfig, es: seq<Event>, n: nat, agent: string): seq<CallRecord>
    requires n <= |es|
  {
    if n == 0 then []
    else
      var log := AgentLog(config, es, n - 1, agent);
      var e := es[n - 1];
      if e.Reset? then (if e.agentId == "" || e.agentId == agent then [] else log)
      else if Records(config, es, n - 1) && e.request.agentId == agent
      then log + [CallRecord(e.now, e.request.toolName, e.request.argumentsHash)]
      else log
  }

  /** How many calls were recorded for a session, by any agent, since everything was last reset. */
  function SessionTotal(config: AgentSandboxConfig, es: seq<Event>, n: nat, session: string): nat
    requires n <= |es|
  {
    if n == 0 then 0
    else
      var total := SessionTotal(config, es, n - 1, session);
      var e := es[n - 1];
      if e.Reset? then (if e.agentId == "" then 0 else total)
      else if Records(config, es, n - 1) && e.request.Session() == session then total + 1
      else total
  }

  /** The clock readings of calls never go back. */
  ghost predicate Clocked(es: seq<Event>) {
    forall i, j :: 0 <= i < j < |es| && es[i].Call? && es[j].Call? ==> es[i].now <= es[j].now
  }

  /** No call among the first `n` is later than this one. */
  ghost predicate NotBefore(es: seq<Event>, n: nat, now: int)
    requires n <= |es|
  {
    forall i :: 0 <= i < n && es[i].Call? ==> es[i].now <= now
  }
}
