/**
 Whole runs of the agent sandbox. The answers are those of a reference that keeps every recorded call;
 from it come the bounds on every interval, on every repeated call and on every session.
 */
module SandboxRuns {
  import opened Wrappers
  import opened AgentSandbox
  import W = SlidingWindow

  // ---------------------------------------------------------------- the stored history answers like the log

  lemma {:induction false} RecentOfPrefix(a: seq<CallRecord>, b: seq<CallRecord>, n: nat, now: int)
    requires n <= |a|
    ensures Recent(a + b, n, now) == Recent(a, n, now)
  {
    if n != 0 { RecentOfPrefix(a, b, n - 1, now); }
  }

  lemma {:induction false} RecentAppend(a: seq<CallRecord>, c: CallRecord, now: int)
    ensures Recent(a + [c], |a| + 1, now) == Recent(a, |a|, now) + if now - c.timestamp < WINDOW_MS then [c] else []
  {
    RecentOfPrefix(a, [c], |a|, now);
  }

  /** Filtering twice is filtering at the later time. */
  lemma {:induction false} RecentTwice(cs: seq<CallRecord>, n: nat, now: int, later: int)
    requires n <= |cs| && now <= later
    ensures var r := Recent(cs, n, now);
            Recent(r, |r|, later) == Recent(cs, n, later)
  {
    if n != 0 {
      RecentTwice(cs, n - 1, now, later);
      var r, c := Recent(cs, n - 1, now), cs[n - 1];
      RecentAppend(r, c, later);
      assert Recent(cs, n, now) == if now - c.timestamp < WINDOW_MS then r + [c] else r;
    }
  }

  function RecordOf(e: Event): CallRecord
    requires e.Call?
  {
    CallRecord(e.now, e.request.toolName, e.request.argumentsHash)
  }

  /** What an event leaves in the history of one agent. */
  lemma {:induction false} CallsAfter(config: AgentSandboxConfig, es: seq<Event>, n: nat, agent: string)
    requires n < |es|
    ensures var calls, e := StateAfter(config, es, n).CallsOf(agent), es[n];
            StateAfter(config, es, n + 1).CallsOf(agent) ==
              if e.Reset? then (if e.agentId == "" || e.agentId == agent then [] else calls)
              else if e.request.agentId != agent then calls
              else Recent(calls, |calls|, e.now) + if Records(config, es, n) then [RecordOf(e)] else []
  {
    hide Decide, Recent;
  }

  lemma {:induction false} LogAfter(config: AgentSandboxConfig, es: seq<Event>, n: nat, agent: string)
    requires n < |es|
    ensures var log, e := AgentLog(config, es, n, agent), es[n];
            AgentLog(config, es, n + 1, agent) ==
              if e.Reset? then (if e.agentId == "" || e.agentId == agent then [] else log)
              else if Records(config, es, n) && e.request.agentId == agent then log + [RecordOf(e)] else log
  {
    hide EvaluateStep, StateAfter;
  }

  /** At any time from the last call on, the stored history holds what the log holds of the last minute. */
  lemma {:induction false} HistoryStandsForLog(config: AgentSandboxConfig, es: seq<Event>, n: nat,
      agent: string, later: int)
    requires n <= |es| && NotBefore(es, n, later)
    ensures var calls, log := StateAfter(config, es, n).CallsOf(agent), AgentLog(config, es, n, agent);
            Recent(calls, |calls|, later) == Recent(log, |log|, later)
  {
    hide AgentLog, Records, Recent, EvaluateStep;
    if n != 0 {
      HistoryStandsForLog(config, es, n - 1, agent, later);
      CallsAfter(config, es, n - 1, agent);
      LogAfter(config, es, n - 1, agent);
      var calls, log, e := StateAfter(config, es, n - 1).CallsOf(agent), AgentLog(config, es, n - 1, agent), es[n - 1];
      if e.Call? && e.request.agentId == agent {
        RecentTwice(calls, |calls|, e.now, later);
        if Records(config, es, n - 1) {
          RecentAppend(Recent(calls, |calls|, e.now), RecordOf(e), later);
          RecentAppend(log, RecordOf(e), later);
        } else {
          var r := Recent(calls, |calls|, e.now);
          assert r + [] == r;
        }
      }
    } else {
      assert AgentLog(config, es, 0, agent) == [] by { LogStartsEmpty(config, es, agent); }
    }
  }

  lemma {:induction false} LogStartsEmpty(config: AgentSandboxConfig, es: seq<Event>, agent: string)
    ensures AgentLog(config, es, 0, agent) == []
  {
  }

  /** The count kept for a session is the number of its recorded calls, whichever agents made them. */
  lemma {:induction false} CountsAreTotals(config: AgentSandboxConfig, es: seq<Event>, n: nat, session: string)
    requires n <= |es|
    ensures StateAfter(config, es, n).TotalOf(session) == SessionTotal(config, es, n, session)
  {
    hide Decide, Recent;
    if n != 0 { CountsAreTotals(config, es, n - 1, session); }
  }

  /** The answer to call `i`, as a reference that keeps every recorded call would give it. */
  function LogAnswer(config: AgentSandboxConfig, es: seq<Event>, i: nat): ToolExecutionResult
    requires i < |es| && es[i].Call?
  {
    var r := es[i].request;
    var log := AgentLog(config, es, i, r.agentId);
    Decide(config, Recent(log, |log|, es[i].now), SessionTotal(config, es, i, r.Session()), r)
  }

  lemma {:induction false} ResultIsLogAnswer(config: AgentSandboxConfig, es: seq<Event>, i: nat)
    requires i < |es| && es[i].Call? && Clocked(es)
    ensures ResultOf(config, es, i) == LogAnswer(config, es, i)
  {
    hide Decide, Recent, AgentLog, SessionTotal, StateAfter;
    HistoryStandsForLog(config, es, i, es[i].request.agentId, es[i].now);
    CountsAreTotals(config, es, i, es[i].request.Session());
  }

  // ---------------------------------------------------------------- bounds

  function Times(cs: seq<CallRecord>): (ts: seq<int>)
    ensures |ts| == |cs| && forall i :: 0 <= i < |cs| ==> ts[i] == cs[i].timestamp
  {
    seq(|cs|, i requires 0 <= i < |cs| => cs[i].timestamp)
  }

  lemma {:induction false} RecentTimes(cs: seq<CallRecord>, n: nat, now: int)
    requires n <= |cs|
    ensures Times(Recent(cs, n, now)) == W.KeepAfter(Times(cs), n, now - WINDOW_MS)
  {
    if n != 0 { RecentTimes(cs, n - 1, now); }
  }

  /** With an ascending log, the recent calls are its last ones. */
  lemma {:induction false} RecentIsSuffix(cs: seq<CallRecord>, n: nat, now: int)
    requires W.Ascending(Times(cs)) && n <= |cs|
    ensures var r := Recent(cs, n, now);
            && (forall i :: 0 <= i < |r| ==> r[i] == cs[n - |r| + i])
            && (forall i :: 0 <= i < n - |r| ==> now - cs[i].timestamp >= WINDOW_MS)
  {
    if n != 0 {
      RecentIsSuffix(cs, n - 1, now);
      if now - cs[n - 1].timestamp >= WINDOW_MS {
        assert forall i :: 0 <= i < n ==> Times(cs)[i] <= Times(cs)[n - 1];
        NoneRecent(cs, n, now);
      }
    }
  }

  lemma {:induction false} NoneRecent(cs: seq<CallRecord>, n: nat, now: int)
    requires n <= |cs| && forall i :: 0 <= i < n ==> now - cs[i].timestamp >= WINDOW_MS
    ensures Recent(cs, n, now) == []
  {
    if n != 0 { NoneRecent(cs, n - 1, now); }
  }

  /** The log of an agent is in time order, and not ahead of the clock. */
  lemma {:induction false} LogIsOrdered(config: AgentSandboxConfig, es: seq<Event>, n: nat, agent: string)
    requires n <= |es| && Clocked(es)
    ensures W.Ascending(Times(AgentLog(config, es, n, agent)))
    ensures forall t, i :: NotBefore(es, n, t) && 0 <= i < |AgentLog(config, es, n, agent)| ==>
              AgentLog(config, es, n, agent)[i].timestamp <= t
  {
    hide AgentLog, Records;
    if n == 0 {
      LogStartsEmpty(config, es, agent);
    } else {
      LogIsOrdered(config, es, n - 1, agent);
      LogAfter(config, es, n - 1, agent);
      assert forall t :: NotBefore(es, n, t) ==> NotBefore(es, n - 1, t);
      if es[n - 1].Call? { assert NotBefore(es, n - 1, es[n - 1].now); }
    }
  }

  /** From call `i` to call `j` of the log, the same tool with the same arguments. */
  ghost predicate SameCall(log: seq<CallRecord>, i: int, j: int)
    requires 0 <= i <= j < |log|
  {
    forall k :: i <= k <= j ==> log[k].toolName == log[j].toolName && log[k].argumentsHash == log[j].argumentsHash
  }

  /** Any `m` successive identical calls span at least the window. */
  ghost predicate LoopsAreSlow(log: seq<CallRecord>, m: int)
    requires m > 0
  {
    forall j :: m - 1 <= j < |log| && SameCall(log, j - m + 1, j) ==>
      log[j].timestamp - log[j - m + 1].timestamp >= 60_000
  }

  /** When the repetition is longer than the trailing identical calls, it reaches back before the recent ones. */
  lemma {:induction false} SameBackwards(log: seq<CallRecord>, recent: seq<CallRecord>, c: CallRecord, m: int)
    requires 0 < m <= |log| + 1 && |recent| <= |log|
    requires forall i :: 0 <= i < |recent| ==> recent[i] == log[|log| - |recent| + i]
    requires SameCall(log + [c], |log| - m + 1, |log|)
    requires Trailing(recent, |recent|, c.toolName, c.argumentsHash) < m - 1
    ensures |recent| < m - 1
  {
    hide Trailing;
    var log' := log + [c];
    forall i | 0 <= i < |recent| && |recent| - m + 1 <= i
      ensures recent[i].Is(c.toolName, c.argumentsHash)
    {
      assert recent[i] == log'[|log| - |recent| + i];
      assert log'[|log| - |recent| + i].toolName == log'[|log|].toolName;
    }
  }

  lemma {:induction false} RecordingKeepsLoopsSlow(log: seq<CallRecord>, m: int, now: int, c: CallRecord)
    requires m > 0 && LoopsAreSlow(log, m) && W.Ascending(Times(log)) && c.timestamp == now
    requires var recent := Recent(log, |log|, now);
             Trailing(recent, |recent|, c.toolName, c.argumentsHash) < m - 1
    ensures LoopsAreSlow(log + [c], m)
  {
    hide Recent, Trailing;
    var log', recent := log + [c], Recent(log, |log|, now);
    RecentIsSuffix(log, |log|, now);
    forall j | m - 1 <= j < |log'| && SameCall(log', j - m + 1, j)
      ensures log'[j].timestamp - log'[j - m + 1].timestamp >= WINDOW_MS
    {
      if j < |log| {
        assert forall k :: j - m + 1 <= k <= j ==> log'[k] == log[k];
        assert SameCall(log, j - m + 1, j);
      } else {
        // the recent calls are not all identical, so one before them starts the repetition
        SameBackwards(log, recent, c, m);
        assert |recent| < m - 1;
      }
    }
  }

  /** What holds of every agent's log: its calls are spaced, and its loops are slow. */
  lemma {:induction false} LogIsSpaced(config: AgentSandboxConfig, es: seq<Event>, n: nat, agent: string)
    requires n <= |es| && Clocked(es)
    ensures W.Spaced(Times(AgentLog(config, es, n, agent)), Max(0, config.maxCallsPerMinute), WINDOW_MS)
    ensures LoopsAreSlow(AgentLog(config, es, n, agent), Max(1, config.maxConsecutiveIdenticalCalls))
  {
    hide AgentLog, Records, Recent, Trailing, Decide, SessionTotal, W.Spaced, LoopsAreSlow, W.KeepAfter, W.IsRecent;
    EmptyLogIsSpaced(config, es, n, agent);
    if n != 0 {
      LogIsSpaced(config, es, n - 1, agent);
      LogAfter(config, es, n - 1, agent);
      LogIsOrdered(config, es, n - 1, agent);
      var e, log := es[n - 1], AgentLog(config, es, n - 1, agent);
      if e.Call? && Records(config, es, n - 1) && e.request.agentId == agent {
        LogStaysSpaced(config, es, n - 1);
      }
    }
  }

  lemma {:induction false} EmptyLogIsSpaced(config: AgentSandboxConfig, es: seq<Event>, n: nat, agent: string)
    requires n <= |es|
    ensures W.Spaced(Times([]), Max(0, config.maxCallsPerMinute), WINDOW_MS)
    ensures LoopsAreSlow([], Max(1, config.maxConsecutiveIdenticalCalls))
    ensures n == 0 ==> AgentLog(config, es, n, agent) == []
  {
  }

  /** One recorded call keeps its agent's log spaced and its loops slow. */
  lemma {:induction false} LogStaysSpaced(config: AgentSandboxConfig, es: seq<Event>, i: nat)
    requires i < |es| && Clocked(es) && Records(config, es, i)
    requires W.Spaced(Times(AgentLog(config, es, i, es[i].request.agentId)), Max(0, config.maxCallsPerMinute),
             WINDOW_MS)
    requires LoopsAreSlow(AgentLog(config, es, i, es[i].request.agentId), Max(1, config.maxConsecutiveIdenticalCalls))
    ensures var log' := AgentLog(config, es, i, es[i].request.agentId) + [RecordOf(es[i])];
            && W.Spaced(Times(log'), Max(0, config.maxCallsPerMinute), WINDOW_MS)
            && LoopsAreSlow(log', Max(1, config.maxConsecutiveIdenticalCalls))
  {
    hide AgentLog, Recent, Trailing, Decide, SessionTotal, W.Spaced, LoopsAreSlow, W.KeepAfter, W.IsRecent, ResultOf;
    var e, log := es[i], AgentLog(config, es, i, es[i].request.agentId);
    var recent := Recent(log, |log|, e.now);
    ResultIsLogAnswer(config, es, i);
    VerdictIsExact(config, recent, SessionTotal(config, es, i, e.request.Session()), e.request);
    LogIsOrdered(config, es, i, e.request.agentId);
    RecordingKeepsLoopsSlow(log, Max(1, config.maxConsecutiveIdenticalCalls), e.now, RecordOf(e));
    RecentTimes(log, |log|, e.now);
    W.PrunedHistoryIsRecent(Times(log), e.now - WINDOW_MS);
    W.AdmittingKeepsSpacing(Times(recent), Times(log), Max(0, config.maxCallsPerMinute), WINDOW_MS, e.now);
    assert Times(log + [RecordOf(e)]) == Times(log) + [e.now];
  }

  /** At every time, and not only at calls, the last minute holds at most the calls allowed per minute. */
  lemma {:induction false} IntervalsAreBounded(config: AgentSandboxConfig, es: seq<Event>, n: nat, agent: string,
      t: int)
    requires n <= |es| && Clocked(es)
    ensures var ts := Times(AgentLog(config, es, n, agent));
            W.CountIn(ts, |ts|, t - 60_000, t) <= Max(0, config.maxCallsPerMinute)
  {
    hide AgentLog, W.Spaced, W.CountIn;
    LogIsSpaced(config, es, n, agent);
    LogIsOrdered(config, es, n, agent);
    var ts := Times(AgentLog(config, es, n, agent));
    W.SpacingBoundsEveryInterval(ts, |ts|, Max(0, config.maxCallsPerMinute), WINDOW_MS, t);
  }

  /** Which guard a verdict comes from, and what it says about the call. */
  lemma {:induction false} VerdictIsExact(config: AgentSandboxConfig, recent: seq<CallRecord>, total: nat,
      r: ToolExecutionRequest)
    ensures var v := Decide(config, recent, total, r);
            var identical := Trailing(recent, |recent|, r.toolName, r.argumentsHash);
            && (v.Recorded() <==>
                  total < config.maxCallsPerSession && |recent| < config.maxCallsPerMinute
                  && identical < config.maxConsecutiveIdenticalCalls - 1)
            && (v.permitted <==> v.Recorded() && r.toolName !in config.highImpactTools)
            && (v.requiresHumanApproval <==> v.Recorded() && r.toolName in config.highImpactTools)
            && (v.isPotentialLoop <==>
                  total < config.maxCallsPerSession && |recent| < config.maxCallsPerMinute
                  && identical >= config.maxConsecutiveIdenticalCalls - 1)
            && v.callCountInWindow == |recent| + (if v.Recorded() then 1 else 0)
            && v.remainingWindowQuota == Max(0, config.maxCallsPerMinute - v.callCountInWindow)
            && v.totalSessionCalls == total + (if v.Recorded() then 1 else 0)
            && (v.reason == Some(SessionQuotaExceeded) <==> total >= config.maxCallsPerSession)
            && (v.reason == Some(RateLimitExceeded) <==>
                  total < config.maxCallsPerSession && |recent| >= config.maxCallsPerMinute)
            && (v.isPotentialLoop <==> v.reason == Some(PotentialLoop(identical + 1)))
            && (v.requiresHumanApproval <==> v.reason == Some(HighImpact))
            && (v.permitted <==> v.reason.None?)
  {
    hide Trailing;
  }

  /** The loop guard counts exactly the last calls with the same tool and the same arguments. */
  lemma {:induction false} LoopGuardIsExact(recent: seq<CallRecord>, tool: string, hash: string, k: int)
    ensures Trailing(recent, |recent|, tool, hash) >= k <==>
            && k <= |recent|
            && forall i :: 0 <= i < |recent| && |recent| - k <= i ==>
                 recent[i].toolName == tool && recent[i].argumentsHash == hash
  {
    hide Trailing;
    var trailing := Trailing(recent, |recent|, tool, hash);
    assert forall i :: 0 <= i < |recent| ==>
             (recent[i].Is(tool, hash) <==> recent[i].toolName == tool && recent[i].argumentsHash == hash);
    assert trailing < |recent| ==> !recent[|recent| - trailing - 1].Is(tool, hash);
  }

  /** The request is made in this session: it names it, or names none and the session is the default one. */
  predicate InSession(r: ToolExecutionRequest, session: string) {
    r.sessionId == Some(session) || (r.sessionId.None? && session == "default-session")
  }

  /** How many calls were recorded in a session since everything was last reset. */
  function RecordedIn(config: AgentSandboxConfig, es: seq<Event>, n: nat, session: string): nat
    requires n <= |es|
  {
    if n == 0 then 0
    else if es[n - 1].Reset? then (if es[n - 1].agentId == "" then 0 else RecordedIn(config, es, n - 1, session))
    else
      RecordedIn(config, es, n - 1, session)
      + if InSession(es[n - 1].request, session) && ResultOf(config, es, n - 1).Recorded() then 1 else 0
  }

  lemma {:induction false} TotalsAreOfOwnCalls(config: AgentSandboxConfig, es: seq<Event>, n: nat, session: string)
    requires n <= |es|
    ensures SessionTotal(config, es, n, session) == RecordedIn(config, es, n, session)
  {
    hide ResultOf;
    if n != 0 { TotalsAreOfOwnCalls(config, es, n - 1, session); }
  }

  /** A session's quota is decided by the calls recorded in that session alone, and its total counts exactly those. */
  lemma {:induction false} QuotaIsPerSession(config: AgentSandboxConfig, es: seq<Event>, i: nat, session: string)
    requires i < |es| && es[i].Call? && Clocked(es) && InSession(es[i].request, session)
    ensures var v := ResultOf(config, es, i);
            && (v.reason == Some(SessionQuotaExceeded) <==>
                  RecordedIn(config, es, i, session) >= config.maxCallsPerSession)
            && v.totalSessionCalls == RecordedIn(config, es, i + 1, session)
  {
    hide Decide, Recent, AgentLog, ResultOf, RecordedIn, SessionTotal;
    var r := es[i].request;
    var log := AgentLog(config, es, i, r.agentId);
    ResultIsLogAnswer(config, es, i);
    VerdictIsExact(config, Recent(log, |log|, es[i].now), SessionTotal(config, es, i, r.Session()), r);
    ReportIsExact(config, es, i);
    TotalsAreOfOwnCalls(config, es, i, session);
    TotalsAreOfOwnCalls(config, es, i + 1, session);
  }

  /** What a call reports is exact: its agent's calls in the last minute and its session's total, after the call. */
  lemma {:induction false} ReportIsExact(config: AgentSandboxConfig, es: seq<Event>, i: nat)
    requires i < |es| && es[i].Call? && Clocked(es)
    ensures var r, v := es[i].request, ResultOf(config, es, i);
            var after := AgentLog(config, es, i + 1, r.agentId);
            && v.callCountInWindow == |Recent(after, |after|, es[i].now)|
            && v.remainingWindowQuota == Max(0, config.maxCallsPerMinute - v.callCountInWindow)
            && v.totalSessionCalls == SessionTotal(config, es, i + 1, r.Session())
  {
    hide Decide, Recent, AgentLog, SessionTotal, ResultOf;
    var r := es[i].request;
    var log := AgentLog(config, es, i, r.agentId);
    ResultIsLogAnswer(config, es, i);
    VerdictIsExact(config, Recent(log, |log|, es[i].now), SessionTotal(config, es, i, r.Session()), r);
    LogAfter(config, es, i, r.agentId);
    TotalAfter(config, es, i, r.Session());
    RecentAppend(log, RecordOf(es[i]), es[i].now);
  }

  /** With a loop threshold of one or less nothing is ever recorded. */
  lemma {:induction false} ThresholdOfOneRecordsNothing(config: AgentSandboxConfig, es: seq<Event>, n: nat,
      agent: string)
    requires n <= |es| && Clocked(es) && config.maxConsecutiveIdenticalCalls <= 1
    ensures AgentLog(config, es, n, agent) == []
  {
    LogIsSpaced(config, es, n, agent);
    var log := AgentLog(config, es, n, agent);
    assert log != [] ==> SameCall(log, 0, 0);
  }

  /** No session ever has more recorded calls than its quota. */
  lemma {:induction false} SessionsAreBounded(config: AgentSandboxConfig, es: seq<Event>, n: nat, session: string)
    requires n <= |es| && Clocked(es)
    ensures SessionTotal(config, es, n, session) <= Max(0, config.maxCallsPerSession)
  {
    hide Recent, Decide, ResultOf, AgentLog;
    if n != 0 {
      SessionsAreBounded(config, es, n - 1, session);
      var e := es[n - 1];
      if e.Call? && Records(config, es, n - 1) {
        ResultIsLogAnswer(config, es, n - 1);
        var log := AgentLog(config, es, n - 1, e.request.agentId);
        VerdictIsExact(config, Recent(log, |log|, e.now), SessionTotal(config, es, n - 1, e.request.Session()),
            e.request);
      }
    }
  }

  // ---------------------------------------------------------------- conservation across the two maps

  /** How many of the first `n` events recorded a call. */
  function RecordedCalls(config: AgentSandboxConfig, es: seq<Event>, n: nat): nat
    requires n <= |es|
  {
    if n == 0 then 0 else RecordedCalls(config, es, n - 1) + if Records(config, es, n - 1) then 1 else 0
  }

  /** The lengths of the first `k` agents' logs, added up. */
  function SumOfLogs(config: AgentSandboxConfig, es: seq<Event>, n: nat, agents: seq<string>, k: nat): nat
    requires n <= |es| && k <= |agents|
  {
    if k == 0 then 0 else SumOfLogs(config, es, n, agents, k - 1) + |AgentLog(config, es, n, agents[k - 1])|
  }

  /** The counts kept for the first `k` sessions, added up. */
  function SumOfCounts(config: AgentSandboxConfig, es: seq<Event>, n: nat, sessions: seq<string>, k: nat): nat
    requires n <= |es| && k <= |sessions|
  {
    if k == 0 then 0
    else SumOfCounts(config, es, n, sessions, k - 1) + StateAfter(config, es, n).TotalOf(sessions[k - 1])
  }

  ghost predicate NoRepeat(names: seq<string>) {
    forall i, j :: 0 <= i < j < |names| ==> names[i] != names[j]
  }

  predicate Among(names: seq<string>, k: nat, name: string)
    requires k <= |names|
  {
    exists i :: 0 <= i < k && names[i] == name
  }

  lemma {:induction false} LogsGrowByOne(config: AgentSandboxConfig, es: seq<Event>, n: nat, agents: seq<string>,
      k: nat)
    requires n < |es| && es[n].Call? && k <= |agents| && NoRepeat(agents)
    ensures SumOfLogs(config, es, n + 1, agents, k) == SumOfLogs(config, es, n, agents, k)
              + if Records(config, es, n) && Among(agents, k, es[n].request.agentId) then 1 else 0
  {
    hide AgentLog, Records;
    if k != 0 {
      LogsGrowByOne(config, es, n, agents, k - 1);
      LogAfter(config, es, n, agents[k - 1]);
    }
  }

  lemma {:induction false} CountsGrowByOne(config: AgentSandboxConfig, es: seq<Event>, n: nat,
      sessions: seq<string>, k: nat)
    requires n < |es| && (es[n].Call? || es[n].agentId != "") && k <= |sessions| && NoRepeat(sessions)
    ensures SumOfCounts(config, es, n + 1, sessions, k) == SumOfCounts(config, es, n, sessions, k)
              + if Records(config, es, n) && Among(sessions, k, es[n].request.Session()) then 1 else 0
  {
    hide SessionTotal, Records, StateAfter, ToolExecutionRequest.Session;
    if k != 0 {
      CountsGrowByOne(config, es, n, sessions, k - 1);
      TotalAfter(config, es, n, sessions[k - 1]);
      CountsAreTotals(config, es, n, sessions[k - 1]);
      CountsAreTotals(config, es, n + 1, sessions[k - 1]);
      OnlyCallsRecord(config, es, n);
    }
  }

  lemma OnlyCallsRecord(config: AgentSandboxConfig, es: seq<Event>, n: nat)
    requires n < |es|
    ensures Records(config, es, n) ==> es[n].Call?
  {
  }

  lemma {:induction false} NothingIsRecordedYet(config: AgentSandboxConfig, es: seq<Event>, names: seq<string>, k: nat)
    requires k <= |names|
    ensures SumOfLogs(config, es, 0, names, k) == 0 && SumOfCounts(config, es, 0, names, k) == 0
  {
    if k != 0 { NothingIsRecordedYet(config, es, names, k - 1); }
  }

  /** How many of the first `n` events recorded a call less than a minute before `now`. */
  function RecordedLately(config: AgentSandboxConfig, es: seq<Event>, n: nat, now: int): nat
    requires n <= |es|
  {
    if n == 0 then 0
    else RecordedLately(config, es, n - 1, now)
         + if Records(config, es, n - 1) && now - es[n - 1].now < WINDOW_MS then 1 else 0
  }

  /** What the first `k` agents' stored histories hold of the last minute, added up. */
  function SumOfHistories(config: AgentSandboxConfig, es: seq<Event>, n: nat, agents: seq<string>, k: nat,
      now: int): nat
    requires n <= |es| && k <= |agents|
  {
    if k == 0 then 0
    else
      var calls := StateAfter(config, es, n).CallsOf(agents[k - 1]);
      SumOfHistories(config, es, n, agents, k - 1, now) + |Recent(calls, |calls|, now)|
  }

  lemma {:induction false} HistoriesGrowByOne(config: AgentSandboxConfig, es: seq<Event>, n: nat, agents: seq<string>,
      k: nat,
      now: int)
    requires n < |es| && es[n].Call? && k <= |agents| && NoRepeat(agents) && NotBefore(es, n + 1, now)
    ensures SumOfHistories(config, es, n + 1, agents, k, now) == SumOfHistories(config, es, n, agents, k, now)
              + if Records(config, es, n) && Among(agents, k, es[n].request.agentId) && now - es[n].now < WINDOW_MS
                then 1 else 0
  {
    hide AgentLog, Records, StateAfter, Recent;
    if k != 0 {
      var agent := agents[k - 1];
      HistoriesGrowByOne(config, es, n, agents, k - 1, now);
      LogAfter(config, es, n, agent);
      HistoryStandsForLog(config, es, n, agent, now);
      HistoryStandsForLog(config, es, n + 1, agent, now);
      if es[n].request.agentId == agent { RecentAppend(AgentLog(config, es, n, agent), RecordOf(es[n]), now); }
    }
  }

  lemma {:induction false} NoHistoryYet(config: AgentSandboxConfig, es: seq<Event>, agents: seq<string>, k: nat,
      now: int)
    requires k <= |agents|
    ensures SumOfHistories(config, es, 0, agents, k, now) == 0
  {
    if k != 0 { NoHistoryYet(config, es, agents, k - 1, now); }
  }

  /**
   Conservation on the stored maps. Without a reset, at any time from the last call on, the stored histories
   together hold of the last minute exactly the calls recorded in it.
   */
  lemma {:induction false} StoredHistoriesAreConserved(config: AgentSandboxConfig, es: seq<Event>, n: nat,
      agents: seq<string>,
      now: int)
    requires n <= |es| && NoRepeat(agents) && NotBefore(es, n, now)
    requires forall i :: 0 <= i < n ==> es[i].Call? && Among(agents, |agents|, es[i].request.agentId)
    ensures SumOfHistories(config, es, n, agents, |agents|, now) == RecordedLately(config, es, n, now)
  {
    hide SumOfHistories, Records, NoRepeat, Among;
    if n == 0 {
      NoHistoryYet(config, es, agents, |agents|, now);
    } else {
      StoredHistoriesAreConserved(config, es, n - 1, agents, now);
      HistoriesGrowByOne(config, es, n - 1, agents, |agents|, now);
    }
  }

  /**
   Conservation. Every recorded call is counted once for its session and once for its agent: without a full
   reset the stored session counts add up to the number of recorded calls, and without any reset so do the
   lengths of the agents' full logs, of which the stored histories keep the last minute.
   */
  lemma {:induction false} RecordedCallsAreConserved(config: AgentSandboxConfig, es: seq<Event>, n: nat,
      agents: seq<string>, sessions: seq<string>)
    requires n <= |es| && NoRepeat(agents) && NoRepeat(sessions)
    requires forall i :: 0 <= i < |es| && es[i].Call? ==>
               Among(agents, |agents|, es[i].request.agentId) && Among(sessions, |sessions|, es[i].request.Session())
    requires forall i :: 0 <= i < |es| && es[i].Reset? ==> es[i].agentId != ""
    ensures SumOfCounts(config, es, n, sessions, |sessions|) == RecordedCalls(config, es, n)
    ensures (forall i :: 0 <= i < n ==> es[i].Call?) ==>
              SumOfLogs(config, es, n, agents, |agents|) == RecordedCalls(config, es, n)
  {
    hide SumOfLogs, SumOfCounts, Records, NoRepeat, Among, ToolExecutionRequest.Session;
    if n == 0 {
      NothingIsRecordedYet(config, es, agents, |agents|);
      NothingIsRecordedYet(config, es, sessions, |sessions|);
    } else {
      RecordedCallsAreConserved(config, es, n - 1, agents, sessions);
      CountsGrowByOne(config, es, n - 1, sessions, |sessions|);
      OnlyCallsRecord(config, es, n - 1);
      if es[n - 1].Call? { LogsGrowByOne(config, es, n - 1, agents, |agents|); }
    }
  }

  // ---------------------------------------------------------------- refused calls leave no trace

  function Without(es: seq<Event>, k: nat): (r: seq<Event>)
    requires k < |es|
    ensures |r| == |es| - 1
    ensures forall i :: 0 <= i < k ==> r[i] == es[i]
    ensures forall i :: k < i < |es| ==> r[i - 1] == es[i]
  {
    es[..k] + es[k + 1..]
  }

  lemma {:induction false} SamePrefix(config: AgentSandboxConfig, es: seq<Event>, es': seq<Event>, n: nat,
      agent: string, session: string)
    requires n <= |es| && n <= |es'| && forall i :: 0 <= i < n ==> es[i] == es'[i]
    ensures StateAfter(config, es, n) == StateAfter(config, es', n)
    ensures AgentLog(config, es, n, agent) == AgentLog(config, es', n, agent)
    ensures SessionTotal(config, es, n, session) == SessionTotal(config, es', n, session)
  {
    hide EvaluateStep;
    if n != 0 { SamePrefix(config, es, es', n - 1, agent, session); }
  }

  lemma {:induction false} TotalAfter(config: AgentSandboxConfig, es: seq<Event>, n: nat, session: string)
    requires n < |es|
    ensures var total, e := SessionTotal(config, es, n, session), es[n];
            SessionTotal(config, es, n + 1, session) ==
              if e.Reset? then (if e.agentId == "" then 0 else total)
              else if Records(config, es, n) && e.request.Session() == session then total + 1 else total
  {
    hide EvaluateStep, StateAfter;
  }

  /** After a refused call, logs and totals go on as if it had not been made. */
  lemma {:induction false} RefusalLeavesLogs(config: AgentSandboxConfig, es: seq<Event>, k: nat, n: nat,
      agent: string, session: string)
    requires k < n <= |es| && Clocked(es) && es[k].Call? && !Records(config, es, k)
    ensures AgentLog(config, Without(es, k), n - 1, agent) == AgentLog(config, es, n, agent)
    ensures SessionTotal(config, Without(es, k), n - 1, session) == SessionTotal(config, es, n, session)
    decreases n, 0
  {
    hide AgentLog, SessionTotal, ResultOf, Decide, Recent, Without, Clocked;
    var es' := Without(es, k);
    LogAfter(config, es, n - 1, agent);
    TotalAfter(config, es, n - 1, session);
    if n == k + 1 {
      SamePrefix(config, es, es', k, agent, session);
    } else {
      RefusalLeavesLogs(config, es, k, n - 1, agent, session);
      LogAfter(config, es', n - 2, agent);
      TotalAfter(config, es', n - 2, session);
      if es[n - 1].Call? { RefusalIsInvisible(config, es, k, n - 1); }
    }
  }

  /** A refused call changes no later answer. */
  lemma {:induction false} RefusalIsInvisible(config: AgentSandboxConfig, es: seq<Event>, k: nat, i: nat)
    requires k < i < |es| && Clocked(es) && es[k].Call? && !Records(config, es, k) && es[i].Call?
    ensures Without(es, k)[i - 1] == es[i]
    ensures ResultOf(config, Without(es, k), i - 1) == ResultOf(config, es, i)
    decreases i, 1
  {
    hide AgentLog, SessionTotal, ResultOf, Decide, Recent, Records;
    var es', r := Without(es, k), es[i].request;
    RefusalLeavesLogs(config, es, k, i, r.agentId, r.Session());
    assert es'[i - 1] == es[i];
    StillClocked(es, k);
    ResultIsLogAnswer(config, es, i);
    ResultIsLogAnswer(config, es', i - 1);
  }

  lemma {:induction false} StillClocked(es: seq<Event>, k: nat)
    requires k < |es| && Clocked(es)
    ensures Clocked(Without(es, k))
  {
    var es' := Without(es, k);
    forall i, j | 0 <= i < j < |es'| && es'[i].Call? && es'[j].Call?
      ensures es'[i].now <= es'[j].now
    {
      var i0, j0 := if i < k then i else i + 1, if j < k then j else j + 1;
      assert es'[i] == es[i0] && es'[j] == es[j0];
    }
  }
}
