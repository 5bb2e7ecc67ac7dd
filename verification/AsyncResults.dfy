/** What holds of every interleaving of the asynchronous protocol. */
module AsyncResults {
  import opened Wrappers
  import opened Credentials
  import opened DistributedStore
  import opened AsyncProtocol
  import opened AsyncJustification

  /**
   Replay safety. In every interleaving, from any starting backend, two authenticated requests whose
   nodes give their nonces the same key are strictly more than one lifetime apart.
   */
  lemma {:induction false} AcceptancesAreApart(env: Env, w0: World, es: seq<Event>, i: nat, j: nat)
    requires Initial(w0)
    requires var w := Execute(env, w0, es, |es|);
             && i < j < |w.requests|
             && w.requests[i].phase.Done? && w.requests[i].phase.result.Authenticated?
             && w.requests[j].phase.Done? && w.requests[j].phase.result.Authenticated?
             && w.requests[i].node < |w.nodes| && w.requests[j].node < |w.nodes|
             && w.nodes[w.requests[i].node].prefix + w.requests[i].creds.nonce
                == w.nodes[w.requests[j].node].prefix + w.requests[j].creds.nonce
    ensures var w := Execute(env, w0, es, |es|);
            Apart(w.requests[i].storeAt, w.requests[j].storeAt)
  {
    hide Step;
    RunsAreSafe(env, w0, es, |es|);
    var w := Execute(env, w0, es, |es|);
    assert SameNonceTwice(w, w.requests[i], w.requests[j]);
  }

  /**
   Single use on the asynchronous path. When two authenticated requests have one key and one timestamp, not
   later than the first consumption, the second was let through the gate before the first one's lifetime
   ended and consumed its nonce only after.
   */
  lemma {:induction false} SecondUseStraddlesTheLifetime(env: Env, w0: World, es: seq<Event>, i: nat, j: nat)
    requires Initial(w0)
    requires var w := Execute(env, w0, es, |es|);
             && i < |w.requests| && j < |w.requests| && i != j
             && w.requests[i].phase.Done? && w.requests[i].phase.result.Authenticated?
             && w.requests[j].phase.Done? && w.requests[j].phase.result.Authenticated?
             && w.requests[i].node < |w.nodes| && w.requests[j].node < |w.nodes|
             && w.nodes[w.requests[i].node].prefix + w.requests[i].creds.nonce
                == w.nodes[w.requests[j].node].prefix + w.requests[j].creds.nonce
             && w.requests[i].creds.timestamp == w.requests[j].creds.timestamp
             && w.requests[i].storeAt <= w.requests[j].storeAt
             && env.parseTime(w.requests[i].creds.timestamp).Some?
             && env.parseTime(w.requests[i].creds.timestamp).value <= w.requests[i].storeAt
    ensures var w := Execute(env, w0, es, |es|);
            w.requests[j].startedAt <= w.requests[i].storeAt + MAX_CLOCK_SKEW_MS < w.requests[j].storeAt
  {
    hide Step;
    if i < j { AcceptancesAreApart(env, w0, es, i, j); } else { AcceptancesAreApart(env, w0, es, j, i); }
    AnswersFailClosed(env, w0, es, j);
    FreshWhenStarted(env, Execute(env, w0, es, |es|).requests[j]);
  }

  lemma {:induction false} FreshWhenStarted(env: Env, r: Request)
    requires Gate(env, r.creds, r.startedAt).None?
    ensures env.parseTime(r.creds.timestamp).Some?
    ensures r.startedAt <= env.parseTime(r.creds.timestamp).value + MAX_CLOCK_SKEW_MS
  {
  }

  /**
   Fail closed. In every interleaving an answered request reports an unavailable store if and only if its
   node was unhealthy at the health read or at the consumption; so one that was authenticated passed
   the gate when it started and found its node healthy both times.
   */
  lemma {:induction false} AnswersFailClosed(env: Env, w0: World, es: seq<Event>, i: nat)
    requires Initial(w0)
    requires var w := Execute(env, w0, es, |es|); i < |w.requests| && w.requests[i].phase.Done?
    ensures var r := Execute(env, w0, es, |es|).requests[i];
            && (r.phase.result == Refused(ReplayStoreUnavailable)
                <==> r.healthRead == Some(false) || r.storeHealth == Some(false))
            && (r.phase.result.Authenticated? ==>
                  && Gate(env, r.creds, r.startedAt).None?
                  && r.healthRead == r.storeHealth == Some(true)
                  && r.phase.result == Verdict(env, r.creds, r.body))
  {
    hide Step;
    RunsAreSafe(env, w0, es, |es|);
    var r := Execute(env, w0, es, |es|).requests[i];
    assert Tracked(env, r);
    GateRefusals(env, r.creds, r.startedAt);
  }

  /**
   A request whose node is unhealthy at the consumption, or was at the health read, is refused and changes no entry.
   */
  lemma {:induction false} UnhealthyConsumptionChangesNothing(w: World, i: nat)
    requires WellPlaced(w) && i < |w.requests| && w.requests[i].phase.HealthChecked?
    ensures var w' := ConsumeEvent(w, i);
            !w.requests[i].phase.healthy || !w.nodes[w.requests[i].node].healthy
            <==> w'.requests[i].phase == Done(Refused(ReplayStoreUnavailable))
    ensures !HasConsumed(ConsumeEvent(w, i).requests[i]) <==> ConsumeEvent(w, i).backend == w.backend
  {
    var w' := ConsumeEvent(w, i);
    if HasConsumed(w'.requests[i]) {
      assert !HeldIn(w.backend, KeyOf(w, w.requests[i]), w.now);
      assert w'.backend[KeyOf(w, w.requests[i])] == w.now + MAX_CLOCK_SKEW_MS;
    }
  }

  /**
   From an empty backend, a request is refused as a replay only after a consumption of its key within one lifetime.
   */
  lemma {:induction false} ReplayRefusalsAreReplays(env: Env, w0: World, es: seq<Event>, i: nat)
    requires Initial(w0) && w0.backend == map[]
    requires var w := Execute(env, w0, es, |es|); i < |w.requests| && RefusedAsReplay(w.requests[i])
    ensures var w := Execute(env, w0, es, |es|);
            WellPlaced(w) && ConsumedWithin(w, KeyOf(w, w.requests[i]), w.requests[i].storeAt)
  {
    hide Step;
    RunsAreJustified(env, w0, es, |es|);
  }

  /**
   In the requests' own terms: some request whose node has a prefix that gives the same key consumed it in that time.
   */
  lemma {:induction false} ReplayRefusalsNameAConsumption(env: Env, w0: World, es: seq<Event>, i: nat)
    requires Initial(w0) && w0.backend == map[]
    requires var w := Execute(env, w0, es, |es|);
             i < |w.requests| && w.requests[i].node < |w.nodes| && w.requests[i].phase == Done(Refused(ReplayDetected))
    ensures var w := Execute(env, w0, es, |es|);
            exists j :: 0 <= j < |w.requests| && w.requests[j].node < |w.nodes| && HasConsumed(w.requests[j])
              && w.nodes[w.requests[j].node].prefix + w.requests[j].creds.nonce
                 == w.nodes[w.requests[i].node].prefix + w.requests[i].creds.nonce
              && w.requests[i].storeAt - 300_000 <= w.requests[j].storeAt <= w.requests[i].storeAt
  {
    hide Step;
    ReplayRefusalsAreReplays(env, w0, es, i);
    var w := Execute(env, w0, es, |es|);
    var r := w.requests[i];
    var at :| r.storeAt - MAX_CLOCK_SKEW_MS <= at <= r.storeAt && ConsumedAt(w, KeyOf(w, r), at);
    var j :| 0 <= j < |w.requests| && HasConsumed(w.requests[j]) && KeyOf(w, w.requests[j]) == KeyOf(w, r)
             && w.requests[j].storeAt == at;
  }

  /** The request reached a healthy store at its second reading, so the store gave it an answer. */
  predicate ReachedStore(r: Request) {
    HasConsumed(r) || RefusedAsReplay(r)
  }

  predicate Wins(w: World, i: nat, key: string, from: int)
    requires i < |w.requests|
  {
    var r := w.requests[i];
    HasConsumed(r) && r.node < |w.nodes| && KeyOf(w, r) == key && from <= r.storeAt <= from + MAX_CLOCK_SKEW_MS
  }

  lemma {:induction false} WinnersAreUnique(w: World, i: nat, j: nat, key: string, from: int)
    requires WellPlaced(w) && Separated(w) && i < |w.requests| && j < |w.requests|
    requires Wins(w, i, key, from) && Wins(w, j, key, from)
    ensures i == j
  {
    if i < j { assert SameNonceTwice(w, w.requests[i], w.requests[j]); }
    if j < i { assert SameNonceTwice(w, w.requests[j], w.requests[i]); }
  }

  /**
   One winner per race. If at least one request for a key reaches the store during the lifetime that
   starts at `from`, and none consumed it in the lifetime before, then exactly one request consumes
   it in that time.
   */
  lemma {:induction false} RaceHasOneWinner(env: Env, w0: World, es: seq<Event>, key: string, from: int, k: nat)
    requires Initial(w0) && w0.backend == map[]
    requires var w := Execute(env, w0, es, |es|);
             && WellPlaced(w) && k < |w.requests| && ReachedStore(w.requests[k]) && KeyOf(w, w.requests[k]) == key
             && from <= w.requests[k].storeAt <= from + MAX_CLOCK_SKEW_MS
             && (forall at :: from - MAX_CLOCK_SKEW_MS <= at < from ==> !ConsumedAt(w, key, at))
    ensures var w := Execute(env, w0, es, |es|);
            exists i :: 0 <= i < |w.requests| && Wins(w, i, key, from)
              && forall j :: 0 <= j < |w.requests| && Wins(w, j, key, from) ==> j == i
  {
    hide Step;
    var w := Execute(env, w0, es, |es|);
    RunsAreSafe(env, w0, es, |es|);
    RunsAreJustified(env, w0, es, |es|);
    var i := k;
    if RefusedAsReplay(w.requests[k]) {
      var at :| w.requests[k].storeAt - MAX_CLOCK_SKEW_MS <= at <= w.requests[k].storeAt && ConsumedAt(w, key, at);
      i :| 0 <= i < |w.requests| && HasConsumed(w.requests[i]) && KeyOf(w, w.requests[i]) == key
          && w.requests[i].storeAt == at;
    }
    assert Wins(w, i, key, from);
    forall j | 0 <= j < |w.requests| && Wins(w, j, key, from)
      ensures j == i
    {
      WinnersAreUnique(w, i, j, key, from);
    }
  }
}
