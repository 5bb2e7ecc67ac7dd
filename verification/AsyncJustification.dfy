/** Refusals as replays are never spurious: every backend entry and every such refusal goes back to a consumption. */
module AsyncJustification {
  import opened Credentials
  import opened DistributedStore
  import opened AsyncProtocol

  ghost predicate Justified(w: World) {
    WellPlaced(w) && EntriesJustified(w) && RefusalsJustified(w)
  }

  /** A consumption stays on record under any event that keeps the consumed requests. */
  ghost predicate KeepsConsumptions(w: World, w': World)
    requires WellPlaced(w) && WellPlaced(w')
  {
    && |w.requests| <= |w'.requests|
    && forall i :: 0 <= i < |w.requests| && HasConsumed(w.requests[i]) ==>
         && HasConsumed(w'.requests[i]) && w'.requests[i].storeAt == w.requests[i].storeAt
         && KeyOf(w', w'.requests[i]) == KeyOf(w, w.requests[i])
  }

  lemma {:induction false} ConsumptionStaysOnRecord(w: World, w': World, key: string, at: int)
    requires WellPlaced(w) && WellPlaced(w') && KeepsConsumptions(w, w') && ConsumedAt(w, key, at)
    ensures ConsumedAt(w', key, at)
  {
    var i :| 0 <= i < |w.requests| && HasConsumed(w.requests[i]) && KeyOf(w, w.requests[i]) == key
        && w.requests[i].storeAt == at;
    assert HasConsumed(w'.requests[i]);
  }

  lemma {:induction false} WithinStaysOnRecord(w: World, w': World, key: string, now: int)
    requires WellPlaced(w) && WellPlaced(w') && KeepsConsumptions(w, w') && ConsumedWithin(w, key, now)
    ensures ConsumedWithin(w', key, now)
  {
    var at :| now - MAX_CLOCK_SKEW_MS <= at <= now && ConsumedAt(w, key, at);
    ConsumptionStaysOnRecord(w, w', key, at);
  }

  lemma {:induction false} QuietKeepsJustified(w: World, w': World)
    requires Justified(w) && WellPlaced(w') && Quiet(w, w')
    ensures Justified(w')
  {
    assert KeepsConsumptions(w, w');
    forall key | key in w'.backend
      ensures ConsumedAt(w', key, w'.backend[key] - MAX_CLOCK_SKEW_MS)
    {
      ConsumptionStaysOnRecord(w, w', key, w.backend[key] - MAX_CLOCK_SKEW_MS);
    }
    forall i | 0 <= i < |w'.requests| && RefusedAsReplay(w'.requests[i])
      ensures ConsumedWithin(w', KeyOf(w', w'.requests[i]), w'.requests[i].storeAt)
    {
      assert i < |w.requests| && RefusedAsReplay(w.requests[i]);
      WithinStaysOnRecord(w, w', KeyOf(w, w.requests[i]), w.requests[i].storeAt);
    }
  }

  /** A live entry found by a request was consumed at most one lifetime before. */
  lemma {:induction false} LiveEntryWasConsumed(w: World, key: string)
    requires WellPlaced(w) && EntriesJustified(w) && HeldIn(w.backend, key, w.now)
    ensures ConsumedWithin(w, key, w.now)
  {
    var at := w.backend[key] - MAX_CLOCK_SKEW_MS;
    assert ConsumedAt(w, key, at);
  }

  lemma {:induction false} ConsumingKeepsEntries(w: World, i: nat)
    requires WellPlaced(w) && EntriesJustified(w) && i < |w.requests| && w.requests[i].phase.HealthChecked?
    requires WellPlaced(ConsumeEvent(w, i)) && KeepsConsumptions(w, ConsumeEvent(w, i))
    ensures EntriesJustified(ConsumeEvent(w, i))
  {
    var w' := ConsumeEvent(w, i);
    forall key | key in w'.backend
      ensures ConsumedAt(w', key, w'.backend[key] - MAX_CLOCK_SKEW_MS)
    {
      if HasConsumed(w'.requests[i]) && key == KeyOf(w, w.requests[i]) {
        assert KeyOf(w', w'.requests[i]) == key && w'.requests[i].storeAt == w'.backend[key] - MAX_CLOCK_SKEW_MS;
      } else {
        ConsumptionStaysOnRecord(w, w', key, w.backend[key] - MAX_CLOCK_SKEW_MS);
      }
    }
  }

  lemma {:induction false} ConsumingKeepsRefusals(w: World, i: nat)
    requires Justified(w) && i < |w.requests| && w.requests[i].phase.HealthChecked?
    requires WellPlaced(ConsumeEvent(w, i)) && KeepsConsumptions(w, ConsumeEvent(w, i))
    ensures RefusalsJustified(ConsumeEvent(w, i))
  {
    var w' := ConsumeEvent(w, i);
    forall j | 0 <= j < |w'.requests| && RefusedAsReplay(w'.requests[j])
      ensures ConsumedWithin(w', KeyOf(w', w'.requests[j]), w'.requests[j].storeAt)
    {
      if j == i {
        LiveEntryWasConsumed(w, KeyOf(w, w.requests[i]));
      }
      WithinStaysOnRecord(w, w', KeyOf(w, w.requests[j]), w'.requests[j].storeAt);
    }
  }

  lemma {:induction false} StepKeepsJustified(env: Env, w: World, e: Event)
    requires Safe(env, w) && Justified(w)
    ensures Justified(Step(env, w, e))
  {
    hide Gate, Verdict, Tracked, Quiet, ConsumeEvent, AllRemembered, Separated, EntriesJustified, RefusalsJustified;
    StepKeepsSafe(env, w, e);
    match e
    case Consume(i) =>
      if i < |w.requests| && w.requests[i].phase.HealthChecked? {
        ConsumingKeepsConsumptions(w, i);
        ConsumingKeepsEntries(w, i);
        ConsumingKeepsRefusals(w, i);
      }
    case Submit(_, _, _) =>
      SubmittingIsQuiet(env, w, e);
      QuietKeepsJustified(w, Step(env, w, e));
    case ReadHealth(_) =>
      ReadingIsQuiet(env, w, e);
      QuietKeepsJustified(w, Step(env, w, e));
    case Finish(_) =>
      FinishingIsQuiet(env, w, e);
      QuietKeepsJustified(w, Step(env, w, e));
    case _ =>
      ClockAndNodesAreQuiet(env, w, e);
      QuietKeepsJustified(w, Step(env, w, e));
  }

  lemma {:induction false} ConsumingKeepsConsumptions(w: World, i: nat)
    requires WellPlaced(w) && i < |w.requests| && w.requests[i].phase.HealthChecked?
    requires WellPlaced(ConsumeEvent(w, i))
    ensures KeepsConsumptions(w, ConsumeEvent(w, i))
  {
  }

  lemma {:induction false} RunsAreJustified(env: Env, w: World, es: seq<Event>, n: nat)
    requires Initial(w) && w.backend == map[] && n <= |es|
    ensures Justified(Execute(env, w, es, n))
  {
    hide Step, Safe;
    if n != 0 {
      RunsAreJustified(env, w, es, n - 1);
      RunsAreSafe(env, w, es, n - 1);
      StepKeepsJustified(env, Execute(env, w, es, n - 1), es[n - 1]);
    }
  }
}
