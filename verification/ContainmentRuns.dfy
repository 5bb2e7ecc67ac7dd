/**
 Whole runs of the containment agent. The reference is eager and reads only the calls made: a quarantine
 is in force until its deadline or its release, with no statuses and no sweeps.
 */
module ContainmentRuns {
  import opened Wrappers
  import opened OrderedMap
  import opened Containment

  datatype Event =
    | Isolate(id: string, request: ContainmentRequest, now: int)
    | Release(id: string, releasedBy: string, releaseReason: string, now: int)
    | Query(targetId: string, targetType: Option<QuarantineTargetType>, now: int)
    | List(now: int)

  function StepLedger(limits: Limits, m: Ledger, e: Event): Ledger {
    match e
    case Isolate(id, request, now) => QuarantineStep(limits, m, id, request, now)
    case Release(id, operator, why, now) => ReleaseStep(m, id, ReleaseNote(now, operator, why))
    case Query(target, targetType, now) => SweepTo(m, FirstMatch(m, 0, target, targetType, now), now)
    case List(now) => Sweep(m, now)
  }

  function LedgerAfter(limits: Limits, es: seq<Event>, n: nat): Ledger
    requires n <= |es|
  {
    if n == 0 then [] else StepLedger(limits, LedgerAfter(limits, es, n - 1), es[n - 1])
  }

  /** What the query at event `n` answers. */
  predicate QueryAnswer(limits: Limits, es: seq<Event>, n: nat)
    requires n < |es| && es[n].Query?
  {
    var m := LedgerAfter(limits, es, n);
    FirstMatch(m, 0, es[n].targetId, es[n].targetType, es[n].now) < |m|
  }

  /** What the release at event `n` answers. */
  predicate ReleaseAnswer(limits: Limits, es: seq<Event>, n: nat)
    requires n < |es| && es[n].Release?
  {
    CanRelease(LedgerAfter(limits, es, n), es[n].id)
  }

  ghost predicate Clocked(es: seq<Event>) {
    forall i, j :: 0 <= i < j < |es| ==> es[i].now <= es[j].now
  }

  /** No two quarantines get the same id. */
  ghost predicate FreshIds(es: seq<Event>) {
    forall i, j :: 0 <= i < j < |es| && es[i].Isolate? && es[j].Isolate? ==> es[i].id != es[j].id
  }

  // ---------------------------------------------------------------- the eager reference

  function Deadline(limits: Limits, e: Event): int
    requires e.Isolate?
  {
    e.now + EffectiveTtl(limits, e.request)
  }

  /** Quarantine `i` was asked to be released before event `n`. */
  ghost predicate Released(es: seq<Event>, i: nat, n: nat)
    requires i < n <= |es| && es[i].Isolate?
  {
    exists j :: i < j < n && es[j].Release? && es[j].id == es[i].id
  }

  /** Quarantine `i` is in force at `now`, after the first `n` events. */
  ghost predicate InForce(limits: Limits, es: seq<Event>, n: nat, i: nat, now: int)
    requires n <= |es|
  {
    i < n && es[i].Isolate? && Deadline(limits, es[i]) >= now && !Released(es, i, n)
  }

  predicate Targets(e: Event, targetId: string, targetType: Option<QuarantineTargetType>)
    requires e.Isolate?
  {
    e.request.targetId == targetId && (targetType.None? || e.request.targetType == targetType.value)
  }

  // ---------------------------------------------------------------- what one call does to one record

  ghost predicate SameKeys(m: Ledger, m': Ledger) {
    |m| <= |m'| && forall k :: 0 <= k < |m| ==> m'[k].key == m[k].key
  }

  /** A call keeps every other id in place; it adds one record at the end when it isolates under a new id. */
  lemma {:induction false} StepKeepsKeys(limits: Limits, m: Ledger, e: Event)
    requires Distinct(m)
    ensures var m' := StepLedger(limits, m, e);
            && Distinct(m') && SameKeys(m, m')
            && |m'| == |m| + (if e.Isolate? && !Has(m, e.id) then 1 else 0)
            && (e.Isolate? && !Has(m, e.id) ==>
                  m'[|m|] == Entry(e.id, NewRecord(limits, e.request, e.now).Expire(e.now)))
  {
  }

  /** A record is released, or expires, or stays as it is. */
  lemma {:induction false} StepRecord(limits: Limits, m: Ledger, e: Event, p: nat)
    requires Distinct(m) && p < |m|
    requires e.Isolate? ==> e.id != m[p].key
    ensures var m', v := StepLedger(limits, m, e), m[p].val;
            && p < |m'|
            && if e.Release? && e.id == m[p].key && v.status == ACTIVE
               then m'[p].val == v.Released(ReleaseNote(e.now, e.releasedBy, e.releaseReason))
               else m'[p].val == v || m'[p].val == v.Expire(e.now)
  {
    if e.Release? && e.id == m[p].key { IndexIsPosition(m, p); }
  }

  /**
   The deadline of a quarantine: its own lifetime, or the default one, but never more than the maximum after it was
   made.
   */
  lemma {:induction false} DeadlineIsExact(limits: Limits, e: Event)
    requires e.Isolate?
    ensures var lifetime := if e.request.ttlMs == 0 then limits.defaultTtlMs else e.request.ttlMs;
            Deadline(limits, e) == e.now + if lifetime <= limits.maxTtlMs then lifetime else limits.maxTtlMs
  {
  }

  /** What a successful release writes into its record: the status, the flag, and who released it when and why. */
  lemma {:induction false} ReleaseIsNoted(limits: Limits, m: Ledger, e: Event, p: nat)
    requires Distinct(m) && p < |m| && e.Release? && e.id == m[p].key && m[p].val.status == ACTIVE
    ensures var m' := StepLedger(limits, m, e);
            && p < |m'| && m'[p].key == e.id
            && m'[p].val == RecordView(m[p].val.request, m[p].val.createdAt, m[p].val.expiresAt, RELEASED, false,
                                       Some(ReleaseNote(e.now, e.releasedBy, e.releaseReason)))
  {
    StepRecord(limits, m, e, p);
    StepKeepsKeys(limits, m, e);
  }

  // ---------------------------------------------------------------- ids and positions

  /** How many of the first `n` calls isolate: the position of the next record. */
  function Position(es: seq<Event>, n: nat): (p: nat)
    requires n <= |es|
    ensures p <= n
  {
    if n == 0 then 0 else Position(es, n - 1) + if es[n - 1].Isolate? then 1 else 0
  }

  /** The call that made the record at position `k`. */
  lemma {:induction false} Origin(es: seq<Event>, n: nat, k: nat) returns (i: nat)
    requires n <= |es| && k < Position(es, n)
    ensures i < n && es[i].Isolate? && Position(es, i) == k
  {
    if k < Position(es, n - 1) { i := Origin(es, n - 1, k); } else { i := n - 1; }
  }

  /** The ledger holds the ids of the quarantines, in the order they were made. */
  lemma {:induction false} LedgerShape(limits: Limits, es: seq<Event>, n: nat)
    requires n <= |es| && FreshIds(es)
    ensures var m := LedgerAfter(limits, es, n);
            && Distinct(m) && |m| == Position(es, n)
            && forall i :: 0 <= i < n && es[i].Isolate? ==>
                 Position(es, i) < |m| && m[Position(es, i)].key == es[i].id
  {
    hide StepLedger, FreshIds;
    if n != 0 {
      var e, m := es[n - 1], LedgerAfter(limits, es, n - 1);
      LedgerShape(limits, es, n - 1);
      if e.Isolate? { NewIdIsNew(limits, es, n - 1); }
      StepKeepsKeys(limits, m, e);
    }
  }

  lemma {:induction false} NewIdIsNew(limits: Limits, es: seq<Event>, n: nat)
    requires n < |es| && FreshIds(es) && es[n].Isolate?
    requires var m := LedgerAfter(limits, es, n);
             && |m| == Position(es, n)
             && forall i :: 0 <= i < n && es[i].Isolate? ==> Position(es, i) < |m| && m[Position(es, i)].key == es[i].id
    ensures !Has(LedgerAfter(limits, es, n), es[n].id)
  {
    hide LedgerAfter, Position;
    var m := LedgerAfter(limits, es, n);
    var k := IndexOf(m, es[n].id);
    if k < |m| { var i := Origin(es, n, k); }
  }

  // ---------------------------------------------------------------- the record of one quarantine

  /**
   A record tells what became of its quarantine: an active one was never released, an expired one is past its deadline.
   */
  ghost predicate Tells(limits: Limits, es: seq<Event>, n: nat, i: nat, v: RecordView)
    requires i < n <= |es| && es[i].Isolate?
  {
    && (es[i].request.initiatedBy != "" ==> v.request == es[i].request)
    && (es[i].request.initiatedBy == "" ==> v.request == es[i].request.(initiatedBy := "containment-agent"))
    && v.createdAt == es[i].now && v.expiresAt == Deadline(limits, es[i])
    && match v.status
       case ACTIVE => !Released(es, i, n)
       case EXPIRED => v.expiresAt < es[n - 1].now
       case RELEASED => Released(es, i, n)
  }

  lemma {:induction false} RecordTells(limits: Limits, es: seq<Event>, n: nat, i: nat)
    requires i < n <= |es| && es[i].Isolate? && FreshIds(es) && Clocked(es)
    ensures var m, p := LedgerAfter(limits, es, n), Position(es, i);
            Distinct(m) && p < |m| && m[p].key == es[i].id && Tells(limits, es, n, i, m[p].val)
  {
    hide StepLedger, Tells, FreshIds, Clocked, Distinct;
    LedgerShape(limits, es, n);
    LedgerShape(limits, es, n - 1);
    var m, p, e := LedgerAfter(limits, es, n - 1), Position(es, i), es[n - 1];
    if n == i + 1 {
      NewIdIsNew(limits, es, i);
      StepKeepsKeys(limits, m, e);
      NewRecordTells(limits, es, i);
    } else {
      RecordTells(limits, es, n - 1, i);
      if e.Isolate? { FreshFromEarlier(es, i, n - 1); }
      StepRecord(limits, m, e, p);
      StillTells(limits, es, n - 1, i, m[p].val, LedgerAfter(limits, es, n)[p].val);
    }
  }

  lemma {:induction false} FreshFromEarlier(es: seq<Event>, i: nat, j: nat)
    requires i < j < |es| && FreshIds(es) && es[i].Isolate? && es[j].Isolate?
    ensures es[i].id != es[j].id
  {
  }

  lemma {:induction false} NewRecordTells(limits: Limits, es: seq<Event>, i: nat)
    requires i < |es| && es[i].Isolate?
    ensures Tells(limits, es, i + 1, i, NewRecord(limits, es[i].request, es[i].now).Expire(es[i].now))
  {
  }

  lemma {:induction false} StillTells(limits: Limits, es: seq<Event>, n: nat, i: nat, v: RecordView, v': RecordView)
    requires i < n < |es| && es[i].Isolate? && Clocked(es) && Tells(limits, es, n, i, v)
    requires var e := es[n];
             if e.Release? && e.id == es[i].id && v.status == ACTIVE
             then v' == v.Released(ReleaseNote(e.now, e.releasedBy, e.releaseReason))
             else v' == v || v' == v.Expire(e.now)
    ensures Tells(limits, es, n + 1, i, v')
  {
    assert es[n - 1].now <= es[n].now;
    assert Released(es, i, n) ==> Released(es, i, n + 1);
    assert Released(es, i, n + 1) && !Released(es, i, n) ==> es[n].Release? && es[n].id == es[i].id;
  }

  /** From the last call on, a quarantine is in force exactly when its record is active with its deadline ahead. */
  lemma {:induction false} InForceIffActive(limits: Limits, es: seq<Event>, n: nat, i: nat, now: int)
    requires i < n <= |es| && es[i].Isolate? && FreshIds(es) && Clocked(es) && es[n - 1].now <= now
    ensures var m, p := LedgerAfter(limits, es, n), Position(es, i);
            && Distinct(m) && p < |m| && m[p].key == es[i].id
            && (InForce(limits, es, n, i, now) <==> m[p].val.status == ACTIVE && m[p].val.expiresAt >= now)
            && m[p].val.expiresAt == Deadline(limits, es[i])
            && (forall target, targetType :: m[p].val.Blocks(target, targetType, now) <==>
                  InForce(limits, es, n, i, now) && Targets(es[i], target, targetType))
  {
    hide LedgerAfter, Position, FreshIds, Clocked, Released, Deadline;
    RecordTells(limits, es, n, i);
  }

  // ---------------------------------------------------------------- lazy expiry answers like eager expiry

  /** A query is answered as the eager reference answers it, whatever earlier queries left unswept. */
  lemma {:induction false} QueryIsEager(limits: Limits, es: seq<Event>, n: nat)
    requires n < |es| && es[n].Query? && FreshIds(es) && Clocked(es)
    ensures QueryAnswer(limits, es, n) <==>
            exists i: nat :: InForce(limits, es, n, i, es[n].now) && Targets(es[i], es[n].targetId, es[n].targetType)
  {
    hide LedgerAfter, FreshIds, Deadline, Position, Released;
    var m, now := LedgerAfter(limits, es, n), es[n].now;
    LedgerShape(limits, es, n);
    ClockBefore(es, n);
    if QueryAnswer(limits, es, n) {
      var i := Origin(es, n, FirstMatch(m, 0, es[n].targetId, es[n].targetType, now));
      InForceIffActive(limits, es, n, i, now);
    }
    if i: nat :| InForce(limits, es, n, i, now) && Targets(es[i], es[n].targetId, es[n].targetType) {
      InForceIffActive(limits, es, n, i, now);
    }
  }

  lemma {:induction false} ClockBefore(es: seq<Event>, n: nat)
    requires n < |es| && Clocked(es)
    ensures n > 0 ==> es[n - 1].now <= es[n].now
  {
  }

  /** The positions, among those the first `k` calls made, of the quarantines in force. */
  ghost function PositionsInForce(limits: Limits, es: seq<Event>, n: nat, k: nat, now: int): seq<nat>
    requires k <= n <= |es|
  {
    if k == 0 then []
    else PositionsInForce(limits, es, n, k - 1, now)
         + if InForce(limits, es, n, k - 1, now) then [Position(es, k - 1)] else []
  }

  /** The listing shows exactly the quarantines in force, in the order they were made. */
  lemma {:induction false} ListingIsEager(limits: Limits, es: seq<Event>, n: nat, k: nat, now: int)
    requires k <= n <= |es| && FreshIds(es) && Clocked(es) && (n > 0 ==> es[n - 1].now <= now)
    ensures var swept := Sweep(LedgerAfter(limits, es, n), now);
            && Position(es, k) <= |swept|
            && ActiveIndices(swept, Position(es, k)) == PositionsInForce(limits, es, n, k, now)
  {
    hide LedgerAfter, FreshIds, Clocked, Released, InForce;
    LedgerShape(limits, es, n);
    if k != 0 {
      ListingIsEager(limits, es, n, k - 1, now);
      if es[k - 1].Isolate? {
        InForceIffActive(limits, es, n, k - 1, now);
      } else {
        OnlyIsolationsAreInForce(limits, es, n, k - 1, now);
      }
    }
  }

  lemma {:induction false} OnlyIsolationsAreInForce(limits: Limits, es: seq<Event>, n: nat, i: nat, now: int)
    requires i < n <= |es| && !es[i].Isolate?
    ensures !InForce(limits, es, n, i, now)
  {
  }

  /** A query and a listing at the same time agree on every target. */
  lemma {:induction false} QueryAgreesWithListing(m: Ledger, targetId: string,
      targetType: Option<QuarantineTargetType>, now: int)
    ensures FirstMatch(m, 0, targetId, targetType, now) < |m| <==>
            var swept := Sweep(m, now);
            exists k :: k in ActiveIndices(swept, |swept|) && m[k].val.request.targetId == targetId
                        && (targetType.None? || m[k].val.request.targetType == targetType.value)
  {
    var i, swept := FirstMatch(m, 0, targetId, targetType, now), Sweep(m, now);
    if i < |m| { ActiveIsListed(swept, |swept|, i); }
  }

  lemma {:induction false} ActiveIsListed(m: Ledger, n: nat, i: nat)
    requires i < n <= |m| && m[i].val.status == ACTIVE
    ensures i in ActiveIndices(m, n)
  {
    if i < n - 1 {
      ActiveIsListed(m, n - 1, i);
    } else {
      assert ActiveIndices(m, n)[|ActiveIndices(m, n - 1)|] == i;
    }
  }

  /** A blocked target was quarantined within the maximum time to live before now: no lockout outlives it. */
  lemma {:induction false} LockoutIsBounded(limits: Limits, es: seq<Event>, n: nat)
    requires n < |es| && es[n].Query? && FreshIds(es) && Clocked(es) && QueryAnswer(limits, es, n)
    ensures exists i :: 0 <= i < n && es[i].Isolate? && Targets(es[i], es[n].targetId, es[n].targetType)
                        && es[n].now - es[i].now <= limits.maxTtlMs
  {
    hide LedgerAfter, FreshIds, Clocked, Released, QueryAnswer, FirstMatch, Position;
    QueryIsEager(limits, es, n);
  }

  // ---------------------------------------------------------------- release

  /** The record under this id still says ACTIVE though its deadline has passed. */
  predicate Stale(m: Ledger, id: string, now: int) {
    Has(m, id) && m[IndexOf(m, id)].val.Overdue(now)
  }

  /** A release succeeds on a quarantine in force, and on one past its deadline that no sweep has reached. */
  lemma {:induction false} ReleaseIsEagerOrStale(limits: Limits, es: seq<Event>, n: nat)
    requires n < |es| && es[n].Release? && FreshIds(es) && Clocked(es)
    ensures ReleaseAnswer(limits, es, n) <==>
            || (exists i: nat :: InForce(limits, es, n, i, es[n].now) && es[i].id == es[n].id)
            || Stale(LedgerAfter(limits, es, n), es[n].id, es[n].now)
    ensures Stale(LedgerAfter(limits, es, n), es[n].id, es[n].now) ==>
            forall i: nat :: InForce(limits, es, n, i, es[n].now) ==> es[i].id != es[n].id
  {
    hide LedgerAfter, FreshIds, Deadline, Position, Released;
    var m, now, id := LedgerAfter(limits, es, n), es[n].now, es[n].id;
    LedgerShape(limits, es, n);
    ClockBefore(es, n);
    var k := IndexOf(m, id);
    if k < |m| {
      var i := Origin(es, n, k);
      InForceIffActive(limits, es, n, i, now);
    }
    forall i: nat | InForce(limits, es, n, i, now) && es[i].id == id
      ensures k < |m| && m[k].val.status == ACTIVE && m[k].val.expiresAt >= now
    {
      InForceIffActive(limits, es, n, i, now);
      IndexIsPosition(m, Position(es, i));
    }
  }

  /** So a release answers like the eager reference exactly when the record is not stale. */
  lemma {:induction false} ReleaseIsEagerExactly(limits: Limits, es: seq<Event>, n: nat)
    requires n < |es| && es[n].Release? && FreshIds(es) && Clocked(es)
    ensures (ReleaseAnswer(limits, es, n) <==>
              exists i: nat :: InForce(limits, es, n, i, es[n].now) && es[i].id == es[n].id)
            <==> !Stale(LedgerAfter(limits, es, n), es[n].id, es[n].now)
  {
    hide LedgerAfter, FreshIds, Clocked, InForce, Stale, ReleaseAnswer;
    ReleaseIsEagerOrStale(limits, es, n);
  }

  lemma {:induction false} ListingLeavesNothingStale(m: Ledger, id: string, now: int)
    ensures !Stale(Sweep(m, now), id, now)
  {
  }

  /** A release right after a listing, at the same time, answers like the eager reference. */
  lemma {:induction false} ReleaseAfterListingIsEager(limits: Limits, es: seq<Event>, n: nat)
    requires 0 < n < |es| && es[n].Release? && es[n - 1].List? && es[n - 1].now == es[n].now
    requires FreshIds(es) && Clocked(es)
    ensures ReleaseAnswer(limits, es, n) <==>
            exists i: nat :: InForce(limits, es, n, i, es[n].now) && es[i].id == es[n].id
  {
    hide FreshIds, Clocked, InForce, Stale, ReleaseAnswer;
    ReleaseIsEagerExactly(limits, es, n);
    ListingLeavesNothingStale(LedgerAfter(limits, es, n - 1), es[n].id, es[n].now);
  }

  /** One run in which a release succeeds one millisecond after the deadline. */
  lemma {:induction false} LateReleaseSucceeds()
    ensures var request := ContainmentRequest(ACTOR, "a", "r", 10, "soc");
            var es := [Isolate("q", request, 0), Release("q", "op", "why", 11)];
            var limits := LimitsFrom(0, 0);
            && FreshIds(es) && Clocked(es) && Deadline(limits, es[0]) < es[1].now
            && ReleaseAnswer(limits, es, 1)
  {
    var request := ContainmentRequest(ACTOR, "a", "r", 10, "soc");
    var es := [Isolate("q", request, 0), Release("q", "op", "why", 11)];
    var limits := LimitsFrom(0, 0);
    assert LedgerAfter(limits, es, 0) == [];
    assert LedgerAfter(limits, es, 1) == [Entry("q", NewRecord(limits, request, 0))];
  }

  /** A record that is no longer active never changes again. */
  lemma {:induction false} EndedRecordsAreFinal(limits: Limits, es: seq<Event>, n: nat, n': nat, p: nat)
    requires n <= n' <= |es| && FreshIds(es)
    requires p < |LedgerAfter(limits, es, n)| && LedgerAfter(limits, es, n)[p].val.status != ACTIVE
    ensures p < |LedgerAfter(limits, es, n')| && LedgerAfter(limits, es, n')[p] == LedgerAfter(limits, es, n)[p]
  {
    hide StepLedger, FreshIds;
    if n < n' {
      EndedRecordsAreFinal(limits, es, n, n' - 1, p);
      LedgerShape(limits, es, n' - 1);
      var m, e := LedgerAfter(limits, es, n' - 1), es[n' - 1];
      StepKeepsKeys(limits, m, e);
      if e.Isolate? { NewIdIsNew(limits, es, n' - 1); HasIffMember(m, e.id); }
      StepRecord(limits, m, e, p);
    }
  }

  /** At most one release of an id succeeds. */
  lemma {:induction false} OneReleaseSucceeds(limits: Limits, es: seq<Event>, i: nat, j: nat)
    requires i < j < |es| && FreshIds(es) && es[i].Release? && es[j].Release? && es[i].id == es[j].id
    ensures !(ReleaseAnswer(limits, es, i) && ReleaseAnswer(limits, es, j))
  {
    hide StepLedger, FreshIds;
    if ReleaseAnswer(limits, es, i) {
      var m := LedgerAfter(limits, es, i);
      var p := IndexOf(m, es[i].id);
      LedgerShape(limits, es, i);
      StepKeepsKeys(limits, m, es[i]);
      StepRecord(limits, m, es[i], p);
      EndedRecordsAreFinal(limits, es, i + 1, j, p);
      LedgerShape(limits, es, j);
      IndexIsPosition(LedgerAfter(limits, es, j), p);
    }
  }

  ghost predicate Consistent(limits: Limits, v: RecordView) {
    && (v.isActive <==> v.status == ACTIVE)
    && (v.release.Some? <==> v.status == RELEASED)
    && v.expiresAt - v.createdAt <= limits.maxTtlMs
  }

  ghost predicate AllConsistent(limits: Limits, m: Ledger) {
    forall k :: 0 <= k < |m| ==> Consistent(limits, m[k].val)
  }

  lemma {:induction false} StepKeepsConsistent(limits: Limits, m: Ledger, e: Event)
    requires AllConsistent(limits, m)
    ensures AllConsistent(limits, StepLedger(limits, m, e))
  {
    if e.Release? && CanRelease(m, e.id) { assert Consistent(limits, m[IndexOf(m, e.id)].val); }
  }

  /** In every run the active flag says ACTIVE, a release note means RELEASED, and no lifetime exceeds the maximum. */
  lemma {:induction false} RecordsAreConsistent(limits: Limits, es: seq<Event>, n: nat)
    requires n <= |es|
    ensures AllConsistent(limits, LedgerAfter(limits, es, n))
  {
    hide StepLedger, Consistent;
    if n != 0 {
      RecordsAreConsistent(limits, es, n - 1);
      StepKeepsConsistent(limits, LedgerAfter(limits, es, n - 1), es[n - 1]);
    }
  }
}
