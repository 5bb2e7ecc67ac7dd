/**
 The containment agent (src/agents/containment.ts): quarantines that end by release or by a deadline
 which only the next sweep writes down. The class is the agent with its mutable records; `QuarantineStep`,
 `ReleaseStep`, `SweepTo` and `FirstMatch` say what one call does to their contents.
 */
module Containment {
  import opened Wrappers
  import opened OrderedMap

  datatype QuarantineTargetType = ACTOR | IP | AGENT | SERVICE

  datatype QuarantineStatus = ACTIVE | EXPIRED | RELEASED

  /** An absent time to live is 0, and an absent initiator the empty string: both read as absent. */
  datatype ContainmentRequest = ContainmentRequest(
    targetType: QuarantineTargetType, targetId: string, reason: string, ttlMs: int, initiatedBy: string)

  datatype ReleaseNote = ReleaseNote(releasedAt: int, releasedBy: string, releaseReason: string)

  /** What a record holds; times are milliseconds. */
  datatype RecordView = RecordView(
    request: ContainmentRequest, createdAt: int, expiresAt: int,
    status: QuarantineStatus, isActive: bool, release: Option<ReleaseNote>)
  {
    predicate Overdue(now: int) {
      status == ACTIVE && expiresAt < now
    }

    /** In force at `now`, for this target. */
    predicate Blocks(targetId: string, targetType: Option<QuarantineTargetType>, now: int) {
      && status == ACTIVE && expiresAt >= now
      && request.targetId == targetId
      && (targetType.None? || request.targetType == targetType.value)
    }

    function Expire(now: int): RecordView {
      if Overdue(now) then this.(status := EXPIRED, isActive := false) else this
    }

    function Released(note: ReleaseNote): RecordView {
      this.(status := RELEASED, isActive := false, release := Some(note))
    }
  }

  datatype Limits = Limits(defaultTtlMs: int, maxTtlMs: int)

  /** Limits of 0 are absent and read as one hour and one day. */
  function LimitsFrom(defaultTtlMs: int, maxTtlMs: int): Limits {
    Limits(if defaultTtlMs == 0 then 60 * 60 * 1000 else defaultTtlMs,
           if maxTtlMs == 0 then 24 * 60 * 60 * 1000 else maxTtlMs)
  }

  function EffectiveTtl(limits: Limits, request: ContainmentRequest): (ttl: int)
    ensures ttl <= limits.maxTtlMs
    ensures request.ttlMs != 0 && request.ttlMs <= limits.maxTtlMs ==> ttl == request.ttlMs
    ensures request.ttlMs == 0 && limits.defaultTtlMs <= limits.maxTtlMs ==> ttl == limits.defaultTtlMs
    ensures ttl == limits.maxTtlMs || ttl == if request.ttlMs == 0 then limits.defaultTtlMs else request.ttlMs
  {
    Min(if request.ttlMs == 0 then limits.defaultTtlMs else request.ttlMs, limits.maxTtlMs)
  }

  type Ledger = seq<Entry<string, RecordView>>

  function NewRecord(limits: Limits, request: ContainmentRequest, now: int): RecordView {
    var initiator := if request.initiatedBy == "" then "containment-agent" else request.initiatedBy;
    RecordView(request.(initiatedBy := initiator), now, now + EffectiveTtl(limits, request), ACTIVE, true, None)
  }

  /** The ledger with the first `n` records swept: those past their deadline are marked expired. */
  function SweepTo(m: Ledger, n: nat, now: int): (r: Ledger)
    requires n <= |m|
    ensures |r| == |m|
    ensures forall i :: 0 <= i < n ==> r[i] == Entry(m[i].key, m[i].val.Expire(now))
    ensures forall i :: n <= i < |m| ==> r[i] == m[i]
  {
    seq(|m|, i requires 0 <= i < |m| => if i < n then Entry(m[i].key, m[i].val.Expire(now)) else m[i])
  }

  function Sweep(m: Ledger, now: int): Ledger {
    SweepTo(m, |m|, now)
  }

  function QuarantineStep(limits: Limits, m: Ledger, id: string, request: ContainmentRequest, now: int): Ledger {
    Sweep(Put(m, id, NewRecord(limits, request, now)), now)
  }

  /** A record can be released while its status says ACTIVE, whatever its deadline. */
  predicate CanRelease(m: Ledger, id: string) {
    Has(m, id) && m[IndexOf(m, id)].val.status == ACTIVE
  }

  function ReleaseStep(m: Ledger, id: string, note: ReleaseNote): Ledger {
    if CanRelease(m, id) then
      var i := IndexOf(m, id);
      Sweep(m[i := Entry(id, m[i].val.Released(note))], note.releasedAt)
    else m
  }

  /** The first record from `from` on that blocks the target, or the end of the ledger. */
  function FirstMatch(m: Ledger, from: nat, targetId: string, targetType: Option<QuarantineTargetType>,
      now: int): (i: nat)
    requires from <= |m|
    ensures from <= i <= |m|
    ensures i < |m| ==> m[i].val.Blocks(targetId, targetType, now)
    ensures forall j :: from <= j < i ==> !m[j].val.Blocks(targetId, targetType, now)
    decreases |m| - from
  {
    if from == |m| || m[from].val.Blocks(targetId, targetType, now) then from
    else FirstMatch(m, from + 1, targetId, targetType, now)
  }

  /** Positions of the records among the first `n` that are active. */
  function ActiveIndices(m: Ledger, n: nat): (r: seq<nat>)
    requires n <= |m|
    ensures forall k :: 0 <= k < |r| ==> r[k] < n && m[r[k]].val.status == ACTIVE
  {
    if n == 0 then []
    else ActiveIndices(m, n - 1) + if m[n - 1].val.status == ACTIVE then [n - 1] else []
  }

  lemma {:induction false} SweepingOnlyExpires(m: Ledger, n: nat, now: int)
    requires n <= |m|
    ensures SweepTo(m, 0, now) == m
    ensures n < |m| ==> SweepTo(m, n + 1, now) == SweepTo(m, n, now)[n := Entry(m[n].key, m[n].val.Expire(now))]
  {
  }

  // ---------------------------------------------------------------- the agent

  class QuarantineRecord {
    const request: ContainmentRequest
    const createdAt: int
    const expiresAt: int
    var status: QuarantineStatus
    var isActive: bool
    var release: Option<ReleaseNote>

    constructor (request: ContainmentRequest, createdAt: int, expiresAt: int)
      ensures View() == RecordView(request, createdAt, expiresAt, ACTIVE, true, None)
    {
      this.request, this.createdAt, this.expiresAt := request, createdAt, expiresAt;
      status, isActive, release := ACTIVE, true, None;
    }

    function View(): RecordView
      reads this
    {
      RecordView(request, createdAt, expiresAt, status, isActive, release)
    }
  }

  ghost predicate DifferentRecords(q: seq<Entry<string, QuarantineRecord>>) {
    forall i, j :: 0 <= i < j < |q| ==> q[i].val != q[j].val
  }

  class ContainmentAgent {
    const limits: Limits
    var quarantines: seq<Entry<string, QuarantineRecord>>
    ghost var view: Ledger

    ghost function Records(): set<object>
      reads this
    {
      set i | 0 <= i < |quarantines| :: quarantines[i].val
    }

    /** The view shows the contents of the records. */
    ghost predicate Shown()
      reads this, Records()
    {
      && |view| == |quarantines|
      && (forall i :: 0 <= i < |quarantines| ==> view[i] == Entry(quarantines[i].key, quarantines[i].val.View()))
    }

    /** Every id has a record object of its own. */
    ghost predicate Valid()
      reads this, Records()
    {
      Shown() && Distinct(view) && DifferentRecords(quarantines)
    }

    constructor (defaultTtlMs: int, maxTtlMs: int)
      ensures Valid() && view == []
      ensures limits.defaultTtlMs == if defaultTtlMs == 0 then 3_600_000 else defaultTtlMs
      ensures limits.maxTtlMs == if maxTtlMs == 0 then 86_400_000 else maxTtlMs
    {
      limits := LimitsFrom(defaultTtlMs, maxTtlMs);
      quarantines := [];
      view := [];
    }

    /** Overwrite the mutable fields of one record. */
    method Write(index: nat, status: QuarantineStatus, isActive: bool, release: Option<ReleaseNote>)
      requires Valid() && index < |quarantines|
      modifies this`view, Records()
      ensures Valid()
      ensures view == old(view)[index := Entry(old(view)[index].key,
                        old(view)[index].val.(status := status, isActive := isActive, release := release))]
    {
      var record := quarantines[index].val;
      record.status := status;
      record.isActive := isActive;
      record.release := release;
      view := view[index := Entry(view[index].key, record.View())];
    }

    method GetActiveQuarantines(now: int) returns (active: seq<QuarantineRecord>)
      requires Valid()
      modifies this`view, Records()
      ensures Valid()
      ensures view == Sweep(old(view), now)
      ensures var indices := ActiveIndices(view, |view|);
              |active| == |indices| && forall k :: 0 <= k < |active| ==> active[k] == quarantines[indices[k]].val
    {
      hide Shown, Distinct, DifferentRecords;
      active := [];
      SameLength();
      SweepingOnlyExpires(view, 0, now);
      for i := 0 to |quarantines|
        invariant Valid() && |view| == |quarantines|
        invariant view == SweepTo(old(view), i, now)
        invariant var indices := ActiveIndices(view, i);
                  |active| == |indices| && forall k :: 0 <= k < |active| ==> active[k] == quarantines[indices[k]].val
      {
        SweepingOnlyExpires(old(view), i, now);
        ghost var before := view;
        var record := quarantines[i].val;
        ShownAt(i);
        if record.status == ACTIVE {
          if record.expiresAt < now {
            Write(i, EXPIRED, false, record.release);
            assert view == SweepTo(old(view), i + 1, now);
          } else {
            active := active + [record];
            assert view == SweepTo(old(view), i + 1, now);
          }
        } else {
          assert view == SweepTo(old(view), i + 1, now);
        }
        SamePrefixSameActive(before, view, i);
      }
    }

    lemma SameLength()
      requires Valid()
      ensures |view| == |quarantines|
    {
    }

    lemma ShownAt(i: nat)
      requires Valid() && i < |quarantines|
      ensures |view| == |quarantines| && view[i] == Entry(quarantines[i].key, quarantines[i].val.View())
    {
    }

    method IsQuarantined(targetId: string, targetType: Option<QuarantineTargetType>, now: int) returns (found: bool)
      requires Valid()
      modifies this`view, Records()
      ensures Valid()
      ensures var i := FirstMatch(old(view), 0, targetId, targetType, now);
              found == (i < |old(view)|) && view == SweepTo(old(view), i, now)
    {
      hide Shown, Distinct, DifferentRecords;
      SameLength();
      SweepingOnlyExpires(view, 0, now);
      for i := 0 to |quarantines|
        invariant Valid() && |view| == |quarantines|
        invariant view == SweepTo(old(view), i, now)
        invariant FirstMatch(old(view), 0, targetId, targetType, now)
                  == FirstMatch(old(view), i, targetId, targetType, now)
      {
        SweepingOnlyExpires(old(view), i, now);
        var record := quarantines[i].val;
        ShownAt(i);
        if record.status == ACTIVE {
          if record.expiresAt < now {
            Write(i, EXPIRED, false, record.release);
          } else if record.request.targetId == targetId
              && (targetType.None? || record.request.targetType == targetType.value) {
            return true;
          }
        }
        assert view == SweepTo(old(view), i + 1, now);
      }
      return false;
    }

    method Quarantine(id: string, request: ContainmentRequest, now: int) returns (record: QuarantineRecord)
      requires Valid()
      modifies this`quarantines, this`view, Records()
      ensures Valid() && fresh(Records() - old(Records()))
      ensures view == QuarantineStep(limits, old(view), id, request, now)
      ensures Has(view, id) && quarantines[IndexOf(view, id)].val == record
    {
      hide Shown, Distinct, DifferentRecords, Put, IndexOf, Valid;
      record := Add(id, request, now);
      ghost var m := view;
      var active := GetActiveQuarantines(now);
      SweepKeepsIndex(m, now, id);
    }

    /** Put a new record under the id. */
    method Add(id: string, request: ContainmentRequest, now: int) returns (record: QuarantineRecord)
      requires Valid()
      modifies this`quarantines, this`view
      ensures Valid() && fresh(record) && fresh(Records() - old(Records()))
      ensures view == Put(old(view), id, NewRecord(limits, request, now))
      ensures IndexOf(view, id) < |view| == |quarantines| && quarantines[IndexOf(view, id)].val == record
    {
      var requestedTtl := if request.ttlMs == 0 then limits.defaultTtlMs else request.ttlMs;
      var initiatedBy := if request.initiatedBy == "" then "containment-agent" else request.initiatedBy;
      record := new QuarantineRecord(request.(initiatedBy := initiatedBy), now,
          now + Min(requestedTtl, limits.maxTtlMs));
      Place(id, record);
    }

    method Place(id: string, record: QuarantineRecord)
      requires Valid() && record !in Records()
      modifies this`quarantines, this`view
      ensures Valid() && Records() <= old(Records()) + {record}
      ensures view == Put(old(view), id, record.View())
      ensures IndexOf(view, id) < |view| == |quarantines| && quarantines[IndexOf(view, id)].val == record
    {
      SameKeysSameIndex(quarantines, view, id);
      ghost var i := IndexOf(view, id);
      quarantines := Put(quarantines, id, record);
      view := Put(view, id, record.View());
      assert view[i].key == id;
      IndexIsPosition(view, i);
    }

    method Release(id: string, releasedBy: string, releaseReason: string, now: int) returns (released: bool)
      requires Valid()
      modifies this`view, Records()
      ensures Valid()
      ensures released == CanRelease(old(view), id)
      ensures view == ReleaseStep(old(view), id, ReleaseNote(now, releasedBy, releaseReason))
    {
      hide Shown, Distinct, DifferentRecords, IndexOf;
      var index := Find(id);
      if index == |quarantines| { return false; }
      ShownAt(index);
      if quarantines[index].val.status != ACTIVE { return false; }
      Write(index, RELEASED, false, Some(ReleaseNote(now, releasedBy, releaseReason)));
      var active := GetActiveQuarantines(now);
      return true;
    }

    method Find(id: string) returns (index: nat)
      requires Valid()
      ensures index == IndexOf(view, id) <= |view| == |quarantines| && (index < |view| ==> view[index].key == id)
    {
      SameKeysSameIndex(quarantines, view, id);
      index := IndexOf(quarantines, id);
    }

    method GetQuarantineById(id: string) returns (record: Option<QuarantineRecord>)
      requires Valid()
      ensures record.Some? <==> Has(view, id)
      ensures record.Some? ==> record.value.View() == view[IndexOf(view, id)].val
    {
      var index := Find(id);
      if index == |quarantines| { return None; }
      return Some(quarantines[index].val);
    }
  }

  lemma {:induction false} SamePrefixSameActive(m: Ledger, m': Ledger, n: nat)
    requires n <= |m| && n <= |m'| && forall i :: 0 <= i < n ==> m[i] == m'[i]
    ensures ActiveIndices(m, n) == ActiveIndices(m', n)
  {
    if n != 0 { SamePrefixSameActive(m, m', n - 1); }
  }

  lemma {:induction false} SweepKeepsIndex(m: Ledger, now: int, id: string)
    ensures IndexOf(Sweep(m, now), id) == IndexOf(m, id)
  {
    SameKeysSameIndex(m, Sweep(m, now), id);
  }
}
