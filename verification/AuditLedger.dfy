/**
 The hash-chained audit service (src/audit/audit-service.ts): append, verification, and what a head
 hash says about the chain under it. The chain holds objects, since records restored from a file are not
 checked. Hashing and JSON text are foreign calls, given by a `Codec`.
 */
module AuditLedger {
  import opened Wrappers
  import opened Json
  import opened AuditRecords

  /** What the caller supplies; an empty id or time is falsy and is generated. The source calls `location` "where". */
  datatype CreateAuditRecordInput = CreateAuditRecordInput(
    auditId: string, who: string, what: string, when: string, location: string, why: string,
    result: string, details: Json)

  /** JSON text of a value, the value of a text (None when it does not parse), and the hash of a text. */
  datatype Codec = Codec(stringify: Json -> string, parse: string -> Option<Json>, sha256: string -> string) {
    function Digest(v: Json): string {
      sha256(stringify(v))
    }
  }

  /** The hash tells any two values apart. */
  ghost predicate CollisionFree(c: Codec) {
    forall v, w :: c.Digest(v) == c.Digest(w) ==> v == w
  }

  /** `'0'.repeat(n)`. */
  function Zeros(n: nat): (s: string)
    ensures |s| == n && forall i :: 0 <= i < n ==> s[i] == '0'
  {
    if n == 0 then "" else Zeros(n - 1) + "0"
  }

  const GENESIS: string := Zeros(64)

  function Sequence(v: Json): Option<Json> {
    Member(v, 0)
  }

  function AuditId(v: Json): Option<Json> {
    Member(v, 1)
  }

  function PreviousHash(v: Json): Option<Json> {
    Member(v, 9)
  }

  function CurrentHash(v: Json): Option<Json> {
    Member(v, 10)
  }

  /** The hash the next record has to link to. */
  function HeadHash(chain: seq<Json>): Option<Json> {
    if chain == [] then Some(Str(GENESIS)) else CurrentHash(chain[|chain| - 1])
  }

  /** The last record is not null, so reading its hash does not throw. */
  predicate Readable(chain: seq<Json>) {
    chain == [] || !chain[|chain| - 1].Null?
  }

  /** The hashed members of the record an append adds to the chain. */
  function NextValues(chain: seq<Json>, input: CreateAuditRecordInput, generatedId: string, generatedWhen: string):
    (values: seq<Option<Json>>)
    ensures |values| == 10
  {
    [Some(Num(|chain| + 1)), Some(Str(if input.auditId == "" then generatedId else input.auditId)),
     Some(Str(input.who)), Some(Str(input.what)), Some(Str(if input.when == "" then generatedWhen else input.when)),
     Some(Str(input.location)), Some(Str(input.why)), Some(Str(input.result)), Some(input.details), HeadHash(chain)]
  }

  /** The record an append adds to the chain: its members, and their hash. */
  function NextRecord(c: Codec, chain: seq<Json>, input: CreateAuditRecordInput,
                      generatedId: string, generatedWhen: string): Json
  {
    var values := NextValues(chain, input, generatedId, generatedWhen);
    var digest := c.Digest(Payload(Obj(Members(values, 10))));
    Obj(Members(values + [Some(Str(digest))], 11))
  }

  // ---------------------------------------------------------------- verification

  /** `NullRecord` stands for the exception that reading a member of null throws. */
  datatype Fault = NullRecord | SequenceMismatch | LinkBreak | ContentMismatch

  /** What is wrong with record `i`, checked in the source's order; None when nothing is. */
  function FaultAt(c: Codec, chain: seq<Json>, i: nat): Option<Fault>
    requires i < |chain|
  {
    var r := chain[i];
    if r.Null? then Some(NullRecord)
    else if Sequence(r) != Some(Num(i + 1)) then Some(SequenceMismatch)
    else if PreviousHash(r) != HeadHash(chain[..i]) then Some(LinkBreak)
    else if CurrentHash(r) != Some(Str(c.Digest(Payload(r)))) then Some(ContentMismatch)
    else None
  }

  /** The recursive definition: the empty chain is intact, and an intact chain with a faultless record after it. */
  ghost predicate Intact(c: Codec, chain: seq<Json>) {
    chain == [] || (Intact(c, chain[..|chain| - 1]) && FaultAt(c, chain, |chain| - 1).None?)
  }

  datatype AuditVerificationResult = AuditVerificationResult(
    isValid: bool, totalRecords: nat, tamperedIndex: Option<nat>, tamperedRecordId: Option<Json>, error: Option<Fault>)

  /** The answer verification must give: valid on no fault, otherwise the least faulty index. */
  ghost predicate IsVerdict(c: Codec, chain: seq<Json>, v: AuditVerificationResult) {
    && v.totalRecords == |chain|
    && match v.tamperedIndex {
         case None =>
           v.isValid && v.tamperedRecordId.None? && v.error.None?
           && forall i :: 0 <= i < |chain| ==> FaultAt(c, chain, i).None?
         case Some(k) =>
           !v.isValid && k < |chain| && v.tamperedRecordId == AuditId(chain[k])
           && v.error == FaultAt(c, chain, k) && v.error.Some?
           && forall i :: 0 <= i < k ==> FaultAt(c, chain, i).None?
       }
  }

  class AuditService {
    const codec: Codec
    var chain: seq<Json>

    constructor (codec: Codec, initialRecords: seq<Json> := [])
      ensures this.codec == codec && chain == initialRecords
    {
      this.codec := codec;
      chain := initialRecords;
    }

    /** None is the exception thrown when the last record is null. */
    method Append(input: CreateAuditRecordInput, generatedId: string,
        generatedWhen: string) returns (record: Option<Json>)
      modifies this`chain
      ensures record == if Readable(old(chain))
                        then Some(NextRecord(codec, old(chain), input, generatedId, generatedWhen))
                        else None
      ensures chain == if record.Some? then old(chain) + [record.value] else old(chain)
    {
      var sequence := |chain| + 1;
      var auditId := if input.auditId == "" then generatedId else input.auditId;
      var when := if input.when == "" then generatedWhen else input.when;
      var previousHash := Some(Str(GENESIS));
      if |chain| > 0 {
        if chain[|chain| - 1].Null? { return None; }
        previousHash := CurrentHash(chain[|chain| - 1]);
      }
      var values := [Some(Num(sequence)), Some(Str(auditId)), Some(Str(input.who)), Some(Str(input.what)),
          Some(Str(when)),
                     Some(Str(input.location)), Some(Str(input.why)), Some(Str(input.result)), Some(input.details),
                     previousHash];
      var currentHash := codec.Digest(Payload(Obj(Members(values, 10))));
      record := Some(Obj(Members(values + [Some(Str(currentHash))], 11)));
      chain := chain + [record.value];
    }

    method VerifyIntegrity() returns (v: AuditVerificationResult)
      ensures IsVerdict(codec, chain, v)
    {
      hide Payload, Member, Sequence, AuditId, PreviousHash, CurrentHash;
      var expectedPreviousHash := Some(Str(GENESIS));
      for i := 0 to |chain|
        invariant expectedPreviousHash == HeadHash(chain[..i])
        invariant forall j :: 0 <= j < i ==> FaultAt(codec, chain, j).None?
      {
        var record := chain[i];
        if record.Null? {
          return AuditVerificationResult(false, |chain|, Some(i), AuditId(record), Some(NullRecord));
        }
        if Sequence(record) != Some(Num(i + 1)) {
          return AuditVerificationResult(false, |chain|, Some(i), AuditId(record), Some(SequenceMismatch));
        }
        if PreviousHash(record) != expectedPreviousHash {
          return AuditVerificationResult(false, |chain|, Some(i), AuditId(record), Some(LinkBreak));
        }
        if CurrentHash(record) != Some(Str(codec.Digest(Payload(record)))) {
          return AuditVerificationResult(false, |chain|, Some(i), AuditId(record), Some(ContentMismatch));
        }
        expectedPreviousHash := CurrentHash(record);
        assert chain[..i + 1][i] == record;
      }
      return AuditVerificationResult(true, |chain|, None, None, None);
    }
  }

  lemma {:induction false} FaultsOfPrefix(c: Codec, chain: seq<Json>, n: nat, i: nat)
    requires i < n <= |chain|
    ensures FaultAt(c, chain[..n], i) == FaultAt(c, chain, i)
  {
    hide Payload, Member, HeadHash;
    assert chain[..n][..i] == chain[..i];
  }

  /** The loop's criterion is the recursive definition. */
  lemma {:induction false} IntactIffFaultless(c: Codec, chain: seq<Json>)
    ensures Intact(c, chain) <==> forall i :: 0 <= i < |chain| ==> FaultAt(c, chain, i).None?
  {
    hide FaultAt;
    if chain != [] {
      var n := |chain| - 1;
      IntactIffFaultless(c, chain[..n]);
      forall i | 0 <= i < n
        ensures FaultAt(c, chain[..n], i) == FaultAt(c, chain, i)
      {
        FaultsOfPrefix(c, chain, n, i);
      }
      if forall i :: 0 <= i < |chain[..n]| ==> FaultAt(c, chain[..n], i).None? {
        assert forall i :: 0 <= i < n ==> FaultAt(c, chain, i) == FaultAt(c, chain[..n], i);
      }
    }
  }

  /** Verification says valid exactly of intact chains, and there is only one answer it can give. */
  lemma {:induction false} VerdictIsExact(c: Codec, chain: seq<Json>, v: AuditVerificationResult,
      w: AuditVerificationResult)
    requires IsVerdict(c, chain, v)
    ensures v.isValid <==> Intact(c, chain)
    ensures IsVerdict(c, chain, w) ==> v == w
  {
    hide FaultAt, AuditId;
    IntactIffFaultless(c, chain);
    if IsVerdict(c, chain, w) && v.tamperedIndex.Some? && w.tamperedIndex.Some? {
      assert v.tamperedIndex == w.tamperedIndex;
    }
  }

  // ---------------------------------------------------------------- appending

  /** The appended record has the values it was made of, and is hashed over them. */
  lemma {:induction false} NextRecordMembers(c: Codec, chain: seq<Json>, input: CreateAuditRecordInput,
                                             generatedId: string, generatedWhen: string)
    ensures var r := NextRecord(c, chain, input, generatedId, generatedWhen);
            && r.Obj?
            && (forall k: nat :: k < 10 ==> Member(r, k) == NextValues(chain, input, generatedId, generatedWhen)[k])
            && Sequence(r) == Some(Num(|chain| + 1)) && PreviousHash(r) == HeadHash(chain)
            && Member(r, DETAILS) == Some(input.details)
            && CurrentHash(r) == Some(Str(c.Digest(Payload(r))))
  {
    hide Members, Member, HeadHash;
    var values := NextValues(chain, input, generatedId, generatedWhen);
    var unhashed := Obj(Members(values, 10));
    var digest := c.Digest(Payload(unhashed));
    var r := NextRecord(c, chain, input, generatedId, generatedWhen);
    forall k: nat | k < 11
      ensures Member(r, k) == (values + [Some(Str(digest))])[k]
    {
      MemberOfMembers(values + [Some(Str(digest))], 11, k);
    }
    forall k: nat | k < 10
      ensures Member(unhashed, k) == values[k]
    {
      MemberOfMembers(values, 10, k);
    }
    assert HashedValues(r) == HashedValues(unhashed);
  }

  /** The appended record by name: what the caller gave, generated where it was empty, linked to the hash before it. */
  lemma {:induction false} NextRecordByName(c: Codec, chain: seq<Json>, input: CreateAuditRecordInput,
                                            generatedId: string, generatedWhen: string)
    ensures var r := NextRecord(c, chain, input, generatedId, generatedWhen);
            && Prop(r, "sequence") == Some(Num(|chain| + 1))
            && (input.auditId != "" ==> Prop(r, "auditId") == Some(Str(input.auditId)))
            && (input.auditId == "" ==> Prop(r, "auditId") == Some(Str(generatedId)))
            && Prop(r, "who") == Some(Str(input.who))
            && Prop(r, "what") == Some(Str(input.what))
            && (input.when != "" ==> Prop(r, "when") == Some(Str(input.when)))
            && (input.when == "" ==> Prop(r, "when") == Some(Str(generatedWhen)))
            && Prop(r, "where") == Some(Str(input.location))
            && Prop(r, "why") == Some(Str(input.why))
            && Prop(r, "result") == Some(Str(input.result))
            && Prop(r, "details") == Some(input.details)
            && (chain == [] ==> Prop(r, "previousHash") == Some(Str(Zeros(64))))
            && (chain != [] ==> Prop(r, "previousHash") == Prop(chain[|chain| - 1], "currentHash"))
            && Prop(r, "currentHash") == Some(Str(c.sha256(c.stringify(Payload(r)))))
  {
    hide NextRecord, Payload, Prop;
    NextRecordMembers(c, chain, input, generatedId, generatedWhen);
    var r, values := NextRecord(c, chain, input, generatedId, generatedWhen),
                     NextValues(chain, input, generatedId, generatedWhen);
    assert forall k: nat :: k < 10 ==> Member(r, k) == values[k];
    assert Member(r, 0) == values[0] && Member(r, 1) == values[1] && Member(r, 2) == values[2];
    assert Member(r, 3) == values[3] && Member(r, 4) == values[4] && Member(r, 5) == values[5];
    assert Member(r, 6) == values[6] && Member(r, 7) == values[7] && Member(r, 8) == values[8];
    assert Member(r, 9) == values[9];
  }

  /** Which fault is reported, by name: the first of a null record, a wrong sequence, a wrong link and a wrong hash. */
  lemma {:induction false} FaultsByName(c: Codec, chain: seq<Json>, i: nat)
    requires i < |chain|
    ensures var r, fault := chain[i], FaultAt(c, chain, i);
            var inSequence := Prop(r, "sequence") == Some(Num(i + 1));
            var linked := Prop(r, "previousHash")
                          == if i == 0 then Some(Str(Zeros(64))) else Prop(chain[i - 1], "currentHash");
            var hashed := Prop(r, "currentHash") == Some(Str(c.sha256(c.stringify(Payload(r)))));
            && (fault == Some(NullRecord) <==> r == Null)
            && (fault == Some(SequenceMismatch) <==> r != Null && !inSequence)
            && (fault == Some(LinkBreak) <==> r != Null && inSequence && !linked)
            && (fault == Some(ContentMismatch) <==> r != Null && inSequence && linked && !hashed)
            && (fault.None? <==> r != Null && inSequence && linked && hashed)
  {
    hide Payload, Prop;
    var r := chain[i];
    assert Sequence(r) == Prop(r, "sequence") && PreviousHash(r) == Prop(r, "previousHash");
    assert CurrentHash(r) == Prop(r, "currentHash");
    assert i > 0 ==> chain[..i][i - 1] == chain[i - 1];
    assert HeadHash(chain[..i]) == if i == 0 then Some(Str(GENESIS)) else Prop(chain[i - 1], "currentHash");
  }

  lemma {:induction false} NextRecordIsRealizable(c: Codec, chain: seq<Json>, input: CreateAuditRecordInput,
                                                  generatedId: string, generatedWhen: string)
    requires Realizable(input.details) && (HeadHash(chain).Some? ==> Realizable(HeadHash(chain).value))
    ensures Realizable(NextRecord(c, chain, input, generatedId, generatedWhen))
  {
    hide Members, HeadHash, Payload;
    var values := NextValues(chain, input, generatedId, generatedWhen);
    var digest := c.Digest(Payload(Obj(Members(values, 10))));
    assert Realizable(Str(digest));
    MembersAreRealizable(values + [Some(Str(digest))], 11);
  }

  /** Appending keeps a chain intact. */
  lemma {:induction false} AppendKeepsIntact(c: Codec, chain: seq<Json>, input: CreateAuditRecordInput,
                                             generatedId: string, generatedWhen: string)
    requires Intact(c, chain)
    ensures Intact(c, chain + [NextRecord(c, chain, input, generatedId, generatedWhen)])
  {
    hide NextRecord, Member, Payload, HeadHash, Sequence, PreviousHash, CurrentHash;
    var r := NextRecord(c, chain, input, generatedId, generatedWhen);
    NextRecordMembers(c, chain, input, generatedId, generatedWhen);
    assert (chain + [r])[..|chain|] == chain;
  }

  // ---------------------------------------------------------------- what a hash says

  /** Equal members under every name of a record, up to the key order of the details above any array. */
  ghost predicate SameRecord(v: Json, w: Json) {
    SameHashed(v, w) && CurrentHash(v) == CurrentHash(w)
  }

  ghost predicate WellFormed(chain: seq<Json>) {
    forall i :: 0 <= i < |chain| ==> DistinctDetails(chain[i])
  }

  lemma {:induction false} FaultlessIsHashed(c: Codec, chain: seq<Json>)
    requires chain != [] && Intact(c, chain)
    ensures var r := chain[|chain| - 1];
            && Sequence(r) == Some(Num(|chain|)) && PreviousHash(r) == HeadHash(chain[..|chain| - 1])
            && CurrentHash(r) == Some(Str(c.Digest(Payload(r))))
  {
    hide Member, Payload;
  }

  /**
   Chain binding. Two non-empty intact chains with the same head hash have the same length and the
   same records at every index, up to the key order of details above any array.
   */
  lemma {:induction false} HeadHashBindsChain(c: Codec, a: seq<Json>, b: seq<Json>)
    requires CollisionFree(c) && Intact(c, a) && Intact(c, b) && WellFormed(a) && WellFormed(b)
    requires a != [] && b != [] && HeadHash(a) == HeadHash(b)
    ensures |a| == |b| && forall i :: 0 <= i < |a| ==> SameRecord(a[i], b[i])
  {
    hide FaultAt, Payload, Agree, DistinctDetails, Member, Codec.Digest;
    var m, n := |a| - 1, |b| - 1;
    FaultlessIsHashed(c, a);
    FaultlessIsHashed(c, b);
    assert c.Digest(Payload(a[m])) == c.Digest(Payload(b[n]));
    PayloadDetermines(a[m], b[n]);
    assert Sequence(a[m]) == Sequence(b[n]) && m == n;
    if m > 0 {
      assert HeadHash(a[..m]) == HeadHash(b[..n]);
      HeadHashBindsChain(c, a[..m], b[..n]);
      forall i | 0 <= i < |a|
        ensures SameRecord(a[i], b[i])
      {
        if i < m { assert a[..m][i] == a[i] && b[..n][i] == b[i]; }
      }
    }
  }

  // ---------------------------------------------------------------- tampering

  lemma {:induction false} EarlierFaultsUnchanged(c: Codec, chain: seq<Json>, i: nat, r: Json, j: nat)
    requires j < i < |chain|
    ensures FaultAt(c, chain[i := r], j) == FaultAt(c, chain, j)
  {
    hide Payload, Member, HeadHash;
    assert chain[i := r][..j] == chain[..j];
  }

  /** Changing hashed content of one record of an intact chain is reported at that record. */
  lemma {:induction false} ContentChangeIsReported(c: Codec, chain: seq<Json>, i: nat, r: Json,
      v: AuditVerificationResult)
    requires CollisionFree(c) && Intact(c, chain) && i < |chain|
    requires CurrentHash(r) == CurrentHash(chain[i]) && Payload(r) != Payload(chain[i])
    requires IsVerdict(c, chain[i := r], v)
    ensures !v.isValid && v.tamperedIndex == Some(i)
  {
    hide Payload, Intact, Member, HeadHash, CurrentHash, PreviousHash, Sequence, AuditId, Codec.Digest;
    IntactIffFaultless(c, chain);
    assert FaultAt(c, chain, i).None?;
    assert c.Digest(Payload(r)) != c.Digest(Payload(chain[i]));
    var t := chain[i := r];
    assert t[i] == r && t[..i] == chain[..i];
    assert FaultAt(c, t, i).Some?;
    forall j | 0 <= j < i
      ensures FaultAt(c, t, j).None?
    {
      EarlierFaultsUnchanged(c, chain, i, r, j);
      assert FaultAt(c, chain, j).None?;
    }
  }

  /** Rehashing the changed record moves the report to the next one, when there is one. */
  lemma {:induction false} RehashedChangeIsReportedNext(c: Codec, chain: seq<Json>, i: nat, r: Json,
                                                        v: AuditVerificationResult)
    requires CollisionFree(c) && Intact(c, chain) && i < |chain|
    requires Sequence(r) == Sequence(chain[i]) && PreviousHash(r) == PreviousHash(chain[i])
    requires CurrentHash(r) == Some(Str(c.Digest(Payload(r)))) && Payload(r) != Payload(chain[i])
    requires IsVerdict(c, chain[i := r], v)
    ensures i + 1 < |chain| ==> v.tamperedIndex == Some(i + 1) && v.error == Some(LinkBreak)
    ensures i + 1 == |chain| ==> v.isValid
  {
    hide Payload, Intact, Member, AuditId, Codec.Digest;
    IntactIffFaultless(c, chain);
    var t := chain[i := r];
    assert FaultAt(c, chain, i).None?;
    assert c.Digest(Payload(r)) != c.Digest(Payload(chain[i]));
    MembersNeedAnObject(r);
    assert t[i] == r && t[..i] == chain[..i];
    forall j | 0 <= j < i
      ensures FaultAt(c, t, j).None?
    {
      EarlierFaultsUnchanged(c, chain, i, r, j);
      assert FaultAt(c, chain, j).None?;
    }
    if i + 1 < |chain| {
      assert FaultAt(c, chain, i + 1).None?;
      assert HeadHash(chain[..i + 1]) == CurrentHash(chain[i]);
      assert HeadHash(t[..i + 1]) == CurrentHash(r);
      assert FaultAt(c, t, i).None?;
      assert t[i + 1] == chain[i + 1];
      assert FaultAt(c, t, i + 1) == Some(LinkBreak);
    }
  }

  lemma MembersNeedAnObject(v: Json)
    ensures Sequence(v).Some? ==> !v.Null?
  {
  }
}
