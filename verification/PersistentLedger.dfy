/**
 The ledger kept in a file, one JSON record a line (src/audit/persistent-storage.ts): lazy
 initialization by reading the file back, append to memory and then to the file, and fail-stop. The
 class works on an audit service object and a file object; `InitializeStep` and `AppendStep` say what
 one call does to their contents.
 */
module PersistentLedger {
  import opened Wrappers
  import opened Json
  import opened JsStrings
  import opened AuditRecords
  import opened AuditLedger

  // ---------------------------------------------------------------- lines and records

  /**
   Text parses back to its value, and the text of an object is one trimmed, non-empty line: for every value there is.
   */
  ghost predicate Lawful(c: Codec) {
    && CollisionFree(c)
    && (forall v :: Realizable(v) ==> ReadsBack(c, v))
  }

  ghost predicate ReadsBack(c: Codec, v: Json) {
    var s := c.stringify(v);
    c.parse(s) == Some(v) && (v.Obj? ==> s != "" && '\n' !in s && Trim(s) == s)
  }

  /** `map(trim).filter(nonempty)`. */
  function CleanLines(pieces: seq<string>): seq<string> {
    if pieces == [] then []
    else (if Trim(pieces[0]) != "" then [Trim(pieces[0])] else []) + CleanLines(pieces[1..])
  }

  function Lines(content: string): seq<string> {
    CleanLines(Split(content, '\n'))
  }

  /** First line from `from` on that does not parse, or the number of lines. */
  function FirstCorrupt(c: Codec, lines: seq<string>, from: nat): (i: nat)
    requires from <= |lines|
    ensures from <= i <= |lines|
    ensures i < |lines| ==> c.parse(lines[i]).None?
    ensures forall j :: from <= j < i ==> c.parse(lines[j]).Some?
    decreases |lines| - from
  {
    if from == |lines| || c.parse(lines[from]).None? then from else FirstCorrupt(c, lines, from + 1)
  }

  function Decoded(c: Codec, lines: seq<string>, n: nat): (rs: seq<Json>)
    requires n <= |lines| && forall j :: 0 <= j < n ==> c.parse(lines[j]).Some?
    ensures |rs| == n
  {
    if n == 0 then [] else Decoded(c, lines, n - 1) + [c.parse(lines[n - 1]).value]
  }

  // ---------------------------------------------------------------- one call, on contents

  /** The ledger's flag, the chain in memory, and the file, which may not exist. */
  datatype Ledger = Ledger(initialized: bool, chain: seq<Json>, file: Option<string>)

  /**
   How initialization ends: valid with a count, a line that does not parse, a null record that makes verification
   throw, or a chain that does not verify.
   */
  datatype Opening =
    | Opened(count: nat)
    | CorruptLine(index: nat)
    | Threw(index: nat)
    | Tampered(verdict: AuditVerificationResult)

  function FirstFault(c: Codec, chain: seq<Json>, from: nat): (i: nat)
    requires from <= |chain|
    ensures from <= i <= |chain|
    ensures i < |chain| ==> FaultAt(c, chain, i).Some?
    ensures forall j :: from <= j < i ==> FaultAt(c, chain, j).None?
    decreases |chain| - from
  {
    if from == |chain| || FaultAt(c, chain, from).Some? then from else FirstFault(c, chain, from + 1)
  }

  /** The one verdict there is on a chain. */
  function Verdict(c: Codec, chain: seq<Json>): (v: AuditVerificationResult)
    ensures IsVerdict(c, chain, v)
  {
    var i := FirstFault(c, chain, 0);
    if i == |chain| then AuditVerificationResult(true, |chain|, None, None, None)
    else AuditVerificationResult(false, |chain|, Some(i), AuditId(chain[i]), FaultAt(c, chain, i))
  }

  datatype Initialized = Initialized(ledger: Ledger, opening: Opening)

  /** What verification of the loaded records makes of the ledger: an exception leaves the flag, a fault clears it. */
  function Checked(l: Ledger, records: seq<Json>, v: AuditVerificationResult): Initialized {
    if v.isValid then Initialized(l.(initialized := true, chain := records), Opened(v.totalRecords))
    else if v.error == Some(NullRecord) then
      Initialized(l.(chain := records), Threw(if v.tamperedIndex.Some? then v.tamperedIndex.value else 0))
    else Initialized(l.(initialized := false, chain := records), Tampered(v))
  }

  /** A line that does not parse leaves the flag and the memory as they were. */
  function InitializeStep(c: Codec, l: Ledger): Initialized {
    if l.file.None? then Initialized(l.(initialized := true), Opened(0))
    else
      var lines := Lines(l.file.value);
      var bad := FirstCorrupt(c, lines, 0);
      if bad < |lines| then Initialized(l, CorruptLine(bad))
      else
        var records := Decoded(c, lines, |lines|);
        Checked(l, records, Verdict(c, records))
  }

  datatype Appended = Appended(ledger: Ledger, record: Option<Json>)

  /** None is the exception. A record is in memory before its line is written, and stays there when the write fails. */
  function AppendStep(c: Codec, l: Ledger, input: CreateAuditRecordInput, generatedId: string, generatedWhen: string,
                      written: bool): Appended
  {
    var o := if l.initialized then Initialized(l, Opened(|l.chain|)) else InitializeStep(c, l);
    if !o.opening.Opened? || !Readable(o.ledger.chain) then Appended(o.ledger, None)
    else
      var r := NextRecord(c, o.ledger.chain, input, generatedId, generatedWhen);
      var m := o.ledger.(chain := o.ledger.chain + [r]);
      if !written then Appended(m, None)
      else
        var content := if m.file.None? then "" else m.file.value;
        Appended(m.(file := Some(content + c.stringify(r) + "\n")), Some(r))
  }

  // ---------------------------------------------------------------- the ledger object

  class LedgerFile {
    var content: Option<string>

    constructor (content: Option<string>)
      ensures this.content == content
    {
      this.content := content;
    }
  }

  class PersistentAuditLedger {
    const codec: Codec
    const file: LedgerFile
    var memoryService: AuditService
    var isInitialized: bool

    ghost predicate Valid()
      reads this, memoryService
    {
      memoryService.codec == codec
    }

    ghost function State(): Ledger
      reads this, memoryService, file
    {
      Ledger(isInitialized, memoryService.chain, file.content)
    }

    constructor (codec: Codec, file: LedgerFile)
      ensures Valid() && fresh(memoryService)
      ensures this.codec == codec && this.file == file && State() == Ledger(false, [], file.content)
    {
      this.codec := codec;
      this.file := file;
      isInitialized := false;
      memoryService := new AuditService(codec, []);
    }

    method Initialize() returns (opening: Opening)
      requires Valid()
      modifies this
      ensures Valid() && (memoryService == old(memoryService) || fresh(memoryService))
      ensures Initialized(State(), opening) == InitializeStep(codec, old(State()))
    {
      hide Lines, Decoded, FirstCorrupt, Verdict;
      if file.content.None? {
        isInitialized := true;
        return Opened(0);
      }
      var lines := Lines(file.content.value);
      var restoredRecords, bad := ParseLines(codec, lines);
      if bad < |lines| { return CorruptLine(bad); }
      memoryService := new AuditService(codec, restoredRecords);
      var verify := Verify(memoryService);
      if verify.error == Some(NullRecord) {
        return Threw(if verify.tamperedIndex.Some? then verify.tamperedIndex.value else 0);
      }
      isInitialized := verify.isValid;
      if !verify.isValid { return Tampered(verify); }
      return Opened(verify.totalRecords);
    }

    method Append(input: CreateAuditRecordInput, generatedId: string, generatedWhen: string, written: bool)
      returns (record: Option<Json>)
      requires Valid()
      modifies this, memoryService, file
      ensures Valid() && (memoryService == old(memoryService) || fresh(memoryService))
      ensures Appended(State(), record) == AppendStep(codec, old(State()), input, generatedId, generatedWhen, written)
    {
      hide InitializeStep, NextRecord, Readable;
      if !isInitialized {
        var opening := Initialize();
        if !opening.Opened? { return None; }
      }
      var r := memoryService.Append(input, generatedId, generatedWhen);
      if r.None? || !written { return None; }
      var content := if file.content.None? then "" else file.content.value;
      file.content := Some(content + codec.stringify(r.value) + "\n");
      return r;
    }
  }

  /** Parse line by line, up to the first that does not parse. */
  method ParseLines(c: Codec, lines: seq<string>) returns (records: seq<Json>, bad: nat)
    ensures bad == FirstCorrupt(c, lines, 0)
    ensures bad == |lines| ==> records == Decoded(c, lines, |lines|)
  {
    records := [];
    for i := 0 to |lines|
      invariant forall j :: 0 <= j < i ==> c.parse(lines[j]).Some?
      invariant records == Decoded(c, lines, i)
    {
      var record := c.parse(lines[i]);
      if record.None? { return records, i; }
      records := records + [record.value];
    }
    return records, |lines|;
  }

  /** The service's answer is the one verdict on its chain. */
  method Verify(service: AuditService) returns (v: AuditVerificationResult)
    ensures v == Verdict(service.codec, service.chain)
  {
    hide Verdict;
    v := service.VerifyIntegrity();
    VerdictIsExact(service.codec, service.chain, v, Verdict(service.codec, service.chain));
  }
}
