/** Whole runs of the persistent ledger: appends, restarts, failed writes, and what a reload finds. */
module PersistentRuns {
  import opened Wrappers
  import opened Json
  import opened JsStrings
  import opened AuditRecords
  import opened AuditLedger
  import opened PersistentLedger

  // ---------------------------------------------------------------- reading back what was written

  /** The file that holds these records. */
  function Text(c: Codec, rs: seq<Json>): string {
    if rs == [] then "" else c.stringify(rs[0]) + "\n" + Text(c, rs[1..])
  }

  function Encodings(c: Codec, rs: seq<Json>): (lines: seq<string>)
    ensures |lines| == |rs|
    ensures forall i :: 0 <= i < |rs| ==> lines[i] == c.stringify(rs[i])
  {
    if rs == [] then [] else [c.stringify(rs[0])] + Encodings(c, rs[1..])
  }

  /** Objects that JavaScript can hold, as every appended record is one. */
  ghost predicate Objects(rs: seq<Json>) {
    forall i :: 0 <= i < |rs| ==> rs[i].Obj? && Realizable(rs[i])
  }

  lemma {:induction false} TextGrows(c: Codec, rs: seq<Json>, r: Json)
    ensures Text(c, rs + [r]) == Text(c, rs) + c.stringify(r) + "\n"
  {
    if rs == [] {
      assert ([] + [r])[1..] == [];
    } else {
      TextGrows(c, rs[1..], r);
      assert (rs + [r])[1..] == rs[1..] + [r];
    }
  }

  lemma {:induction false} LinesOfText(c: Codec, rs: seq<Json>)
    requires Lawful(c) && Objects(rs)
    ensures Lines(Text(c, rs)) == Encodings(c, rs)
  {
    hide Realizable;
    if rs == [] {
      assert Split("", '\n') == [""] && Trim("") == "";
    } else {
      LinesOfText(c, rs[1..]);
      var line := c.stringify(rs[0]);
      assert ReadsBack(c, rs[0]);
      SplitAtSeparator(line, '\n', Text(c, rs[1..]));
      assert ([line] + Split(Text(c, rs[1..]), '\n'))[1..] == Split(Text(c, rs[1..]), '\n');
    }
  }

  /** The lines of a file are its newline-separated pieces, trimmed, without those that are blank. */
  lemma {:induction false} LineByLine(first: string, rest: string)
    requires '\n' !in first
    ensures Lines(first) == if Trim(first) == "" then [] else [Trim(first)]
    ensures Lines(first + "\n" + rest) == Lines(first) + Lines(rest)
  {
    hide Trim;
    SplitWithoutSeparator(first, '\n');
    SplitAtSeparator(first, '\n', rest);
    assert [first][1..] == [];
    assert ([first] + Split(rest, '\n'))[1..] == Split(rest, '\n');
    assert CleanLines([]) == [];
  }

  lemma {:induction false} DecodedIsDetermined(c: Codec, lines: seq<string>, rs: seq<Json>, n: nat)
    requires n <= |lines| == |rs| && forall j :: 0 <= j < |rs| ==> c.parse(lines[j]) == Some(rs[j])
    ensures Decoded(c, lines, n) == rs[..n]
  {
    if n != 0 { DecodedIsDetermined(c, lines, rs, n - 1); }
  }

  /** Reading the file of some records finds no corrupt line and those records. */
  lemma {:induction false} FileReadsBack(c: Codec, rs: seq<Json>)
    requires Lawful(c) && Objects(rs)
    ensures var lines := Lines(Text(c, rs));
            && FirstCorrupt(c, lines, 0) == |lines| == |rs|
            && (forall j :: 0 <= j < |lines| ==> c.parse(lines[j]).Some?)
            && Decoded(c, lines, |lines|) == rs
  {
    hide Lines, Text, Realizable, CollisionFree;
    LinesOfText(c, rs);
    var lines := Encodings(c, rs);
    forall j | 0 <= j < |rs|
      ensures c.parse(lines[j]) == Some(rs[j])
    {
      assert ReadsBack(c, rs[j]);
    }
    DecodedIsDetermined(c, lines, rs, |rs|);
    assert rs[..|rs|] == rs;
  }

  // ---------------------------------------------------------------- runs

  datatype Event =
    | Append(input: CreateAuditRecordInput, generatedId: string, generatedWhen: string, written: bool)
    | Restart

  /** A restart makes a new ledger object over the same file. */
  function StepLedger(c: Codec, l: Ledger, e: Event): Ledger {
    match e
    case Append(input, id, when, written) => AppendStep(c, l, input, id, when, written).ledger
    case Restart => Ledger(false, [], l.file)
  }

  function Execute(c: Codec, l: Ledger, es: seq<Event>, n: nat): Ledger
    requires n <= |es|
  {
    if n == 0 then l else StepLedger(c, Execute(c, l, es, n - 1), es[n - 1])
  }

  /** The outcome of an append in a run. */
  function OutcomeOf(c: Codec, l: Ledger, es: seq<Event>, i: nat): Option<Json>
    requires i < |es| && es[i].Append?
  {
    AppendStep(c, Execute(c, l, es, i), es[i].input, es[i].generatedId, es[i].generatedWhen, es[i].written).record
  }

  /** The records that the appends of a run returned, across restarts. */
  function Returned(c: Codec, l: Ledger, es: seq<Event>, n: nat): seq<Json>
    requires n <= |es|
  {
    hide OutcomeOf, Execute;
    if n == 0 then []
    else
      var before := Returned(c, l, es, n - 1);
      if es[n - 1].Append? && OutcomeOf(c, l, es,
          n - 1).Some? then before + [OutcomeOf(c, l, es, n - 1).value] else before
  }

  const NEW: Ledger := Ledger(false, [], None)

  /** The details of every append are values that JavaScript can hold. */
  ghost predicate HoldableDetails(es: seq<Event>) {
    forall i :: 0 <= i < |es| && es[i].Append? ==> Realizable(es[i].input.details)
  }

  function FileFor(c: Codec, rs: seq<Json>): Option<string> {
    if rs == [] then None else Some(Text(c, rs))
  }

  /** What event `n` adds to a run. */
  lemma {:induction false} EventUnfolds(c: Codec, l: Ledger, es: seq<Event>, n: nat)
    requires n < |es|
    ensures es[n].Append? ==>
              var a := AppendStep(c, Execute(c, l, es, n), es[n].input, es[n].generatedId, es[n].generatedWhen,
                  es[n].written);
              && Execute(c, l, es, n + 1) == a.ledger
              && OutcomeOf(c, l, es, n) == a.record
              && Returned(c, l, es, n + 1) == Returned(c, l, es, n) + if a.record.Some? then [a.record.value] else []
    ensures es[n].Restart? ==>
              && Execute(c, l, es, n + 1) == Ledger(false, [], Execute(c, l, es, n).file)
              && Returned(c, l, es, n + 1) == Returned(c, l, es, n)
  {
    hide AppendStep;
  }

  // ---------------------------------------------------------------- what every run keeps

  /** How many appends have failed to write since the last restart. */
  function Lost(es: seq<Event>, n: nat): nat
    requires n <= |es|
  {
    if n == 0 || es[n - 1].Restart? then 0 else Lost(es, n - 1) + if es[n - 1].written then 0 else 1
  }

  /** A completed append has followed a failed one with no restart in between. */
  predicate Broken(es: seq<Event>, n: nat)
    requires n <= |es|
  {
    n != 0 && (Broken(es, n - 1) || (es[n - 1].Append? && es[n - 1].written && Lost(es, n - 1) > 0))
  }

  /** An intact chain may lead the intact records of the file by the records whose writes failed. */
  ghost predicate Leads(c: Codec, chain: seq<Json>, rs: seq<Json>, lost: nat) {
    Intact(c, chain) && |chain| == |rs| + lost && chain[..|rs|] == rs
  }

  /**
   The file holds exactly the records returned so far. They are intact unless the run is broken, and then an
   open ledger has them in memory, followed by the lost ones.
   */
  ghost predicate Kept(c: Codec, l: Ledger, rs: seq<Json>, lost: nat, broken: bool) {
    && l.file == FileFor(c, rs) && Objects(rs)
    && (Intact(c, rs) <==> !broken)
    && Objects(l.chain)
    && (!l.initialized ==> l.chain == [] || broken)
    && (l.initialized && !broken ==> Leads(c, l.chain, rs, lost))
    && (!l.initialized && !broken ==> lost == 0)
  }

  lemma {:induction false} VerdictOnObjects(c: Codec, chain: seq<Json>)
    requires Objects(chain)
    ensures var v := Verdict(c, chain);
            && (v.isValid <==> Intact(c, chain)) && v.totalRecords == |chain|
            && v.error != Some(NullRecord)
  {
    hide Intact, Verdict, Realizable;
    VerdictIsExact(c, chain, Verdict(c, chain), Verdict(c, chain));
  }

  /** Opening a closed ledger over the file of some objects loads them exactly when they are intact. */
  lemma {:induction false} OpeningObjects(c: Codec, l: Ledger, rs: seq<Json>)
    requires Lawful(c) && Objects(rs) && l.file == FileFor(c, rs)
    ensures var o := InitializeStep(c, l);
            && o.ledger.file == l.file
            && (Intact(c, rs) ==> o.opening == Opened(|rs|) && o.ledger.initialized
                                  && (rs != [] ==> o.ledger.chain == rs) && (rs == [] ==> o.ledger.chain == l.chain))
            && (!Intact(c, rs) ==> o.opening.Tampered? && !o.ledger.initialized && o.ledger.chain == rs)
  {
    hide Lines, Text, Intact, Realizable, Lawful, Verdict, FirstCorrupt, Decoded;
    if rs == [] {
      NothingIsIntact(c);
    } else {
      FileReadsBack(c, rs);
      VerdictOnObjects(c, rs);
    }
  }

  lemma NothingIsIntact(c: Codec)
    ensures Intact(c, [])
  {
  }

  /** A record appended over lost ones is out of sequence in the file. */
  lemma {:induction false} LostRecordsLeaveAGap(c: Codec, rs: seq<Json>, r: Json, lost: nat)
    requires lost > 0 && Sequence(r) == Some(Num(|rs| + lost + 1))
    ensures !Intact(c, rs + [r])
  {
    hide Intact, Sequence, PreviousHash, CurrentHash, HeadHash, Payload;
    IntactIffFaultless(c, rs + [r]);
    assert FaultAt(c, rs + [r], |rs|).Some?;
  }

  lemma {:induction false} PrefixIsIntact(c: Codec, rs: seq<Json>, r: Json)
    requires Intact(c, rs + [r])
    ensures Intact(c, rs)
  {
    hide FaultAt;
    assert (rs + [r])[..|rs|] == rs;
  }

  /** The ledger that an append works on: opened first when it was closed. */
  function WhenOpen(c: Codec, l: Ledger): Ledger {
    if l.initialized then l else InitializeStep(c, l).ledger
  }

  lemma {:induction false} OpeningKeeps(c: Codec, l: Ledger, rs: seq<Json>, lost: nat, broken: bool)
    requires Lawful(c) && Kept(c, l, rs, lost, broken)
    ensures Kept(c, WhenOpen(c, l), rs, lost, broken)
    ensures WhenOpen(c, l).initialized <==> l.initialized || !broken
    ensures !l.initialized ==> (InitializeStep(c, l).opening.Opened? <==> !broken)
  {
    hide InitializeStep, Intact, Lawful, Text, Realizable;
    if !l.initialized {
      OpeningObjects(c, l, rs);
      assert rs[..|rs|] == rs;
    }
  }

  /** The record appended to a chain of objects is an object, and extends the chain. */
  lemma {:induction false} AppendedObject(c: Codec, chain: seq<Json>, input: CreateAuditRecordInput, id: string,
      when: string)
    requires Objects(chain) && Realizable(input.details)
    ensures var r := NextRecord(c, chain, input, id, when);
            && Objects(chain + [r]) && Readable(chain) && r.Obj? && Realizable(r)
            && Sequence(r) == Some(Num(|chain| + 1))
            && (Intact(c, chain) ==> Intact(c, chain + [r]))
  {
    hide NextRecord, Intact, Realizable, Sequence, PreviousHash, Member, Payload, Lookup;
    HeadIsRealizable(chain);
    NextRecordIsRealizable(c, chain, input, id, when);
    NextRecordMembers(c, chain, input, id, when);
    if Intact(c, chain) { AppendKeepsIntact(c, chain, input, id, when); }
  }

  lemma {:induction false} HeadIsRealizable(chain: seq<Json>)
    requires Objects(chain)
    ensures HeadHash(chain).Some? ==> Realizable(HeadHash(chain).value)
  {
    if chain != [] { LookupIsRealizable(chain[|chain| - 1].fields, NAMES[10]); }
  }

  /** What an append does to an open ledger. */
  lemma {:induction false} AppendingToOpen(c: Codec, l: Ledger, rs: seq<Json>, lost: nat, broken: bool,
      input: CreateAuditRecordInput, id: string, when: string, written: bool)
    requires Lawful(c) && l.initialized && Kept(c, l, rs, lost, broken) && Realizable(input.details)
    ensures var a := AppendStep(c, l, input, id, when, written);
            var r := NextRecord(c, l.chain, input, id, when);
            && a.record == (if written then Some(r) else None)
            && Kept(c, a.ledger, if written then rs + [r] else rs,
                    if written then lost else lost + 1, broken || (written && lost > 0))
            && a.ledger.initialized
  {
    hide InitializeStep, NextRecord, Realizable, Sequence, Intact, Text, Lawful;
    var r := NextRecord(c, l.chain, input, id, when);
    AppendedObject(c, l.chain, input, id, when);
    TextGrows(c, rs, r);
    TextOfNothing(c);
    if broken {
      if Intact(c, rs + [r]) { PrefixIsIntact(c, rs, r); }
    } else if lost > 0 {
      LostRecordsLeaveAGap(c, rs, r, lost);
      assert (l.chain + [r])[..|rs|] == rs;
    } else {
      assert l.chain == rs;
      assert (rs + [r])[..|rs + [r]|] == rs + [r] && (rs + [r])[..|rs|] == rs;
    }
  }

  lemma TextOfNothing(c: Codec)
    ensures Text(c, []) == ""
  {
  }

  /** An append on a closed ledger is an append on the opened one, or an exception. */
  lemma {:induction false} AppendingOpensFirst(c: Codec, l: Ledger, input: CreateAuditRecordInput, id: string,
      when: string,
      written: bool)
    ensures WhenOpen(c, l).initialized && (!l.initialized ==> InitializeStep(c, l).opening.Opened?) ==>
              AppendStep(c, l, input, id, when, written) == AppendStep(c, WhenOpen(c, l), input, id, when, written)
    ensures !l.initialized && !InitializeStep(c, l).opening.Opened? ==>
              AppendStep(c, l, input, id, when, written) == Appended(WhenOpen(c, l), None)
  {
    hide InitializeStep, NextRecord;
  }

  /** Main invariant. Every run of appends, restarts and failed writes keeps the file holding what was returned. */
  lemma {:induction false} RunKeeps(c: Codec, es: seq<Event>, n: nat)
    requires Lawful(c) && n <= |es| && HoldableDetails(es)
    ensures Kept(c, Execute(c, NEW, es, n), Returned(c, NEW, es, n), Lost(es, n), Broken(es, n))
  {
    hide *;
    BrokenUnfolds(es, n);
    if n == 0 {
      NewIsKept(c, es);
    } else {
      RunKeeps(c, es, n - 1);
      EventUnfolds(c, NEW, es, n - 1);
      var l, rs, e := Execute(c, NEW, es, n - 1), Returned(c, NEW, es, n - 1), es[n - 1];
      if e.Restart? {
        RestartKeeps(c, l, rs, Lost(es, n - 1), Broken(es, n - 1));
      } else {
        DetailsOf(es, n - 1);
        AppendKeeps(c, l, rs, Lost(es, n - 1), Broken(es, n - 1), e.input, e.generatedId, e.generatedWhen, e.written);
      }
    }
  }

  lemma DetailsOf(es: seq<Event>, i: nat)
    requires i < |es| && es[i].Append? && HoldableDetails(es)
    ensures Realizable(es[i].input.details)
  {
  }

  lemma {:induction false} BrokenUnfolds(es: seq<Event>, n: nat)
    requires n <= |es|
    ensures n == 0 ==> !Broken(es, n) && Lost(es, n) == 0
    ensures n != 0 && es[n - 1].Restart? ==> Broken(es, n) == Broken(es, n - 1) && Lost(es, n) == 0
    ensures n != 0 && es[n - 1].Append? && es[n - 1].written ==>
              Lost(es, n) == Lost(es, n - 1) && Broken(es, n) == (Broken(es, n - 1) || Lost(es, n - 1) > 0)
    ensures n != 0 && es[n - 1].Append? && !es[n - 1].written ==>
              Lost(es, n) == Lost(es, n - 1) + 1 && Broken(es, n) == Broken(es, n - 1)
  {
  }

  lemma {:induction false} NewIsKept(c: Codec, es: seq<Event>)
    ensures Kept(c, Execute(c, NEW, es, 0), Returned(c, NEW, es, 0), 0, false)
  {
  }

  lemma {:induction false} RestartKeeps(c: Codec, l: Ledger, rs: seq<Json>, lost: nat, broken: bool)
    requires Kept(c, l, rs, lost, broken)
    ensures Kept(c, Ledger(false, [], l.file), rs, 0, broken)
  {
    hide Text, Intact, Realizable;
  }

  lemma {:induction false} AppendKeeps(c: Codec, l: Ledger, rs: seq<Json>, lost: nat, broken: bool,
      input: CreateAuditRecordInput, id: string, when: string, written: bool)
    requires Lawful(c) && Kept(c, l, rs, lost, broken) && Realizable(input.details)
    ensures var a := AppendStep(c, l, input, id, when, written);
            var rs' := rs + if a.record.Some? then [a.record.value] else [];
            && (!broken ==> a.record.Some? == written)
            && Kept(c, a.ledger, rs', if written then lost else lost + 1, broken || (written && lost > 0))
  {
    hide InitializeStep, NextRecord, AppendStep, Kept, Realizable, Lawful;
    OpeningKeeps(c, l, rs, lost, broken);
    AppendingOpensFirst(c, l, input, id, when, written);
    assert rs + [] == rs;
    if WhenOpen(c, l).initialized {
      AppendingToOpen(c, WhenOpen(c, l), rs, lost, broken, input, id, when, written);
    } else {
      BrokenForgetsTheLost(c, WhenOpen(c, l), rs, lost, if written then lost else lost + 1);
    }
  }

  lemma BrokenForgetsTheLost(c: Codec, l: Ledger, rs: seq<Json>, lost: nat, lost': nat)
    requires Kept(c, l, rs, lost, true)
    ensures Kept(c, l, rs, lost', true)
  {
  }

  // ---------------------------------------------------------------- main results

  /**
   Exact condition. After any run of appends, restarts and failed writes from no file, a reload reports a valid
   ledger, with the number of records returned, if and only if no completed append followed a failed one without
   a restart in between. Either way the file holds exactly the records returned.
   */
  lemma {:induction false} ReloadIsValidExactly(c: Codec, es: seq<Event>, n: nat)
    requires Lawful(c) && n <= |es| && HoldableDetails(es)
    ensures var l, rs := Execute(c, NEW, es, n), Returned(c, NEW, es, n);
            && l.file == FileFor(c, rs)
            && (InitializeStep(c, l).opening.Opened? <==> !Broken(es, n))
            && (!Broken(es, n) ==> InitializeStep(c, l).opening == Opened(|rs|))
  {
    hide InitializeStep, Execute, Returned, Broken, Lost, Lawful, Intact, Text, Realizable;
    RunKeeps(c, es, n);
    OpeningObjects(c, Execute(c, NEW, es, n), Returned(c, NEW, es, n));
  }

  /** The file holds exactly these records, they are intact, and the memory holds them too once it is initialized. */
  ghost predicate InSync(c: Codec, l: Ledger, rs: seq<Json>) {
    && l.file == FileFor(c, rs) && Objects(rs)
    && Intact(c, rs)
    && l.chain == if l.initialized then rs else []
  }

  lemma {:induction false} InSyncIsKept(c: Codec, l: Ledger, rs: seq<Json>)
    ensures InSync(c, l, rs) ==> Kept(c, l, rs, 0, false)
    ensures Kept(c, l, rs, 0, false) ==> InSync(c, l, rs)
  {
    hide Text, Intact, Realizable;
    assert rs[..|rs|] == rs && l.chain[..|l.chain|] == l.chain;
  }

  /** Initializing a ledger in sync succeeds, counts the records, and loads them. */
  lemma {:induction false} ReloadFindsTheRecords(c: Codec, l: Ledger, rs: seq<Json>)
    requires Lawful(c) && InSync(c, l, rs)
    ensures var o := InitializeStep(c, l);
            && o.opening == Opened(|rs|)
            && o.ledger.initialized && o.ledger.file == l.file
            && o.ledger.chain == rs
  {
    hide InitializeStep, Text, Intact, Lawful, Realizable;
    OpeningObjects(c, l, rs);
  }

  lemma {:induction false} AppendKeepsSync(c: Codec, l: Ledger, rs: seq<Json>, input: CreateAuditRecordInput,
      id: string, when: string)
    requires Lawful(c) && InSync(c, l, rs) && Realizable(input.details)
    ensures var a := AppendStep(c, l, input, id, when, true);
            && a.record == Some(NextRecord(c, rs, input, id, when))
            && InSync(c, a.ledger, rs + [a.record.value]) && a.ledger.initialized
  {
    hide InitializeStep, Intact, NextRecord, Lawful, Realizable, AppendStep, Kept;
    InSyncIsKept(c, l, rs);
    OpeningKeeps(c, l, rs, 0, false);
    InSyncIsKept(c, WhenOpen(c, l), rs);
    AppendingOpensFirst(c, l, input, id, when, true);
    AppendingToOpen(c, WhenOpen(c, l), rs, 0, false, input, id, when, true);
    InSyncIsKept(c, AppendStep(c, l, input, id, when, true).ledger, rs + [NextRecord(c, rs, input, id, when)]);
  }

  /**
   In every run of appends and restarts from no file, in which each write completes, every append succeeds, the
   file holds exactly the records returned so far, the memory holds them too once initialized, and a reload at
   any moment reports a valid ledger with their number.
   */
  lemma {:induction false} FileAndMemoryStayInSync(c: Codec, es: seq<Event>, n: nat)
    requires Lawful(c) && n <= |es| && HoldableDetails(es)
    requires forall i :: 0 <= i < |es| && es[i].Append? ==> es[i].written
    ensures InSync(c, Execute(c, NEW, es, n), Returned(c, NEW, es, n))
    ensures InitializeStep(c, Execute(c, NEW, es, n)).opening == Opened(|Returned(c, NEW, es, n)|)
    ensures forall i :: 0 <= i < n && es[i].Append? ==> OutcomeOf(c, NEW, es, i).Some?
  {
    hide *;
    if n == 0 {
      NewIsKept(c, es);
      InSyncIsKept(c, Execute(c, NEW, es, 0), Returned(c, NEW, es, 0));
    } else {
      FileAndMemoryStayInSync(c, es, n - 1);
      EventUnfolds(c, NEW, es, n - 1);
      var l, rs, e := Execute(c, NEW, es, n - 1), Returned(c, NEW, es, n - 1), es[n - 1];
      if e.Append? {
        DetailsOf(es, n - 1);
        AppendKeepsSync(c, l, rs, e.input, e.generatedId, e.generatedWhen);
      } else {
        InSyncIsKept(c, l, rs);
        RestartKeeps(c, l, rs, 0, false);
        InSyncIsKept(c, Ledger(false, [], l.file), rs);
      }
    }
    ReloadFindsTheRecords(c, Execute(c, NEW, es, n), Returned(c, NEW, es, n));
  }

  // ---------------------------------------------------------------- fail-stop

  /**
   After a restart onto a file that does not read back as an intact chain, every append is refused and the file never
   changes.
   */
  lemma {:induction false} InvalidFileStopsTheLedger(c: Codec, l: Ledger, es: seq<Event>, n: nat)
    requires !l.initialized && !InitializeStep(c, l).opening.Opened? && n <= |es|
    ensures var m := Execute(c, l, es, n);
            !m.initialized && m.file == l.file && InitializeStep(c, m).opening == InitializeStep(c, l).opening
    ensures forall i :: 0 <= i < n && es[i].Append? ==> OutcomeOf(c, l, es, i).None?
  {
    hide InitializeStep, Execute, OutcomeOf, NextRecord;
    NothingHappenedYet(c, l, es);
    if n != 0 {
      InvalidFileStopsTheLedger(c, l, es, n - 1);
      EventUnfolds(c, l, es, n - 1);
      OpeningDependsOnFile(c, Execute(c, l, es, n - 1), l);
      OpeningDependsOnFile(c, Execute(c, l, es, n), l);
    }
  }

  lemma NothingHappenedYet(c: Codec, l: Ledger, es: seq<Event>)
    ensures Execute(c, l, es, 0) == l
  {
  }

  /**
   What initialization reports depends on the file alone, it never changes the file, and it opens no ledger it refuses.
   */
  lemma {:induction false} OpeningDependsOnFile(c: Codec, l: Ledger, m: Ledger)
    ensures InitializeStep(c, l).ledger.file == l.file
    ensures l.file == m.file ==> InitializeStep(c, l).opening == InitializeStep(c, m).opening
    ensures !InitializeStep(c, l).opening.Opened? ==>
              InitializeStep(c, l).ledger.initialized == (l.initialized && !InitializeStep(c, l).opening.Tampered?)
  {
    hide Lines, Decoded, FirstCorrupt, Verdict;
  }

  /**
   Where the code falls short of its documentation: initializing again after the file went bad refuses later
   writes unless the ledger was already open and verification did not get to clear its flag, because a line does
   not parse or a record is null. Such a ledger still writes while the last record in memory is not null.
   */
  lemma {:induction false} FailStopIsExact(c: Codec, l: Ledger, input: CreateAuditRecordInput, id: string, when: string)
    requires !InitializeStep(c, l).opening.Opened?
    ensures var m := InitializeStep(c, l).ledger;
            AppendStep(c, m, input, id, when, true).record.Some? <==>
            l.initialized && (InitializeStep(c, l).opening.CorruptLine? || InitializeStep(c, l).opening.Threw?)
            && Readable(m.chain)
  {
    hide InitializeStep, NextRecord, Readable;
    var m := InitializeStep(c, l).ledger;
    OpeningDependsOnFile(c, l, m);
  }

  /**
   An open ledger over a file with one line that does not parse: the failed initialization leaves it open, and it
   writes.
   */
  lemma {:induction false} OpenLedgerStaysOpen(c: Codec, input: CreateAuditRecordInput, id: string, when: string)
    requires c.parse("x").None?
    ensures var l := Ledger(true, [], Some("x"));
            InitializeStep(c, l) == Initialized(l, CorruptLine(0))
                && AppendStep(c, l, input, id, when, true).record.Some?
  {
    hide NextRecord;
    OneLine();
  }

  lemma {:induction false} OneLine()
    ensures Lines("x") == ["x"]
  {
    SplitWithoutSeparator("x", '\n');
    assert Trim("x") == "x";
    assert ["x"][1..] == [];
  }

  /** An open ledger over a file that holds one value without a record's members is closed. */
  lemma {:induction false} ParsedNonRecordCloses(c: Codec, l: Ledger, v: Json)
    requires l.file == Some("x") && c.parse("x") == Some(v) && !v.Null? && Sequence(v).None?
    ensures var o := InitializeStep(c, l);
            && o.opening.Tampered? && o.opening.verdict.tamperedIndex == Some(0)
            && o.opening.verdict.error == Some(SequenceMismatch) && !o.ledger.initialized
  {
    hide Sequence, PreviousHash, CurrentHash, Payload;
    OneLine();
    assert Decoded(c, ["x"], 0) == [];
    assert Decoded(c, ["x"], 1) == [v];
    assert FaultAt(c, [v], 0) == Some(SequenceMismatch);
  }

  /** An open ledger over a file that holds one null keeps its flag, but its next append throws too. */
  lemma {:induction false} NullRecordThrows(c: Codec, l: Ledger, input: CreateAuditRecordInput, id: string,
      when: string)
    requires l.initialized && l.file == Some("x") && c.parse("x") == Some(Null)
    ensures InitializeStep(c, l) == Initialized(l.(chain := [Null]), Threw(0))
    ensures AppendStep(c, InitializeStep(c, l).ledger, input, id, when, true).record.None?
  {
    OneLine();
    assert Decoded(c, ["x"], 0) == [];
    assert Decoded(c, ["x"], 1) == [Null];
    assert FaultAt(c, [Null], 0) == Some(NullRecord);
  }

  /**
   The completed-write hypothesis is needed: one failed write leaves the memory a record ahead, so the next
   completed append writes a record that a reload reports as tampered, at its index.
   */
  lemma {:induction false} FailedWriteBreaksTheFile(c: Codec, l: Ledger, rs: seq<Json>, x: CreateAuditRecordInput,
      y: CreateAuditRecordInput, id: string, when: string)
    requires Lawful(c) && InSync(c, l, rs) && Realizable(x.details) && Realizable(y.details)
    ensures var m := AppendStep(c, l, x, id, when, false).ledger;
            var a := AppendStep(c, m, y, id, when, true);
            && a.record.Some?
            && InitializeStep(c, a.ledger).opening.Tampered?
            && InitializeStep(c, a.ledger).opening.verdict.tamperedIndex == Some(|rs|)
            && InitializeStep(c, a.ledger).opening.verdict.error == Some(SequenceMismatch)
  {
    hide InitializeStep, Lawful, Intact, Realizable, AppendStep, NextRecord, Kept, Text, Sequence;
    InSyncIsKept(c, l, rs);
    OpeningKeeps(c, l, rs, 0, false);
    InSyncIsKept(c, WhenOpen(c, l), rs);
    AppendingOpensFirst(c, l, x, id, when, false);
    AppendingToOpen(c, WhenOpen(c, l), rs, 0, false, x, id, when, false);
    var m := AppendStep(c, l, x, id, when, false).ledger;
    LedgerIsAhead(c, m, rs);
    AppendingToOpen(c, m, rs, 1, false, y, id, when, true);
    var r := NextRecord(c, m.chain, y, id, when);
    KeptHasObjects(c, m, rs, 1, false);
    AppendedObject(c, m.chain, y, id, when);
    KeptHasObjects(c, AppendStep(c, m, y, id, when, true).ledger, rs + [r], 1, true);
    SkippedSequenceIsReported(c, AppendStep(c, m, y, id, when, true).ledger, rs, r);
  }

  lemma LedgerIsAhead(c: Codec, m: Ledger, rs: seq<Json>)
    requires Kept(c, m, rs, 1, false) && m.initialized
    ensures |m.chain| == |rs| + 1 && Intact(c, rs)
  {
  }

  lemma KeptHasObjects(c: Codec, l: Ledger, rs: seq<Json>, lost: nat, broken: bool)
    requires Kept(c, l, rs, lost, broken)
    ensures Objects(l.chain) && Objects(rs) && l.file == FileFor(c, rs)
  {
  }

  lemma {:induction false} SkippedSequenceIsReported(c: Codec, l: Ledger, rs: seq<Json>, r: Json)
    requires Lawful(c) && Intact(c, rs) && Objects(rs + [r]) && Sequence(r) == Some(Num(|rs| + 2))
    requires l.file == Some(Text(c, rs + [r]))
    ensures var o := InitializeStep(c, l).opening;
            o.Tampered? && o.verdict.tamperedIndex == Some(|rs|) && o.verdict.error == Some(SequenceMismatch)
  {
    hide Lawful, Text, Lines, Intact, Realizable, Sequence, PreviousHash, CurrentHash, Payload, HeadHash;
    var chain := rs + [r];
    FileReadsBack(c, chain);
    IntactIffFaultless(c, rs);
    assert chain[..|rs|] == rs;
    forall i | 0 <= i < |rs|
      ensures FaultAt(c, chain, i).None?
    {
      FaultsOfPrefix(c, chain, |rs|, i);
      assert FaultAt(c, rs, i).None?;
    }
    assert FaultAt(c, chain, |rs|) == Some(SequenceMismatch);
  }
}
