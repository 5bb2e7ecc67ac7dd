/**
 Audit records as the runtime holds them: plain objects. What `append` builds has every member of the record
 type, but a record restored from a file is whatever its line parsed to.
 */
module AuditRecords {
  import opened Wrappers
  import opened JsStrings
  import opened Json

  /** The members of a record in order; all but the last are hashed. */
  const NAMES: seq<string> := ["sequence", "auditId", "who", "what", "when", "where", "why", "result",
                               "details", "previousHash", "currentHash"]

  const DETAILS := 8

  /** The members that are not undefined, under the first `n` names. */
  function Members(values: seq<Option<Json>>, n: nat): seq<Field>
    requires n <= |values| <= 11
  {
    if n == 0 then []
    else Members(values, n - 1) + if values[n - 1].Some? then [Field(NAMES[n - 1], values[n - 1].value)] else []
  }

  /** The member under the `k`-th name. */
  function Member(v: Json, k: nat): Option<Json>
    requires k < 11
  {
    Prop(v, NAMES[k])
  }

  /** What is hashed of a value: its first ten members, with the details in canonical order. */
  function HashedValues(v: Json): (values: seq<Option<Json>>)
    ensures |values| == 10
    ensures forall k :: 0 <= k < 10 ==> values[k] == Canonical(Member(v, k), k)
  {
    seq(10, k requires 0 <= k < 10 => Canonical(Member(v, k), k))
  }

  function Canonical(member: Option<Json>, k: int): Option<Json> {
    if k == DETAILS && member.Some? then Some(SortKeys(member.value)) else member
  }

  /** `serializeForHash`, before it is turned into text. */
  function Payload(v: Json): Json {
    Obj(Members(HashedValues(v), 10))
  }

  // ---------------------------------------------------------------- names

  /** A letter that tells the record's names apart: the first, except where it is a `w`. */
  function TellTale(name: string): char
    requires |name| >= 3
  {
    if name[0] != 'w' then name[0] else if |name| == 4 then name[3] else name[2]
  }

  lemma {:induction false} FirstNames()
    ensures TellTale(NAMES[0]) == 's' && TellTale(NAMES[1]) == 'a' && TellTale(NAMES[2]) == 'o'
    ensures TellTale(NAMES[3]) == 't' && TellTale(NAMES[4]) == 'n' && TellTale(NAMES[5]) == 'e'
  {
  }

  lemma {:induction false} LastNames()
    ensures TellTale(NAMES[6]) == 'y' && TellTale(NAMES[7]) == 'r' && TellTale(NAMES[8]) == 'd'
    ensures TellTale(NAMES[9]) == 'p' && TellTale(NAMES[10]) == 'c'
  {
  }

  lemma {:induction false} NamesDiffer(i: nat, j: nat)
    requires i < j < 11
    ensures NAMES[i] != NAMES[j]
  {
    hide TellTale;
    FirstNames();
    LastNames();
  }

  lemma {:induction false} NamesAreNoIndices(i: nat)
    requires i < 11
    ensures !IsIndex(NAMES[i])
  {
    assert NAMES[i][0] >= 'a';
  }

  // ---------------------------------------------------------------- members

  /** The object of some members has exactly those under their names. */
  lemma {:induction false} MemberOfMembers(values: seq<Option<Json>>, n: nat, k: nat)
    requires n <= |values| <= 11 && k < 11
    ensures Member(Obj(Members(values, n)), k) == if k < n then values[k] else None
  {
    hide Lookup;
    if n == 0 {
      NothingToLookUp(NAMES[k]);
    } else {
      MemberOfMembers(values, n - 1, k);
      if values[n - 1].Some? {
        LookupAppend(Members(values, n - 1), Field(NAMES[n - 1], values[n - 1].value), NAMES[k]);
        if k < n - 1 { NamesDiffer(k, n - 1); }
        if n - 1 < k { NamesDiffer(n - 1, k); }
      } else {
        assert Members(values, n) == Members(values, n - 1);
      }
    }
  }

  lemma NothingToLookUp(name: string)
    ensures Lookup([], name) == None
  {
  }

  /** Every member is one of the first names, at its place. */
  lemma {:induction false} KeysOfMembers(values: seq<Option<Json>>, n: nat)
    requires n <= |values| <= 11
    ensures forall f :: f in Members(values, n) ==> exists k :: 0 <= k < n && f.key == NAMES[k]
  {
    if n != 0 { KeysOfMembers(values, n - 1); }
  }

  lemma {:induction false} MembersAreRealizable(values: seq<Option<Json>>, n: nat)
    requires n <= |values| <= 11
    requires forall k :: 0 <= k < n && values[k].Some? ==> Realizable(values[k].value)
    ensures Realizable(Obj(Members(values, n)))
  {
    hide IsIndex, KeyBefore;
    if n != 0 {
      MembersAreRealizable(values, n - 1);
      KeysOfMembers(values, n - 1);
      NamesAreNoIndices(n - 1);
      var fs := Members(values, n - 1);
      if values[n - 1].Some? {
        forall i | 0 <= i < |fs|
          ensures fs[i].key != NAMES[n - 1]
        {
          assert fs[i] in fs;
          var k :| 0 <= k < n - 1 && fs[i].key == NAMES[k];
          NamesDiffer(k, n - 1);
        }
        AppendingKeepsRealizable(fs, Field(NAMES[n - 1], values[n - 1].value));
      } else {
        assert Members(values, n) == fs;
      }
    }
  }

  lemma {:induction false} AppendingKeepsRealizable(fs: seq<Field>, f: Field)
    requires Realizable(Obj(fs)) && Realizable(f.val) && !IsIndex(f.key)
    requires forall i :: 0 <= i < |fs| ==> fs[i].key != f.key
    ensures Realizable(Obj(fs + [f]))
  {
    hide IsIndex, KeyBefore;
    assert Enumerable(fs);
    assert Enumerable(fs + [f]);
  }

  /**
   What is hashed, by name: every member of the value as it is, but the details in canonical order, and not the hash.
   */
  lemma {:induction false} PayloadByName(v: Json)
    ensures Prop(Payload(v), "sequence") == Prop(v, "sequence") && Prop(Payload(v), "auditId") == Prop(v, "auditId")
    ensures Prop(Payload(v), "who") == Prop(v, "who") && Prop(Payload(v), "what") == Prop(v, "what")
    ensures Prop(Payload(v), "when") == Prop(v, "when") && Prop(Payload(v), "where") == Prop(v, "where")
    ensures Prop(Payload(v), "why") == Prop(v, "why") && Prop(Payload(v), "result") == Prop(v, "result")
    ensures Prop(Payload(v), "details").Some? <==> Prop(v, "details").Some?
    ensures Prop(v, "details").Some? ==> Prop(Payload(v), "details") == Some(SortKeys(Prop(v, "details").value))
    ensures Prop(Payload(v), "previousHash") == Prop(v, "previousHash")
    ensures Prop(Payload(v), "currentHash") == None
  {
    hide Members, Lookup, SortKeys, Prop;
    var p := Payload(v);
    forall k: nat | k < 11
      ensures Prop(p, NAMES[k]) == if k < 10 then Canonical(Prop(v, NAMES[k]), k) else None
    {
      MemberOfMembers(HashedValues(v), 10, k);
    }
    assert NAMES[0] == "sequence" && NAMES[1] == "auditId" && NAMES[2] == "who" && NAMES[3] == "what";
    assert NAMES[4] == "when" && NAMES[5] == "where" && NAMES[6] == "why" && NAMES[7] == "result";
    assert NAMES[8] == "details" && NAMES[9] == "previousHash" && NAMES[10] == "currentHash";
  }

  // ---------------------------------------------------------------- what a payload says

  /** Equal hashed members, up to the key order of the details above any array. */
  ghost predicate SameHashed(v: Json, w: Json) {
    && (forall k :: 0 <= k < 10 && k != DETAILS ==> Member(v, k) == Member(w, k))
    && match (Member(v, DETAILS), Member(w, DETAILS)) {
         case (Some(d), Some(e)) => Agree(d, e)
         case (d, e) => d == e
       }
  }

  ghost predicate DistinctDetails(v: Json) {
    Member(v, DETAILS).Some? ==> DistinctKeys(Member(v, DETAILS).value)
  }

  /** The hashed part determines every hashed member but the key order of the details. */
  lemma {:induction false} PayloadDetermines(v: Json, w: Json)
    requires Payload(v) == Payload(w) && DistinctDetails(v) && DistinctDetails(w)
    ensures SameHashed(v, w)
  {
    hide Members, Member, Agree, DistinctKeys;
    forall k | 0 <= k < 10
      ensures Canonical(Member(v, k), k) == Canonical(Member(w, k), k)
    {
      MemberOfMembers(HashedValues(v), 10, k);
      MemberOfMembers(HashedValues(w), 10, k);
    }
    var d, e := Member(v, DETAILS), Member(w, DETAILS);
    assert Canonical(d, DETAILS) == Canonical(e, DETAILS);
    if d.Some? && e.Some? { CanonicalIffAgree(d.value, e.value); }
  }
}
