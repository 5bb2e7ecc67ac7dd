/**
 JSON values as the audit ledger hashes them, and the canonical key order of
 src/audit/audit-service.ts:180-190. An object is the list of its members in enumeration order.
 */
module Json {
  import opened Wrappers
  import opened JsStrings

  datatype Json =
    | Null
    | Bool(b: bool)
    | Num(n: int)
    | Str(s: string)
    | Arr(items: seq<Json>)
    | Obj(fields: seq<Field>)

  datatype Field = Field(key: string, val: Json)

  /** Assigning to this name sets a prototype instead of a member, so the sorted copy does not have it. */
  const PROTO := "__proto__"

  // ---------------------------------------------------------------- the order of keys

  /** Strictly before in dictionary order. */
  predicate LexLess(a: string, b: string) {
    if b == "" then false
    else if a == "" then true
    else if a[0] == b[0] then LexLess(a[1..], b[1..])
    else a[0] < b[0]
  }

  /** A canonical array index: these keys are enumerated first, by value, whatever order they were set in. */
  predicate IsIndex(k: string) {
    && k != "" && (forall i :: 0 <= i < |k| ==> IsDigit(k[i]))
    && (k[0] != '0' || k == "0")
    && (|k| < 10 || (|k| == 10 && LexLess(k, "4294967295")))
  }

  /** The enumeration order of an object whose keys were set in sorted order. */
  predicate KeyBefore(a: string, b: string) {
    if IsIndex(a) != IsIndex(b) then IsIndex(a)
    else if IsIndex(a) && |a| != |b| then |a| < |b|
    else LexLess(a, b)
  }

  lemma {:induction false} LexIsStrict(a: string)
    ensures !LexLess(a, a)
  {
    if a != "" { LexIsStrict(a[1..]); }
  }

  lemma {:induction false} LexIsTotal(a: string, b: string)
    ensures a == b || LexLess(a, b) || LexLess(b, a)
  {
    if a != "" && b != "" && a[0] == b[0] {
      LexIsTotal(a[1..], b[1..]);
      assert a == [a[0]] + a[1..] && b == [b[0]] + b[1..];
    }
  }

  lemma {:induction false} LexIsTransitive(a: string, b: string, c: string)
    requires LexLess(a, b) && LexLess(b, c)
    ensures LexLess(a, c)
  {
    if a != "" && a[0] == b[0] == c[0] { LexIsTransitive(a[1..], b[1..], c[1..]); }
  }

  /** Keys are strictly and totally ordered, so a set of keys has one sorted order. */
  lemma {:induction false} KeyOrderIsStrictAndTotal(a: string, b: string, c: string)
    ensures !KeyBefore(a, a)
    ensures a == b || KeyBefore(a, b) || KeyBefore(b, a)
    ensures KeyBefore(a, b) && KeyBefore(b, c) ==> KeyBefore(a, c)
  {
    hide LexLess, IsIndex;
    LexIsStrict(a);
    LexIsTotal(a, b);
    if LexLess(a, b) && LexLess(b, c) { LexIsTransitive(a, b, c); }
  }

  function Pow10(n: nat): nat {
    if n == 0 then 1 else 10 * Pow10(n - 1)
  }

  lemma {:induction false} LexOfLastDigit(a: string, x: char, b: string, y: char)
    requires |a| == |b|
    ensures LexLess(a + [x], b + [y]) <==> LexLess(a, b) || (a == b && x < y)
  {
    if a == "" {
      assert LexLess([x], [y]) == (if x == y then LexLess([x][1..], [y][1..]) else x < y);
    } else {
      assert (a + [x])[1..] == a[1..] + [x] && (b + [y])[1..] == b[1..] + [y];
      LexOfLastDigit(a[1..], x, b[1..], y);
      assert a == [a[0]] + a[1..] && b == [b[0]] + b[1..];
    }
  }

  /** Numerals of equal length compare like their values. */
  lemma {:induction false} LexIsNumeric(a: string, b: string)
    requires |a| == |b| && (forall i :: 0 <= i < |a| ==> IsDigit(a[i]) && IsDigit(b[i]))
    ensures LexLess(a, b) <==> Decimal(a) < Decimal(b)
    ensures a == b <==> Decimal(a) == Decimal(b)
  {
    if a != "" {
      var n := |a| - 1;
      LexIsNumeric(a[..n], b[..n]);
      assert a == a[..n] + [a[n]] && b == b[..n] + [b[n]];
      LexOfLastDigit(a[..n], a[n], b[..n], b[n]);
    }
  }

  lemma {:induction false} ValueBounds(k: string)
    requires forall i :: 0 <= i < |k| ==> IsDigit(k[i])
    ensures Decimal(k) < Pow10(|k|)
    ensures k != "" && k[0] != '0' ==> Pow10(|k| - 1) <= Decimal(k)
  {
    if k != "" { ValueBounds(k[..|k| - 1]); }
  }

  lemma {:induction false} Pow10Grows(m: nat, n: nat)
    requires m <= n
    ensures Pow10(m) <= Pow10(n)
  {
    if m < n { Pow10Grows(m, n - 1); }
  }

  /** Array indices are ordered by value. */
  lemma {:induction false} IndexOrderIsNumeric(a: string, b: string)
    requires IsIndex(a) && IsIndex(b)
    ensures KeyBefore(a, b) <==> Decimal(a) < Decimal(b)
  {
    ValueBounds(a);
    ValueBounds(b);
    if |a| == |b| {
      LexIsNumeric(a, b);
    } else if |a| < |b| {
      Pow10Grows(|a|, |b| - 1);
    } else {
      Pow10Grows(|b|, |a| - 1);
    }
  }

  /** The first character that differs decides, and a text comes before every continuation of it. */
  lemma {:induction false} FirstDifferenceDecides(p: string, x: char, s: string, y: char, t: string)
    requires x < y
    ensures LexLess(p + [x] + s, p + [y] + t) && LexLess(p, p + [y] + t)
  {
    if p != "" {
      FirstDifferenceDecides(p[1..], x, s, y, t);
      assert (p + [x] + s)[1..] == p[1..] + [x] + s && (p + [y] + t)[1..] == p[1..] + [y] + t;
    }
  }

  /** A canonical numeral is an index exactly when its value is below 2^32 - 1. */
  lemma {:induction false} IndicesAreSmallNumerals(k: string)
    requires k != "" && (forall i :: 0 <= i < |k| ==> IsDigit(k[i])) && (k[0] != '0' || k == "0")
    ensures IsIndex(k) <==> Decimal(k) < 4_294_967_295
  {
    hide Decimal, LexLess;
    LargestNumeral();
    TenthPowers(|k|);
    ValueBounds(k);
    if |k| == 10 { LexIsNumeric(k, "4294967295"); }
    if k == "0" { ZeroIsZero(); }
  }

  lemma ZeroIsZero()
    ensures Decimal("0") == 0
  {
    assert "0"[..0] == "";
  }

  lemma {:induction false} TenthPowers(n: nat)
    ensures n <= 9 ==> Pow10(n) <= 1_000_000_000
    ensures n >= 11 ==> Pow10(n - 1) >= 10_000_000_000
  {
    NinthPower();
    if n <= 9 { Pow10Grows(n, 9); }
    if n >= 11 { Pow10Grows(10, n - 1); }
  }

  lemma NinthPower()
    ensures Pow10(9) == 1_000_000_000 && Pow10(10) == 10_000_000_000
  {
    assert Pow10(5) == 100_000;
    assert Pow10(9) == 1_000_000_000;
  }

  lemma LargestNumeral()
    ensures forall i :: 0 <= i < 10 ==> IsDigit("4294967295"[i])
    ensures Decimal("4294967295") == 4_294_967_295
  {
    var k := "4294967295";
    assert k[..9] == "429496729" && k[..8] == "42949672" && k[..7] == "4294967" && k[..6] == "429496";
    assert "42949"[..4] == "4294" && "4294"[..3] == "429" && "429"[..2] == "42" && "42"[..1] == "4" && "4"[..0] == "";
    assert Decimal("4294") == 4294;
    assert "429496"[..5] == "42949" && Decimal("429496") == 429496;
    assert "4294967"[..6] == "429496" && "42949672"[..7] == "4294967" && Decimal("42949672") == 42949672;
    assert "429496729"[..8] == "42949672" && Decimal("429496729") == 429496729;
  }

  // ---------------------------------------------------------------- sorting

  /** Insert a member before the first one whose key comes after its own. */
  function Insert(fs: seq<Field>, f: Field): seq<Field> {
    if fs == [] || KeyBefore(f.key, fs[0].key) then [f] + fs else [fs[0]] + Insert(fs[1..], f)
  }

  /** `sortObjectKeys`: sort members at every level, but leave arrays and what is under them alone. */
  function SortKeys(v: Json): Json {
    match v
    case Obj(fields) => Obj(SortFields(fields))
    case _ => v
  }

  function SortFields(fs: seq<Field>): seq<Field> {
    if fs == [] then []
    else if fs[0].key == PROTO then SortFields(fs[1..])
    else Insert(SortFields(fs[1..]), Field(fs[0].key, SortKeys(fs[0].val)))
  }

  function Lookup(fs: seq<Field>, k: string): Option<Json> {
    if fs == [] then None else if fs[0].key == k then Some(fs[0].val) else Lookup(fs[1..], k)
  }

  /** `value.name`: None is undefined. Reading a member of null throws, which callers have to rule out. */
  function Prop(v: Json, name: string): Option<Json> {
    if v.Obj? then Lookup(v.fields, name) else None
  }

  /** Objects, down to the first array, have distinct keys. */
  ghost predicate DistinctKeys(v: Json) {
    v.Obj? ==>
      && (forall i, j :: 0 <= i < j < |v.fields| ==> v.fields[i].key != v.fields[j].key)
      && (forall i :: 0 <= i < |v.fields| ==> DistinctKeys(v.fields[i].val))
  }

  /** The values differ at most in the order of object keys above any array (and in members named `__proto__`). */
  ghost predicate Agree(a: Json, b: Json) {
    if a.Obj? && b.Obj? then
      && (forall k :: k != PROTO ==> (Lookup(a.fields, k).Some? <==> Lookup(b.fields, k).Some?))
      && (forall i :: 0 <= i < |a.fields| && a.fields[i].key != PROTO && Lookup(b.fields, a.fields[i].key).Some? ==>
            Agree(a.fields[i].val, Lookup(b.fields, a.fields[i].key).value))
    else a == b
  }

  ghost predicate Ascending(fs: seq<Field>) {
    forall i, j :: 0 <= i < j < |fs| ==> KeyBefore(fs[i].key, fs[j].key)
  }

  lemma {:induction false} LookupIsFirst(fs: seq<Field>, k: string)
    ensures Lookup(fs, k).Some? <==> exists i :: 0 <= i < |fs| && fs[i].key == k
  {
    if fs != [] {
      LookupIsFirst(fs[1..], k);
      if i :| 0 <= i < |fs| && fs[i].key == k {
        if i > 0 { assert fs[1..][i - 1].key == k; }
      }
    }
  }

  lemma {:induction false} LookupAt(fs: seq<Field>, i: nat)
    requires i < |fs| && forall j, k :: 0 <= j < k < |fs| ==> fs[j].key != fs[k].key
    ensures Lookup(fs, fs[i].key) == Some(fs[i].val)
  {
    if i > 0 { LookupAt(fs[1..], i - 1); }
  }

  lemma {:induction false} InsertKeepsOrder(fs: seq<Field>, f: Field)
    requires Ascending(fs) && forall i :: 0 <= i < |fs| ==> fs[i].key != f.key
    ensures Ascending(Insert(fs, f))
    ensures forall i :: 0 <= i < |Insert(fs, f)| ==> Insert(fs, f)[i] == f || Insert(fs, f)[i] in fs
  {
    hide KeyBefore;
    var r := Insert(fs, f);
    if fs == [] || KeyBefore(f.key, fs[0].key) {
      forall j | 0 <= j < |fs|
        ensures KeyBefore(f.key, fs[j].key)
      {
        KeyOrderIsStrictAndTotal(f.key, fs[0].key, fs[j].key);
      }
    } else {
      InsertKeepsOrder(fs[1..], f);
      KeyOrderIsStrictAndTotal(f.key, fs[0].key, "");
      var s := Insert(fs[1..], f);
      forall j | 0 <= j < |s|
        ensures KeyBefore(fs[0].key, s[j].key)
      {
        if s[j] != f { assert s[j] in fs[1..]; }
      }
    }
  }

  lemma {:induction false} InsertSetsLookup(fs: seq<Field>, f: Field, k: string)
    requires forall i :: 0 <= i < |fs| ==> fs[i].key != f.key
    ensures Lookup(Insert(fs, f), k) == if k == f.key then Some(f.val) else Lookup(fs, k)
  {
    if fs != [] && !KeyBefore(f.key, fs[0].key) { InsertSetsLookup(fs[1..], f, k); }
  }

  /** Sorting yields ascending keys, and every member's sorted value, except `__proto__`. */
  lemma {:induction false} SortedFields(fs: seq<Field>, k: string)
    requires forall i, j :: 0 <= i < j < |fs| ==> fs[i].key != fs[j].key
    ensures Ascending(SortFields(fs))
    ensures var v := Lookup(fs, k);
            Lookup(SortFields(fs), k) == if k == PROTO || v.None? then None else Some(SortKeys(v.value))
  {
    if fs != [] {
      var s := SortFields(fs[1..]);
      SortedFields(fs[1..], k);
      if fs[0].key != PROTO {
        var f := Field(fs[0].key, SortKeys(fs[0].val));
        SortedFields(fs[1..], f.key);
        LookupIsFirst(fs[1..], f.key);
        LookupIsFirst(s, f.key);
        InsertKeepsOrder(s, f);
        InsertSetsLookup(s, f, k);
      }
    }
  }

  /** Two ascending lists with the same lookups are the same list. */
  lemma {:induction false} AscendingIsDetermined(a: seq<Field>, b: seq<Field>)
    requires Ascending(a) && Ascending(b) && forall k :: Lookup(a, k) == Lookup(b, k)
    ensures a == b
  {
    SameEmptiness(a, b);
    if a != [] {
      SameLeastKey(a, b);
      assert Lookup(a, a[0].key) == Lookup(b, a[0].key);
      forall k
        ensures Lookup(a[1..], k) == Lookup(b[1..], k)
      {
        assert Lookup(a, k) == Lookup(b, k);
        if k == a[0].key {
          LeastKeyOnlyOnce(a);
          LeastKeyOnlyOnce(b);
        }
      }
      AscendingIsDetermined(a[1..], b[1..]);
      assert a == [a[0]] + a[1..] && b == [b[0]] + b[1..];
    }
  }

  lemma {:induction false} SameEmptiness(a: seq<Field>, b: seq<Field>)
    requires forall k :: Lookup(a, k) == Lookup(b, k)
    ensures a == [] <==> b == []
  {
    if a != [] { assert Lookup(a, a[0].key) == Lookup(b, a[0].key); }
    if b != [] { assert Lookup(a, b[0].key) == Lookup(b, b[0].key); }
  }

  lemma {:induction false} LeastKeyOnlyOnce(a: seq<Field>)
    requires a != [] && Ascending(a)
    ensures Lookup(a[1..], a[0].key) == None
  {
    LookupIsFirst(a[1..], a[0].key);
    forall i | 0 <= i < |a[1..]|
      ensures a[1..][i].key != a[0].key
    {
      assert KeyBefore(a[0].key, a[i + 1].key);
      KeyOrderIsStrictAndTotal(a[0].key, "", "");
    }
  }

  lemma {:induction false} SameLeastKey(a: seq<Field>, b: seq<Field>)
    requires Ascending(a) && Ascending(b) && a != [] && b != []
    requires forall k :: Lookup(a, k) == Lookup(b, k)
    ensures a[0].key == b[0].key
  {
    hide KeyBefore;
    var k, l := a[0].key, b[0].key;
    assert Lookup(a, k) == Lookup(b, k) && Lookup(a, l) == Lookup(b, l);
    LookupIsFirst(b, k);
    LookupIsFirst(a, l);
    KeyOrderIsStrictAndTotal(k, l, k);
    assert k != l ==> KeyBefore(l, k);
    assert k != l ==> KeyBefore(k, l);
  }

  /** Two objects' sorted members are equal exactly when the objects agree member by member, once sorted. */
  lemma {:induction false} SortedAlikeIffSameMembers(fa: seq<Field>, fb: seq<Field>)
    requires forall i, j :: 0 <= i < j < |fa| ==> fa[i].key != fa[j].key
    requires forall i, j :: 0 <= i < j < |fb| ==> fb[i].key != fb[j].key
    ensures SortFields(fa) == SortFields(fb) <==> forall k :: SameMember(fa, fb, k)
  {
    forall k
      ensures SameMember(fa, fb, k) <==> Lookup(SortFields(fa), k) == Lookup(SortFields(fb), k)
    {
      SortedFields(fa, k);
      SortedFields(fb, k);
    }
    SortedFields(fa, "");
    SortedFields(fb, "");
    if forall k :: SameMember(fa, fb, k) {
      forall k
        ensures Lookup(SortFields(fa), k) == Lookup(SortFields(fb), k)
      {
        assert SameMember(fa, fb, k);
      }
      AscendingIsDetermined(SortFields(fa), SortFields(fb));
    }
  }

  ghost predicate SameMember(fa: seq<Field>, fb: seq<Field>, k: string) {
    var x, y := Lookup(fa, k), Lookup(fb, k);
    k == PROTO || (x.None? && y.None?) || (x.Some? && y.Some? && SortKeys(x.value) == SortKeys(y.value))
  }

  /**
   Main result: two values have the same canonical form if and only if they differ at most in the order of object keys
   above any array.
   */
  lemma {:induction false} CanonicalIffAgree(a: Json, b: Json)
    requires DistinctKeys(a) && DistinctKeys(b)
    ensures SortKeys(a) == SortKeys(b) <==> Agree(a, b)
    decreases a
  {
    if a.Obj? && b.Obj? {
      SortedAlikeIffSameMembers(a.fields, b.fields);
      forall i | 0 <= i < |a.fields| && Lookup(b.fields, a.fields[i].key).Some?
        ensures SortKeys(a.fields[i].val) == SortKeys(Lookup(b.fields, a.fields[i].key).value)
                <==> Agree(a.fields[i].val, Lookup(b.fields, a.fields[i].key).value)
      {
        LookupKeepsDistinct(b.fields, a.fields[i].key);
        CanonicalIffAgree(a.fields[i].val, Lookup(b.fields, a.fields[i].key).value);
      }
      MembersDecideAgreement(a, b);
    }
  }

  lemma {:induction false} LookupKeepsDistinct(fs: seq<Field>, k: string)
    requires forall i :: 0 <= i < |fs| ==> DistinctKeys(fs[i].val)
    ensures Lookup(fs, k).Some? ==> DistinctKeys(Lookup(fs, k).value)
  {
    if fs != [] { LookupKeepsDistinct(fs[1..], k); }
  }

  lemma {:induction false} MembersDecideAgreement(a: Json, b: Json)
    requires a.Obj? && b.Obj? && DistinctKeys(a) && DistinctKeys(b)
    requires forall i :: 0 <= i < |a.fields| && Lookup(b.fields, a.fields[i].key).Some? ==>
               (SortKeys(a.fields[i].val) == SortKeys(Lookup(b.fields, a.fields[i].key).value)
                <==> Agree(a.fields[i].val, Lookup(b.fields, a.fields[i].key).value))
    ensures (forall k :: SameMember(a.fields, b.fields, k)) <==> Agree(a, b)
  {
    hide SortKeys;
    if forall k :: SameMember(a.fields, b.fields, k) {
      forall k | k != PROTO
        ensures Lookup(a.fields, k).Some? <==> Lookup(b.fields, k).Some?
      {
        assert SameMember(a.fields, b.fields, k);
      }
      forall i | 0 <= i < |a.fields| && a.fields[i].key != PROTO && Lookup(b.fields, a.fields[i].key).Some?
        ensures Agree(a.fields[i].val, Lookup(b.fields, a.fields[i].key).value)
      {
        assert SameMember(a.fields, b.fields, a.fields[i].key);
        LookupAt(a.fields, i);
      }
    }
    if Agree(a, b) {
      forall k
        ensures SameMember(a.fields, b.fields, k)
      {
        LookupIsFirst(a.fields, k);
        if Lookup(a.fields, k).Some? {
          var i :| 0 <= i < |a.fields| && a.fields[i].key == k;
          LookupAt(a.fields, i);
        }
      }
    }
  }

  /** The canonical form has distinct keys, none of them `__proto__` above an array. */
  lemma {:induction false} AscendingKeysAreDistinct(fs: seq<Field>)
    requires Ascending(fs)
    ensures forall i, j :: 0 <= i < j < |fs| ==> fs[i].key != fs[j].key
  {
    forall i, j | 0 <= i < j < |fs|
      ensures fs[i].key != fs[j].key
    {
      assert KeyBefore(fs[i].key, fs[j].key);
      KeyOrderIsStrictAndTotal(fs[i].key, "", "");
    }
  }

  /** Sorting twice is sorting once. */
  lemma {:induction false} SortingIsIdempotent(v: Json)
    requires DistinctKeys(v)
    ensures SortKeys(SortKeys(v)) == SortKeys(v)
    decreases v
  {
    if v.Obj? {
      var s := SortFields(v.fields);
      SortedFields(v.fields, "");
      AscendingKeysAreDistinct(s);
      SortedFields(s, "");
      forall k
        ensures Lookup(SortFields(s), k) == Lookup(s, k)
      {
        SortedFields(v.fields, k);
        SortedFields(s, k);
        LookupIsFirst(v.fields, k);
        if Lookup(v.fields, k).Some? {
          var i :| 0 <= i < |v.fields| && v.fields[i].key == k;
          LookupAt(v.fields, i);
          SortingIsIdempotent(v.fields[i].val);
        }
      }
      AscendingIsDetermined(SortFields(s), s);
    }
  }

  /** A member named `__proto__` is not part of the canonical form. */
  lemma {:induction false} ProtoMemberIsInvisible(v: Json)
    ensures SortKeys(Obj([Field(PROTO, v)])) == SortKeys(Obj([])) == Obj([])
  {
    assert SortFields([Field(PROTO, v)]) == SortFields([Field(PROTO, v)][1..]);
  }

  /** Key order under an array stays visible. */
  lemma {:induction false} OrderUnderArrayIsVisible(k: string, l: string, x: Json, y: Json)
    requires k != l
    ensures SortKeys(Arr([Obj([Field(k, x), Field(l, y)])])) != SortKeys(Arr([Obj([Field(l, y), Field(k, x)])]))
  {
    assert [Field(k, x), Field(l, y)][0] != [Field(l, y), Field(k, x)][0];
  }

  // ---------------------------------------------------------------- the values there are

  /** The members of a JavaScript object: no key twice, array indices first and by value. */
  ghost predicate Enumerable(fs: seq<Field>) {
    forall i, j :: 0 <= i < j < |fs| ==>
      fs[i].key != fs[j].key && (IsIndex(fs[j].key) ==> KeyBefore(fs[i].key, fs[j].key))
  }

  /** The value is one that JavaScript can hold: every object in it, under arrays too, has enumerable members. */
  ghost predicate Realizable(v: Json) {
    match v
    case Arr(items) => forall i :: 0 <= i < |items| ==> Realizable(items[i])
    case Obj(fields) => Enumerable(fields) && forall i :: 0 <= i < |fields| ==> Realizable(fields[i].val)
    case _ => true
  }

  lemma {:induction false} RealizableHasDistinctKeys(v: Json)
    requires Realizable(v)
    ensures DistinctKeys(v)
  {
    if v.Obj? {
      forall i | 0 <= i < |v.fields|
        ensures DistinctKeys(v.fields[i].val)
      {
        RealizableHasDistinctKeys(v.fields[i].val);
      }
    }
  }

  lemma {:induction false} LookupIsRealizable(fs: seq<Field>, k: string)
    requires forall i :: 0 <= i < |fs| ==> Realizable(fs[i].val)
    ensures Lookup(fs, k).Some? ==> Realizable(Lookup(fs, k).value)
  {
    if fs != [] { LookupIsRealizable(fs[1..], k); }
  }

  lemma {:induction false} LookupAppend(fs: seq<Field>, f: Field, k: string)
    ensures Lookup(fs + [f], k)
            == if Lookup(fs, k).Some? then Lookup(fs, k) else if f.key == k then Some(f.val) else None
  {
    if fs == [] {
      assert [f][1..] == [];
    } else {
      LookupAppend(fs[1..], f, k);
      assert (fs + [f])[1..] == fs[1..] + [f];
    }
  }
}
