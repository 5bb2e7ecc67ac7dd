/**
 The advisory scanner (src/supply-chain/cve-scanner.ts): version numbers compared component by component,
 ranges, and the scan of a component list against the registered advisories.
 */
module CveScanner {
  import opened Wrappers
  import opened JsStrings

  // ---------------------------------------------------------------- version numbers

  /** The value of the leading digits, continued from what was read before. */
  function ParseDigits(s: string, read: nat): nat {
    if s == "" || !IsDigit(s[0]) then read else ParseDigits(s[1..], 10 * read + DigitValue(s[0]))
  }

  /** `parseInt(s, 10) || 0`: leading white space, a sign and digits; whatever does not parse reads as 0. */
  function ParseInt(s: string): int {
    var t := TrimStart(s);
    if t != "" && t[0] == '-' then 0 - ParseDigits(t[1..], 0)
    else ParseDigits(if t != "" && t[0] == '+' then t[1..] else t, 0)
  }

  /** The numbers of a version, one for each dot-separated part. */
  function Parts(version: string): (parts: seq<int>)
    ensures |parts| >= 1
  {
    var pieces := Split(version, '.');
    seq(|pieces|, i requires 0 <= i < |pieces| => ParseInt(pieces[i]))
  }

  /** A missing component reads as 0. */
  function At(parts: seq<int>, i: nat): int {
    if i < |parts| then parts[i] else 0
  }

  /** The first position from `from` on where the components differ, or `n`. */
  function FirstDifference(a: seq<int>, b: seq<int>, from: nat, n: nat): (i: nat)
    requires from <= n
    ensures from <= i <= n
    ensures i < n ==> At(a, i) != At(b, i)
    ensures forall j: nat :: from <= j < i ==> At(a, j) == At(b, j)
    decreases n - from
  {
    if from == n || At(a, from) != At(b, from) then from else FirstDifference(a, b, from + 1, n)
  }

  function Compare(a: seq<int>, b: seq<int>): int {
    var n := Max(|a|, |b|);
    var i := FirstDifference(a, b, 0, n);
    if i == n then 0 else if At(a, i) > At(b, i) then 1 else -1
  }

  method CompareVersions(v1: string, v2: string) returns (order: int)
    ensures order == Compare(Parts(v1), Parts(v2))
  {
    var parts1, parts2 := Parts(v1), Parts(v2);
    var maxLen := Max(|parts1|, |parts2|);
    for i := 0 to maxLen
      invariant FirstDifference(parts1, parts2, 0, maxLen) == FirstDifference(parts1, parts2, i, maxLen)
    {
      var num1, num2 := At(parts1, i), At(parts2, i);
      if num1 > num2 { return 1; }
      if num1 < num2 { return -1; }
    }
    return 0;
  }

  // ---------------------------------------------------------------- what is read

  predicate AllDigits(k: string) {
    forall i :: 0 <= i < |k| ==> IsDigit(k[i])
  }

  /** Nothing that would go on with a number. */
  predicate EndsNumber(tail: string) {
    tail == "" || !IsDigit(tail[0])
  }

  /** Digits read on top of what was read before. */
  function Continued(read: nat, k: string): nat
    requires AllDigits(k)
  {
    if k == "" then read else Continued(read, k[..|k| - 1]) * 10 + DigitValue(k[|k| - 1])
  }

  lemma {:induction false} ContinuedFromFirst(read: nat, k: string)
    requires k != "" && AllDigits(k)
    ensures Continued(read, k) == Continued(10 * read + DigitValue(k[0]), k[1..])
  {
    if |k| == 1 {
      assert k[..0] == "" && k[1..] == "";
    } else {
      ContinuedFromFirst(read, k[..|k| - 1]);
      assert k[1..][..|k| - 2] == k[..|k| - 1][1..];
    }
  }

  lemma {:induction false} DigitsAreContinued(k: string, tail: string, read: nat)
    requires AllDigits(k) && EndsNumber(tail)
    ensures ParseDigits(k + tail, read) == Continued(read, k)
  {
    if k == "" {
      assert k + tail == tail;
    } else {
      ContinuedFromFirst(read, k);
      DigitsAreContinued(k[1..], tail, 10 * read + DigitValue(k[0]));
      assert (k + tail)[1..] == k[1..] + tail;
    }
  }

  lemma {:induction false} ContinuedFromNothing(k: string)
    requires AllDigits(k)
    ensures Continued(0, k) == Decimal(k)
  {
    if k != "" { ContinuedFromNothing(k[..|k| - 1]); }
  }

  /** Digits read as the decimal they write, with a sign before them and anything but a digit after them. */
  lemma {:induction false} NumbersReadAsDecimals(k: string, tail: string)
    requires k != "" && AllDigits(k) && EndsNumber(tail)
    ensures ParseInt(k + tail) == Decimal(k)
    ensures ParseInt("+" + k + tail) == Decimal(k)
    ensures ParseInt("-" + k + tail) == 0 - Decimal(k)
  {
    hide Decimal, ParseDigits;
    DigitsAreContinued(k, tail, 0);
    ContinuedFromNothing(k);
    DigitsAreNoSpace(k[0]);
    assert (k + tail)[0] == k[0];
    assert ("+" + k + tail)[1..] == k + tail && ("-" + k + tail)[1..] == k + tail;
    assert TrimStart("+" + k + tail) == "+" + k + tail && TrimStart("-" + k + tail) == "-" + k + tail;
  }

  lemma DigitsAreNoSpace(c: char)
    requires IsDigit(c)
    ensures !IsSpace(c) && c != '-' && c != '+'
  {
  }

  /** White space before a number is skipped, and what does not start with a number reads as 0. */
  lemma {:induction false} OtherTextReadsAsZero(c: char, s: string)
    ensures IsSpace(c) ==> ParseInt([c] + s) == ParseInt(s)
    ensures !IsSpace(c) && !IsDigit(c) && c != '-' && c != '+' ==> ParseInt([c] + s) == 0
    ensures ParseInt("") == 0
  {
    hide IsSpace;
    assert ([c] + s)[1..] == s;
  }

  /** A version is read part by part, between its dots. */
  lemma {:induction false} VersionsAreReadByPart(part: string, rest: string)
    requires '.' !in part
    ensures Parts(part) == [ParseInt(part)]
    ensures Parts(part + "." + rest) == [ParseInt(part)] + Parts(rest)
  {
    hide ParseInt;
    SplitWithoutSeparator(part, '.');
    SplitAtSeparator(part, '.', rest);
    assert part + "." + rest == part + ['.'] + rest;
  }

  // ---------------------------------------------------------------- the order

  /** Equal once trailing zeros are ignored. */
  ghost predicate Same(a: seq<int>, b: seq<int>) {
    forall i: nat :: At(a, i) == At(b, i)
  }

  /** Smaller at the first component that differs. */
  ghost predicate Less(a: seq<int>, b: seq<int>) {
    exists i: nat :: LessAt(a, b, i)
  }

  ghost predicate LessAt(a: seq<int>, b: seq<int>, i: nat) {
    At(a, i) < At(b, i) && forall j: nat :: j < i ==> At(a, j) == At(b, j)
  }

  /** The comparison is the component-wise order, with missing components read as 0. */
  lemma {:induction false} CompareIsExact(a: seq<int>, b: seq<int>)
    ensures Compare(a, b) == -1 <==> Less(a, b)
    ensures Compare(a, b) == 1 <==> Less(b, a)
    ensures Compare(a, b) == 0 <==> Same(a, b)
  {
    var n := Max(|a|, |b|);
    var i := FirstDifference(a, b, 0, n);
    if i < n {
      assert At(a, i) < At(b, i) ==> LessAt(a, b, i);
      assert At(b, i) < At(a, i) ==> LessAt(b, a, i);
    }
    forall j: nat | LessAt(a, b, j) || LessAt(b, a, j)
      ensures j == i < n
    {
      assert j < n;
    }
    forall j: nat | i == n
      ensures At(a, j) == At(b, j)
    {
    }
  }

  lemma {:induction false} LessIsTransitive(a: seq<int>, b: seq<int>, c: seq<int>, i: nat, j: nat)
    requires LessAt(a, b, i) && LessAt(b, c, j)
    ensures LessAt(a, c, if i < j then i else j)
  {
  }

  /** A total preorder: the sign is antisymmetric and the order transitive, strictly so when one step is strict. */
  lemma {:induction false} CompareIsATotalPreorder(a: seq<int>, b: seq<int>, c: seq<int>)
    ensures Compare(a, b) == -Compare(b, a)
    ensures Compare(a, b) <= 0 && Compare(b, c) <= 0 ==> Compare(a, c) <= 0
    ensures Compare(a, b) <= 0 && Compare(b, c) <= 0 && (Compare(a, b) < 0 || Compare(b, c) < 0) ==> Compare(a, c) < 0
  {
    hide Compare, At;
    CompareIsExact(a, b);
    CompareIsExact(b, a);
    CompareIsExact(b, c);
    CompareIsExact(a, c);
    CompareIsASign(a, b);
    CompareIsASign(b, c);
    CompareIsASign(a, c);
    CompareIsASign(b, a);
    if Compare(a, b) <= 0 && Compare(b, c) <= 0 {
      if Less(a, b) {
        var i: nat :| LessAt(a, b, i);
        if Less(b, c) {
          var j: nat :| LessAt(b, c, j);
          LessIsTransitive(a, b, c, i, j);
        } else {
          assert LessAt(a, c, i);
        }
      } else if Less(b, c) {
        var j: nat :| LessAt(b, c, j);
        assert LessAt(a, c, j);
      }
    }
  }

  lemma CompareIsASign(a: seq<int>, b: seq<int>)
    ensures Compare(a, b) in {-1, 0, 1}
  {
  }

  /** The components up to the last one that is not 0. */
  function DropTrailingZeros(a: seq<int>): (r: seq<int>)
    ensures |r| <= |a| && (r != [] ==> r[|r| - 1] != 0)
    ensures forall i: nat :: At(r, i) == At(a, i)
  {
    if a != [] && a[|a| - 1] == 0 then DropTrailingZeros(a[..|a| - 1]) else a
  }

  lemma {:induction false} SameWithoutZerosIsEqual(x: seq<int>, y: seq<int>)
    requires Same(x, y)
    requires (x != [] ==> x[|x| - 1] != 0) && (y != [] ==> y[|y| - 1] != 0)
    ensures x == y
  {
    var n := Max(|x|, |y|);
    assert n > 0 ==> At(x, n - 1) == At(y, n - 1);
    assert forall i: nat :: i < |x| ==> x[i] == At(x, i) == At(y, i);
  }

  /** Versions compare equal exactly when they agree after dropping trailing zeros. */
  lemma {:induction false} EqualIffSameWithoutZeros(a: seq<int>, b: seq<int>)
    ensures Compare(a, b) == 0 <==> DropTrailingZeros(a) == DropTrailingZeros(b)
  {
    hide Compare, DropTrailingZeros;
    CompareIsExact(a, b);
    var x, y := DropTrailingZeros(a), DropTrailingZeros(b);
    if Same(a, b) {
      assert forall i: nat :: At(x, i) == At(a, i) == At(b, i) == At(y, i);
      SameWithoutZerosIsEqual(x, y);
    } else {
      var i: nat :| At(a, i) != At(b, i);
      assert At(x, i) == At(a, i) && At(y, i) == At(b, i);
    }
  }

  // ---------------------------------------------------------------- ranges

  /** Where the part first occurs from `from` on, or the length. */
  function IndexOfPart(s: string, part: string, from: nat): (i: nat)
    requires from <= |s|
    ensures from <= i <= |s|
    decreases |s| - from
  {
    if from == |s| || StartsWith(s[from..], part) then from else IndexOfPart(s, part, from + 1)
  }

  /** `replace(part, '')`: the first occurrence is removed. */
  function RemoveFirst(s: string, part: string): string {
    var i := IndexOfPart(s, part, 0);
    if StartsWith(s[i..], part) then s[..i] + s[i + |part|..] else s
  }

  /** The installed version, trimmed and without a leading v. */
  function Clean(installed: string): string {
    var t := Trim(installed);
    if StartsWith(t, "v") then t[1..] else t
  }

  function InstalledParts(installed: string): seq<int> {
    Parts(Clean(installed))
  }

  /** What a range asks of the installed version. */
  datatype Range = Below(target: seq<int>) | UpTo(target: seq<int>) | Exactly(version: string) {
    predicate Contains(installed: string) {
      match this
      case Below(target) => Compare(InstalledParts(installed), target) < 0
      case UpTo(target) => Compare(InstalledParts(installed), target) <= 0
      case Exactly(version) => Clean(installed) == version
    }
  }

  /** The operator needs its space; a range with any other operator is taken for an exact version. */
  function RangeOf(text: string): Range {
    if StartsWith(text, "< ") then Below(Parts(Trim(text[2..])))
    else if StartsWith(text, "<= ") then UpTo(Parts(Trim(text[3..])))
    else Exactly(Trim(RemoveFirst(text, "== ")))
  }

  /** The installed version without surrounding white space and without a v before it. */
  lemma {:induction false} CleaningIsExact(installed: string, rest: string)
    ensures Trim(installed) == "v" + rest ==> Clean(installed) == rest
    ensures (Trim(installed) == "" || Trim(installed)[0] != 'v') ==> Clean(installed) == Trim(installed)
  {
    hide Trim;
  }

  /** What each form of range contains, by the order of versions. */
  lemma {:induction false} RangesAreExact(target: string, installed: string)
    ensures RangeOf("< " + target).Contains(installed) <==> Less(Parts(Clean(installed)), Parts(Trim(target)))
    ensures RangeOf("<= " + target).Contains(installed) <==>
            Less(Parts(Clean(installed)), Parts(Trim(target))) || Same(Parts(Clean(installed)), Parts(Trim(target)))
    ensures RangeOf("== " + target).Contains(installed) <==> Clean(installed) == Trim(target)
    ensures !StartsWith(target, "< ") && !StartsWith(target, "<= ") && !Includes(target, "== ") ==>
              (RangeOf(target).Contains(installed) <==> Clean(installed) == Trim(target))
  {
    hide Compare, Parts, Trim, IndexOfPart, Clean, Less, Same;
    assert ("< " + target)[2..] == target && ("<= " + target)[3..] == target && ("== " + target)[3..] == target;
    assert ("<= " + target)[..2][1] == '=' && "< "[1] == ' ';
    assert StartsWith("< " + target, "< ") && StartsWith("<= " + target, "<= ") && !StartsWith("<= " + target, "< ");
    assert StartsWith("== " + target, "== ");
    assert ("== " + target)[..2][0] == '=' && ("== " + target)[..3][0] == '=';
    assert !StartsWith("== " + target, "< ") && !StartsWith("== " + target, "<= ");
    RemovingThePrefix("== " + target, "== ");
    if !Includes(target, "== ") { RemovingNothing(target, "== "); }
    CompareIsExact(Parts(Clean(installed)), Parts(Trim(target)));
    CompareIsASign(Parts(Clean(installed)), Parts(Trim(target)));
  }

  /** The target itself is outside of "below" and inside of "up to" and of an exact range. */
  lemma {:induction false} TargetOfARange(target: string, installed: string)
    requires Clean(installed) == Trim(target)
    ensures !RangeOf("< " + target).Contains(installed)
    ensures RangeOf("<= " + target).Contains(installed) && RangeOf("== " + target).Contains(installed)
  {
    hide RangeOf, Range.Contains, Trim, Clean, Parts;
    RangesAreExact(target, installed);
    CompareIsExact(Parts(Trim(target)), Parts(Trim(target)));
  }

  lemma {:induction false} RemovingNothing(s: string, part: string)
    requires !Includes(s, part)
    ensures RemoveFirst(s, part) == s
  {
    assert !StartsWith(s[IndexOfPart(s, part, 0)..], part);
  }

  method IsVersionVulnerable(installed: string, range: string) returns (vulnerable: bool)
    ensures vulnerable == RangeOf(range).Contains(installed)
  {
    hide Compare, Parts, Trim, IndexOfPart;
    var cleanInstalled := Clean(installed);
    if StartsWith(range, "< ") {
      RemovingThePrefix(range, "< ");
      var order := CompareVersions(cleanInstalled, Trim(RemoveFirst(range, "< ")));
      return order < 0;
    }
    if StartsWith(range, "<= ") {
      RemovingThePrefix(range, "<= ");
      var order := CompareVersions(cleanInstalled, Trim(RemoveFirst(range, "<= ")));
      return order <= 0;
    }
    return cleanInstalled == Trim(RemoveFirst(range, "== "));
  }

  lemma {:induction false} RemovingThePrefix(s: string, part: string)
    requires StartsWith(s, part)
    ensures RemoveFirst(s, part) == s[|part|..]
  {
    assert s[0..] == s;
    assert s[..0] + s[|part|..] == s[|part|..];
  }

  /** Ranges with an upper bound are downward closed. */
  lemma {:induction false} RangesAreDownwardClosed(range: Range, version: string, older: string)
    requires !range.Exactly? && range.Contains(version)
    requires Compare(InstalledParts(older), InstalledParts(version)) <= 0
    ensures range.Contains(older)
  {
    hide Compare, InstalledParts;
    CompareIsATotalPreorder(InstalledParts(older), InstalledParts(version), range.target);
  }

  // ---------------------------------------------------------------- scanning

  datatype CVEAdvisory = CVEAdvisory(
    cveId: string, packageName: string, affectedVersionRange: string, fixedVersion: Option<string>,
    cvssScore: real, severity: string, title: string, remediation: string)

  datatype SBOMComponent = SBOMComponent(name: string, version: string)

  datatype VulnerabilityScanMatch = VulnerabilityScanMatch(
    cveId: string, packageName: string, installedVersion: string, fixedVersion: Option<string>,
    severity: string, cvssScore: real, title: string, remediation: string)

  function MatchOf(comp: SBOMComponent, adv: CVEAdvisory): VulnerabilityScanMatch {
    VulnerabilityScanMatch(adv.cveId, comp.name, comp.version, adv.fixedVersion,
                           adv.severity, adv.cvssScore, adv.title, adv.remediation)
  }

  /** The advisory is about this package and its range holds this version. */
  predicate Hits(comp: SBOMComponent, adv: CVEAdvisory) {
    adv.packageName == comp.name && RangeOf(adv.affectedVersionRange).Contains(comp.version)
  }

  /** The first `n` registrations that are about a package, in order. */
  function AdvisoriesFor(registered: seq<CVEAdvisory>, n: nat, name: string): seq<CVEAdvisory>
    requires n <= |registered|
  {
    if n == 0 then []
    else AdvisoriesFor(registered, n - 1, name)
         + if registered[n - 1].packageName == name then [registered[n - 1]] else []
  }

  /** What the first `n` of the advisories report about one component. */
  function MatchesOf(comp: SBOMComponent, advisories: seq<CVEAdvisory>, n: nat): seq<VulnerabilityScanMatch>
    requires n <= |advisories|
  {
    if n == 0 then []
    else MatchesOf(comp, advisories, n - 1) + if Hits(comp,
        advisories[n - 1]) then [MatchOf(comp, advisories[n - 1])] else []
  }

  /** The scan of the first `n` components: every component against every registration. */
  function ScanOf(components: seq<SBOMComponent>, n: nat, registered: seq<CVEAdvisory>): seq<VulnerabilityScanMatch>
    requires n <= |components|
  {
    if n == 0 then []
    else ScanOf(components, n - 1, registered) + MatchesOf(components[n - 1], registered, |registered|)
  }

  /** Looking only at a package's own advisories misses nothing. */
  lemma {:induction false} OwnAdvisoriesSuffice(comp: SBOMComponent, registered: seq<CVEAdvisory>, n: nat)
    requires n <= |registered|
    ensures var own := AdvisoriesFor(registered, n, comp.name);
            MatchesOf(comp, own, |own|) == MatchesOf(comp, registered, n)
  {
    hide RangeOf, Range.Contains;
    if n != 0 {
      OwnAdvisoriesSuffice(comp, registered, n - 1);
      var own, adv := AdvisoriesFor(registered, n - 1, comp.name), registered[n - 1];
      MatchesOfPrefix(comp, own, [adv], |own|);
      assert own + [] == own;
    }
  }

  lemma {:induction false} MatchesOfPrefix(comp: SBOMComponent, a: seq<CVEAdvisory>, b: seq<CVEAdvisory>, n: nat)
    requires n <= |a|
    ensures MatchesOf(comp, a + b, n) == MatchesOf(comp, a, n)
  {
    hide RangeOf, Range.Contains;
    if n != 0 { MatchesOfPrefix(comp, a, b, n - 1); }
  }

  lemma {:induction false} AdvisoriesOfPrefix(a: seq<CVEAdvisory>, b: seq<CVEAdvisory>, n: nat, name: string)
    requires n <= |a|
    ensures AdvisoriesFor(a + b, n, name) == AdvisoriesFor(a, n, name)
  {
    if n != 0 { AdvisoriesOfPrefix(a, b, n - 1, name); }
  }

  class CVEVulnerabilityScanner {
    var advisories: map<string, seq<CVEAdvisory>>
    ghost var registered: seq<CVEAdvisory>

    /** The map groups the registrations by package. */
    ghost predicate Valid()
      reads this
    {
      forall name :: ListFor(name) == AdvisoriesFor(registered, |registered|, name)
    }

    function ListFor(name: string): seq<CVEAdvisory>
      reads this
    {
      if name in advisories then advisories[name] else []
    }

    constructor ()
      ensures Valid() && registered == DefaultAdvisories()
    {
      advisories, registered := map[], [];
      new;
      var defaults := DefaultAdvisories();
      for i := 0 to |defaults|
        invariant Valid() && registered == defaults[..i]
      {
        RegisterAdvisory(defaults[i]);
      }
    }

    method RegisterAdvisory(advisory: CVEAdvisory)
      requires Valid()
      modifies this
      ensures Valid() && registered == old(registered) + [advisory]
    {
      var list := ListFor(advisory.packageName);
      advisories := advisories[advisory.packageName := list + [advisory]];
      forall name
        ensures AdvisoriesFor(registered + [advisory], |registered|, name)
                == AdvisoriesFor(registered, |registered|, name)
      {
        AdvisoriesOfPrefix(registered, [advisory], |registered|, name);
      }
      registered := registered + [advisory];
    }

    method ScanComponents(components: seq<SBOMComponent>) returns (matches: seq<VulnerabilityScanMatch>)
      requires Valid()
      ensures matches == ScanOf(components, |components|, registered)
    {
      hide Valid, MatchesOf;
      matches := [];
      for i := 0 to |components|
        invariant matches == ScanOf(components, i, registered)
      {
        var found := ScanOne(components[i]);
        matches := matches + found;
      }
    }

    /** One component, against the list kept for its package if there is one. */
    method ScanOne(comp: SBOMComponent) returns (matches: seq<VulnerabilityScanMatch>)
      requires Valid()
      ensures matches == MatchesOf(comp, registered, |registered|)
    {
      hide Range.Contains, RangeOf, AdvisoriesFor;
      OwnAdvisoriesSuffice(comp, registered, |registered|);
      assert ListFor(comp.name) == AdvisoriesFor(registered, |registered|, comp.name);
      if comp.name !in advisories { return []; }
      AllNamed(comp.name);
      matches := ScanComponent(comp, advisories[comp.name]);
    }

    lemma AllNamed(name: string)
      requires Valid()
      ensures forall i :: 0 <= i < |ListFor(name)| ==> ListFor(name)[i].packageName == name
    {
      OwnNames(registered, |registered|, name);
      assert ListFor(name) == AdvisoriesFor(registered, |registered|, name);
    }
  }

  lemma {:induction false} OwnNames(registered: seq<CVEAdvisory>, n: nat, name: string)
    requires n <= |registered|
    ensures forall adv :: adv in AdvisoriesFor(registered, n, name) ==> adv.packageName == name
  {
    if n != 0 { OwnNames(registered, n - 1, name); }
  }

  /** One component against the advisories of its package. */
  method ScanComponent(comp: SBOMComponent,
      packageAdvisories: seq<CVEAdvisory>) returns (matches: seq<VulnerabilityScanMatch>)
    requires forall i :: 0 <= i < |packageAdvisories| ==> packageAdvisories[i].packageName == comp.name
    ensures matches == MatchesOf(comp, packageAdvisories, |packageAdvisories|)
  {
    hide Range.Contains, RangeOf;
    matches := [];
    for i := 0 to |packageAdvisories|
      invariant matches == MatchesOf(comp, packageAdvisories, i)
    {
      var adv := packageAdvisories[i];
      var vulnerable := IsVersionVulnerable(comp.version, adv.affectedVersionRange);
      if vulnerable { matches := matches + [MatchOf(comp, adv)]; }
    }
  }

  function DefaultAdvisories(): seq<CVEAdvisory> {
    [CVEAdvisory("CVE-2023-45133", "@babel/traverse", "< 7.23.2", Some("7.23.2"), 9.3, "CRITICAL",
                 "Arbitrary Code Execution in Babel Traverse", "Upgrade @babel/traverse to version 7.23.2 or higher."),
     CVEAdvisory("CVE-2022-25883", "semver", "< 7.5.2", Some("7.5.2"), 7.5, "HIGH",
                 "Regular Expression Denial of Service in semver", "Upgrade semver to version 7.5.2 or higher."),
     CVEAdvisory("CVE-2024-21538", "nanoid", "< 3.3.8", Some("3.3.8"), 4.3, "MEDIUM",
                 "Predictable ID generation in non-secure nanoid formatters",
                     "Upgrade nanoid to version 3.3.8 or higher.")]
  }

  // ---------------------------------------------------------------- what a scan reports

  lemma {:induction false} MatchesAreExact(comp: SBOMComponent, advisories: seq<CVEAdvisory>, n: nat,
      m: VulnerabilityScanMatch)
    requires n <= |advisories|
    ensures m in MatchesOf(comp, advisories, n) <==>
            exists j :: 0 <= j < n && Hits(comp, advisories[j]) && m == MatchOf(comp, advisories[j])
  {
    hide Hits;
    if n != 0 { MatchesAreExact(comp, advisories, n - 1, m); }
  }

  /** A scan reports exactly the pairs of a component and an advisory that hits it. */
  lemma {:induction false} ScanIsExact(components: seq<SBOMComponent>, n: nat, registered: seq<CVEAdvisory>,
      m: VulnerabilityScanMatch)
    requires n <= |components|
    ensures m in ScanOf(components, n, registered) <==>
            exists i, j :: 0 <= i < n && 0 <= j < |registered|
                           && Hits(components[i], registered[j]) && m == MatchOf(components[i], registered[j])
  {
    hide Hits, MatchesOf;
    if n != 0 {
      ScanIsExact(components, n - 1, registered, m);
      MatchesAreExact(components[n - 1], registered, |registered|, m);
    }
  }

  /**
   An advisory with an upper bound that reports a version reports every older version of the package in every scan.
   */
  lemma {:induction false} ScansAreDownwardClosed(components: seq<SBOMComponent>, i: nat, older: SBOMComponent,
      registered: seq<CVEAdvisory>, j: nat)
    requires i < |components| && j < |registered| && older in components
    requires Hits(components[i], registered[j]) && !RangeOf(registered[j].affectedVersionRange).Exactly?
    requires older.name == components[i].name
    requires Compare(InstalledParts(older.version), InstalledParts(components[i].version)) <= 0
    ensures MatchOf(older, registered[j]) in ScanOf(components, |components|, registered)
  {
    hide Compare, InstalledParts, RangeOf, Range.Contains, ScanOf;
    RangesAreDownwardClosed(RangeOf(registered[j].affectedVersionRange), components[i].version, older.version);
    var k :| 0 <= k < |components| && components[k] == older;
    ScanIsExact(components, |components|, registered, MatchOf(older, registered[j]));
  }

  /** A component's position and an advisory's, and the order in which a scan reports them. */
  datatype Place = Place(component: nat, advisory: nat) {
    predicate Before(other: Place) {
      component < other.component || (component == other.component && advisory < other.advisory)
    }
  }

  /** The places of one component's matches, in the order of registration. */
  lemma {:induction false} MatchesInOrder(components: seq<SBOMComponent>, i: nat, registered: seq<CVEAdvisory>, n: nat)
    returns (at: seq<Place>)
    requires i < |components| && n <= |registered|
    ensures var r := MatchesOf(components[i], registered, n);
            && |at| == |r|
            && (forall k :: 0 <= k < |r| ==>
                  at[k].component == i && at[k].advisory < n && Hits(components[i], registered[at[k].advisory])
                  && r[k] == MatchOf(components[i], registered[at[k].advisory]))
            && (forall k, l :: 0 <= k < l < |r| ==> at[k].Before(at[l]))
            && (forall j :: 0 <= j < n && Hits(components[i], registered[j]) ==> Place(i, j) in at)
  {
    hide Hits, MatchOf;
    at := [];
    if n != 0 {
      at := MatchesInOrder(components, i, registered, n - 1);
      if Hits(components[i], registered[n - 1]) { at := at + [Place(i, n - 1)]; }
    }
  }

  /** A scan reports every hitting pair once, component by component and then in the order of registration. */
  lemma {:induction false} ScanInOrder(components: seq<SBOMComponent>, n: nat, registered: seq<CVEAdvisory>)
    returns (at: seq<Place>)
    requires n <= |components|
    ensures var r := ScanOf(components, n, registered);
            && |at| == |r|
            && (forall k :: 0 <= k < |r| ==>
                  at[k].component < n && at[k].advisory < |registered|
                  && Hits(components[at[k].component], registered[at[k].advisory])
                  && r[k] == MatchOf(components[at[k].component], registered[at[k].advisory]))
            && (forall k, l :: 0 <= k < l < |r| ==> at[k].Before(at[l]))
            && (forall i, j :: 0 <= i < n && 0 <= j < |registered| && Hits(components[i], registered[j]) ==>
                  Place(i, j) in at)
  {
    hide Hits, MatchOf, MatchesOf;
    at := [];
    if n != 0 {
      at := ScanInOrder(components, n - 1, registered);
      var last := MatchesInOrder(components, n - 1, registered, |registered|);
      at := at + last;
    }
  }

  /** Every match names an advisory and a component it hits, with their own data. */
  lemma {:induction false} MatchesSayWhatWasFound(components: seq<SBOMComponent>, registered: seq<CVEAdvisory>,
      m: VulnerabilityScanMatch)
    requires m in ScanOf(components, |components|, registered)
    ensures exists comp, adv :: comp in components && adv in registered
              && adv.packageName == comp.name && RangeOf(adv.affectedVersionRange).Contains(comp.version)
              && m.packageName == comp.name && m.installedVersion == comp.version
              && m.cveId == adv.cveId && m.fixedVersion == adv.fixedVersion && m.severity == adv.severity
              && m.cvssScore == adv.cvssScore && m.title == adv.title && m.remediation == adv.remediation
  {
    hide ScanOf, RangeOf, Range.Contains;
    ScanIsExact(components, |components|, registered, m);
    var i, j :| 0 <= i < |components| && 0 <= j < |registered|
                && Hits(components[i], registered[j]) && m == MatchOf(components[i], registered[j]);
    assert components[i] in components && registered[j] in registered;
  }

  /** Below which versions the default advisories report which packages. */
  lemma {:induction false} DefaultRanges()
    ensures var d := DefaultAdvisories();
            && |d| == 3
            && d[0].packageName == "@babel/traverse" && RangeOf(d[0].affectedVersionRange) == Below([7, 23, 2])
            && d[1].packageName == "semver" && RangeOf(d[1].affectedVersionRange) == Below([7, 5, 2])
            && d[2].packageName == "nanoid" && RangeOf(d[2].affectedVersionRange) == Below([3, 3, 8])
  {
    hide RangeOf;
    BabelRange();
    SemverRange();
    NanoidRange();
  }

  lemma {:induction false} BabelRange()
    ensures RangeOf("< 7.23.2") == Below([7, 23, 2])
  {
    hide RangeOf, ParseInt;
    BelowThree("7", "23", "2");
    OneDigit("7");
    OneDigit("2");
    NumbersReadAsDecimals("23", "");
    assert "23" + "" == "23" && "23"[..1] == "2" && "2"[..0] == "";
    assert Decimal("2") == 2 && Decimal("23") == 23;
    assert "< " + "7" + "." + "23" + "." + "2" == "< 7.23.2";
  }

  lemma {:induction false} SemverRange()
    ensures RangeOf("< 7.5.2") == Below([7, 5, 2])
  {
    hide RangeOf, ParseInt;
    BelowThree("7", "5", "2");
    OneDigit("7");
    OneDigit("5");
    OneDigit("2");
    assert "< " + "7" + "." + "5" + "." + "2" == "< 7.5.2";
  }

  lemma {:induction false} NanoidRange()
    ensures RangeOf("< 3.3.8") == Below([3, 3, 8])
  {
    hide RangeOf, ParseInt;
    BelowThree("3", "3", "8");
    OneDigit("3");
    OneDigit("8");
    assert "< " + "3" + "." + "3" + "." + "8" == "< 3.3.8";
  }

  lemma OneDigit(k: string)
    requires |k| == 1 && IsDigit(k[0])
    ensures ParseInt(k) == DigitValue(k[0])
  {
    NumbersReadAsDecimals(k, "");
    assert k + "" == k && k[..0] == "";
  }

  lemma {:induction false} BelowThree(a: string, b: string, c: string)
    requires AllDigits(a) && AllDigits(b) && AllDigits(c) && a != "" && c != ""
    ensures RangeOf("< " + a + "." + b + "." + c) == Below([ParseInt(a), ParseInt(b), ParseInt(c)])
  {
    hide ParseInt, Split, Parts;
    var v := a + "." + b + "." + c;
    VersionsAreReadByPart(a, b + "." + c);
    VersionsAreReadByPart(b, c);
    VersionsAreReadByPart(c, "");
    assert v == a + "." + (b + "." + c);
    DigitsAreNoSpace(a[0]);
    DigitsAreNoSpace(c[|c| - 1]);
    assert v[0] == a[0] && v[|v| - 1] == c[|c| - 1];
    assert TrimStart(v) == v && TrimEnd(v) == v;
    assert "< " + a + "." + b + "." + c == "< " + v && ("< " + v)[2..] == v && StartsWith("< " + v, "< ");
  }
}
