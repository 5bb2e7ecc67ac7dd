/**
 The policy engine (src/policy/engine.ts): rules kept in descending priority by a stable sort at every
 registration, evaluated first match first, and the five default rules.
 */
module PolicyEngine {
  import opened Wrappers
  import opened JsStrings
  import opened Rbac

  datatype DecisionType = ALLOW | DENY | REQUIRE_APPROVAL | ESCALATE

  datatype PolicyEvaluationInput = PolicyEvaluationInput(
    actor: IdentitySubject, resource: string, action: string, environment: string, riskScore: real)

  datatype Reason =
    | ExtremeRisk(riskScore: real)
    | HighRiskInProduction(riskScore: real)
    | SensitiveAction(action: string)
    | NotGranted(grant: GrantReason)
    | Authorized(action: string, resource: string)
    | ZeroTrust
    | Custom(text: string)

  datatype PolicyDecision = PolicyDecision(
    decision: DecisionType, reason: Reason, ruleId: Option<string>,
    requiredApprovers: seq<string>, escalationTarget: Option<string>)

  /** A rule decides or passes; what it decides is a function of the input alone. */
  datatype PolicyRule = PolicyRule(
    id: string, name: string, priority: real, evaluate: PolicyEvaluationInput -> Option<PolicyDecision>)
  {
    predicate Matches(input: PolicyEvaluationInput) {
      evaluate(input).Some?
    }
  }

  /** An entry of the chain; the outcome is there exactly when the rule matched. */
  datatype ChainEntry = ChainEntry(ruleId: string, name: string, priority: real, outcome: Option<DecisionType>)

  const FALLBACK := PolicyDecision(DENY, ZeroTrust, None, [], None)

  // ---------------------------------------------------------------- the stable sort

  ghost predicate Descending(rules: seq<PolicyRule>) {
    forall i, j :: 0 <= i < j < |rules| ==> rules[i].priority >= rules[j].priority
  }

  /** The place of a new rule: behind every rule of its priority or above. */
  function PlaceFor(rules: seq<PolicyRule>, from: nat, priority: real): (k: nat)
    requires from <= |rules|
    ensures from <= k <= |rules|
    ensures k < |rules| ==> rules[k].priority < priority
    ensures forall j :: from <= j < k ==> rules[j].priority >= priority
    decreases |rules| - from
  {
    if from == |rules| || rules[from].priority < priority then from else PlaceFor(rules, from + 1, priority)
  }

  function Insert(rules: seq<PolicyRule>, rule: PolicyRule): seq<PolicyRule> {
    var k := PlaceFor(rules, 0, rule.priority);
    rules[..k] + [rule] + rules[k..]
  }

  /** The first `n` rules, sorted by insertion. */
  function StableSort(rules: seq<PolicyRule>, n: nat): seq<PolicyRule>
    requires n <= |rules|
  {
    if n == 0 then [] else Insert(StableSort(rules, n - 1), rules[n - 1])
  }

  /** Those of the first `n` rules that have this priority, in order. */
  function WithPriority(rules: seq<PolicyRule>, n: nat, priority: real): seq<PolicyRule>
    requires n <= |rules|
  {
    if n == 0 then []
    else WithPriority(rules, n - 1, priority) + if rules[n - 1].priority == priority then [rules[n - 1]] else []
  }

  lemma {:induction false} InsertIsDescending(rules: seq<PolicyRule>, rule: PolicyRule)
    requires Descending(rules)
    ensures Descending(Insert(rules, rule))
  {
  }

  lemma {:induction false} SortIsDescending(rules: seq<PolicyRule>, n: nat)
    requires n <= |rules|
    ensures Descending(StableSort(rules, n))
  {
    hide Insert, Descending;
    if n == 0 {
      NothingIsDescending();
    } else {
      SortIsDescending(rules, n - 1);
      InsertIsDescending(StableSort(rules, n - 1), rules[n - 1]);
    }
  }

  lemma NothingIsDescending()
    ensures Descending([])
  {
  }

  lemma {:induction false} WithPriorityConcat(a: seq<PolicyRule>, b: seq<PolicyRule>, n: nat, priority: real)
    requires n <= |b|
    ensures WithPriority(a + b, |a| + n, priority) == WithPriority(a, |a|, priority) + WithPriority(b, n, priority)
  {
    if n == 0 {
      WithPriorityPrefix(a, b, |a|, priority);
    } else {
      WithPriorityConcat(a, b, n - 1, priority);
      assert (a + b)[|a| + n - 1] == b[n - 1];
    }
  }

  lemma {:induction false} WithPriorityPrefix(a: seq<PolicyRule>, b: seq<PolicyRule>, n: nat, priority: real)
    requires n <= |a|
    ensures WithPriority(a + b, n, priority) == WithPriority(a, n, priority)
  {
    if n != 0 { WithPriorityPrefix(a, b, n - 1, priority); }
  }

  lemma {:induction false} NoneWithPriority(rules: seq<PolicyRule>, n: nat, priority: real)
    requires n <= |rules| && forall i :: 0 <= i < n ==> rules[i].priority != priority
    ensures WithPriority(rules, n, priority) == []
  {
    if n != 0 { NoneWithPriority(rules, n - 1, priority); }
  }

  lemma {:induction false} WithPriorityOfOne(rule: PolicyRule, priority: real)
    ensures WithPriority([rule], 1, priority) == if rule.priority == priority then [rule] else []
  {
    assert WithPriority([rule], 0, priority) == [];
  }

  lemma {:induction false} InsertionAppends(a: seq<PolicyRule>, rule: PolicyRule, b: seq<PolicyRule>, priority: real)
    requires forall i :: 0 <= i < |b| ==> b[i].priority < rule.priority
    ensures WithPriority(a + [rule] + b, |a| + 1 + |b|, priority) ==
              WithPriority(a + b, |a| + |b|, priority) + if rule.priority == priority then [rule] else []
  {
    hide WithPriority;
    WithPriorityConcat(a, b, |b|, priority);
    WithPriorityConcat(a, [rule], 1, priority);
    WithPriorityConcat(a + [rule], b, |b|, priority);
    WithPriorityOfOne(rule, priority);
    if rule.priority == priority { NoneWithPriority(b, |b|, priority); }
  }

  lemma {:induction false} InsertSplits(rules: seq<PolicyRule>, rule: PolicyRule) returns (a: seq<PolicyRule>,
      b: seq<PolicyRule>)
    requires Descending(rules)
    ensures rules == a + b && Insert(rules, rule) == a + [rule] + b
    ensures forall i :: 0 <= i < |b| ==> b[i].priority < rule.priority
  {
    hide PlaceFor;
    var k := PlaceFor(rules, 0, rule.priority);
    a, b := rules[..k], rules[k..];
    forall i | 0 <= i < |b|
      ensures b[i].priority < rule.priority
    {
      assert b[i] == rules[k + i] && (i > 0 ==> rules[k].priority >= rules[k + i].priority);
    }
  }

  /** Inserting puts the rule last among those of its priority and leaves the others alone. */
  lemma {:induction false} InsertAppendsToPriority(rules: seq<PolicyRule>, rule: PolicyRule, priority: real)
    requires Descending(rules)
    ensures var r := Insert(rules, rule);
            WithPriority(r, |r|, priority) ==
              WithPriority(rules, |rules|, priority) + if rule.priority == priority then [rule] else []
  {
    hide WithPriority, Insert, Descending;
    var a, b := InsertSplits(rules, rule);
    InsertionAppends(a, rule, b, priority);
  }

  /** The sort keeps, within every priority, the rules in the order of registration. */
  lemma {:induction false} SortIsStable(rules: seq<PolicyRule>, n: nat, priority: real)
    requires n <= |rules|
    ensures var r := StableSort(rules, n); WithPriority(r, |r|, priority) == WithPriority(rules, n, priority)
  {
    hide Insert;
    if n != 0 {
      SortIsStable(rules, n - 1, priority);
      SortIsDescending(rules, n - 1);
      InsertAppendsToPriority(StableSort(rules, n - 1), rules[n - 1], priority);
    }
  }

  ghost predicate SamePriorityGroups(a: seq<PolicyRule>, n: nat, b: seq<PolicyRule>, m: nat)
    requires n <= |a| && m <= |b|
  {
    forall priority :: SameGroup(a, n, b, m, priority)
  }

  ghost predicate SameGroup(a: seq<PolicyRule>, n: nat, b: seq<PolicyRule>, m: nat, priority: real)
    requires n <= |a| && m <= |b|
  {
    WithPriority(a, n, priority) == WithPriority(b, m, priority)
  }

  /** The last rule of one list has its priority somewhere in the other. */
  lemma {:induction false} LastHasACounterpart(a: seq<PolicyRule>, n: nat, b: seq<PolicyRule>, m: nat)
    requires 0 < n <= |a| && m <= |b| && SamePriorityGroups(a, n, b, m) && Descending(b)
    ensures m > 0 && b[m - 1].priority <= a[n - 1].priority
  {
    var p := a[n - 1].priority;
    assert SameGroup(a, n, b, m, p);
    if forall i :: 0 <= i < m ==> b[i].priority != p { NoneWithPriority(b, m, p); }
  }

  /** There is one stable descending order: whatever algorithm sorts, this is its result. */
  lemma {:induction false} StableOrderIsUnique(a: seq<PolicyRule>, n: nat, b: seq<PolicyRule>, m: nat)
    requires n <= |a| && m <= |b| && Descending(a) && Descending(b) && SamePriorityGroups(a, n, b, m)
    ensures n == m && a[..n] == b[..m]
  {
    hide Descending;
    if n != 0 { LastHasACounterpart(a, n, b, m); }
    if m != 0 {
      assert SamePriorityGroups(b, m, a, n) by { GroupsAgreeBothWays(a, n, b, m); }
      LastHasACounterpart(b, m, a, n);
    }
    if n != 0 {
      LastOfGroups(a, n, b, m);
      StableOrderIsUnique(a, n - 1, b, m - 1);
      assert a[..n] == a[..n - 1] + [a[n - 1]] && b[..m] == b[..m - 1] + [b[m - 1]];
    }
  }

  lemma {:induction false} GroupsAgreeBothWays(a: seq<PolicyRule>, n: nat, b: seq<PolicyRule>, m: nat)
    requires n <= |a| && m <= |b| && SamePriorityGroups(a, n, b, m)
    ensures SamePriorityGroups(b, m, a, n)
  {
    forall p ensures SameGroup(b, m, a, n, p) { assert SameGroup(a, n, b, m, p); }
  }

  lemma {:induction false} LastOfGroups(a: seq<PolicyRule>, n: nat, b: seq<PolicyRule>, m: nat)
    requires 0 < n <= |a| && 0 < m <= |b| && SamePriorityGroups(a, n, b, m)
    requires a[n - 1].priority == b[m - 1].priority
    ensures a[n - 1] == b[m - 1] && SamePriorityGroups(a, n - 1, b, m - 1)
  {
    var p := a[n - 1].priority;
    var wa, wb := WithPriority(a, n - 1, p), WithPriority(b, m - 1, p);
    assert SameGroup(a, n, b, m, p);
    assert wa + [a[n - 1]] == WithPriority(a, n, p) == WithPriority(b, m, p) == wb + [b[m - 1]];
    assert (wa + [a[n - 1]])[|wa|] == (wb + [b[m - 1]])[|wb|];
    assert (wa + [a[n - 1]])[..|wa|] == wa && (wb + [b[m - 1]])[..|wb|] == wb;
    var n', m' := n - 1, m - 1;
    forall q
      ensures SameGroup(a, n', b, m', q)
    {
      assert SameGroup(a, n, b, m, q);
      assert q != p ==> WithPriority(a, n, q) == WithPriority(a, n - 1, q);
      assert q != p ==> WithPriority(b, m, q) == WithPriority(b, m - 1, q);
    }
  }

  /** Sorting a list that is already in order changes nothing. */
  lemma {:induction false} SortedListStays(rules: seq<PolicyRule>)
    requires Descending(rules)
    ensures StableSort(rules, |rules|) == rules
  {
    hide Descending, StableSort, WithPriority;
    var r := StableSort(rules, |rules|);
    SortIsDescending(rules, |rules|);
    forall p ensures SameGroup(r, |r|, rules, |rules|, p) { SortIsStable(rules, |rules|, p); }
    StableOrderIsUnique(r, |r|, rules, |rules|);
    assert r[..|r|] == r && rules[..|rules|] == rules;
  }

  lemma {:induction false} SortOfPrefix(a: seq<PolicyRule>, b: seq<PolicyRule>, n: nat)
    requires n <= |a| && n <= |b| && forall i :: 0 <= i < n ==> a[i] == b[i]
    ensures StableSort(a, n) == StableSort(b, n)
  {
    if n != 0 { SortOfPrefix(a, b, n - 1); }
  }

  /** Sorting the sorted list with one more rule is sorting the registrations with one more. */
  lemma {:induction false} ResortingIsSorting(registered: seq<PolicyRule>, rule: PolicyRule)
    ensures var sorted, all := StableSort(registered, |registered|) + [rule], registered + [rule];
            StableSort(sorted, |sorted|) == StableSort(all, |all|)
  {
    hide Insert;
    var s := StableSort(registered, |registered|);
    SortIsDescending(registered, |registered|);
    SortedListStays(s);
    SortOfPrefix(s + [rule], s, |s|);
    SortOfPrefix(registered + [rule], registered, |registered|);
  }

  // ---------------------------------------------------------------- first match

  /** The first matching rule from `from` on, or the number of rules. */
  function FirstMatch(rules: seq<PolicyRule>, from: nat, input: PolicyEvaluationInput): (i: nat)
    requires from <= |rules|
    ensures from <= i <= |rules|
    ensures i < |rules| ==> rules[i].Matches(input)
    ensures forall j :: from <= j < i ==> !rules[j].Matches(input)
    decreases |rules| - from
  {
    if from == |rules| || rules[from].Matches(input) then from else FirstMatch(rules, from + 1, input)
  }

  function FirstMatching(rules: seq<PolicyRule>, input: PolicyEvaluationInput): Option<PolicyRule> {
    var i := FirstMatch(rules, 0, input);
    if i < |rules| then Some(rules[i]) else None
  }

  function DecisionOf(rule: Option<PolicyRule>, input: PolicyEvaluationInput): PolicyDecision {
    if rule.Some? && rule.value.Matches(input) then rule.value.evaluate(input).value else FALLBACK
  }

  /** What an engine with these registrations decides. */
  function Decide(registered: seq<PolicyRule>, input: PolicyEvaluationInput): PolicyDecision {
    DecisionOf(FirstMatching(StableSort(registered, |registered|), input), input)
  }

  /** Registration `w` wins: it matches, none of higher priority does, and none of its priority registered earlier. */
  ghost predicate Wins(registered: seq<PolicyRule>, n: nat, w: nat, input: PolicyEvaluationInput)
    requires n <= |registered|
  {
    && w < n && registered[w].Matches(input)
    && (forall i :: 0 <= i < n && registered[i].Matches(input) ==> registered[i].priority <= registered[w].priority)
    && (forall i :: 0 <= i < w && registered[i].Matches(input) ==> registered[i].priority < registered[w].priority)
  }

  /** An inserted rule takes over exactly when it matches and stands above the rule that matched first. */
  lemma {:induction false} FirstMatchingOfInsert(rules: seq<PolicyRule>, rule: PolicyRule, input: PolicyEvaluationInput)
    requires Descending(rules)
    ensures var was := FirstMatching(rules, input);
            FirstMatching(Insert(rules, rule), input) ==
              if rule.Matches(input) && (was.None? || was.value.priority < rule.priority) then Some(rule) else was
  {
    hide PolicyRule.Matches;
    var i, k, r := FirstMatch(rules, 0, input), PlaceFor(rules, 0, rule.priority), Insert(rules, rule);
    var i' := FirstMatch(r, 0, input);
    assert r[k] == rule;
    assert forall j :: 0 <= j < k ==> r[j] == rules[j];
    assert forall j :: k < j < |r| ==> r[j] == rules[j - 1];
    if i < k {
      assert r[i].Matches(input);
      assert i' == i;
    } else if rule.Matches(input) {
      assert r[k].Matches(input);
      assert i' == k;
    } else if i < |rules| {
      assert r[i + 1].Matches(input);
      assert forall j :: k < j < i + 1 ==> !r[j].Matches(input);
      assert i' == i + 1;
    } else {
      assert forall j :: 0 <= j < |r| ==> !r[j].Matches(input);
    }
  }

  /** Evaluation picks the earliest registered of the matching rules of highest priority. */
  lemma {:induction false} EvaluationPicksTheWinner(registered: seq<PolicyRule>, n: nat, input: PolicyEvaluationInput)
    requires n <= |registered|
    ensures var first := FirstMatching(StableSort(registered, n), input);
            if first.None? then forall i :: 0 <= i < n ==> !registered[i].Matches(input)
            else exists w :: 0 <= w < n && Wins(registered, n, w, input) && registered[w] == first.value
  {
    hide Insert, FirstMatch, PolicyRule.Matches;
    if n == 0 {
      NothingMatches(input);
    } else {
      EvaluationPicksTheWinner(registered, n - 1, input);
      SortIsDescending(registered, n - 1);
      var sorted, rule := StableSort(registered, n - 1), registered[n - 1];
      FirstMatchingOfInsert(sorted, rule, input);
      var was := FirstMatching(sorted, input);
      if rule.Matches(input) && (was.None? || was.value.priority < rule.priority) {
        assert Wins(registered, n, n - 1, input);
      } else if was.Some? {
        var w :| 0 <= w < n - 1 && Wins(registered, n - 1, w, input) && registered[w] == was.value;
        assert Wins(registered, n, w, input);
      }
    }
  }

  lemma NothingMatches(input: PolicyEvaluationInput)
    ensures FirstMatching([], input) == None
  {
  }

  lemma {:induction false} WinnerIsUnique(registered: seq<PolicyRule>, w: nat, w': nat, input: PolicyEvaluationInput)
    requires Wins(registered, |registered|, w, input) && Wins(registered, |registered|, w', input)
    ensures w == w'
  {
  }

  /** The decision is the winner's. */
  lemma {:induction false} DecisionIsTheWinners(registered: seq<PolicyRule>, w: nat, input: PolicyEvaluationInput)
    requires Wins(registered, |registered|, w, input)
    ensures Decide(registered, input) == registered[w].evaluate(input).value
  {
    hide FirstMatching, StableSort;
    EvaluationPicksTheWinner(registered, |registered|, input);
    var first := FirstMatching(StableSort(registered, |registered|), input);
    var v :| 0 <= v < |registered| && Wins(registered, |registered|, v, input) && registered[v] == first.value;
    WinnerIsUnique(registered, w, v, input);
  }

  /** Without a winner nothing matches, and the answer is the zero-trust denial. */
  lemma {:induction false} NoWinnerFallsBack(registered: seq<PolicyRule>, input: PolicyEvaluationInput)
    ensures (exists w: nat :: Wins(registered, |registered|, w, input))
            <==> exists i :: 0 <= i < |registered| && registered[i].Matches(input)
    ensures (forall i :: 0 <= i < |registered| ==> !registered[i].Matches(input)) ==>
            Decide(registered, input) == FALLBACK
  {
    hide FirstMatching, StableSort, PolicyRule.Matches;
    EvaluationPicksTheWinner(registered, |registered|, input);
  }

  /** One more registration decides exactly when its rule matches and outranks the winner; otherwise nothing changes. */
  lemma {:induction false} RegisteringChangesOnlyFromAbove(registered: seq<PolicyRule>, rule: PolicyRule,
      input: PolicyEvaluationInput)
    ensures var was := FirstMatching(StableSort(registered, |registered|), input);
            Decide(registered + [rule], input) ==
              if rule.Matches(input) && (was.None? || was.value.priority < rule.priority)
              then rule.evaluate(input).value else Decide(registered, input)
  {
    hide FirstMatch, Insert;
    var all := registered + [rule];
    SortOfPrefix(all, registered, |registered|);
    SortIsDescending(registered, |registered|);
    FirstMatchingOfInsert(StableSort(registered, |registered|), rule, input);
    assert StableSort(all, |all|) == Insert(StableSort(registered, |registered|), rule);
  }

  // ---------------------------------------------------------------- the engine

  method SortByPriority(rules: seq<PolicyRule>) returns (sorted: seq<PolicyRule>)
    ensures sorted == StableSort(rules, |rules|)
  {
    sorted := [];
    for i := 0 to |rules|
      invariant sorted == StableSort(rules, i)
    {
      sorted := Insert(sorted, rules[i]);
    }
  }

  class PolicyEngine {
    var rules: seq<PolicyRule>
    ghost var registered: seq<PolicyRule>

    /** The list is the stable sort of the registrations. */
    ghost predicate Valid()
      reads this
    {
      rules == StableSort(registered, |registered|)
    }

    constructor ()
      ensures Valid() && registered == DefaultRules()
    {
      rules, registered := [], [];
      new;
      RegisterDefaultRules();
    }

    method RegisterRule(rule: PolicyRule)
      requires Valid()
      modifies this
      ensures Valid() && registered == old(registered) + [rule]
    {
      ResortingIsSorting(registered, rule);
      rules := rules + [rule];
      rules := SortByPriority(rules);
      registered := registered + [rule];
    }

    method RegisterDefaultRules()
      requires Valid()
      modifies this
      ensures Valid() && registered == old(registered) + DefaultRules()
    {
      hide Valid;
      var defaults := DefaultRules();
      for i := 0 to |defaults|
        invariant Valid() && registered == old(registered) + defaults[..i]
      {
        RegisterRule(defaults[i]);
      }
    }

    method ResetRules()
      modifies this
      ensures Valid() && registered == DefaultRules()
    {
      rules, registered := [], [];
      RegisterDefaultRules();
    }

    /** The chain shows the rules up to the first match, and only that one as matched. */
    method EvaluateWithPrecedence(input: PolicyEvaluationInput) returns (decision: PolicyDecision,
        chain: seq<ChainEntry>)
      requires Valid()
      ensures decision == Decide(registered, input)
      ensures var i := FirstMatch(rules, 0, input);
              && |chain| == Min(i + 1, |rules|)
              && (forall j :: 0 <= j < |chain| ==>
                    && chain[j].ruleId == rules[j].id && chain[j].name == rules[j].name
                    && chain[j].priority == rules[j].priority
                    && chain[j].outcome == if j == i then Some(decision.decision) else None)
    {
      chain := [];
      for i := 0 to |rules|
        invariant |chain| == i && FirstMatch(rules, 0, input) == FirstMatch(rules, i, input)
        invariant forall j :: 0 <= j < i ==>
                    chain[j] == ChainEntry(rules[j].id, rules[j].name, rules[j].priority, None)
      {
        var rule := rules[i];
        var outcome := rule.evaluate(input);
        if outcome.Some? {
          chain := chain + [ChainEntry(rule.id, rule.name, rule.priority, Some(outcome.value.decision))];
          return outcome.value, chain;
        }
        chain := chain + [ChainEntry(rule.id, rule.name, rule.priority, None)];
      }
      return FALLBACK, chain;
    }

    method Evaluate(input: PolicyEvaluationInput) returns (decision: PolicyDecision)
      requires Valid()
      ensures decision == Decide(registered, input)
    {
      var chain;
      decision, chain := EvaluateWithPrecedence(input);
    }
  }

  // ---------------------------------------------------------------- the default rules

  const SENSITIVE_ACTIONS: seq<string> := [
    "delete_production_database", "execute_fund_transfer", "revoke_security_certificates",
    "modify_iam_policy", "deploy_destructive_infrastructure"]

  function ExtremeRiskBlock(input: PolicyEvaluationInput): Option<PolicyDecision> {
    if input.riskScore >= 90.0 then
      Some(PolicyDecision(DENY, ExtremeRisk(input.riskScore), Some("RULE_EXTREME_RISK_BLOCK"), [], None))
    else None
  }

  function ProductionHighRisk(input: PolicyEvaluationInput): Option<PolicyDecision> {
    if input.environment == "production" && input.riskScore >= 75.0 then
      Some(PolicyDecision(ESCALATE, HighRiskInProduction(input.riskScore), Some("RULE_PROD_HIGH_RISK_ESCALATE"), [],
                          Some("EXECUTIVE_SECURITY_DESK")))
    else None
  }

  function SensitiveApproval(input: PolicyEvaluationInput): Option<PolicyDecision> {
    if input.action in SENSITIVE_ACTIONS then
      Some(PolicyDecision(REQUIRE_APPROVAL, SensitiveAction(input.action), Some("RULE_SENSITIVE_ACTION_APPROVAL"),
                          ["SECURITY_ADMIN", "EXECUTIVE_APPROVER"], None))
    else None
  }

  /** The permission an action needs, by its lower-case name. */
  function RequiredPermission(action: string): Permission {
    var lower := ToLowerCase(action);
    if StartsWith(lower, "admin") || Includes(lower, "grant") || Includes(lower, "revoke") then ADMINISTER
    else if StartsWith(lower, "write") || StartsWith(lower, "create") || StartsWith(lower, "update") then WRITE
    else if StartsWith(lower, "delete") || StartsWith(lower, "exec") || StartsWith(lower, "run")
        || StartsWith(lower, "deploy")
    then EXECUTE
    else if StartsWith(lower, "certify") || StartsWith(lower, "approve") then CERTIFY
    else READ
  }

  function RbacVerification(input: PolicyEvaluationInput): Option<PolicyDecision> {
    var check := HasPermission(input.actor, RequiredPermission(input.action), input.action);
    if !check.granted then Some(PolicyDecision(DENY, NotGranted(check.reason), Some("RULE_RBAC_VERIFICATION"), [],
        None))
    else None
  }

  function AuthorizedAllow(input: PolicyEvaluationInput): Option<PolicyDecision> {
    Some(PolicyDecision(ALLOW, Authorized(input.action, input.resource), Some("RULE_AUTHORIZED_ALLOW"), [], None))
  }

  function DefaultRules(): (rules: seq<PolicyRule>)
    ensures |rules| == 5
  {
    [PolicyRule("RULE_EXTREME_RISK_BLOCK", "Extreme Risk Blocker", 100.0, ExtremeRiskBlock),
     PolicyRule("RULE_PROD_HIGH_RISK_ESCALATE", "Production High Risk Escalation", 80.0, ProductionHighRisk),
     PolicyRule("RULE_SENSITIVE_ACTION_APPROVAL", "Sensitive Action Approval Requirement", 70.0, SensitiveApproval),
     PolicyRule("RULE_RBAC_VERIFICATION", "Role-Based Access Control Verification", 50.0, RbacVerification),
     PolicyRule("RULE_AUTHORIZED_ALLOW", "Authorized Standard Allow", 10.0, AuthorizedAllow)]
  }
}
