/** What the five default rules decide together, through the sort and the first match. */
module DefaultPolicy {
  import opened Wrappers
  import opened JsStrings
  import opened Rbac
  import opened PolicyEngine

  /** Production with a risk of 75 or more. */
  predicate HighRisk(input: PolicyEvaluationInput) {
    input.environment == "production" && input.riskScore >= 75.0
  }

  predicate Sensitive(input: PolicyEvaluationInput) {
    input.action in {"delete_production_database", "execute_fund_transfer", "revoke_security_certificates",
                     "modify_iam_policy", "deploy_destructive_infrastructure"}
  }

  // ---------------------------------------------------------------- the permission an action needs

  predicate NamesAdministration(lower: string) {
    StartsWith(lower, "admin") || Includes(lower, "grant") || Includes(lower, "revoke")
  }

  predicate NamesWriting(lower: string) {
    StartsWith(lower, "write") || StartsWith(lower, "create") || StartsWith(lower, "update")
  }

  predicate NamesExecution(lower: string) {
    StartsWith(lower, "delete") || StartsWith(lower, "exec") || StartsWith(lower, "run") || StartsWith(lower, "deploy")
  }

  predicate NamesCertification(lower: string) {
    StartsWith(lower, "certify") || StartsWith(lower, "approve")
  }

  /** The action needs this permission: by its lower-case text, administration before everything else. */
  predicate Needs(action: string, p: Permission) {
    var lower := ToLowerCase(action);
    match p
    case ADMINISTER => NamesAdministration(lower)
    case WRITE => !NamesAdministration(lower) && NamesWriting(lower)
    case EXECUTE => !NamesAdministration(lower) && NamesExecution(lower)
    case CERTIFY => !NamesAdministration(lower) && NamesCertification(lower)
    case READ =>
      !NamesAdministration(lower) && !NamesWriting(lower) && !NamesExecution(lower) && !NamesCertification(lower)
  }

  /** The words that name writing, execution and certification start with different texts. */
  lemma {:induction false} NamesAreApart(lower: string)
    ensures NamesWriting(lower) ==> !NamesExecution(lower) && !NamesCertification(lower)
    ensures NamesExecution(lower) ==> !NamesCertification(lower)
  {
    assert NamesWriting(lower) ==> lower[0] in {'w', 'c', 'u'} && (lower[0] == 'c' ==> lower[1] == 'r');
    assert NamesExecution(lower) ==> lower[0] in {'d', 'e', 'r'};
    assert NamesCertification(lower) ==> lower[0] in {'c', 'a'} && lower[1] in {'e', 'p'};
  }

  /** Every action needs exactly one permission, and the rule asks for that one. */
  lemma {:induction false} RequiredPermissionIsExact(action: string, p: Permission)
    ensures RequiredPermission(action) == p <==> Needs(action, p)
  {
    hide StartsWith, Includes, NamesWriting, NamesExecution, NamesCertification;
    var lower := ToLowerCase(action);
    NamesAreApart(lower);
    NamesUnfold(lower);
  }

  lemma NamesUnfold(lower: string)
    ensures NamesWriting(lower) <==>
            StartsWith(lower, "write") || StartsWith(lower, "create") || StartsWith(lower, "update")
    ensures NamesExecution(lower) <==>
            StartsWith(lower, "delete") || StartsWith(lower, "exec") || StartsWith(lower, "run")
            || StartsWith(lower, "deploy")
    ensures NamesCertification(lower) <==> StartsWith(lower, "certify") || StartsWith(lower, "approve")
  {
    hide StartsWith;
  }

  /** The texts differ at most in the case of their letters. */
  ghost predicate SameButForCase(a: string, b: string) {
    |a| == |b| && forall i :: 0 <= i < |a| ==>
      a[i] == b[i]
      || ('A' <= a[i] <= 'Z' && b[i] as int == a[i] as int + 32)
      || ('A' <= b[i] <= 'Z' && a[i] as int == b[i] as int + 32)
  }

  /** Case does not matter for the permission an action needs. */
  lemma {:induction false} CaseIsIrrelevant(a: string, b: string)
    requires SameButForCase(a, b)
    ensures RequiredPermission(a) == RequiredPermission(b)
  {
    assert ToLowerCase(a) == ToLowerCase(b);
  }

  /** No role restricts the action, and some role or explicit permission has what it needs. */
  ghost predicate Granted(input: PolicyEvaluationInput) {
    && (forall role :: role in input.actor.roles ==> !Restricts(role, input.action))
    && exists p :: Needs(input.action, p)
         && (p in input.actor.explicitPermissions || exists role :: role in input.actor.roles && Allows(role, p))
  }

  lemma {:induction false} GrantedIsTheCheck(input: PolicyEvaluationInput)
    ensures Granted(input) <==> HasPermission(input.actor, RequiredPermission(input.action), input.action).granted
  {
    hide HasPermission, RequiredPermission, Needs, Restricts, Allows;
    var required := RequiredPermission(input.action);
    GrantIsExact(input.actor, required, input.action);
    RequiredPermissionIsExact(input.action, required);
    forall p | Needs(input.action, p)
      ensures p == required
    {
      RequiredPermissionIsExact(input.action, p);
    }
    forall role
      ensures input.action == "" ==> !Restricts(role, input.action)
    {
      NothingRestrictsTheEmptyAction(role);
    }
  }

  lemma NothingRestrictsTheEmptyAction(role: Role)
    ensures !Restricts(role, "")
  {
  }

  function DecisionTypeOf(input: PolicyEvaluationInput): DecisionType {
    Decide(DefaultRules(), input).decision
  }

  /** The default rule that wins on an input. */
  ghost function DefaultWinner(input: PolicyEvaluationInput): (w: nat)
    ensures w < 5
  {
    if input.riskScore >= 90.0 then 0
    else if HighRisk(input) then 1
    else if Sensitive(input) then 2
    else if !Granted(input) then 3
    else 4
  }

  lemma SensitiveIsListed(input: PolicyEvaluationInput)
    ensures Sensitive(input) <==> input.action in SENSITIVE_ACTIONS
  {
  }

  lemma {:induction false} DefaultWinnerWins(input: PolicyEvaluationInput)
    ensures Wins(DefaultRules(), 5, DefaultWinner(input), input)
  {
    hide HasPermission, RequiredPermission, Granted;
    GrantedIsTheCheck(input);
    SensitiveIsListed(input);
    hide Sensitive;
    var rules := DefaultRules();
    assert rules[0].Matches(input) <==> input.riskScore >= 90.0;
    assert rules[1].Matches(input) <==> HighRisk(input);
    assert rules[2].Matches(input) <==> Sensitive(input);
    assert rules[3].Matches(input) <==> !Granted(input);
    assert rules[4].Matches(input);
  }

  lemma WinnerMatches(registered: seq<PolicyRule>, w: nat, input: PolicyEvaluationInput)
    requires Wins(registered, |registered|, w, input)
    ensures w < |registered| && registered[w].evaluate(input).Some?
  {
  }

  /** What the winning default rule decides. */
  lemma {:induction false} DefaultDecision(input: PolicyEvaluationInput)
    ensures var w, d := DefaultWinner(input), Decide(DefaultRules(), input);
            && d.decision == (if w == 1 then ESCALATE else if w == 2 then REQUIRE_APPROVAL
                              else if w == 4 then ALLOW else DENY)
            && d.ruleId == Some(DefaultRules()[w].id)
            && d.requiredApprovers == (if w == 2 then ["SECURITY_ADMIN", "EXECUTIVE_APPROVER"] else [])
            && d.escalationTarget == (if w == 1 then Some("EXECUTIVE_SECURITY_DESK") else None)
            && (w == 0 ==> d.reason == ExtremeRisk(input.riskScore))
            && (w == 1 ==> d.reason == HighRiskInProduction(input.riskScore))
            && (w == 2 ==> d.reason == SensitiveAction(input.action))
            && (w == 3 ==> d.reason.NotGranted?)
            && (w == 4 ==> d.reason == Authorized(input.action, input.resource))
  {
    hide HasPermission, RequiredPermission, Wins, Decide, DefaultWinner;
    var w := DefaultWinner(input);
    DefaultWinnerWins(input);
    WinnerMatches(DefaultRules(), w, input);
    DecisionIsTheWinners(DefaultRules(), w, input);
  }

  /** The exact condition of every type of decision. */
  lemma {:induction false} DecisionsAreExact(input: PolicyEvaluationInput)
    ensures DecisionTypeOf(input) == ALLOW <==>
            input.riskScore < 90.0 && !HighRisk(input) && !Sensitive(input) && Granted(input)
    ensures DecisionTypeOf(input) == REQUIRE_APPROVAL <==>
            input.riskScore < 90.0 && !HighRisk(input) && Sensitive(input)
    ensures DecisionTypeOf(input) == ESCALATE <==> input.riskScore < 90.0 && HighRisk(input)
    ensures DecisionTypeOf(input) == DENY <==>
            input.riskScore >= 90.0 || (!HighRisk(input) && !Sensitive(input) && !Granted(input))
  {
    hide Decide, Granted, Sensitive, DefaultRules;
    DefaultDecision(input);
  }

  /** A decision names the rule it comes from; only an approval names approvers and only an escalation a target. */
  lemma {:induction false} DecisionsNameTheirRule(input: PolicyEvaluationInput)
    ensures var d := Decide(DefaultRules(), input);
            && d.ruleId == Some(DefaultRules()[DefaultWinner(input)].id)
            && (d.decision == ALLOW ==> d.ruleId == Some("RULE_AUTHORIZED_ALLOW"))
            && (d.decision == ESCALATE ==> d.ruleId == Some("RULE_PROD_HIGH_RISK_ESCALATE"))
            && (d.decision == REQUIRE_APPROVAL ==> d.ruleId == Some("RULE_SENSITIVE_ACTION_APPROVAL"))
            && (d.decision == DENY ==>
                  d.ruleId == Some(if input.riskScore >= 90.0 then "RULE_EXTREME_RISK_BLOCK"
                                   else "RULE_RBAC_VERIFICATION"))
            && d.requiredApprovers
               == (if d.decision == REQUIRE_APPROVAL then ["SECURITY_ADMIN", "EXECUTIVE_APPROVER"] else [])
            && d.escalationTarget == (if d.decision == ESCALATE then Some("EXECUTIVE_SECURITY_DESK") else None)
  {
    hide Decide, Granted, Sensitive;
    DefaultDecision(input);
  }

  /** Whatever else is registered, some rule decides: the zero-trust fallback is not reached. */
  lemma {:induction false} FallbackIsNeverReached(custom: seq<PolicyRule>, input: PolicyEvaluationInput)
    ensures exists w: nat :: Wins(DefaultRules() + custom, 5 + |custom|, w, input)
                             && Decide(DefaultRules() + custom, input)
                                 == (DefaultRules() + custom)[w].evaluate(input).value
  {
    hide HasPermission, RequiredPermission, Decide;
    var all := DefaultRules() + custom;
    NoWinnerFallsBack(all, input);
    assert all[4].Matches(input);
    var w: nat :| Wins(all, |all|, w, input);
    DecisionIsTheWinners(all, w, input);
  }

  /** Less risk never takes an allowance away. */
  lemma {:induction false} AllowIsDownwardClosed(input: PolicyEvaluationInput, lower: real)
    requires DecisionTypeOf(input) == ALLOW && lower <= input.riskScore
    ensures DecisionTypeOf(input.(riskScore := lower)) == ALLOW
  {
    hide HasPermission, RequiredPermission, Decide, Granted;
    GrantedIsTheCheck(input);
    GrantedIsTheCheck(input.(riskScore := lower));
    DecisionsAreExact(input);
    DecisionsAreExact(input.(riskScore := lower));
  }

  /** A denial is not upward closed: more risk turns it into an escalation in exactly one case. */
  lemma {:induction false} MoreRiskLiftsADenialExactly(input: PolicyEvaluationInput, higher: real)
    requires DecisionTypeOf(input) == DENY && input.riskScore <= higher
    ensures DecisionTypeOf(input.(riskScore := higher))
            == (if higher < 90.0 && HighRisk(input.(riskScore := higher)) then ESCALATE else DENY)
  {
    hide HasPermission, RequiredPermission, Decide, Granted;
    GrantedIsTheCheck(input);
    GrantedIsTheCheck(input.(riskScore := higher));
    DecisionsAreExact(input);
    DecisionsAreExact(input.(riskScore := higher));
  }

  /** The decision does not depend on the order or repetition of roles and permissions. */
  lemma {:induction false} RoleOrderIsIrrelevant(input: PolicyEvaluationInput, actor: IdentitySubject)
    requires SameStanding(input.actor, actor)
    ensures DecisionTypeOf(input.(actor := actor)) == DecisionTypeOf(input)
  {
    hide HasPermission, RequiredPermission, Decide, SameStanding, Granted;
    GrantedIsTheCheck(input);
    GrantedIsTheCheck(input.(actor := actor));
    OrderOfRolesIsIrrelevant(input.actor, actor, RequiredPermission(input.action), input.action);
    DecisionsAreExact(input);
    DecisionsAreExact(input.(actor := actor));
  }

  /** A restriction in any one role overrides every grant, of other roles and of explicit permissions. */
  lemma {:induction false} OneRestrictionOverrides(input: PolicyEvaluationInput, role: Role)
    requires role in input.actor.roles && Restricts(role, input.action)
    ensures DecisionTypeOf(input) != ALLOW
  {
    hide HasPermission, RequiredPermission, Decide;
    DecisionsAreExact(input);
  }

  // ---------------------------------------------------------------- plain actions of an agent

  /** An agent without explicit permissions, at a risk that escalates nothing. */
  predicate PlainAgent(input: PolicyEvaluationInput) {
    input.actor.roles == [AGENT] && input.actor.explicitPermissions == [] && input.riskScore < 75.0
  }

  /** An agent may not create, write or update: these need a permission its role does not have. */
  lemma {:induction false} AgentsDoNotWrite(input: PolicyEvaluationInput)
    requires PlainAgent(input) && NamesWriting(ToLowerCase(input.action)) && !Sensitive(input)
    ensures DecisionTypeOf(input) == DENY
  {
    hide HasPermission, RequiredPermission, Decide, Restricts, Allows, Sensitive;
    hide NamesWriting, NamesExecution, NamesCertification, NamesAdministration;
    DecisionsAreExact(input);
    NamesAreApart(ToLowerCase(input.action));
    AgentAllows(READ);
    AgentAllows(WRITE);
    AgentAllows(ADMINISTER);
    AgentAllows(CERTIFY);
  }

  /** An agent may execute what its role does not restrict and nobody has to approve. */
  lemma {:induction false} AgentsExecute(input: PolicyEvaluationInput)
    requires PlainAgent(input) && !Sensitive(input) && !Restricts(AGENT, input.action)
    requires NamesExecution(ToLowerCase(input.action)) && !NamesAdministration(ToLowerCase(input.action))
    ensures DecisionTypeOf(input) == ALLOW
  {
    hide HasPermission, RequiredPermission, Decide, Restricts, Allows, Sensitive;
    hide NamesWriting, NamesExecution, NamesCertification, NamesAdministration;
    DecisionsAreExact(input);
    AgentAllows(EXECUTE);
    assert Needs(input.action, EXECUTE);
  }

  lemma AgentAllows(p: Permission)
    ensures Allows(AGENT, p) <==> p in {READ, EXECUTE}
  {
  }
}
