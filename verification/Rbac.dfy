/**
 Role-based access control (src/identity/rbac.ts): the role table, and the grant that a restriction in any
 one role overrides.
 */
module Rbac {
  import opened Wrappers

  datatype Permission = READ | WRITE | EXECUTE | CERTIFY | ADMINISTER

  /** `OTHER` is a role name that the table does not define. */
  datatype Role = ADMIN | EXECUTIVE | SYSTEM | AGENT | SERVICE | OTHER(name: string)

  datatype RoleDefinition = RoleDefinition(allowedPermissions: seq<Permission>, restrictedActions: seq<string>)

  /** An absent list of explicit permissions is the empty one. */
  datatype IdentitySubject = IdentitySubject(id: string, roles: seq<Role>, explicitPermissions: seq<Permission>)

  datatype GrantReason =
    | Prohibited(action: string, role: Role)
    | ExplicitGrant
    | RoleGrant(role: Role)
    | LacksPermission

  datatype Grant = Grant(granted: bool, reason: GrantReason)

  function DefinitionOf(role: Role): RoleDefinition {
    match role
    case ADMIN => RoleDefinition([READ, WRITE, EXECUTE, ADMINISTER],
        ["certify_financial_reports", "override_executive_veto"])
    case EXECUTIVE => RoleDefinition([READ, CERTIFY],
        ["direct_infrastructure_modification", "modify_system_credentials"])
    case SYSTEM => RoleDefinition([READ, WRITE, EXECUTE], ["administer_user_roles", "certify_financial_reports"])
    case AGENT => RoleDefinition([READ, EXECUTE],
      ["transfer_funds", "delete_production_data", "modify_security_policies",
       "deploy_destructive_infrastructure", "export_raw_credentials"])
    case SERVICE => RoleDefinition([READ, EXECUTE], ["administer_user_roles", "certify_financial_reports"])
    case OTHER(_) => RoleDefinition([], [])
  }

  predicate Restricts(role: Role, action: string) {
    action in DefinitionOf(role).restrictedActions
  }

  predicate Allows(role: Role, permission: Permission) {
    permission in DefinitionOf(role).allowedPermissions
  }

  /** The first role from `from` on that restricts the action, or the number of roles. */
  function FirstRestricting(roles: seq<Role>, from: nat, action: string): (i: nat)
    requires from <= |roles|
    ensures from <= i <= |roles|
    ensures i < |roles| ==> Restricts(roles[i], action)
    ensures forall j :: from <= j < i ==> !Restricts(roles[j], action)
    decreases |roles| - from
  {
    hide Restricts;
    if from == |roles| || Restricts(roles[from], action) then from else FirstRestricting(roles, from + 1, action)
  }

  /** The first role from `from` on that allows the permission, or the number of roles. */
  function FirstAllowing(roles: seq<Role>, from: nat, permission: Permission): (i: nat)
    requires from <= |roles|
    ensures from <= i <= |roles|
    ensures i < |roles| ==> Allows(roles[i], permission)
    ensures forall j :: from <= j < i ==> !Allows(roles[j], permission)
    decreases |roles| - from
  {
    hide Allows;
    if from == |roles| || Allows(roles[from], permission) then from else FirstAllowing(roles, from + 1, permission)
  }

  /** Restrictions first, then explicit permissions, then roles. An empty action has no restrictions. */
  function HasPermission(subject: IdentitySubject, required: Permission, action: string): Grant {
    var restricting := FirstRestricting(subject.roles, 0, action);
    var allowing := FirstAllowing(subject.roles, 0, required);
    if action != "" && restricting < |subject.roles| then Grant(false, Prohibited(action, subject.roles[restricting]))
    else if required in subject.explicitPermissions then Grant(true, ExplicitGrant)
    else if allowing < |subject.roles| then Grant(true, RoleGrant(subject.roles[allowing]))
    else Grant(false, LacksPermission)
  }

  /** What is granted depends on which roles and permissions there are, and on nothing else. */
  lemma {:induction false} GrantIsExact(subject: IdentitySubject, required: Permission, action: string)
    ensures HasPermission(subject, required, action).granted <==>
            && (forall role :: role in subject.roles ==> action == "" || !Restricts(role, action))
            && (required in subject.explicitPermissions
                || exists role :: role in subject.roles && Allows(role, required))
  {
    hide Restricts, Allows;
    var allowing := FirstAllowing(subject.roles, 0, required);
    if role :| role in subject.roles && Allows(role, required) {
      var i :| 0 <= i < |subject.roles| && subject.roles[i] == role;
      assert allowing <= i;
    }
    if role :| role in subject.roles && Restricts(role, action) {
      var i :| 0 <= i < |subject.roles| && subject.roles[i] == role;
      assert FirstRestricting(subject.roles, 0, action) <= i;
    }
  }

  /** Subjects with the same roles and permissions, in any order and however often, are granted the same. */
  ghost predicate SameStanding(s: IdentitySubject, s': IdentitySubject) {
    && (forall role :: role in s.roles <==> role in s'.roles)
    && (forall p :: p in s.explicitPermissions <==> p in s'.explicitPermissions)
  }

  lemma {:induction false} OrderOfRolesIsIrrelevant(s: IdentitySubject, s': IdentitySubject,
      required: Permission, action: string)
    requires SameStanding(s, s')
    ensures HasPermission(s, required, action).granted == HasPermission(s', required, action).granted
  {
    hide HasPermission, Restricts, Allows;
    GrantIsExact(s, required, action);
    GrantIsExact(s', required, action);
  }

  /** The table of roles, as the sets of what they allow and restrict. */
  lemma {:induction false} RoleTable(permission: Permission, action: string)
    ensures Allows(ADMIN, permission) <==> permission != CERTIFY
    ensures Allows(EXECUTIVE, permission) <==> permission in {READ, CERTIFY}
    ensures Allows(SYSTEM, permission) <==> permission in {READ, WRITE, EXECUTE}
    ensures Allows(AGENT, permission) <==> permission in {READ, EXECUTE}
    ensures Allows(SERVICE, permission) <==> permission in {READ, EXECUTE}
    ensures forall name :: !Allows(OTHER(name), permission) && !Restricts(OTHER(name), action)
    ensures Restricts(ADMIN, action) <==> action in {"certify_financial_reports", "override_executive_veto"}
    ensures Restricts(EXECUTIVE, action) <==>
            action in {"direct_infrastructure_modification", "modify_system_credentials"}
    ensures Restricts(SYSTEM, action) <==> action in {"administer_user_roles", "certify_financial_reports"}
    ensures Restricts(SERVICE, action) <==> action in {"administer_user_roles", "certify_financial_reports"}
    ensures Restricts(AGENT, action) <==>
            action in {"transfer_funds", "delete_production_data", "modify_security_policies",
                       "deploy_destructive_infrastructure", "export_raw_credentials"}
  {
  }

  /** The reason of a grant or refusal is true of the subject. */
  lemma {:induction false} ReasonsAreTrue(subject: IdentitySubject, required: Permission, action: string)
    ensures match HasPermission(subject, required, action).reason
            case Prohibited(a, role) => a == action && role in subject.roles && Restricts(role, action)
            case ExplicitGrant => required in subject.explicitPermissions
            case RoleGrant(role) =>
              role in subject.roles && Allows(role, required) && required !in subject.explicitPermissions
            case LacksPermission =>
              required !in subject.explicitPermissions
              && forall role :: role in subject.roles ==> !Allows(role, required)
  {
    hide Restricts, Allows;
    var allowing := FirstAllowing(subject.roles, 0, required);
    if role :| role in subject.roles && Allows(role, required) {
      var i :| 0 <= i < |subject.roles| && subject.roles[i] == role;
      assert allowing <= i;
    }
  }
}
