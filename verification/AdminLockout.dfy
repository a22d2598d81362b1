/**
 * The guard that never lets a tenant lose its last administrator: withAdminGuard of
 * src/services/admin-lockout.service.ts and the role and user routes that call it.
 */
module AdminLockout {
  import opened Basics

  datatype UserStatus = New | PendingActivation | Invited | ActiveUser | Suspended | Terminated

  datatype Role = Role(tenant: int, isSystem: bool, deleted: bool)
  datatype User = User(tenant: int, status: UserStatus, deleted: bool)
  datatype Grant = Grant(role: int, permission: int)
  datatype Assignment = Assignment(user: int, role: int)

  /** managePermission: the id of the permission with slug role:manage, if it has been seeded. */
  datatype Directory = Directory(
    managePermission: Option<int>,
    roles: map<int, Role>,
    users: map<int, User>,
    grants: set<Grant>,
    assignments: set<Assignment>)

  /** What the mutation is about to take away. */
  datatype Skip = SkipRole(role: int) | SkipAssignment(user: int, role: int) | SkipUser(user: int)

  predicate LiveRole(d: Directory, role: int, tenant: int) {
    role in d.roles && d.roles[role].tenant == tenant && !d.roles[role].deleted
  }

  predicate IsActive(d: Directory, user: int, tenant: int) {
    user in d.users && d.users[user].tenant == tenant && !d.users[user].deleted && d.users[user].status == ActiveUser
  }

  predicate Manages(d: Directory, role: int) {
    d.managePermission.Some? && Grant(role, d.managePermission.value) in d.grants
  }

  /** The assignment makes its user an administrator of the tenant. */
  predicate IsAdmin(d: Directory, a: Assignment, tenant: int) {
    a in d.assignments && LiveRole(d, a.role, tenant) && Manages(d, a.role) && IsActive(d, a.user, tenant)
  }

  ghost predicate HasAdmin(d: Directory, tenant: int) {
    exists a :: IsAdmin(d, a, tenant)
  }

  predicate Skips(skip: Skip, a: Assignment) {
    match skip
    case SkipRole(role) => a.role == role
    case SkipAssignment(user, role) => a.user == user && a.role == role
    case SkipUser(user) => a.user == user
  }

  /**
   * The guard lets a mutation through: the permission does not exist, or an administrator remains without what is
   * skipped.
   */
  ghost predicate GuardPasses(d: Directory, tenant: int, skip: Skip) {
    d.managePermission == None || exists a :: IsAdmin(d, a, tenant) && !Skips(skip, a)
  }

  /** Requests of one tenant's administrators; byself: the actor is the target user. */
  datatype Op =
    | RevokePermission(role: int, permission: int)
    | UnassignRole(user: int, role: int)
    | DeleteRole(role: int)
    | SuspendUser(user: int, reason: bool, byself: bool)
    | TerminateUser(user: int, reason: bool, byself: bool)

  /** Some live role of the tenant that the user has carries role:manage. */
  ghost predicate TargetHasManage(d: Directory, user: int, tenant: int) {
    exists a :: a in d.assignments && a.user == user && LiveRole(d, a.role, tenant) && Manages(d, a.role)
  }

  /** Whether a request goes through the guard, and what it then skips. */
  ghost function GuardOf(d: Directory, tenant: int, op: Op): Option<Skip> {
    match op
    case RevokePermission(role, permission) => if Some(permission) == d.managePermission then Some(SkipRole(role))
        else None
    case UnassignRole(user, role) => if Manages(d, role) then Some(SkipAssignment(user, role)) else None
    case DeleteRole(role) => if Manages(d, role) then Some(SkipRole(role)) else None
    case SuspendUser(user, _, _) => if TargetHasManage(d, user, tenant) then Some(SkipUser(user)) else None
    case TerminateUser(user, _, _) => if TargetHasManage(d, user, tenant) then Some(SkipUser(user)) else None
  }

  /** The mutation itself. */
  function Mutated(d: Directory, op: Op): Directory {
    match op
    case RevokePermission(role, permission) => d.(grants := d.grants - {Grant(role, permission)})
    case UnassignRole(user, role) => d.(assignments := d.assignments - {Assignment(user, role)})
    case DeleteRole(role) =>
      d.(assignments := (set a | a in d.assignments && a.role != role),
         grants := (set g | g in d.grants && g.role != role),
         roles := d.roles - {role})
    case SuspendUser(user, _, _) => if user in d.users
        then d.(users := d.users[user := d.users[user].(status := Suspended)]) else d
    case TerminateUser(user, _, _) => if user in d.users
        then d.(users := d.users[user := d.users[user].(status := Terminated)]) else d
  }

  /** Checks before the guard. */
  function Precheck(d: Directory, tenant: int, op: Op): Option<Error> {
    match op
    case RevokePermission(role, _) =>
      if !LiveRole(d, role, tenant) then Some(ResourceNotFoundError)
      else if d.roles[role].isSystem then Some(SystemRoleProtectedError) else None
    case UnassignRole(_, role) => if !LiveRole(d, role, tenant) then Some(ResourceNotFoundError) else None
    case DeleteRole(role) =>
      if !LiveRole(d, role, tenant) then Some(ResourceNotFoundError)
      else if d.roles[role].isSystem then Some(SystemRoleProtectedError) else None
    case SuspendUser(_, reason, byself) =>
      if !reason then Some(ValidationError) else if byself then Some(BusinessRuleViolationError) else None
    case TerminateUser(_, reason, byself) =>
      if !reason then Some(ValidationError) else if byself then Some(BusinessRuleViolationError) else None
  }

  /** Checks of the user service, made after the guard. */
  function Postcheck(d: Directory, tenant: int, op: Op): Option<Error> {
    match op
    case SuspendUser(user, _, _) =>
      if user !in d.users || d.users[user].tenant != tenant || d.users[user].deleted then Some(ResourceNotFoundError)
      else if d.users[user].status != ActiveUser then Some(BusinessRuleViolationError) else None
    case TerminateUser(user, _, _) =>
      if user !in d.users || d.users[user].tenant != tenant || d.users[user].deleted then Some(ResourceNotFoundError)
      else if d.users[user].status == Terminated then Some(BusinessRuleViolationError) else None
    case _ => None
  }

  ghost function Refusal(d: Directory, tenant: int, op: Op): Option<Error> {
    if Precheck(d, tenant, op).Some? then Precheck(d, tenant, op)
    else if GuardOf(d, tenant, op).Some? && !GuardPasses(d, tenant, GuardOf(d, tenant, op).value)
        then Some(BusinessRuleViolationError)
    else Postcheck(d, tenant, op)
  }

  ghost function Perform(d: Directory, tenant: int, op: Op): Directory {
    if Refusal(d, tenant, op) == None then Mutated(d, op) else d
  }

  // ----- the stored roles and users -----

  class RoleStore {
    var managePermission: Option<int>
    var roles: map<int, Role>
    var users: map<int, User>
    var grants: set<Grant>
    var assignments: set<Assignment>

    function State(): Directory
      reads this
    {
      Directory(managePermission, roles, users, grants, assignments)
    }

    constructor (d: Directory)
      ensures State() == d
    {
      managePermission, roles, users, grants, assignments :=
          d.managePermission, d.roles, d.users, d.grants, d.assignments;
    }

    /** withAdminGuard up to the point where it runs the mutation. */
    method WithAdminGuard(tenant: int, skip: Skip) returns (r: Result<()>)
      ensures r == if GuardPasses(State(), tenant, skip) then Ok(()) else Err(BusinessRuleViolationError)
    {
      hide IsActive, LiveRole, Manages, IsAdmin, Skips, GuardPasses, AdminsWithout;
      PassesWithAdmins(State(), tenant, skip);
      if managePermission == None {
        return Ok(());
      }
      var roleIds :=
          set g | g in grants && Some(g.permission) == managePermission && LiveRole(State(), g.role, tenant) :: g.role;
      if skip.SkipRole? {
        roleIds := roleIds - {skip.role};
      }
      var held := set a | a in assignments && a.role in roleIds && IsActive(State(), a.user, tenant);
      var remaining := held;
      if skip.SkipAssignment? {
        remaining := remaining - {Assignment(skip.user, skip.role)};
      }
      if skip.SkipUser? {
        remaining := set a | a in remaining && a.user != skip.user;
      }
      AdminsByRole(State(), tenant, skip, roleIds);
      assert remaining == AdminsWithout(State(), tenant, skip);
      if |roleIds| == 0 {
        return Err(BusinessRuleViolationError);
      }
      var userIds := set a | a in remaining :: a.user;
      SomeUser(remaining);
      if |userIds| == 0 {
        return Err(BusinessRuleViolationError);
      }
      return Ok(());
    }

    method Guard(tenant: int, guarded: bool, skip: Skip) returns (r: Result<()>)
      ensures r == if guarded && !GuardPasses(State(), tenant, skip) then Err(BusinessRuleViolationError) else Ok(())
    {
      if guarded {
        r := WithAdminGuard(tenant, skip);
      } else {
        r := Ok(());
      }
    }

    method Revoke(tenant: int, role: int, permission: int) returns (r: Result<()>)
      modifies this
      ensures Answers(old(State()), tenant, RevokePermission(role, permission), r, State())
    {
      if !LiveRole(State(), role, tenant) {
        return Err(ResourceNotFoundError);
      }
      if roles[role].isSystem {
        return Err(SystemRoleProtectedError);
      }
      r := Guard(tenant, Some(permission) == managePermission, SkipRole(role));
      if r.Ok? {
        grants := grants - {Grant(role, permission)};
      }
    }

    method Unassign(tenant: int, user: int, role: int) returns (r: Result<()>)
      modifies this
      ensures Answers(old(State()), tenant, UnassignRole(user, role), r, State())
    {
      if !LiveRole(State(), role, tenant) {
        return Err(ResourceNotFoundError);
      }
      r := Guard(tenant, Manages(State(), role), SkipAssignment(user, role));
      if r.Ok? {
        assignments := assignments - {Assignment(user, role)};
      }
    }

    method Delete(tenant: int, role: int) returns (r: Result<()>)
      modifies this
      ensures Answers(old(State()), tenant, DeleteRole(role), r, State())
    {
      if !LiveRole(State(), role, tenant) {
        return Err(ResourceNotFoundError);
      }
      if roles[role].isSystem {
        return Err(SystemRoleProtectedError);
      }
      r := Guard(tenant, Manages(State(), role), SkipRole(role));
      if r.Ok? {
        assignments := set a | a in assignments && a.role != role;
        grants := set g | g in grants && g.role != role;
        roles := roles - {role};
      }
    }

    method CarriesManage(user: int, tenant: int) returns (b: bool)
      ensures b <==> TargetHasManage(State(), user, tenant)
    {
      var carrying :=
          set a | a in assignments && a.user == user && LiveRole(State(), a.role, tenant) && Manages(State(), a.role);
      if TargetHasManage(State(), user, tenant) {
        ghost var a :|
            a in assignments && a.user == user && LiveRole(State(), a.role, tenant) && Manages(State(), a.role);
        assert a in carrying;
      }
      b := |carrying| != 0;
      if b {
        var a :| a in carrying;
      }
    }

    method Suspend(tenant: int, user: int, reason: bool, byself: bool) returns (r: Result<()>)
      modifies this
      ensures Answers(old(State()), tenant, SuspendUser(user, reason, byself), r, State())
    {
      if !reason {
        return Err(ValidationError);
      }
      if byself {
        return Err(BusinessRuleViolationError);
      }
      var targetHasManage := CarriesManage(user, tenant);
      r := Guard(tenant, targetHasManage, SkipUser(user));
      if r.Err? {
        return r;
      }
      if user !in users || users[user].tenant != tenant || users[user].deleted {
        return Err(ResourceNotFoundError);
      }
      if users[user].status != ActiveUser {
        return Err(BusinessRuleViolationError);
      }
      users := users[user := users[user].(status := Suspended)];
    }

    method Terminate(tenant: int, user: int, reason: bool, byself: bool) returns (r: Result<()>)
      modifies this
      ensures Answers(old(State()), tenant, TerminateUser(user, reason, byself), r, State())
    {
      if !reason {
        return Err(ValidationError);
      }
      if byself {
        return Err(BusinessRuleViolationError);
      }
      var targetHasManage := CarriesManage(user, tenant);
      r := Guard(tenant, targetHasManage, SkipUser(user));
      if r.Err? {
        return r;
      }
      if user !in users || users[user].tenant != tenant || users[user].deleted {
        return Err(ResourceNotFoundError);
      }
      if users[user].status == Terminated {
        return Err(BusinessRuleViolationError);
      }
      users := users[user := users[user].(status := Terminated)];
    }
  }

  /** The administrators that what is skipped leaves. */
  function AdminsWithout(d: Directory, tenant: int, skip: Skip): set<Assignment> {
    set a | a in d.assignments && IsAdmin(d, a, tenant) && !Skips(skip, a)
  }

  lemma PassesWithAdmins(d: Directory, tenant: int, skip: Skip)
    ensures GuardPasses(d, tenant, skip) <==> d.managePermission == None || AdminsWithout(d, tenant, skip) != {}
  {
    if a :| IsAdmin(d, a, tenant) && !Skips(skip, a) {
      assert a in AdminsWithout(d, tenant, skip);
    }
    if a :| a in AdminsWithout(d, tenant, skip) {
      assert IsAdmin(d, a, tenant) && !Skips(skip, a);
    }
  }

  /** Selecting by the roles that carry the permission, less what is skipped, selects the administrators left. */
  lemma AdminsByRole(d: Directory, tenant: int, skip: Skip, roleIds: set<int>)
    requires d.managePermission.Some?
    requires roleIds
        == (set g | g in d.grants && Some(g.permission) == d.managePermission && LiveRole(d, g.role, tenant) :: g.role)
                        - (if skip.SkipRole? then {skip.role} else {})
    ensures AdminsWithout(d, tenant, skip) ==
            set a | a in d.assignments && a.role in roleIds && IsActive(d, a.user, tenant)
                    && (skip.SkipAssignment? ==> a != Assignment(skip.user, skip.role))
                    && (skip.SkipUser? ==> a.user != skip.user)
  {
    hide IsActive;
    forall a | a in d.assignments && IsActive(d, a.user, tenant)
      ensures a.role in roleIds <==> IsAdmin(d, a, tenant) && skip != SkipRole(a.role)
    {
      if IsAdmin(d, a, tenant) {
        assert Grant(a.role, d.managePermission.value) in d.grants;
      }
    }
  }

  lemma SomeUser(held: set<Assignment>)
    ensures |set a | a in held :: a.user| == 0 <==> held == {}
  {
    var users := set a | a in held :: a.user;
    assert held != {} ==> exists a :: a in held && a.user in users;
    assert held == {} ==> users == {};
  }

  /** A request's answer and its effect on the directory. */
  ghost predicate Answers(before: Directory, tenant: int, op: Op, r: Result<()>, after: Directory) {
    && r == (if Refusal(before, tenant, op) == None then Ok(()) else Err(Refusal(before, tenant, op).value))
    && after == Perform(before, tenant, op)
  }

  // ----- the guard is exact, and no run loses the last administrator -----

  /** What a mutation spares of the administrators is what its guard counts. */
  lemma SparedAdmins(d: Directory, tenant: int, op: Op, a: Assignment)
    requires Refusal(d, tenant, op) == None && GuardOf(d, tenant, op).Some?
    ensures IsAdmin(Mutated(d, op), a, tenant) <==> IsAdmin(d, a, tenant) && !Skips(GuardOf(d, tenant, op).value, a)
  {}

  /** An unguarded request takes no administrator away. */
  lemma UnguardedSparesAll(d: Directory, tenant: int, op: Op, a: Assignment)
    requires Refusal(d, tenant, op) == None && GuardOf(d, tenant, op) == None
    requires IsAdmin(d, a, tenant)
    ensures IsAdmin(Mutated(d, op), a, tenant)
  {}

  /** A request touches no other tenant's administrators. */
  lemma OtherTenantsSpared(d: Directory, tenant: int, op: Op, a: Assignment, other: int)
    requires Refusal(d, tenant, op) == None && other != tenant && IsAdmin(d, a, other)
    ensures IsAdmin(Mutated(d, op), a, other)
  {}

  /** A guarded request that passes every other check is refused exactly when it would leave no administrator. */
  lemma GuardIsExact(d: Directory, tenant: int, op: Op)
    requires Precheck(d, tenant, op) == None && Postcheck(d, tenant, op) == None
    requires GuardOf(d, tenant, op).Some? && d.managePermission.Some?
    ensures Refusal(d, tenant, op) == None <==> HasAdmin(Mutated(d, op), tenant)
  {
    var skip := GuardOf(d, tenant, op).value;
    if Refusal(d, tenant, op) == None {
      var a :| IsAdmin(d, a, tenant) && !Skips(skip, a);
      SparedAdmins(d, tenant, op, a);
    }
    if a :| IsAdmin(Mutated(d, op), a, tenant) {
      assert IsAdmin(d, a, tenant) && !Skips(skip, a);
    }
  }

  lemma PerformKeepsAdmin(d: Directory, tenant: int, op: Op, other: int)
    requires HasAdmin(d, other)
    ensures HasAdmin(Perform(d, tenant, op), other)
  {
    if Refusal(d, tenant, op) == None {
      var a :| IsAdmin(d, a, other);
      if other != tenant {
        OtherTenantsSpared(d, tenant, op, a, other);
      } else if GuardOf(d, tenant, op) == None {
        UnguardedSparesAll(d, tenant, op, a);
      } else {
        var b :| IsAdmin(d, b, tenant) && !Skips(GuardOf(d, tenant, op).value, b);
        SparedAdmins(d, tenant, op, b);
      }
    }
  }

  /** A request of some tenant. */
  datatype Request = Request(tenant: int, op: Op)

  ghost function AfterRun(d: Directory, requests: seq<Request>): Directory {
    if requests == [] then d
    else Perform(AfterRun(d, requests[..|requests| - 1]), requests[|requests| - 1].tenant, requests[|requests| - 1].op)
  }

  /** In every serial run of requests, a tenant that has an administrator keeps one. */
  lemma {:induction false} EveryRunKeepsAnAdmin(d: Directory, requests: seq<Request>, tenant: int)
    requires HasAdmin(d, tenant)
    ensures HasAdmin(AfterRun(d, requests), tenant)
  {
    if requests != [] {
      EveryRunKeepsAnAdmin(d, requests[..|requests| - 1], tenant);
      PerformKeepsAdmin(AfterRun(d, requests[..|requests| - 1]), requests[|requests| - 1].tenant,
          requests[|requests| - 1].op, tenant);
    }
  }
}
