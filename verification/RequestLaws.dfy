/**
 * What the administrative requests on roles and users do, told from the directory before and after
 * (src/routes/roles.router.ts, src/routes/users.router.ts, src/services/user.service.ts).
 */
module RequestLaws {
  import opened Basics
  import opened AdminLockout

  /** Some active user still holds role:manage through a live role without this assignment, role or user. */
  ghost predicate AdminRemains(d: Directory, tenant: int, skip: Skip) {
    exists user, role ::
      && Assignment(user, role) in d.assignments
      && user in d.users && d.users[user] == User(tenant, ActiveUser, false)
      && role in d.roles && d.roles[role].tenant == tenant && !d.roles[role].deleted
      && d.managePermission.Some? && Grant(role, d.managePermission.value) in d.grants
      && match skip
         case SkipRole(r) => role != r
         case SkipAssignment(u, r) => user != u || role != r
         case SkipUser(u) => user != u
  }

  lemma GuardMeans(d: Directory, tenant: int, skip: Skip)
    ensures GuardPasses(d, tenant, skip) <==> d.managePermission == None || AdminRemains(d, tenant, skip)
  {
    if a :| IsAdmin(d, a, tenant) && !Skips(skip, a) {
      assert a == Assignment(a.user, a.role);
    }
    if AdminRemains(d, tenant, skip) {
      var user, role :|
        && Assignment(user, role) in d.assignments
        && user in d.users && d.users[user] == User(tenant, ActiveUser, false)
        && role in d.roles && d.roles[role].tenant == tenant && !d.roles[role].deleted
        && d.managePermission.Some? && Grant(role, d.managePermission.value) in d.grants
        && match skip
           case SkipRole(r) => role != r
           case SkipAssignment(u, r) => user != u || role != r
           case SkipUser(u) => user != u;
      assert IsAdmin(d, Assignment(user, role), tenant) && !Skips(skip, Assignment(user, role));
    }
  }

  // ----- when a request goes through, and what it does -----

  /** A live role of the tenant. */
  predicate RoleOf(d: Directory, role: int, tenant: int) {
    role in d.roles && d.roles[role].tenant == tenant && !d.roles[role].deleted
  }

  /** An undeleted user of the tenant. */
  predicate UserOf(d: Directory, user: int, tenant: int) {
    user in d.users && d.users[user].tenant == tenant && !d.users[user].deleted
  }

  /** The role carries role:manage. */
  predicate Carries(d: Directory, role: int) {
    d.managePermission.Some? && Grant(role, d.managePermission.value) in d.grants
  }

  /** The user has a live role of the tenant that carries role:manage. */
  ghost predicate HoldsManage(d: Directory, user: int, tenant: int) {
    exists role :: Assignment(user, role) in d.assignments && RoleOf(d, role, tenant) && Carries(d, role)
  }

  lemma HoldsManageMeans(d: Directory, user: int, tenant: int)
    ensures HoldsManage(d, user, tenant) <==> TargetHasManage(d, user, tenant)
  {
    if a :| a in d.assignments && a.user == user && LiveRole(d, a.role, tenant) && Manages(d, a.role) {
      assert a == Assignment(user, a.role);
    }
    if role :| Assignment(user, role) in d.assignments && RoleOf(d, role, tenant) && Carries(d, role) {
      var a := Assignment(user, role);
      assert a.user == user && LiveRole(d, a.role, tenant) && Manages(d, a.role);
    }
  }

  /** A revocation takes the one grant away; a system role's are protected, and the last role:manage is guarded. */
  lemma RevokeLaw(d: Directory, tenant: int, role: int, permission: int)
    ensures var op := RevokePermission(role, permission);
            var after := Perform(d, tenant, op);
            if RoleOf(d, role, tenant) && !d.roles[role].isSystem &&
               (Some(permission) == d.managePermission ==> AdminRemains(d, tenant, SkipRole(role)))
            then Refusal(d, tenant, op) == None && after == d.(grants := d.grants - {Grant(role, permission)})
            else Refusal(d, tenant, op).Some? && after == d
    ensures var refusal := Refusal(d, tenant, RevokePermission(role, permission));
            && (refusal == Some(ResourceNotFoundError) <==> !RoleOf(d, role, tenant))
            && (refusal == Some(SystemRoleProtectedError) <==> RoleOf(d, role, tenant) && d.roles[role].isSystem)
  {
    hide GuardPasses, AdminRemains;
    GuardMeans(d, tenant, SkipRole(role));
  }

  /** An unassignment takes one assignment away; of a role with role:manage only if an administrator remains. */
  lemma UnassignLaw(d: Directory, tenant: int, user: int, role: int)
    ensures var op := UnassignRole(user, role);
            var after := Perform(d, tenant, op);
            if RoleOf(d, role, tenant) && (Carries(d, role) ==> AdminRemains(d, tenant, SkipAssignment(user, role)))
            then Refusal(d, tenant, op) == None && after == d.(assignments := d.assignments - {Assignment(user, role)})
            else Refusal(d, tenant, op).Some? && after == d
    ensures Refusal(d, tenant, UnassignRole(user, role)) == Some(ResourceNotFoundError) <==> !RoleOf(d, role, tenant)
  {
    hide GuardPasses, AdminRemains;
    GuardMeans(d, tenant, SkipAssignment(user, role));
  }

  /** A deletion takes the role away with everything that mentions it, and nothing else. */
  lemma DeleteLaw(d: Directory, tenant: int, role: int)
    ensures var op := DeleteRole(role);
            var after := Perform(d, tenant, op);
            if RoleOf(d, role, tenant) && !d.roles[role].isSystem &&
               (Carries(d, role) ==> AdminRemains(d, tenant, SkipRole(role)))
            then
              && Refusal(d, tenant, op) == None
              && after.managePermission == d.managePermission && after.users == d.users
              && after.roles == d.roles - {role}
              && (forall a :: a in after.assignments <==> a in d.assignments && a.role != role)
              && (forall g :: g in after.grants <==> g in d.grants && g.role != role)
            else Refusal(d, tenant, op).Some? && after == d
    ensures var refusal := Refusal(d, tenant, DeleteRole(role));
            && (refusal == Some(ResourceNotFoundError) <==> !RoleOf(d, role, tenant))
            && (refusal == Some(SystemRoleProtectedError) <==> RoleOf(d, role, tenant) && d.roles[role].isSystem)
  {
    hide GuardPasses, AdminRemains;
    GuardMeans(d, tenant, SkipRole(role));
  }

  /** A suspension, with a reason and of another ACTIVE user, suspends an administrator only if one remains. */
  lemma SuspendLaw(d: Directory, tenant: int, user: int, reason: bool, byself: bool)
    ensures var op := SuspendUser(user, reason, byself);
            var after := Perform(d, tenant, op);
            if reason && !byself && UserOf(d, user, tenant) && d.users[user].status == ActiveUser &&
               (HoldsManage(d, user, tenant) && d.managePermission.Some? ==> AdminRemains(d, tenant, SkipUser(user)))
            then
              && Refusal(d, tenant, op) == None
              && after == d.(users := d.users[user := d.users[user].(status := Suspended)])
            else Refusal(d, tenant, op).Some? && after == d
    ensures Refusal(d, tenant, SuspendUser(user, reason, byself)) == Some(ValidationError) <==> !reason
  {
    hide GuardPasses, AdminRemains, HoldsManage, TargetHasManage;
    GuardMeans(d, tenant, SkipUser(user));
    HoldsManageMeans(d, user, tenant);
  }

  /** A termination likewise takes any user not yet terminated to TERMINATED. */
  lemma TerminateLaw(d: Directory, tenant: int, user: int, reason: bool, byself: bool)
    ensures var op := TerminateUser(user, reason, byself);
            var after := Perform(d, tenant, op);
            if reason && !byself && UserOf(d, user, tenant) && d.users[user].status != Terminated &&
               (HoldsManage(d, user, tenant) && d.managePermission.Some? ==> AdminRemains(d, tenant, SkipUser(user)))
            then
              && Refusal(d, tenant, op) == None
              && after == d.(users := d.users[user := d.users[user].(status := Terminated)])
            else Refusal(d, tenant, op).Some? && after == d
    ensures Refusal(d, tenant, TerminateUser(user, reason, byself)) == Some(ValidationError) <==> !reason
  {
    hide GuardPasses, AdminRemains, HoldsManage, TargetHasManage;
    GuardMeans(d, tenant, SkipUser(user));
    HoldsManageMeans(d, user, tenant);
  }

  // ----- what no request can do -----

  /** Nothing is ever granted, assigned or created, and system roles keep their grants. */
  ghost predicate OnlyTakesAway(d: Directory, after: Directory) {
    && after.managePermission == d.managePermission
    && after.grants <= d.grants && after.assignments <= d.assignments
    && after.roles.Keys <= d.roles.Keys && after.users.Keys == d.users.Keys
    && (forall role :: role in after.roles ==> after.roles[role] == d.roles[role])
    && (forall user :: user in d.users ==>
          after.users[user] == d.users[user].(status := after.users[user].status))
    && (forall role :: role in d.roles && d.roles[role].isSystem ==>
          role in after.roles && forall p :: Grant(role, p) in d.grants ==> Grant(role, p) in after.grants)
  }

  lemma PerformOnlyTakesAway(d: Directory, tenant: int, op: Op)
    ensures OnlyTakesAway(d, Perform(d, tenant, op))
  {
    hide Perform, Refusal, AdminRemains, HoldsManage;
    match op
    case RevokePermission(role, permission) => RevokeLaw(d, tenant, role, permission);
    case UnassignRole(user, role) => UnassignLaw(d, tenant, user, role);
    case DeleteRole(role) => DeleteLaw(d, tenant, role);
    case SuspendUser(user, reason, byself) => SuspendLaw(d, tenant, user, reason, byself);
    case TerminateUser(user, reason, byself) => TerminateLaw(d, tenant, user, reason, byself);
  }

  /** In every run of requests system roles stay, with all their grants, and nothing is given to anybody. */
  lemma {:induction false} EveryRunOnlyTakesAway(d: Directory, requests: seq<Request>)
    ensures OnlyTakesAway(d, AfterRun(d, requests))
  {
    hide Perform, OnlyTakesAway;
    if requests == [] {
      TakesNothing(d);
    } else {
      var front, last := requests[..|requests| - 1], requests[|requests| - 1];
      EveryRunOnlyTakesAway(d, front);
      PerformOnlyTakesAway(AfterRun(d, front), last.tenant, last.op);
      TakesAwayTwice(d, AfterRun(d, front), AfterRun(d, requests));
    }
  }

  lemma TakesNothing(d: Directory)
    ensures OnlyTakesAway(d, d)
  {}

  lemma TakesAwayTwice(a: Directory, b: Directory, c: Directory)
    requires OnlyTakesAway(a, b) && OnlyTakesAway(b, c)
    ensures OnlyTakesAway(a, c)
  {}

  /** What belongs to a tenant: its users, its roles, and the grants and assignments of its roles. */
  ghost predicate TenantUntouched(d: Directory, after: Directory, other: int) {
    && (forall user :: user in d.users && d.users[user].tenant == other ==>
          user in after.users && after.users[user] == d.users[user])
    && (forall role :: role in d.roles && d.roles[role].tenant == other ==>
          && role in after.roles && after.roles[role] == d.roles[role]
          && (forall p :: Grant(role, p) in after.grants <==> Grant(role, p) in d.grants)
          && (forall u :: Assignment(u, role) in after.assignments <==> Assignment(u, role) in d.assignments))
  }

  /** A request of one tenant touches nothing of another. */
  lemma TenantsAreApart(d: Directory, tenant: int, op: Op, other: int)
    requires other != tenant
    ensures TenantUntouched(d, Perform(d, tenant, op), other)
  {
    hide Perform, Refusal, AdminRemains, HoldsManage;
    match op
    case RevokePermission(role, permission) => RevokeLaw(d, tenant, role, permission);
    case UnassignRole(user, role) => UnassignLaw(d, tenant, user, role);
    case DeleteRole(role) => DeleteLaw(d, tenant, role);
    case SuspendUser(user, reason, byself) => SuspendLaw(d, tenant, user, reason, byself);
    case TerminateUser(user, reason, byself) => TerminateLaw(d, tenant, user, reason, byself);
  }
}
