/** `PermissionsGuard.canActivate`: the request-time allow/deny decision over the store's current state. */
module PermissionsGuard {
  import opened Wrappers
  import opened Errors
  import opened Store
  import opened Session

  /** `required.every((perm) => held.includes(perm))`. */
  predicate HoldsAll(required: seq<string>, held: seq<string>)
  {
    required == [] || (required[0] in held && HoldsAll(required[1..], held))
  }

  /** `every`/`includes` is set containment with exact string equality. */
  lemma {:induction false} HoldsAllIsContainment(required: seq<string>, held: seq<string>)
    ensures HoldsAll(required, held) <==> forall p :: p in required ==> p in held
  {
    if required != [] {
      HoldsAllIsContainment(required[1..], held);
      assert required == [required[0]] + required[1..];
    }
  }

  /** The decision. `required` is the `@Permissions(...)` metadata (absent when the route declares none),
      `request` the request principal, `t` the tables read for the principal's current role. Every denial is a
      thrown `ForbiddenException`; the only normal result is `true`. */
  function CanActivate(required: Option<seq<string>>, request: Option<RequestUser>, t: Tables): (r: Result<bool, Error>)
    ensures r.Success? ==> r.value
    ensures r.Failure? ==> r.error.Forbidden?
  {
    if required.None? || |required.value| == 0 then Success(true)
    else if request.None? then Failure(Forbidden(NotAuthenticated))
    else
      match RoleOfUserId(t, request.value.userId)
      case None => Failure(Forbidden(NoRoleAssigned))
      case Some(role) =>
        if role.name == "admin" then Success(true)
        else if HoldsAll(required.value, role.permissions) then Success(true)
        else Failure(Forbidden(InsufficientPermissions))
  }

  /** No requirement: allowed for any principal, or none, whatever the tables hold (they are not read). */
  lemma NoRequirementAllows(required: Option<seq<string>>, request: Option<RequestUser>, t: Tables, t': Tables)
    requires required.None? || required.value == []
    ensures CanActivate(required, request, t) == Success(true)
    ensures CanActivate(required, request, t) == CanActivate(required, request, t')
  {
  }

  /** A requirement and no principal on the request: Forbidden ("No autenticado"). */
  lemma MissingPrincipalForbidden(required: seq<string>, t: Tables)
    requires required != []
    ensures CanActivate(Some(required), None, t) == Failure(Forbidden(NotAuthenticated))
  {
  }

  /** A principal whose user row is gone, or who has no role, is denied any non-empty requirement. */
  lemma RolelessForbidden(required: seq<string>, request: RequestUser, t: Tables)
    requires required != []
    requires RoleOfUserId(t, request.userId).None?
    ensures CanActivate(Some(required), Some(request), t) == Failure(Forbidden(NoRoleAssigned))
  {
  }

  /** The role named exactly "admin" is allowed everything, however few permissions it is linked to. */
  lemma AdminBypass(required: Option<seq<string>>, request: RequestUser, t: Tables, linked: seq<string>)
    requires RoleOfUserId(t, request.userId) == Some(RoleInfo("admin", linked))
    ensures CanActivate(required, Some(request), t) == Success(true)
  {
  }

  /** Any other role is allowed exactly when it holds every required permission (AND, exact match), and is
      otherwise denied as lacking permissions. */
  lemma NonAdminNeedsEveryPermission(required: seq<string>, request: RequestUser, t: Tables, role: RoleInfo)
    requires required != []
    requires RoleOfUserId(t, request.userId) == Some(role) && role.name != "admin"
    ensures CanActivate(Some(required), Some(request), t).Success? <==> forall p :: p in required ==> p in role.permissions
    ensures CanActivate(Some(required), Some(request), t).Failure? ==>
      CanActivate(Some(required), Some(request), t) == Failure(Forbidden(InsufficientPermissions))
  {
    HoldsAllIsContainment(required, role.permissions);
  }

  /** The decision depends on the request principal only through its `userId`: the role and permission claims
      carried by the token are never consulted, the tables are. */
  lemma DecisionIgnoresTokenClaims(required: Option<seq<string>>, a: RequestUser, b: RequestUser, t: Tables)
    requires a.userId == b.userId
    ensures CanActivate(required, Some(a), t) == CanActivate(required, Some(b), t)
  {
  }

  /** A token claiming "admin" with every permission is still denied when the store says the user's current
      role lacks a required permission. */
  lemma StaleAdminTokenDenied(required: seq<string>, request: RequestUser, t: Tables, role: RoleInfo, p: string)
    requires request.role == Some("admin") && p in required && p in request.permissions
    requires RoleOfUserId(t, request.userId) == Some(role) && role.name != "admin" && p !in role.permissions
    ensures CanActivate(Some(required), Some(request), t) == Failure(Forbidden(InsufficientPermissions))
  {
    HoldsAllIsContainment(required, role.permissions);
  }

  /** The supervisor role of the seed data. */
  function SupervisorPermissions(): seq<string>
  {
    ["dashboard:view", "profile:view", "profile:edit", "users:view", "stats:view", "settings:view",
     "tickets:create", "tickets:manage"]
  }

  /** A supervisor may list users but not manage them. */
  lemma SupervisorScenario(request: RequestUser, t: Tables)
    requires RoleOfUserId(t, request.userId) == Some(RoleInfo("supervisor", SupervisorPermissions()))
    ensures CanActivate(Some(["users:view"]), Some(request), t) == Success(true)
    ensures CanActivate(Some(["users:manage"]), Some(request), t) == Failure(Forbidden(InsufficientPermissions))
  {
    assert "users:view" in SupervisorPermissions();
  }
}

/** The coarse role-only guard. Its source is not part of this model: this follows its tests only (no
    `@Roles` metadata allows; otherwise the principal's role claim must be one of the required roles). */
module RolesGuard {
  import opened Wrappers
  import opened Session

  /** `required.some((r) => r === role)`. */
  predicate AnyMatches(required: seq<string>, role: Option<string>)
    ensures AnyMatches(required, role) ==> role.Some?
  {
    required != [] && (Some(required[0]) == role || AnyMatches(required[1..], role))
  }

  /** No `@Roles` metadata lets every request through; an empty list or a roleless principal lets none through. */
  function CanActivate(required: Option<seq<string>>, request: RequestUser): (r: bool)
    ensures required.None? ==> r
    ensures required == Some([]) ==> !r
    ensures required.Some? && request.role.None? ==> !r
  {
    required.None? || AnyMatches(required.value, request.role)
  }

  /** With roles required, access is granted exactly when the role claim is one of them (OR semantics):
      a roleless principal never passes. */
  lemma {:induction false} AnyOfRequiredRoles(required: seq<string>, request: RequestUser)
    ensures CanActivate(Some(required), request) <==> request.role.Some? && request.role.value in required
  {
    if required != [] {
      AnyOfRequiredRoles(required[1..], request);
      assert required == [required[0]] + required[1..];
    }
  }
}
