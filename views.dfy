/** The public view of a user that `UsersController.getProfile`, `UsersController.findOne` and
    `AuthService.getMe` return: the row without its secrets, the role flattened to a name and a list of
    permission names. */
module Views {
  import opened Wrappers
  import opened Store

  /** Every column of the row except `password`, `resetToken` and `resetTokenExpiry`, plus the role's name
      (`null` without one) and its permission names (`[]` without one). */
  datatype UserView = UserView(
    id: nat,
    email: string,
    googleId: Option<string>,
    name: Option<string>,
    lastName: Option<string>,
    cedula: Option<string>,
    birthDate: Option<int>,
    phone: Option<string>,
    position: Option<string>,
    profileComplete: bool,
    roleId: Option<nat>,
    createdAt: int,
    role: Option<string>,
    permissions: seq<string>)

  /** `role?.name ?? null`. */
  function RoleName(role: Option<RoleInfo>): (r: Option<string>)
    ensures r.Some? <==> role.Some?
    ensures r.Some? ==> r.value == role.value.name
  {
    match role
    case None => None
    case Some(info) => Some(info.name)
  }

  /** `role?.permissions?.map((rp) => rp.permission.name) ?? []`. */
  function RolePermissions(role: Option<RoleInfo>): (r: seq<string>)
    ensures role.None? ==> r == []
    ensures role.Some? ==> r == role.value.permissions
  {
    match role
    case None => []
    case Some(info) => info.permissions
  }

  function View(u: User, role: Option<RoleInfo>): (r: UserView)
    ensures r.id == u.id && r.email == u.email && r.googleId == u.googleId && r.roleId == u.roleId
    ensures r.name == u.name && r.lastName == u.lastName && r.cedula == u.cedula && r.birthDate == u.birthDate
    ensures r.phone == u.phone && r.position == u.position && r.profileComplete == u.profileComplete
    ensures r.createdAt == u.createdAt
    ensures r.role == RoleName(role) && r.permissions == RolePermissions(role)
  {
    UserView(u.id, u.email, u.googleId, u.name, u.lastName, u.cedula, u.birthDate, u.phone, u.position,
             u.profileComplete, u.roleId, u.createdAt, RoleName(role), RolePermissions(role))
  }

  /** Two rows with the same role have the same view exactly when they differ at most in the three secret
      columns: the view drops those and keeps every other column. */
  lemma ViewDropsExactlySecrets(u: User, u': User, role: Option<RoleInfo>)
    ensures View(u, role) == View(u', role) <==>
      u.(password := None, resetToken := None, resetTokenExpiry := None) ==
      u'.(password := None, resetToken := None, resetTokenExpiry := None)
  {
    if View(u, role) == View(u', role) {
      assert u.id == u'.id && u.email == u'.email && u.createdAt == u'.createdAt;
    }
  }

  /** The flattened role is enough to tell a roleless user from one with a role, and to recover the role. */
  lemma FlatteningKeepsRole(role: Option<RoleInfo>)
    ensures role.None? <==> RoleName(role).None?
    ensures role.Some? ==> role == Some(RoleInfo(RoleName(role).value, RolePermissions(role)))
  {
  }
}
