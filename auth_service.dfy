/** `AuthService`: password validation, the login payload and view, registration, Google sign-in, the
    password-reset token flow, and `getMe`. Hashing (`bcrypt`), signing (`jwtService.sign`), random tokens and
    the clock are parameters: a hash is the string stored, `compare` and `sign` are functions, `now` is a time
    in milliseconds. */
module AuthService {
  import opened Wrappers
  import opened Errors
  import opened Store
  import opened Views
  import Session
  import PermissionsGuard
  import UsersService

  /** One hour in milliseconds: the lifetime of a reset token. */
  const ResetTokenLifetime: int := 3600000

  /** The user `validateUser` returns: the row with its role, without the `password` column. */
  datatype ValidatedUser = ValidatedUser(
    id: nat,
    email: string,
    googleId: Option<string>,
    name: Option<string>,
    lastName: Option<string>,
    cedula: Option<string>,
    birthDate: Option<int>,
    phone: Option<string>,
    position: Option<string>,
    profileComplete: bool,
    roleId: Option<nat>,
    resetToken: Option<string>,
    resetTokenExpiry: Option<int>,
    createdAt: int,
    role: Option<RoleInfo>)

  /** `const { password, ...result } = user`. */
  function WithoutPassword(u: User, role: Option<RoleInfo>): ValidatedUser
  {
    ValidatedUser(u.id, u.email, u.googleId, u.name, u.lastName, u.cedula, u.birthDate, u.phone, u.position,
                  u.profileComplete, u.roleId, u.resetToken, u.resetTokenExpiry, u.createdAt, role)
  }

  /** Stripping the password loses that column and nothing else. */
  lemma WithoutPasswordDropsOnlyPassword(u: User, u': User, role: Option<RoleInfo>)
    ensures WithoutPassword(u, role) == WithoutPassword(u', role) <==> u.(password := None) == u'.(password := None)
  {
    if WithoutPassword(u, role) == WithoutPassword(u', role) {
      assert u.id == u'.id && u.resetToken == u'.resetToken;
    }
  }

  /** `validateUser`: the user with that email, without its password, when its stored password is truthy (present
      and not empty) and `compare` accepts the given one; `null` for an unknown email, a Google-only account, an
      empty stored password, or a wrong password. */
  function ValidateUser(t: Tables, email: string, pass: string, compare: (string, string) -> bool): (r: Option<ValidatedUser>)
    ensures r.Some? <==>
      exists i :: FindUserByEmail(t.users, email) == Some(i) && UsersService.Filled(t.users[i].password) &&
        compare(pass, t.users[i].password.value)
    ensures r.Some? ==> exists u :: u in t.users && u.email == email && r.value == WithoutPassword(u, RoleOf(t, u))
  {
    match UsersService.FindByEmail(t, email)
    case None => None
    case Some(found) =>
      if UsersService.Filled(found.user.password) && compare(pass, found.user.password.value) then
        Some(WithoutPassword(found.user, found.role))
      else None
  }

  /** A valid table has one row per email, so the validation condition is about that row alone. */
  lemma ValidateUserOnValidTable(t: Tables, next: nat, email: string, pass: string, compare: (string, string) -> bool, u: User)
    requires UsersValid(t.users, next) && u in t.users && u.email == email
    ensures ValidateUser(t, email, pass, compare).Some? <==> UsersService.Filled(u.password) && compare(pass, u.password.value)
  {
    var k :| 0 <= k < |t.users| && t.users[k] == u;
    var i := FindUserByEmail(t.users, email).value;
    assert !(i < k) && !(k < i);
  }

  /** An account created through Google has no password, and a stored empty password is falsy: neither can
      ever pass password validation, whatever `compare` says. */
  lemma GoogleOnlyAccountRejected(t: Tables, next: nat, email: string, pass: string, compare: (string, string) -> bool, u: User)
    requires UsersValid(t.users, next) && u in t.users && u.email == email && (u.password.None? || u.password == Some(""))
    ensures ValidateUser(t, email, pass, compare).None?
  {
    ValidateUserOnValidTable(t, next, email, pass, compare, u);
  }

  /** What `login` reads of the user it is given: id, email, name, `profileComplete` (possibly absent) and
      role. */
  datatype Principal = Principal(id: nat, email: string, name: Option<string>, profileComplete: Option<bool>, role: Option<RoleInfo>)

  function PrincipalOf(u: User, role: Option<RoleInfo>): Principal
  {
    Principal(u.id, u.email, u.name, Some(u.profileComplete), role)
  }

  function PrincipalOfValidated(v: ValidatedUser): Principal
  {
    Principal(v.id, v.email, v.name, Some(v.profileComplete), v.role)
  }

  /** Logging in with what `validateUser` returned is logging in as the stored row with that email and its
      current role: stripping the password loses nothing `login` reads. */
  lemma ValidatedLoginMatchesStoredRow(t: Tables, email: string, pass: string, compare: (string, string) -> bool,
                                       sign: Session.Payload -> string)
    requires ValidateUser(t, email, pass, compare).Some?
    ensures exists u ::
      && u in t.users && u.email == email
      && Login(PrincipalOfValidated(ValidateUser(t, email, pass, compare).value), sign) == Login(PrincipalOf(u, RoleOf(t, u)), sign)
  {
    var u :| u in t.users && u.email == email && ValidateUser(t, email, pass, compare).value == WithoutPassword(u, RoleOf(t, u));
    assert PrincipalOfValidated(WithoutPassword(u, RoleOf(t, u))) == PrincipalOf(u, RoleOf(t, u));
  }

  /** The `user` part of `login`'s response. */
  datatype LoginView = LoginView(id: nat, email: string, role: Option<string>, permissions: seq<string>, name: Option<string>, profileComplete: bool)

  datatype LoginResult = LoginResult(accessToken: string, user: LoginView)

  /** The claims `login` signs. */
  function Claims(p: Principal): (r: Session.Payload)
    ensures r.sub == p.id && r.email == p.email
    ensures r.role == RoleName(p.role) && r.permissions == Some(RolePermissions(p.role))
  {
    Session.Payload(p.email, p.id, RoleName(p.role), Some(RolePermissions(p.role)))
  }

  /** `login`: a token signed over the claims, and a view carrying the same role and permissions;
      `profileComplete` defaults to false. */
  function Login(p: Principal, sign: Session.Payload -> string): (r: LoginResult)
    ensures r.accessToken == sign(Claims(p))
    ensures r.user.id == p.id && r.user.email == p.email && r.user.name == p.name
    ensures r.user.profileComplete == (p.profileComplete == Some(true))
    ensures Claims(p).role == r.user.role && Claims(p).permissions == Some(r.user.permissions)
  {
    LoginResult(sign(Claims(p)), LoginView(p.id, p.email, RoleName(p.role), RolePermissions(p.role), p.name, p.profileComplete.GetOr(false)))
  }

  /** The principal the JWT strategy rebuilds from a token `login` issued has the user's id and email and the
      role name and permission names the login view showed. */
  lemma LoginTokenRoundTrip(p: Principal, sign: Session.Payload -> string)
    ensures var v := Login(p, sign).user;
      Session.Validate(Claims(p)) == Session.RequestUser(v.id, v.email, v.role, v.permissions)
  {
  }

  /** `login` and `getMe` agree on a stored user's role and permissions while the tables stay as they were. */
  lemma LoginAgreesWithGetMe(t: Tables, next: nat, u: User, sign: Session.Payload -> string)
    requires UsersValid(t.users, next) && u in t.users
    ensures GetMe(t, u.id).Success?
    ensures GetMe(t, u.id).value.role == Login(PrincipalOf(u, RoleOf(t, u)), sign).user.role
    ensures GetMe(t, u.id).value.permissions == Login(PrincipalOf(u, RoleOf(t, u)), sign).user.permissions
  {
    UsersService.RowOfId(t.users, next, u);
  }

  /** For a non-admin role, the permission guard lets the principal of a freshly issued token through exactly
      when the token's permissions include every required one, as long as the role's links are unchanged. */
  lemma FreshTokenMatchesGuard(t: Tables, next: nat, required: seq<string>, u: User)
    requires required != [] && UsersValid(t.users, next) && u in t.users
    requires RoleOf(t, u).Some? && RoleOf(t, u).value.name != "admin"
    ensures var request := Session.Validate(Claims(PrincipalOf(u, RoleOf(t, u))));
      PermissionsGuard.CanActivate(Some(required), Some(request), t).Success? <==>
      forall n :: n in required ==> n in request.permissions
  {
    var request := Session.Validate(Claims(PrincipalOf(u, RoleOf(t, u))));
    UsersService.RowOfId(t.users, next, u);
    PermissionsGuard.NonAdminNeedsEveryPermission(required, request, t, RoleOf(t, u).value);
  }

  /** `getMe`: the view of the user, or Unauthorized ("Usuario no encontrado") when the row is gone. */
  function GetMe(t: Tables, userId: int): (r: Result<UserView, Error>)
    ensures r.Failure? <==> forall u :: u in t.users ==> u.id != userId
    ensures r.Failure? ==> r.error == Unauthorized(UnknownUser)
    ensures r.Success? ==> exists u :: u in t.users && u.id == userId && r.value == View(u, RoleOf(t, u))
  {
    match UsersService.FindById(t, userId)
    case None => Failure(Unauthorized(UnknownUser))
    case Some(found) => Success(View(found.user, found.role))
  }

  /** `role.findUnique({ where: { name: 'empleado' } })?.id`: the role new accounts are connected to. */
  function DefaultRoleId(t: Tables): (r: Option<nat>)
    ensures r.Some? <==> exists ro :: ro in t.roles && ro.name == "empleado"
    ensures r.Some? ==> exists ro :: ro in t.roles && ro.name == "empleado" && ro.id == r.value
  {
    match FindRoleByName(t.roles, "empleado")
    case None => None
    case Some(i) => Some(t.roles[i].id)
  }

  /** `register`: a new user with the hashed password and the name given, connected to "empleado" when that
      role exists (roleless otherwise), then logged in as re-read by email. A taken email is the store's
      P2002, rethrown, with nothing written. */
  method Register(db: Database, email: string, name: Option<string>, hashedPassword: string, now: int, sign: Session.Payload -> string)
    returns (r: Result<LoginResult, Error>)
    requires db.Valid()
    modifies db
    ensures db.Valid()
    ensures db.nextPermissionId == old(db.nextPermissionId) && db.nextRoleId == old(db.nextRoleId)
    ensures r.Failure? <==> exists u :: u in old(db.users) && u.email == email
    ensures r.Failure? ==> r.error == Rethrown(UniqueViolation("email")) && unchanged(db)
    ensures r.Success? ==>
      && |db.users| == |old(db.users)| + 1
      && db.users[..|old(db.users)|] == old(db.users)
      && var u := db.users[|old(db.users)|];
      && u.id == old(db.nextUserId) && u.email == email && u.name == name && u.password == Some(hashedPassword)
      && u.googleId.None? && !u.profileComplete
      && u.roleId == DefaultRoleId(old(db.Snapshot()))
      && u == UsersService.NewRow(old(db.nextUserId),
                UsersService.UserInput(email, Some(hashedPassword), None, name, None, None, None, None, None, false,
                                       DefaultRoleId(old(db.Snapshot()))), now)
      && db.nextUserId == old(db.nextUserId) + 1
      && r.value == Login(PrincipalOf(u, RoleOf(db.Snapshot(), u)), sign)
      && (u.roleId.Some? ==> r.value.user.role == Some("empleado"))
      && (u.roleId.None? ==> r.value.user.role.None? && r.value.user.permissions == [])
    ensures db.permissions == old(db.permissions) && db.roles == old(db.roles) && db.links == old(db.links)
  {
    var roleId := DefaultRoleId(db.Snapshot());
    var input := UsersService.UserInput(email, Some(hashedPassword), None, name, None, None, None, None, None, false, roleId);
    var created := UsersService.Create(db, input, now);
    if created.Failure? {
      return Failure(created.error);
    }
    var u := created.value.user;
    ConnectedRoleIsEmpleado(db.Snapshot(), db.nextRoleId, u);
    r := Success(Login(PrincipalOf(u, created.value.role), sign));
  }

  /** A user connected to the "empleado" role by id sees that role's name. */
  lemma ConnectedRoleIsEmpleado(t: Tables, next: nat, u: User)
    requires RolesValid(t.roles, next)
    requires u.roleId == DefaultRoleId(t)
    ensures u.roleId.Some? ==> RoleOf(t, u).Some? && RoleOf(t, u).value.name == "empleado"
    ensures u.roleId.None? ==> RoleOf(t, u).None?
  {
    if u.roleId.Some? {
      var k := FindRoleByName(t.roles, "empleado").value;
      var i := FindRole(t.roles, u.roleId.value).value;
      assert !(i < k) && !(k < i);
    }
  }

  /** `googleLogin`: Unauthorized without an email. An unknown email becomes a new password-less account
      with the Google id, connected to "empleado" when it exists; a known one gets only its `name` and
      `googleId` rewritten. Either way the user is then logged in as re-read by email. */
  method GoogleLogin(db: Database, email: string, name: string, googleId: string, now: int, sign: Session.Payload -> string)
    returns (r: Result<LoginResult, Error>)
    requires db.Valid()
    modifies db
    ensures db.Valid()
    ensures db.nextPermissionId == old(db.nextPermissionId) && db.nextRoleId == old(db.nextRoleId)
    ensures r.Failure? <==> email == ""
    ensures r.Failure? ==> r.error == Unauthorized(EmailRequired) && unchanged(db)
    ensures r.Success? && (exists u :: u in old(db.users) && u.email == email) ==>
      && |db.users| == |old(db.users)|
      && db.nextUserId == old(db.nextUserId)
      && exists i :: 0 <= i < |old(db.users)| && old(db.users)[i].email == email &&
           db.users == old(db.users)[i := old(db.users)[i].(name := Some(name), googleId := Some(googleId))] &&
           r.value == Login(PrincipalOf(db.users[i], RoleOf(db.Snapshot(), db.users[i])), sign)
    ensures r.Success? && (forall u :: u in old(db.users) ==> u.email != email) ==>
      && |db.users| == |old(db.users)| + 1
      && db.users[..|old(db.users)|] == old(db.users)
      && var u := db.users[|old(db.users)|];
      && u.id == old(db.nextUserId) && u.email == email && u.name == Some(name) && u.googleId == Some(googleId)
      && u.password.None? && !u.profileComplete
      && u.roleId == DefaultRoleId(old(db.Snapshot()))
      && u == UsersService.NewRow(old(db.nextUserId),
                UsersService.UserInput(email, None, Some(googleId), Some(name), None, None, None, None, None, false,
                                       DefaultRoleId(old(db.Snapshot()))), now)
      && db.nextUserId == old(db.nextUserId) + 1
      && r.value == Login(PrincipalOf(u, RoleOf(db.Snapshot(), u)), sign)
    ensures db.permissions == old(db.permissions) && db.roles == old(db.roles) && db.links == old(db.links)
  {
    if email == "" {
      return Failure(Unauthorized(EmailRequired));
    }
    var existing := FindUserByEmail(db.users, email);
    if existing.None? {
      var roleId := DefaultRoleId(db.Snapshot());
      var input := UsersService.UserInput(email, None, Some(googleId), Some(name), None, None, None, None, None, false, roleId);
      var created := UsersService.Create(db, input, now);
      var u := created.value.user;
      r := Success(Login(PrincipalOf(u, created.value.role), sign));
    } else {
      var i := existing.value;
      var u := db.users[i].(name := Some(name), googleId := Some(googleId));
      RewriteUserKeepsValid(db.users, db.nextUserId, i, u);
      db.users := db.users[i := u];
      var found := UsersService.FindByEmail(db.Snapshot(), email);
      assert db.users[i] == u;
      RowOfEmail(db.users, db.nextUserId, u);
      r := Success(Login(PrincipalOf(found.value.user, found.value.role), sign));
    }
  }

  /** In a valid table there is one row per email. */
  lemma RowOfEmail(us: seq<User>, next: nat, u: User)
    requires UsersValid(us, next) && u in us
    ensures FindUserByEmail(us, u.email).Some? && us[FindUserByEmail(us, u.email).value] == u
  {
    var k :| 0 <= k < |us| && us[k] == u;
    var i := FindUserByEmail(us, u.email).value;
    assert !(i < k) && !(k < i);
  }

  /** The reset mail `mailService.sendPasswordReset(email, token)` would send. */
  datatype ResetMail = ResetMail(to: string, token: string)

  /** `{ message: ... }` of `forgotPassword` and `resetPassword`. */
  datatype Notice = ResetMailSent | PasswordChanged

  /** `forgotPassword`: BadRequest for an unknown email, with nothing written and no mail. Otherwise the user
      gets `token` as reset token, expiring one hour after `now`, and the mail to that address carries it. */
  method ForgotPassword(db: Database, email: string, token: string, now: int)
    returns (r: Result<Notice, Error>, mail: Option<ResetMail>)
    requires db.Valid()
    modifies db
    ensures db.Valid()
    ensures db.nextPermissionId == old(db.nextPermissionId) && db.nextRoleId == old(db.nextRoleId)
    ensures r.Failure? <==> forall u :: u in old(db.users) ==> u.email != email
    ensures r.Failure? ==> r.error == BadRequest(EmailNotRegistered) && mail.None? && unchanged(db)
    ensures r.Success? ==>
      && r.value == ResetMailSent && mail == Some(ResetMail(email, token))
      && exists i :: 0 <= i < |old(db.users)| && old(db.users)[i].email == email &&
           db.users == old(db.users)[i := old(db.users)[i].(resetToken := Some(token), resetTokenExpiry := Some(now + ResetTokenLifetime))]
    ensures db.permissions == old(db.permissions) && db.roles == old(db.roles) && db.links == old(db.links)
    ensures db.nextUserId == old(db.nextUserId)
  {
    var found := FindUserByEmail(db.users, email);
    if found.None? {
      return Failure(BadRequest(EmailNotRegistered)), None;
    }
    var i := found.value;
    var u := db.users[i].(resetToken := Some(token), resetTokenExpiry := Some(now + ResetTokenLifetime));
    RewriteUserKeepsValid(db.users, db.nextUserId, i, u);
    db.users := db.users[i := u];
    r, mail := Success(ResetMailSent), Some(ResetMail(email, token));
  }

  /** The row `resetPassword` would redeem `token` on at time `now`: the first user holding the token, if its
      expiry is set and not before `now`; BadRequest otherwise. */
  function ResetTarget(us: seq<User>, token: string, now: int): (r: Result<nat, Error>)
    ensures r.Success? ==> r.value < |us| && us[r.value].resetToken == Some(token)
    ensures r.Success? <==>
      exists i :: 0 <= i < |us| && us[i].resetToken == Some(token) && us[i].resetTokenExpiry.Some? && us[i].resetTokenExpiry.value >= now &&
        FindUserByResetToken(us, token) == Some(i)
    ensures r.Failure? ==> r.error == BadRequest(InvalidOrExpiredToken)
  {
    match FindUserByResetToken(us, token)
    case None => Failure(BadRequest(InvalidOrExpiredToken))
    case Some(i) =>
      if us[i].resetTokenExpiry.None? || us[i].resetTokenExpiry.value < now then Failure(BadRequest(InvalidOrExpiredToken))
      else Success(i)
  }

  /** A token issued at `issued` to the only user holding it is redeemable exactly up to and including one hour
      later. */
  lemma TokenValidForOneHour(us: seq<User>, i: nat, token: string, issued: int, now: int)
    requires i < |us| && us[i].resetToken == Some(token) && us[i].resetTokenExpiry == Some(issued + ResetTokenLifetime)
    requires forall j :: 0 <= j < |us| && j != i ==> us[j].resetToken != Some(token)
    ensures ResetTarget(us, token, now).Success? <==> now <= issued + ResetTokenLifetime
  {
    assert FindUserByResetToken(us, token) == Some(i);
  }

  /** `resetPassword`: BadRequest (nothing written) when no user holds the token, its expiry is unset, or the
      expiry is before `now`. Otherwise that user's password becomes `hashedPassword` and both the token and
      its expiry are cleared, so the row can never be redeemed again. */
  method ResetPassword(db: Database, token: string, hashedPassword: string, now: int) returns (r: Result<Notice, Error>)
    requires db.Valid()
    modifies db
    ensures db.Valid()
    ensures db.nextPermissionId == old(db.nextPermissionId) && db.nextRoleId == old(db.nextRoleId)
    ensures r.Failure? <==> ResetTarget(old(db.users), token, now).Failure?
    ensures r.Failure? ==> r.error == BadRequest(InvalidOrExpiredToken) && unchanged(db)
    ensures r.Success? ==>
      && r.value == PasswordChanged
      && var i := ResetTarget(old(db.users), token, now).value;
      && db.users == old(db.users)[i := old(db.users)[i].(password := Some(hashedPassword), resetToken := None, resetTokenExpiry := None)]
    ensures (r.Success? &&
      forall j :: 0 <= j < |old(db.users)| && old(db.users)[j].resetToken == Some(token) ==> j == ResetTarget(old(db.users), token, now).value) ==>
      forall later :: ResetTarget(db.users, token, later).Failure?
    ensures db.permissions == old(db.permissions) && db.roles == old(db.roles) && db.links == old(db.links)
    ensures db.nextUserId == old(db.nextUserId)
  {
    var target := ResetTarget(db.users, token, now);
    if target.Failure? {
      return Failure(target.error);
    }
    var i := target.value;
    var u := db.users[i].(password := Some(hashedPassword), resetToken := None, resetTokenExpiry := None);
    RewriteUserKeepsValid(db.users, db.nextUserId, i, u);
    db.users := db.users[i := u];
    r := Success(PasswordChanged);
  }
}
