# RBAC authorization core of the backend, in Dafny

This project models the role-based access control core of a NestJS/Prisma backend:

- the request-time permission decision (`PermissionsGuard.canActivate`);
- the permission catalog (`PermissionsService`);
- roles and their permission links, and role assignment (`RolesService`);
- user records (`UsersService`): the `profileComplete` rule, the admin patch and the unique-violation mapping;
- the public projection of a user (`UsersController.getProfile` / `findOne`, also used by `AuthService.getMe`);
- the authentication flows (`AuthService`): password validation, the login token and view, registration, Google
  sign-in, and the password-reset token flow.

The database is the `Store.Database` class. It holds four tables (permissions, roles, role-permission links,
users) as sequences of rows in ascending-id order, plus the three autoincrement counters. Its `Valid()`
invariant states the unique constraints the services rely on:

- permission name;
- role name;
- user email;
- non-null user cedula;
- the (role, permission) link pair.

Operations that write call the store in the same order as the source and are `method`s with `modifies db`.
Reads are functions of a `Tables` snapshot.

Exceptions are the `Failure` side of a `Result`, with `Errors.Error` naming the exception class and message. A
storage error that a service does not translate is `Rethrown` with the Prisma code it stands for:

- P2002, a unique violation, with the column it hit;
- P2025, a missing record.

Outside calls and nondeterminism are parameters:

- `bcrypt.hash`: the hashed string;
- `bcrypt.compare`: a function `compare`;
- `jwtService.sign`: a function `sign`;
- `crypto.randomBytes`: the token;
- `new Date(string)`: a function `parseDate`;
- `Date.now()`: `now`, in milliseconds.

The supporting modules are:

- `Wrappers`: `Option` and `Result`;
- `Strings`: code-point lexicographic order and `includes`;
- `Sorting`: an insertion sort proved to return a sorted permutation;
- `Session`: the token claims and the request principal that the JWT strategy derives from them.

Two behaviours of the code worth noting:

- The permission guard refuses a request without a principal with `ForbiddenException('No autenticado')`, a
  Forbidden rather than an authentication failure (src/common/guards/permissions.guard.ts:25-27).
- `RolesService.update` deletes a role's links and then writes the role in a second, separate call, not in one
  transaction (src/modules/roles/roles.service.ts:65-85). If the second call fails, the old links are already
  gone, and `RolesService.Update` states exactly that.

## Model

| member | source | states |
|---|---|---|
| PermissionsGuard.CanActivate | src/common/guards/permissions.guard.ts:13-60 | every denial is a thrown Forbidden; the only normal result is `true` |
| PermissionsGuard.NoRequirementAllows | src/common/guards/permissions.guard.ts:19-22 | an absent or empty requirement allows any request, with or without a principal, whatever the tables hold |
| PermissionsGuard.MissingPrincipalForbidden | src/common/guards/permissions.guard.ts:24-27 | a requirement and no principal on the request gives Forbidden "No autenticado" |
| PermissionsGuard.RolelessForbidden | src/common/guards/permissions.guard.ts:43-45 | a principal whose user row is missing or has no role is denied with "no role assigned" |
| PermissionsGuard.AdminBypass | src/common/guards/permissions.guard.ts:47-50 | the role named exactly "admin" is allowed any requirement, even with no permission links |
| PermissionsGuard.NonAdminNeedsEveryPermission | src/common/guards/permissions.guard.ts:52-57 | any other role is allowed iff every required name is among its permission names (AND, exact match), and is otherwise denied as lacking permissions |
| PermissionsGuard.HoldsAllIsContainment | src/common/guards/permissions.guard.ts:53 | `every`/`includes` is exactly containment of the required list in the held list |
| PermissionsGuard.DecisionIgnoresTokenClaims | src/common/guards/permissions.guard.ts:29-41 | two principals with the same user id get the same decision: the role and permissions carried by the token are never consulted |
| PermissionsGuard.StaleAdminTokenDenied | src/common/guards/permissions.guard.ts:29-57 | a token claiming "admin" and the permission is still denied when the stored role lacks it |
| PermissionsGuard.SupervisorScenario | prisma/seed.ts:91-95 | the seeded supervisor role may view users but not manage them |
| RolesGuard.AnyOfRequiredRoles | src/common/guards/roles.guard.spec.ts:18-44 | with roles required, access is granted iff the principal's role claim is one of them (OR) |
| RolesGuard.CanActivate | src/common/guards/roles.guard.spec.ts:18-44 | no role metadata allows every request; an empty list or a roleless principal is refused |
| Session.Validate | src/modules/auth/jwt.strategy.spec.ts:30-52 | the principal carries the token's subject as user id, its email and role, and its permissions or an empty list |
| Session.OlderTokenHoldsNothing | src/modules/auth/jwt.strategy.spec.ts:42-52 | a token without a permissions claim yields a principal with no permissions; the other claims pass through |
| PermissionsService.FindAll | src/modules/permissions/permissions.service.ts:8-12 | every permission, as a permutation of the table, ordered by module and then action |
| PermissionsService.ModuleThenActionIsPreorder | src/modules/permissions/permissions.service.ts:10 | the (module asc, action asc) order is total and transitive |
| PermissionsService.FindByModule | src/modules/permissions/permissions.service.ts:14-19 | exactly the permissions of that module, each as often as in the table, ordered by action |
| PermissionsService.WithModule | src/modules/permissions/permissions.service.ts:16 | the module filter keeps a permission iff its module matches |
| PermissionsService.FindOne | src/modules/permissions/permissions.service.ts:21-27 | the permission with that id, or NotFound when no row has it |
| PermissionsService.Create | src/modules/permissions/permissions.service.ts:29-36 | Conflict on a taken name with the store unchanged; otherwise the record as given, with the next id, is appended and nothing else changes |
| PermissionsService.Remove | src/modules/permissions/permissions.service.ts:38-41 | NotFound for an absent id with the store unchanged; otherwise exactly the rows with that id are gone and every other table is untouched |
| PermissionsService.Dedup | src/modules/permissions/permissions.service.ts:46 | `distinct` keeps the same set of names, strictly ascending |
| PermissionsService.GetModules | src/modules/permissions/permissions.service.ts:43-50 | each module name occurring in the catalog exactly once, in strictly ascending order |
| RolesService.FindOne | src/modules/roles/roles.service.ts:19-35 | the role with that id, its linked permission ids in link order and the names of those permissions, or NotFound when none has it |
| Store.RoleOfUserId | src/common/guards/permissions.guard.ts:30-41 | no role for an absent user; for a user that exists, exactly the role of the row with that id |
| Store.PermissionNames | src/modules/roles/roles.service.ts:154 | at most one name per linked id, each the name of an existing permission |
| Store.PermissionNamesMembers | src/modules/roles/roles.service.ts:154 | a name is listed iff some linked id names a permission row with that name |
| Store.PermissionNamesInOrder | src/modules/roles/roles.service.ts:154 | when every linked id has a permission row, the names come one per id, in link order |
| Store.LinkedIdsMembers | src/modules/roles/roles.service.ts:141-149 | a permission id is linked to a role iff some link row pairs them |
| Store.RoleNamesAreLinkedPermissions | src/modules/roles/roles.service.ts:138-155 | on a valid permission table, a role's permission names are exactly the names of the permissions linked to it |
| Store.RoleOf | src/common/guards/permissions.guard.ts:30-41 | a user without a role id, or whose role row is gone, has no role; otherwise the role is that row's name with the names of its linked permissions, all of existing permissions |
| RolesService.GetUserPermissions | src/modules/roles/roles.service.ts:138-155 | empty for an absent user; a non-empty list is the permission list of that user's role, and every name in it belongs to an existing permission |
| RolesService.RolelessUserHoldsNothing | src/modules/roles/roles.service.ts:152 | a missing or roleless user holds no permissions |
| RolesService.UserPermissionsAreRoleLinks | src/modules/roles/roles.service.ts:138-155 | a user with a role holds the names of that role's linked permissions, in link order |
| RolesService.GuardAllowsLinkedPermissions | src/common/guards/permissions.guard.ts:29-57 | for a user whose stored role is not "admin", the guard allows a non-empty requirement iff each required name is the name of a permission linked to that role |
| RolesService.GuardAgreesWithUserPermissions | src/modules/roles/roles.service.ts:138-155 | for a non-admin role, the guard allows a requirement iff `getUserPermissions` lists every required name |
| RolesService.ConnectError | src/modules/roles/roles.service.ts:47-53 | a nested connect fails iff some id names no permission or some id is repeated |
| RolesService.Create | src/modules/roles/roles.service.ts:37-59 | Conflict on a taken name with nothing written; on a free name, a failed connect is its rethrown store error with nothing written; otherwise a new role whose links are exactly the supplied ids (none for missing or empty), written together or not at all |
| RolesService.InsertRole | src/modules/roles/roles.service.ts:43-54 | the new role row is appended with the next id and its links are exactly the supplied ids; users and permissions are untouched |
| RolesService.Update | src/modules/roles/roles.service.ts:61-86 | succeeds iff the role exists, no other role has the new name and every supplied permission id can be connected once; NotFound before any write, otherwise the failure is the store's unique violation or connect error; with `permissionIds` supplied (even empty) the role's links end up exactly the supplied ids on success and empty on a failed second step; without it the links are untouched; other roles' links never change |
| RolesService.DeleteLinksOf | src/modules/roles/roles.service.ts:64-67 | `deleteMany` leaves the role without links and every other role's links as they were |
| RolesService.WriteRole | src/modules/roles/roles.service.ts:69-85 | the role row is rewritten and the new links follow its old ones; no other role's links change |
| RolesService.Remove | src/modules/roles/roles.service.ts:88-91 | NotFound for an absent id with the store unchanged; otherwise exactly that role row is deleted |
| RolesService.AssignRoleToUser | src/modules/roles/roles.service.ts:93-118 | succeeds iff both the role and the user exist; the role is checked before the user (NotFound for either, nothing written); on success only that user's role id changes |
| RolesService.RemoveRoleFromUser | src/modules/roles/roles.service.ts:120-136 | NotFound for an absent user; otherwise that user's role becomes null and the row stays |
| UsersService.FindById | src/modules/users/users.service.ts:22-33 | the user with that id and its current role, or null when no row has it |
| UsersService.FindByEmail | src/modules/users/users.service.ts:9-20 | the user with that email and its current role, or null when no row has it |
| UsersService.NewestFirst | src/modules/users/users.service.ts:55 | every user, as a permutation of the table, the most recently created first |
| UsersService.FindAll | src/modules/users/users.service.ts:35-57 | one listing per user, newest first, each the selected columns of that row with its current role |
| UsersService.ListingDropsExactlyUnselected | src/modules/users/users.service.ts:37-54 | two rows are listed alike iff they differ at most in the unselected columns (password, Google id, role id, reset token and expiry) |
| UsersService.FindAllListsEveryUser | src/modules/users/users.service.ts:35-57 | every user appears in the listing with its current role, and every entry lists a user |
| UsersService.NewRow | src/modules/users/users.service.ts:59-60 | a created row has the next id, the given columns, no reset token, and the creation time |
| UsersService.Create | src/modules/users/users.service.ts:59-63 | a unique violation is rethrown with nothing written; otherwise one row is appended and the result is that row re-read by id with its role |
| UsersService.WithProfile | src/modules/users/users.service.ts:82-95 | the profile write stores `profileComplete` iff all six fields are truthy, writes each defined profile field, and leaves every other column unchanged |
| UsersService.CompleteFlagMeansFilledRow | src/modules/users/users.service.ts:82 | a row flagged complete has all six profile columns filled |
| UsersService.WithProfileIdempotent | src/modules/users/users.service.ts:86-95 | sending the same profile twice stores the same row as once |
| UsersService.MapWriteError | src/modules/users/users.service.ts:111-120 | every P2002 becomes a Conflict, the cedula Conflict iff its target contains "cedula"; anything else is rethrown unchanged |
| UsersService.OnlyCedulaCanClash | src/modules/users/users.service.ts:111-117 | a write that keeps the email can only violate the cedula constraint |
| UsersService.UpdateProfile | src/modules/users/users.service.ts:80-121 | succeeds iff the user exists and its profile write breaks no unique constraint; an absent id is the rethrown P2025; a cedula held by another user is the cedula Conflict with nothing written; otherwise that row gets the profile write and nothing else changes |
| UsersService.Patched | src/modules/users/users.service.ts:146-155 | each property that is not undefined replaces its column (null clears it, a null date becomes the epoch, a date string goes through the date parser); every other column is kept |
| UsersService.Apply | src/modules/users/users.service.ts:147-153 | an undefined property keeps the column, null clears it, a value replaces it |
| UsersService.ApplyDate | src/modules/users/users.service.ts:150 | an undefined date keeps the column, null stores the epoch, a string stores its parsed date |
| UsersService.EmptyPatchKeepsRow | src/modules/users/users.service.ts:146-155 | a patch with every property undefined changes nothing |
| UsersService.NullRoleIdDetaches | src/modules/users/users.service.ts:153 | a null `roleId` leaves the user with no role |
| UsersService.PatchIdempotent | src/modules/users/users.service.ts:146-155 | applying the same patch twice equals applying it once |
| UsersService.AdminUpdate | src/modules/users/users.service.ts:127-185 | succeeds iff the user exists and the patched row breaks no unique constraint; NotFound before any write for an absent user; a clash is the cedula Conflict with nothing written; otherwise only that row changes, by the patch, and it is returned with its role |
| UsersService.Remove | src/modules/users/users.service.ts:187-195 | NotFound for an absent user with nothing written; otherwise exactly that user is deleted and the message names its id |
| Views.RoleName | src/modules/users/users.controller.ts:38 | the flattened role is the role's name, or null exactly when there is no role |
| Views.RolePermissions | src/modules/users/users.controller.ts:34 | the permission list is the role's names in link order, or empty without a role |
| Views.View | src/modules/users/users.controller.ts:33-40 | the view keeps every column except password, reset token and expiry, and carries the flattened role |
| Views.ViewDropsExactlySecrets | src/modules/users/users.controller.ts:33 | two rows have the same view iff they differ at most in password, reset token and expiry |
| Views.FlatteningKeepsRole | src/modules/users/users.controller.ts:34-39 | the name and permission list recover the role; a null name means no role |
| UsersController.FindOne | src/modules/users/users.controller.ts:43-60 | the view of the user with that id and its current role, or null iff no row has it |
| UsersController.GetProfile | src/modules/users/users.controller.ts:21-41 | the plain error iff the request has no principal or user id 0; otherwise the principal's own view, or null iff its row is gone |
| UsersController.ProfileIsOwnLookup | src/modules/users/users.controller.ts:27-28 | for a principal with a non-zero id the profile is `findOne` of that id |
| UsersController.ProfileFlattensRole | src/modules/users/users.controller.ts:34-40 | the profile shows the stored role's name and permissions, or null and an empty list |
| UsersController.BirthDateArg | src/modules/users/users.controller.ts:64 | the date is converted iff it is a non-empty string; otherwise it is undefined |
| UsersController.EmptyBirthDateLeavesProfileIncomplete | src/modules/users/users.controller.ts:64-69 | a missing or empty date string makes the profile incomplete |
| UsersController.UpdateProfile | src/modules/users/users.controller.ts:62-70 | succeeds iff the principal's row exists and the profile write breaks no unique constraint (else the rethrown P2025 or the cedula Conflict, nothing written); on success exactly that row is replaced by the profile write of the converted body, so it gets the converted date (or keeps its own) and that body's completeness flag, and no other row or table changes |
| AuthService.ValidateUser | src/modules/auth/auth.service.ts:19-26 | a result iff the email's user has a truthy (present, non-empty) password that `compare` accepts; the result is that user without its password |
| AuthService.ValidateUserOnValidTable | src/modules/auth/auth.service.ts:19-26 | on a valid table, validation succeeds iff that user's password is present and non-empty and `compare` accepts it |
| AuthService.GoogleOnlyAccountRejected | src/modules/auth/auth.service.ts:21 | an account without a password, or with an empty one, never passes password validation |
| AuthService.WithoutPasswordDropsOnlyPassword | src/modules/auth/auth.service.ts:22 | stripping the password loses that column and nothing else |
| AuthService.ValidatedLoginMatchesStoredRow | src/modules/auth/auth.service.ts:19-38 | logging in with what `validateUser` returned gives the same token and view as logging in as the stored row with its role |
| AuthService.Claims | src/modules/auth/auth.service.ts:30-38 | the signed claims carry the id, the email, the role name or null, and the permission names or empty |
| AuthService.Login | src/modules/auth/auth.service.ts:28-51 | the token is signed over the claims; the view carries the same role and permissions as the claims; `profileComplete` defaults to false |
| AuthService.LoginTokenRoundTrip | src/modules/auth/auth.service.ts:33-46 | the principal rebuilt from an issued token has the id, email, role and permissions of the login view |
| AuthService.LoginAgreesWithGetMe | src/modules/auth/auth.service.ts:142-154 | on unchanged tables, `login` and `getMe` show a stored user the same role and permissions |
| AuthService.FreshTokenMatchesGuard | src/modules/auth/auth.service.ts:30-38 | for a non-admin role on unchanged tables, the guard allows a fresh token's principal iff the token lists every required permission |
| AuthService.GetMe | src/modules/auth/auth.service.ts:142-154 | Unauthorized iff the user row is gone; otherwise the user's view without secrets |
| AuthService.DefaultRoleId | src/modules/auth/auth.service.ts:57 | the id of the role named "empleado", when there is one |
| AuthService.ConnectedRoleIsEmpleado | src/modules/auth/auth.service.ts:57-66 | a user connected by that id has the role "empleado"; otherwise it is roleless |
| AuthService.Register | src/modules/auth/auth.service.ts:53-71 | a taken email is the rethrown unique violation with nothing written; otherwise exactly one new row is appended (the next id, the email, the hash and the name, no Google id, every other profile and reset column empty, not complete, created now, connected to "empleado" when it exists), the user counter advances, and the result is the login of that row |
| AuthService.GoogleLogin | src/modules/auth/auth.service.ts:73-108 | Unauthorized iff the email is empty; a known email only gets name and Google id rewritten; an unknown one becomes exactly one new row (the next id, the email, name and Google id, no password, every other profile and reset column empty, not complete, created now, connected to "empleado" when it exists) and the user counter advances; the result is the login of that row |
| AuthService.ForgotPassword | src/modules/auth/auth.service.ts:110-123 | BadRequest with nothing written and no mail for an unknown email; otherwise that user's token and an expiry one hour after now are stored, and the mail carries the token |
| AuthService.ResetTarget | src/modules/auth/auth.service.ts:126-130 | a token is redeemable iff its first holder has an expiry that is not before now; otherwise BadRequest |
| AuthService.TokenValidForOneHour | src/modules/auth/auth.service.ts:117-128 | a token issued to its only holder is redeemable exactly up to and including one hour later |
| AuthService.ResetPassword | src/modules/auth/auth.service.ts:125-140 | BadRequest with nothing written when the token is not redeemable; otherwise the password hash is replaced and token and expiry are cleared, so a token held by one user cannot be redeemed again |

## Left out

- Foreign keys and referential actions of the database schema are not modelled; the schema file is not part of
  this model. Deleting a permission or role removes only that row. Links and users' role ids that pointed at it
  stay, and reads treat them as naming nothing.
- UsersService.AdminUpdate: a `roleId` naming no role is written as given. The database's foreign-key error for
  it is not modelled.
- UsersService.AdminUpdate: `profileComplete` sent as `null` is not modelled; the model takes that property as
  undefined or a boolean. What the store does with a `null` written to it depends on the schema, which is not
  part of this model.
- UsersService.Create: a `roleId` naming no role is stored as given, for the same reason.
- `RolesService.findAll`, the `_count` of a role's users, and the `updatedAt` column are not modelled.
- Prisma `select`/`include` result shapes are not modelled. Service writes return the whole row; the
  projections that matter are modelled (`Views.UserView`, `AuthService.ValidatedUser`, `AuthService.LoginView`,
  `UsersService.UserListing`).
- UsersService.UpdateProfile: a field passed as `null` (not `undefined`) is not modelled. A missing field is
  `None` and leaves the column as it is.
- bcrypt, JWT signing and verification, `crypto.randomBytes` and the mail transport are outside calls. They are
  parameters, or the `ResetMail` out-parameter, and a token is represented by the claims it carries.
- Time is an integer in milliseconds. `new Date(string)` is the `parseDate` parameter, and invalid dates are not
  modelled.
- Strings are compared by code point. The database's collation may order any names differently, for example
  case-insensitively.
- A P2002 target is modelled as the name of the violated column. The register controller's P2002-to-409
  adapter and the controllers' routing and DTO validation are not modelled.
- The order among users with equal `createdAt`, or permissions with equal sort keys, is not fixed by the source
  and is not stated.
- Schema defaults are assumed: a new user gets `profileComplete = false` and `createdAt = now`.
- UsersService.Remove: the success message is represented by the id it names, not by its text.
- RolesGuard.AnyOfRequiredRoles: the role-only guard's source is not part of this model. Its behaviour is taken
  from its tests, which fix the no-metadata, match and no-match cases. The rest is the model's own choice: an
  exact-match `some` over the list, so an empty list and a roleless principal are refused, and roles match by
  equality rather than by substring.
- Concurrency between requests is not modelled: each operation runs alone on the store.
