/** `UsersController`: the profile and lookup endpoints' projection of a user, and the `birthDate`
    conversion in front of `UsersService.updateProfile`. */
module UsersController {
  import opened Wrappers
  import opened Errors
  import opened Store
  import opened Session
  import opened Views
  import UsersService

  /** `findOne(:id)`: the view of that user with its current role, or `null`. */
  function FindOne(t: Tables, id: int): (r: Option<UserView>)
    ensures r.None? <==> forall u :: u in t.users ==> u.id != id
    ensures r.Some? ==> exists u :: u in t.users && u.id == id && r.value == View(u, RoleOf(t, u))
  {
    match UsersService.FindById(t, id)
    case None => None
    case Some(found) => Some(View(found.user, found.role))
  }

  /** `getProfile`: the plain error when the request carries no principal or a falsy `userId` (0); otherwise the
      principal's own view, or `null` when the row is gone. */
  function GetProfile(request: Option<RequestUser>, t: Tables): (r: Result<Option<UserView>, Error>)
    ensures r.Failure? <==> request.None? || request.value.userId == 0
    ensures r.Failure? ==> r.error == UserNotInRequest
    ensures r.Success? ==> (r.value.None? <==> forall u :: u in t.users ==> u.id != request.value.userId)
    ensures r.Success? && r.value.Some? ==>
      exists u :: u in t.users && u.id == request.value.userId && r.value.value == View(u, RoleOf(t, u))
  {
    if request.None? || request.value.userId == 0 then Failure(UserNotInRequest)
    else Success(FindOne(t, request.value.userId))
  }

  /** For a principal with a non-zero id, the profile is what `findOne` shows for that id. */
  lemma ProfileIsOwnLookup(request: RequestUser, t: Tables)
    requires request.userId != 0
    ensures GetProfile(Some(request), t) == Success(FindOne(t, request.userId))
  {
  }

  /** A user with a role sees that role's name and its permission names in link order; one without sees
      `null` and `[]`. */
  lemma ProfileFlattensRole(t: Tables, id: int, v: UserView)
    requires FindOne(t, id) == Some(v)
    ensures v.role.None? ==> v.permissions == []
    ensures exists u :: (u in t.users && u.id == id &&
      (v.role.Some? <==> RoleOf(t, u).Some?) &&
      (RoleOf(t, u).Some? ==> v.role == Some(RoleOf(t, u).value.name) && v.permissions == RoleOf(t, u).value.permissions))
  {
    var u :| u in t.users && u.id == id && v == View(u, RoleOf(t, u));
    assert v.role == RoleName(RoleOf(t, u));
  }

  /** The `UpdateProfileDto` body: `birthDate` is a date string, every field may be missing. */
  datatype ProfileDto = ProfileDto(
    name: Option<string>,
    lastName: Option<string>,
    cedula: Option<string>,
    birthDate: Option<string>,
    phone: Option<string>,
    position: Option<string>)

  /** `dto.birthDate ? new Date(dto.birthDate) : undefined`; `parseDate` stands for `new Date`. */
  function BirthDateArg(birthDate: Option<string>, parseDate: string -> int): (r: Option<int>)
    ensures r.Some? <==> birthDate.Some? && birthDate.value != ""
    ensures r.Some? ==> r.value == parseDate(birthDate.value)
  {
    if birthDate.Some? && birthDate.value != "" then Some(parseDate(birthDate.value)) else None
  }

  function ProfileArg(dto: ProfileDto, parseDate: string -> int): UsersService.ProfileData
  {
    UsersService.ProfileData(dto.name, dto.lastName, dto.cedula, BirthDateArg(dto.birthDate, parseDate), dto.phone, dto.position)
  }

  /** An empty date string counts as missing for both the conversion and the completeness rule. */
  lemma EmptyBirthDateLeavesProfileIncomplete(dto: ProfileDto, parseDate: string -> int)
    requires dto.birthDate.None? || dto.birthDate == Some("")
    ensures !UsersService.IsProfileComplete(ProfileArg(dto, parseDate))
  {
  }

  /** `updateProfile` (PUT /users/profile): the body with its date converted, written to the principal's own
      row by `UsersService.updateProfile`; it succeeds exactly when that row exists and the write breaks no
      unique constraint, and then only that row changes. */
  method UpdateProfile(db: Database, request: RequestUser, dto: ProfileDto, parseDate: string -> int)
    returns (r: Result<User, Error>)
    requires db.Valid()
    modifies db
    ensures db.Valid()
    ensures db.nextPermissionId == old(db.nextPermissionId) && db.nextRoleId == old(db.nextRoleId)
    ensures r.Success? <==>
      exists i :: 0 <= i < |old(db.users)| && old(db.users)[i].id == request.userId &&
        UserWriteConflict(old(db.users), i, UsersService.WithProfile(old(db.users)[i], ProfileArg(dto, parseDate))).None?
    ensures (forall u :: u in old(db.users) ==> u.id != request.userId) ==> r == Failure(Rethrown(RecordNotFound))
    ensures r.Failure? && (exists u :: u in old(db.users) && u.id == request.userId) ==> r.error == Conflict(CedulaTaken)
    ensures r.Failure? ==> unchanged(db)
    ensures r.Success? ==>
      && r.value.id == request.userId
      && r.value.profileComplete == UsersService.IsProfileComplete(ProfileArg(dto, parseDate))
      && (exists i ::
            && 0 <= i < |old(db.users)| && old(db.users)[i].id == request.userId
            && r.value == UsersService.WithProfile(old(db.users)[i], ProfileArg(dto, parseDate))
            && r.value.birthDate == (if dto.birthDate.Some? && dto.birthDate.value != "" then Some(parseDate(dto.birthDate.value))
                                     else old(db.users)[i].birthDate)
            && db.users == old(db.users)[i := r.value])
    ensures db.permissions == old(db.permissions) && db.roles == old(db.roles) && db.links == old(db.links)
    ensures db.nextUserId == old(db.nextUserId)
  {
    r := UsersService.UpdateProfile(db, request.userId, ProfileArg(dto, parseDate));
  }
}
