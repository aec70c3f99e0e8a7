/** `UsersService`: user lookups, the profile and admin updates with their `profileComplete` rule and
    unique-violation mapping, the listing, creation and deletion of users. */
module UsersService {
  import opened Wrappers
  import opened Errors
  import opened Store
  import opened Strings
  import opened Sorting

  /** What `findOne` / `findById` return: the row with its role (name and permission names) included. */
  datatype UserWithRole = UserWithRole(user: User, role: Option<RoleInfo>)

  /** `findById`: the user with that id and its current role, or `null`. */
  function FindById(t: Tables, id: int): (r: Option<UserWithRole>)
    ensures r.Some? <==> exists u :: u in t.users && u.id == id
    ensures r.Some? ==> r.value.user in t.users && r.value.user.id == id && r.value.role == RoleOf(t, r.value.user)
  {
    match FindUser(t.users, id)
    case None => None
    case Some(i) => Some(UserWithRole(t.users[i], RoleOf(t, t.users[i])))
  }

  /** `findOne`: the user with that email and its current role, or `null`. */
  function FindByEmail(t: Tables, email: string): (r: Option<UserWithRole>)
    ensures r.Some? <==> exists u :: u in t.users && u.email == email
    ensures r.Some? ==> r.value.user in t.users && r.value.user.email == email && r.value.role == RoleOf(t, r.value.user)
  {
    match FindUserByEmail(t.users, email)
    case None => None
    case Some(i) => Some(UserWithRole(t.users[i], RoleOf(t, t.users[i])))
  }

  /** In a valid table there is one row per id: any row carrying the id is the one the lookup finds. */
  lemma RowOfId(us: seq<User>, next: nat, u: User)
    requires UsersValid(us, next) && u in us
    ensures FindUser(us, u.id).Some? && us[FindUser(us, u.id).value] == u
  {
    var k :| 0 <= k < |us| && us[k] == u;
    var i := FindUser(us, u.id).value;
    assert !(i < k) && !(k < i);
  }

  /** In a valid table the lookup by a row's id finds that very row. */
  lemma IndexOfId(us: seq<User>, next: nat, i: nat)
    requires UsersValid(us, next) && i < |us|
    ensures FindUser(us, us[i].id) == Some(i)
  {
    RowOfId(us, next, us[i]);
    var k := FindUser(us, us[i].id).value;
    assert !(i < k) && !(k < i);
  }

  /** `orderBy: { createdAt: 'desc' }`. */
  predicate NewerFirst(a: User, b: User)
  {
    a.createdAt >= b.createdAt
  }

  lemma NewerFirstIsPreorder()
    ensures TotalPreorder(NewerFirst)
  {
  }

  /** `orderBy: { createdAt: 'desc' }` over the user table: every row, the most recently created first. */
  function NewestFirst(t: Tables): (r: seq<User>)
    ensures multiset(r) == multiset(t.users)
    ensures forall i, j :: 0 <= i < j < |r| ==> r[i].createdAt >= r[j].createdAt
  {
    NewerFirstIsPreorder();
    Sort(t.users, NewerFirst)
  }

  /** One entry of `findAll`'s `select`: the row without its password, Google id, role id and reset columns,
      and with its role included. */
  datatype UserListing = UserListing(
    id: nat,
    email: string,
    name: Option<string>,
    lastName: Option<string>,
    cedula: Option<string>,
    phone: Option<string>,
    birthDate: Option<int>,
    position: Option<string>,
    profileComplete: bool,
    role: Option<RoleInfo>,
    createdAt: int)

  function Listing(u: User, role: Option<RoleInfo>): UserListing
  {
    UserListing(u.id, u.email, u.name, u.lastName, u.cedula, u.phone, u.birthDate, u.position, u.profileComplete,
                role, u.createdAt)
  }

  /** Two rows with the same role are listed alike exactly when they differ at most in the columns the
      `select` leaves out: the password hash and the reset token never reach the listing. */
  lemma ListingDropsExactlyUnselected(u: User, u': User, role: Option<RoleInfo>)
    ensures Listing(u, role) == Listing(u', role) <==>
      u.(password := None, googleId := None, roleId := None, resetToken := None, resetTokenExpiry := None) ==
      u'.(password := None, googleId := None, roleId := None, resetToken := None, resetTokenExpiry := None)
  {
    if Listing(u, role) == Listing(u', role) {
      assert u.id == u'.id && u.email == u'.email && u.createdAt == u'.createdAt;
    }
  }

  /** `findAll`: the listing of every user with its current role, the most recently created first. */
  function FindAll(t: Tables): (r: seq<UserListing>)
    ensures |r| == |t.users|
    ensures forall i, j :: 0 <= i < j < |r| ==> r[i].createdAt >= r[j].createdAt
    ensures forall k :: 0 <= k < |r| ==> r[k] == Listing(NewestFirst(t)[k], RoleOf(t, NewestFirst(t)[k]))
  {
    var rows := NewestFirst(t);
    assert |rows| == |multiset(rows)| == |multiset(t.users)| == |t.users|;
    seq(|rows|, k requires 0 <= k < |rows| => Listing(rows[k], RoleOf(t, rows[k])))
  }

  /** Every user is listed, with its current role, and every entry lists a user. */
  lemma FindAllListsEveryUser(t: Tables)
    ensures forall u :: u in t.users ==> Listing(u, RoleOf(t, u)) in FindAll(t)
    ensures forall e :: e in FindAll(t) ==> exists u :: u in t.users && e == Listing(u, RoleOf(t, u))
  {
    var rows := NewestFirst(t);
    forall u | u in t.users
      ensures Listing(u, RoleOf(t, u)) in FindAll(t)
    {
      assert u in multiset(rows);
      var k :| 0 <= k < |rows| && rows[k] == u;
      assert FindAll(t)[k] == Listing(u, RoleOf(t, u));
    }
    forall e | e in FindAll(t)
      ensures exists u :: u in t.users && e == Listing(u, RoleOf(t, u))
    {
      var k :| 0 <= k < |FindAll(t)| && FindAll(t)[k] == e;
      assert rows[k] in multiset(t.users);
    }
  }

  /** The columns of a `user.create`; `id` and `createdAt` are filled in by the store. */
  datatype UserInput = UserInput(
    email: string,
    password: Option<string>,
    googleId: Option<string>,
    name: Option<string>,
    lastName: Option<string>,
    cedula: Option<string>,
    birthDate: Option<int>,
    phone: Option<string>,
    position: Option<string>,
    profileComplete: bool,
    roleId: Option<nat>)

  /** The row `user.create` stores for `input`: no reset token, created at `now`. */
  function NewRow(id: nat, input: UserInput, now: int): (r: User)
    ensures r.id == id && r.email == input.email && r.password == input.password && r.roleId == input.roleId
    ensures r.resetToken.None? && r.resetTokenExpiry.None? && r.createdAt == now
  {
    User(id, input.email, input.password, input.googleId, input.name, input.lastName, input.cedula, input.birthDate,
         input.phone, input.position, input.profileComplete, input.roleId, None, None, now)
  }

  /** `create`: the row is inserted with the next id, then read back by that id with its role; a unique
      violation (email, cedula) is not caught and nothing is written. */
  method Create(db: Database, input: UserInput, now: int) returns (r: Result<UserWithRole, Error>)
    requires db.Valid()
    modifies db
    ensures db.Valid()
    ensures db.nextPermissionId == old(db.nextPermissionId) && db.nextRoleId == old(db.nextRoleId)
    ensures r.Failure? <==> UserWriteConflict(old(db.users), |old(db.users)|, NewRow(old(db.nextUserId), input, now)).Some?
    ensures r.Failure? ==>
      r.error == Rethrown(UserWriteConflict(old(db.users), |old(db.users)|, NewRow(old(db.nextUserId), input, now)).value)
      && unchanged(db)
    ensures r.Success? ==>
      && db.users == old(db.users) + [NewRow(old(db.nextUserId), input, now)]
      && db.nextUserId == old(db.nextUserId) + 1
      && Some(r.value) == FindById(db.Snapshot(), old(db.nextUserId))
      && r.value.user == NewRow(old(db.nextUserId), input, now)
      && db.permissions == old(db.permissions) && db.roles == old(db.roles) && db.links == old(db.links)
  {
    var row := NewRow(db.nextUserId, input, now);
    var clash := UserWriteConflict(db.users, |db.users|, row);
    if clash.Some? {
      return Failure(Rethrown(clash.value));
    }
    AppendUserKeepsValid(db.users, db.nextUserId, row);
    db.users := db.users + [row];
    db.nextUserId := db.nextUserId + 1;
    RowOfId(db.users, db.nextUserId, row);
    var found := FindById(db.Snapshot(), row.id);
    r := Success(found.value);
  }

  /** The profile fields `updateProfile` receives; `None` is `undefined` (the column is left as it is). */
  datatype ProfileData = ProfileData(
    name: Option<string>,
    lastName: Option<string>,
    cedula: Option<string>,
    birthDate: Option<int>,
    phone: Option<string>,
    position: Option<string>)

  /** JavaScript truthiness of an optional string: present and not empty. */
  predicate Filled(s: Option<string>)
  {
    s.Some? && s.value != ""
  }

  /** `!!(data.name && data.lastName && data.cedula && data.birthDate && data.phone && data.position)`; a date
      is an object and so truthy whenever present. */
  predicate IsProfileComplete(d: ProfileData)
  {
    Filled(d.name) && Filled(d.lastName) && Filled(d.cedula) && d.birthDate.Some? && Filled(d.phone) && Filled(d.position)
  }

  /** A defined value replaces the column; `undefined` leaves it. */
  function Put<T>(v: Option<T>, current: Option<T>): (r: Option<T>)
    ensures v.Some? ==> r == v
    ensures v.None? ==> r == current
  {
    if v.Some? then v else current
  }

  /** The row after `updateProfile`'s write: the six profile columns as supplied and `profileComplete` by the
      rule; nothing else. */
  function WithProfile(u: User, d: ProfileData): (r: User)
    ensures r.profileComplete <==> IsProfileComplete(d)
    ensures r.name == Put(d.name, u.name) && r.lastName == Put(d.lastName, u.lastName) && r.cedula == Put(d.cedula, u.cedula)
    ensures r.birthDate == Put(d.birthDate, u.birthDate) && r.phone == Put(d.phone, u.phone) && r.position == Put(d.position, u.position)
    ensures r.(name := u.name, lastName := u.lastName, cedula := u.cedula, birthDate := u.birthDate, phone := u.phone,
               position := u.position, profileComplete := u.profileComplete) == u
  {
    u.(name := Put(d.name, u.name), lastName := Put(d.lastName, u.lastName), cedula := Put(d.cedula, u.cedula),
       birthDate := Put(d.birthDate, u.birthDate), phone := Put(d.phone, u.phone), position := Put(d.position, u.position),
       profileComplete := IsProfileComplete(d))
  }

  /** A row flagged complete by `updateProfile` really has all six profile columns filled. */
  lemma CompleteFlagMeansFilledRow(u: User, d: ProfileData)
    requires WithProfile(u, d).profileComplete
    ensures var r := WithProfile(u, d);
      Filled(r.name) && Filled(r.lastName) && Filled(r.cedula) && r.birthDate.Some? && Filled(r.phone) && Filled(r.position)
  {
  }

  /** Sending the same profile twice stores the same row as sending it once. */
  lemma WithProfileIdempotent(u: User, d: ProfileData)
    ensures WithProfile(WithProfile(u, d), d) == WithProfile(u, d)
  {
  }

  /** The `catch` of `updateProfile` and `adminUpdate`: every P2002 becomes a Conflict, the cedula one when its
      target mentions "cedula"; any other error is rethrown as it is. */
  function MapWriteError(e: DbError): (r: Error)
    ensures r.Conflict? <==> e.UniqueViolation?
    ensures r.Conflict? ==> (r.reason == CedulaTaken || r.reason == DuplicateRecord)
    ensures r.Conflict? ==> (r.reason == CedulaTaken <==> Contains(e.target, "cedula"))
    ensures !r.Conflict? ==> r == Rethrown(e)
  {
    match e
    case UniqueViolation(target) => if Contains(target, "cedula") then Conflict(CedulaTaken) else Conflict(DuplicateRecord)
    case RecordNotFound => Rethrown(e)
  }

  lemma CedulaTargetMentionsCedula()
    ensures Contains("cedula", "cedula")
  {
    assert IsPrefix("cedula", "cedula");
  }

  /** Writing `u` over row `i` without changing its email can only clash on the cedula. */
  lemma OnlyCedulaCanClash(us: seq<User>, next: nat, i: nat, u: User)
    requires UsersValid(us, next) && i < |us| && u.email == us[i].email
    ensures UserWriteConflict(us, i, u).Some? ==> UserWriteConflict(us, i, u) == Some(UniqueViolation("cedula"))
  {
  }

  /** `updateProfile`: there is no existence check, so an absent id is the store's P2025, rethrown. Otherwise
      the six profile columns (as supplied) and `profileComplete` are written to that row and nothing else;
      a cedula held by another user is the cedula Conflict, with nothing written. */
  method UpdateProfile(db: Database, userId: int, d: ProfileData) returns (r: Result<User, Error>)
    requires db.Valid()
    modifies db
    ensures db.Valid()
    ensures db.nextPermissionId == old(db.nextPermissionId) && db.nextRoleId == old(db.nextRoleId)
    ensures (forall u :: u in old(db.users) ==> u.id != userId) ==> r == Failure(Rethrown(RecordNotFound))
    ensures r.Failure? ==> unchanged(db)
    ensures r.Failure? && (exists u :: u in old(db.users) && u.id == userId) ==> r.error == Conflict(CedulaTaken)
    ensures r.Success? <==>
      exists i :: 0 <= i < |old(db.users)| && old(db.users)[i].id == userId &&
        UserWriteConflict(old(db.users), i, WithProfile(old(db.users)[i], d)).None?
    ensures r.Success? ==>
      && r.value.profileComplete == IsProfileComplete(d)
      && (exists i :: 0 <= i < |old(db.users)| && old(db.users)[i].id == userId &&
            r.value == WithProfile(old(db.users)[i], d) && db.users == old(db.users)[i := r.value])
    ensures db.permissions == old(db.permissions) && db.roles == old(db.roles) && db.links == old(db.links)
    ensures db.nextUserId == old(db.nextUserId)
  {
    var found := FindUser(db.users, userId);
    if found.None? {
      return Failure(Rethrown(RecordNotFound));
    }
    var i := found.value;
    var u := WithProfile(db.users[i], d);
    var clash := UserWriteConflict(db.users, i, u);
    forall j | 0 <= j < |db.users| && db.users[j].id == userId
      ensures j == i
    {
      IndexOfId(db.users, db.nextUserId, j);
    }
    if clash.Some? {
      OnlyCedulaCanClash(db.users, db.nextUserId, i, u);
      CedulaTargetMentionsCedula();
      return Failure(MapWriteError(clash.value));
    }
    WriteUserKeepsValid(db.users, db.nextUserId, i, u);
    db.users := db.users[i := u];
    r := Success(u);
  }

  /** A property of the `adminUpdate` body as the validator lets it through: left `undefined`, sent as `null`
      (`@IsOptional` accepts both), or a value. */
  datatype Patch<T> = Undefined | Null | Value(value: T)

  /** `...(v !== undefined && { column: v })` on a nullable column: `null` clears it. */
  function Apply<T>(v: Patch<T>, current: Option<T>): (r: Option<T>)
    ensures v.Undefined? ==> r == current
    ensures v.Null? ==> r.None?
    ensures v.Value? ==> r == Some(v.value)
  {
    match v
    case Undefined => current
    case Null => None
    case Value(x) => Some(x)
  }

  /** `new Date(null)` is the epoch. */
  const Epoch := 0

  /** `...(birthDate !== undefined && { birthDate: new Date(birthDate) })`; `parseDate` stands for `new Date`. */
  function ApplyDate(v: Patch<string>, current: Option<int>, parseDate: string -> int): (r: Option<int>)
    ensures v.Undefined? ==> r == current
    ensures v.Null? ==> r == Some(Epoch)
    ensures v.Value? ==> r == Some(parseDate(v.value))
  {
    match v
    case Undefined => current
    case Null => Some(Epoch)
    case Value(s) => Some(parseDate(s))
  }

  /** The body of `adminUpdate`. `birthDate` is a date string; `profileComplete` is `None` when left
      `undefined`. */
  datatype AdminPatch = AdminPatch(
    name: Patch<string>,
    lastName: Patch<string>,
    cedula: Patch<string>,
    birthDate: Patch<string>,
    phone: Patch<string>,
    position: Patch<string>,
    roleId: Patch<nat>,
    profileComplete: Option<bool>)

  /** The row after `adminUpdate`'s write: each property that is not `undefined` replaces its column (`null`
      clears it, a `null` date becomes the epoch), every other column keeps its value. */
  function Patched(u: User, p: AdminPatch, parseDate: string -> int): (r: User)
    ensures r.name == Apply(p.name, u.name) && r.lastName == Apply(p.lastName, u.lastName)
    ensures r.cedula == Apply(p.cedula, u.cedula) && r.phone == Apply(p.phone, u.phone)
    ensures r.position == Apply(p.position, u.position) && r.roleId == Apply(p.roleId, u.roleId)
    ensures r.birthDate == ApplyDate(p.birthDate, u.birthDate, parseDate)
    ensures p.profileComplete.Some? ==> r.profileComplete == p.profileComplete.value
    ensures p.profileComplete.None? ==> r.profileComplete == u.profileComplete
    ensures r.id == u.id && r.email == u.email && r.password == u.password && r.googleId == u.googleId
    ensures r.resetToken == u.resetToken && r.resetTokenExpiry == u.resetTokenExpiry && r.createdAt == u.createdAt
  {
    u.(name := Apply(p.name, u.name), lastName := Apply(p.lastName, u.lastName), cedula := Apply(p.cedula, u.cedula),
       birthDate := ApplyDate(p.birthDate, u.birthDate, parseDate),
       phone := Apply(p.phone, u.phone), position := Apply(p.position, u.position), roleId := Apply(p.roleId, u.roleId),
       profileComplete := p.profileComplete.GetOr(u.profileComplete))
  }

  /** A patch with every property undefined writes nothing. */
  lemma EmptyPatchKeepsRow(u: User, parseDate: string -> int)
    ensures Patched(u, AdminPatch(Undefined, Undefined, Undefined, Undefined, Undefined, Undefined, Undefined, None), parseDate) == u
  {
  }

  /** A `null` `roleId` detaches the user from its role: afterwards the user has no role, hence no
      permissions for the guard. */
  lemma NullRoleIdDetaches(t: Tables, u: User, p: AdminPatch, parseDate: string -> int)
    requires p.roleId.Null?
    ensures RoleOf(t, Patched(u, p, parseDate)).None?
  {
  }

  /** Applying the same patch twice gives the same row as applying it once. */
  lemma PatchIdempotent(u: User, p: AdminPatch, parseDate: string -> int)
    ensures Patched(Patched(u, p, parseDate), p, parseDate) == Patched(u, p, parseDate)
  {
  }

  /** `adminUpdate`: NotFound for an absent user, checked before any write. Otherwise only the defined
      properties of the patch are written to that row, and the row is returned with its role; a unique
      violation is mapped as in `updateProfile`, with nothing written. */
  method AdminUpdate(db: Database, id: int, p: AdminPatch, parseDate: string -> int) returns (r: Result<UserWithRole, Error>)
    requires db.Valid()
    modifies db
    ensures db.Valid()
    ensures db.nextPermissionId == old(db.nextPermissionId) && db.nextRoleId == old(db.nextRoleId)
    ensures (forall u :: u in old(db.users) ==> u.id != id) ==> r == Failure(NotFound(UserEntity, id))
    ensures r.Failure? ==> unchanged(db)
    ensures r.Failure? && (exists u :: u in old(db.users) && u.id == id) ==> r.error == Conflict(CedulaTaken)
    ensures r.Success? <==>
      exists i :: 0 <= i < |old(db.users)| && old(db.users)[i].id == id &&
        UserWriteConflict(old(db.users), i, Patched(old(db.users)[i], p, parseDate)).None?
    ensures r.Success? ==>
      && (exists i :: 0 <= i < |old(db.users)| && old(db.users)[i].id == id &&
            r.value.user == Patched(old(db.users)[i], p, parseDate) && db.users == old(db.users)[i := r.value.user])
      && r.value.role == RoleOf(db.Snapshot(), r.value.user)
    ensures db.permissions == old(db.permissions) && db.roles == old(db.roles) && db.links == old(db.links)
    ensures db.nextUserId == old(db.nextUserId)
  {
    var existing := FindById(db.Snapshot(), id);
    if existing.None? {
      return Failure(NotFound(UserEntity, id));
    }
    var i := FindUser(db.users, id).value;
    var u := Patched(db.users[i], p, parseDate);
    var clash := UserWriteConflict(db.users, i, u);
    forall j | 0 <= j < |db.users| && db.users[j].id == id
      ensures j == i
    {
      IndexOfId(db.users, db.nextUserId, j);
    }
    if clash.Some? {
      OnlyCedulaCanClash(db.users, db.nextUserId, i, u);
      CedulaTargetMentionsCedula();
      return Failure(MapWriteError(clash.value));
    }
    WriteUserKeepsValid(db.users, db.nextUserId, i, u);
    db.users := db.users[i := u];
    r := Success(UserWithRole(u, RoleOf(db.Snapshot(), u)));
  }

  /** `{ message: "Usuario con ID <id> eliminado exitosamente" }`, represented by the id it names. */
  datatype RemovalNotice = RemovalNotice(userId: int)

  /** `remove`: NotFound (nothing written) for an absent user; otherwise exactly that user row is deleted
      and the message names its id. */
  method Remove(db: Database, id: int) returns (r: Result<RemovalNotice, Error>)
    requires db.Valid()
    modifies db
    ensures db.Valid()
    ensures db.nextPermissionId == old(db.nextPermissionId) && db.nextRoleId == old(db.nextRoleId)
    ensures r.Failure? <==> forall u :: u in old(db.users) ==> u.id != id
    ensures r.Failure? ==> r.error == NotFound(UserEntity, id) && unchanged(db)
    ensures r.Success? ==>
      && r.value == RemovalNotice(id)
      && (forall u :: u in db.users <==> u in old(db.users) && u.id != id)
      && |db.users| == |old(db.users)| - 1
      && db.permissions == old(db.permissions) && db.roles == old(db.roles) && db.links == old(db.links)
      && db.nextUserId == old(db.nextUserId)
  {
    var existing := FindById(db.Snapshot(), id);
    if existing.None? {
      return Failure(NotFound(UserEntity, id));
    }
    var i := FindUser(db.users, id).value;
    DeleteUserRow(db.users, db.nextUserId, i);
    db.users := RemoveAt(db.users, i);
    r := Success(RemovalNotice(id));
  }
}
