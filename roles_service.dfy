/** `RolesService`: roles, their permission links, and the assignment of a role to a user. */
module RolesService {
  import opened Wrappers
  import opened Errors
  import opened Store
  import PermissionsGuard
  import Session

  /** A role with its links, as `include: { permissions: { include: { permission: true } } }` returns it. */
  datatype RoleDetail = RoleDetail(role: Role, permissionIds: seq<nat>, permissionNames: seq<string>)

  function Detail(t: Tables, role: Role): RoleDetail
  {
    RoleDetail(role, LinkedIds(t.links, role.id), RolePermissionNames(t, role.id))
  }

  /** `findOne`: the role with that id and its links, or NotFound. */
  function FindOne(t: Tables, id: int): (r: Result<RoleDetail, Error>)
    ensures r.Success? ==> r.value.role in t.roles && r.value.role.id == id && r.value.permissionIds == LinkedIds(t.links, id)
    ensures r.Success? ==> r.value.permissionNames == PermissionNames(t.permissions, r.value.permissionIds)
    ensures r.Failure? ==> r.error == NotFound(RoleEntity, id) && forall ro :: ro in t.roles ==> ro.id != id
  {
    match FindRole(t.roles, id)
    case Some(i) => Success(Detail(t, t.roles[i]))
    case None => Failure(NotFound(RoleEntity, id))
  }

  /** `getUserPermissions`: the permission names of the user's current role, in link order; `[]` for a
      missing or roleless user. */
  function GetUserPermissions(t: Tables, userId: int): (r: seq<string>)
    ensures (forall u :: u in t.users ==> u.id != userId) ==> r == []
    ensures r != [] ==> exists u :: u in t.users && u.id == userId && RoleOf(t, u).Some? && r == RoleOf(t, u).value.permissions
    ensures forall n :: n in r ==> exists p :: p in t.permissions && p.name == n
  {
    match RoleOfUserId(t, userId)
    case None => []
    case Some(role) => role.permissions
  }

  /** A user that does not exist, or has no role, holds no permissions. */
  lemma RolelessUserHoldsNothing(t: Tables, userId: int)
    requires FindUser(t.users, userId).None? || t.users[FindUser(t.users, userId).value].roleId.None?
    ensures GetUserPermissions(t, userId) == []
  {
  }

  /** A user with a role holds the names of that role's linked permissions, in link order. */
  lemma UserPermissionsAreRoleLinks(t: Tables, userId: int, i: nat, rid: nat)
    requires FindUser(t.users, userId) == Some(i) && t.users[i].roleId == Some(rid)
    requires exists ro :: ro in t.roles && ro.id == rid
    ensures GetUserPermissions(t, userId) == PermissionNames(t.permissions, LinkedIds(t.links, rid))
  {
    assert FindRole(t.roles, rid).Some?;
  }

  /** In terms of the tables: for a user whose role row is not "admin", the permission guard allows a non-empty
      requirement exactly when each required name is the name of a permission that a link pairs with that role.
      Linking a permission to a role is what lets the role's users through on it. */
  lemma GuardAllowsLinkedPermissions(required: seq<string>, request: Session.RequestUser, t: Tables, next: nat,
                                     i: nat, rid: nat, j: nat)
    requires required != [] && PermissionsValid(t.permissions, next)
    requires FindUser(t.users, request.userId) == Some(i) && t.users[i].roleId == Some(rid)
    requires FindRole(t.roles, rid) == Some(j) && t.roles[j].name != "admin"
    ensures PermissionsGuard.CanActivate(Some(required), Some(request), t).Success? <==>
      forall n :: n in required ==>
        exists p, l :: p in t.permissions && l in t.links && l.roleId == rid && l.permissionId == p.id && p.name == n
  {
    var role := RoleInfo(t.roles[j].name, RolePermissionNames(t, rid));
    assert RoleOfUserId(t, request.userId) == Some(role);
    PermissionsGuard.NonAdminNeedsEveryPermission(required, request, t, role);
    RoleNamesAreLinkedPermissions(t, next, rid);
  }

  /** For a user whose role is not "admin", the permission guard allows a non-empty requirement exactly
      when `getUserPermissions` lists every required name. */
  lemma GuardAgreesWithUserPermissions(required: seq<string>, request: Session.RequestUser, t: Tables)
    requires required != []
    requires RoleOfUserId(t, request.userId).Some? && RoleOfUserId(t, request.userId).value.name != "admin"
    ensures PermissionsGuard.CanActivate(Some(required), Some(request), t).Success? <==>
      forall p :: p in required ==> p in GetUserPermissions(t, request.userId)
  {
    PermissionsGuard.NonAdminNeedsEveryPermission(required, request, t, RoleOfUserId(t, request.userId).value);
  }

  /** What `connect`ing `ids` in a nested create raises: P2025 for an id with no permission row, P2002 on the
      link table's key for an id supplied twice. */
  function ConnectError(ps: seq<Permission>, ids: seq<nat>): (r: Option<DbError>)
    ensures r.None? <==>
      && (forall k :: 0 <= k < |ids| ==> exists p :: p in ps && p.id == ids[k])
      && (forall a, b :: 0 <= a < b < |ids| ==> ids[a] != ids[b])
  {
    if exists k :: 0 <= k < |ids| && FindPermission(ps, ids[k]).None? then Some(RecordNotFound)
    else if exists a, b :: 0 <= a < b < |ids| && ids[a] == ids[b] then Some(UniqueViolation("roleId_permissionId"))
    else
      assert forall k :: 0 <= k < |ids| ==> ps[FindPermission(ps, ids[k]).value].id == ids[k];
      None
  }

  /** `create`: Conflict when the name is taken (nothing written); otherwise a new role whose links are exactly
      the supplied ids, none when `permissionIds` is missing or empty. The role and its links are one write:
      a bad id writes nothing. */
  method Create(db: Database, name: string, description: Option<string>, permissionIds: Option<seq<nat>>)
    returns (r: Result<RoleDetail, Error>)
    requires db.Valid()
    modifies db
    ensures db.Valid()
    ensures db.nextPermissionId == old(db.nextPermissionId) && db.nextUserId == old(db.nextUserId)
    ensures (exists ro :: ro in old(db.roles) && ro.name == name) ==>
      r == Failure(Conflict(RoleNameTaken(name))) && unchanged(db)
    ensures r.Failure? && (forall ro :: ro in old(db.roles) ==> ro.name != name) ==>
      && ConnectError(old(db.permissions), permissionIds.GetOr([])).Some?
      && r.error == Rethrown(ConnectError(old(db.permissions), permissionIds.GetOr([])).value)
    ensures r.Success? <==>
      (forall ro :: ro in old(db.roles) ==> ro.name != name) && ConnectError(old(db.permissions), permissionIds.GetOr([])).None?
    ensures r.Failure? ==> unchanged(db)
    ensures r.Success? ==>
      && r.value.role == Role(old(db.nextRoleId), name, description)
      && db.roles == old(db.roles) + [r.value.role]
      && db.links == old(db.links) + NewLinks(r.value.role.id, permissionIds.GetOr([]))
      && LinkedIds(db.links, r.value.role.id) == permissionIds.GetOr([])
      && r.value.permissionIds == permissionIds.GetOr([])
      && db.permissions == old(db.permissions) && db.users == old(db.users)
      && db.nextRoleId == old(db.nextRoleId) + 1
  {
    if FindRoleByName(db.roles, name).Some? {
      return Failure(Conflict(RoleNameTaken(name)));
    }
    var ids := permissionIds.GetOr([]);
    var failure := ConnectError(db.permissions, ids);
    if failure.Some? {
      return Failure(Rethrown(failure.value));
    }
    var role := Role(db.nextRoleId, name, description);
    InsertRole(db, role, ids);
    r := Success(Detail(db.Snapshot(), role));
  }

  /** The write of `create`: the role row appended with the next id, together with its links to `ids`. */
  method InsertRole(db: Database, role: Role, ids: seq<nat>)
    requires db.Valid() && role.id == db.nextRoleId
    requires forall ro :: ro in db.roles ==> ro.name != role.name
    requires ConnectError(db.permissions, ids).None?
    modifies db
    ensures db.Valid()
    ensures db.roles == old(db.roles) + [role]
    ensures db.links == old(db.links) + NewLinks(role.id, ids)
    ensures LinkedIds(db.links, role.id) == ids
    ensures db.permissions == old(db.permissions) && db.users == old(db.users)
    ensures db.nextRoleId == old(db.nextRoleId) + 1
    ensures db.nextPermissionId == old(db.nextPermissionId) && db.nextUserId == old(db.nextUserId)
  {
    AppendLinksKeepsValid(db.links, db.nextRoleId + 1, role.id, ids);
    LinkedIdsAppend(db.links, NewLinks(role.id, ids), role.id);
    LinkedIdsOfNewLinks(role.id, ids, role.id);
    NoLinksBeyondCounter(db.links, db.nextRoleId);
    db.roles := db.roles + [role];
    db.links := db.links + NewLinks(role.id, ids);
    db.nextRoleId := db.nextRoleId + 1;
  }

  lemma {:induction false} NoLinksBeyondCounter(ls: seq<RolePermission>, nextRole: nat)
    requires forall i :: 0 <= i < |ls| ==> ls[i].roleId < nextRole
    ensures LinkedIds(ls, nextRole) == []
  {
    if ls != [] {
      NoLinksBeyondCounter(ls[1..], nextRole);
    }
  }

  /** `update`: NotFound (nothing written) for an absent id. Otherwise, when `permissionIds` is supplied (even
      `[]`) the role's links are first deleted, then the role row is written with the defined fields and the
      new links. The two steps are separate: if the second fails (a taken name, a bad permission id) the old
      links are already gone. With `permissionIds` undefined the links are untouched. */
  method Update(db: Database, id: int, name: Option<string>, description: Option<string>, permissionIds: Option<seq<nat>>)
    returns (r: Result<RoleDetail, Error>)
    requires db.Valid()
    modifies db
    ensures db.Valid()
    ensures (forall ro :: ro in old(db.roles) ==> ro.id != id) ==> r == Failure(NotFound(RoleEntity, id)) && unchanged(db)
    ensures r.Success? <==>
      && (exists ro :: ro in old(db.roles) && ro.id == id)
      && !NameTakenByOther(old(db.roles), id, name)
      && ConnectError(old(db.permissions), permissionIds.GetOr([])).None?
    ensures permissionIds.Some? && (exists ro :: ro in old(db.roles) && ro.id == id) ==>
      LinkedIds(db.links, id) == (if r.Success? then permissionIds.value else [])
    ensures permissionIds.None? ==> db.links == old(db.links)
    ensures forall other: nat :: other != id ==> LinkedIds(db.links, other) == LinkedIds(old(db.links), other)
    ensures r.Failure? ==> db.roles == old(db.roles)
    ensures r.Failure? && NameTakenByOther(old(db.roles), id, name) && (exists ro :: ro in old(db.roles) && ro.id == id) ==>
      r.error == Rethrown(UniqueViolation("name"))
    ensures r.Failure? && !NameTakenByOther(old(db.roles), id, name) && (exists ro :: ro in old(db.roles) && ro.id == id) ==>
      r.error == Rethrown(ConnectError(old(db.permissions), permissionIds.GetOr([])).value)
    ensures r.Success? ==>
      && r.value.role.id == id
      && (exists i :: 0 <= i < |old(db.roles)| && old(db.roles)[i].id == id &&
            r.value.role == old(db.roles)[i].(name := name.GetOr(old(db.roles)[i].name),
                                              description := if description.Some? then description else old(db.roles)[i].description) &&
            db.roles == old(db.roles)[i := r.value.role])
    ensures db.permissions == old(db.permissions) && db.users == old(db.users)
    ensures db.nextPermissionId == old(db.nextPermissionId) && db.nextRoleId == old(db.nextRoleId)
    ensures db.nextUserId == old(db.nextUserId)
  {
    var found := FindOne(db.Snapshot(), id);
    if found.Failure? {
      return found;
    }
    var i := FindRole(db.roles, id).value;
    var rid: nat := db.roles[i].id;
    if permissionIds.Some? {
      DeleteLinksOf(db, rid);
    }
    if NameTakenByOther(db.roles, id, name) {
      return Failure(Rethrown(UniqueViolation("name")));
    }
    var ids := permissionIds.GetOr([]);
    var failure := ConnectError(db.permissions, ids);
    if failure.Some? {
      return Failure(Rethrown(failure.value));
    }
    var role := db.roles[i].(name := name.GetOr(db.roles[i].name),
                             description := if description.Some? then description else db.roles[i].description);
    RenameKeepsNamesDistinct(db.roles, db.nextRoleId, i, name);
    WriteRole(db, i, role, ids);
    r := Success(Detail(db.Snapshot(), role));
  }

  /** The P2002 `role.update` raises on its `name` column: another role already has the new name. */
  predicate NameTakenByOther(rs: seq<Role>, id: int, name: Option<string>)
  {
    name.Some? && exists ro :: ro in rs && ro.id != id && ro.name == name.value
  }

  /** Renaming row `i` to a name no other role has (or keeping its own) leaves the names distinct. */
  lemma RenameKeepsNamesDistinct(rs: seq<Role>, next: nat, i: nat, name: Option<string>)
    requires RolesValid(rs, next) && i < |rs| && !NameTakenByOther(rs, rs[i].id, name)
    ensures forall k :: 0 <= k < |rs| && k != i ==> rs[k].name != name.GetOr(rs[i].name)
  {
    forall k | 0 <= k < |rs| && k != i
      ensures rs[k].name != name.GetOr(rs[i].name)
    {
      assert rs[k] in rs;
      assert rs[k].id != rs[i].id by {
        if k < i {} else {}
      }
    }
  }

  /** The first step of `update`: `rolePermission.deleteMany({ where: { roleId } })`. */
  method DeleteLinksOf(db: Database, rid: nat)
    requires db.Valid()
    modifies db
    ensures db.Valid()
    ensures LinkedIds(db.links, rid) == []
    ensures forall k :: 0 <= k < |db.links| ==> db.links[k].roleId != rid
    ensures forall other: nat :: other != rid ==> LinkedIds(db.links, other) == LinkedIds(old(db.links), other)
    ensures db.permissions == old(db.permissions) && db.roles == old(db.roles) && db.users == old(db.users)
    ensures db.nextPermissionId == old(db.nextPermissionId) && db.nextRoleId == old(db.nextRoleId)
    ensures db.nextUserId == old(db.nextUserId)
  {
    UnlinkedRows(db.links, rid);
    forall other: nat | other != rid
      ensures LinkedIds(Unlinked(db.links, rid), other) == LinkedIds(db.links, other)
    {
      LinkedIdsOfUnlinked(db.links, rid, other);
    }
    LinkedIdsOfUnlinked(db.links, rid, rid);
    db.links := Unlinked(db.links, rid);
  }

  /** The second step of `update`: the role row rewritten, and links created for `ids` (a role that gets new
      links has none left). */
  method WriteRole(db: Database, i: nat, role: Role, ids: seq<nat>)
    requires db.Valid() && i < |db.roles| && role.id == db.roles[i].id
    requires forall k :: 0 <= k < |db.roles| && k != i ==> db.roles[k].name != role.name
    requires ConnectError(db.permissions, ids).None?
    requires ids != [] ==> forall k :: 0 <= k < |db.links| ==> db.links[k].roleId != role.id
    modifies db
    ensures db.Valid()
    ensures db.roles == old(db.roles)[i := role]
    ensures ids != [] ==> LinkedIds(db.links, role.id) == LinkedIds(old(db.links), role.id) + ids
    ensures ids == [] ==> db.links == old(db.links)
    ensures forall other: nat :: other != role.id ==> LinkedIds(db.links, other) == LinkedIds(old(db.links), other)
    ensures db.permissions == old(db.permissions) && db.users == old(db.users)
    ensures db.nextPermissionId == old(db.nextPermissionId) && db.nextRoleId == old(db.nextRoleId)
    ensures db.nextUserId == old(db.nextUserId)
  {
    db.roles := db.roles[i := role];
    if ids != [] {
      AppendLinksKeepsValid(db.links, db.nextRoleId, role.id, ids);
      LinkedIdsAppend(db.links, NewLinks(role.id, ids), role.id);
      LinkedIdsOfNewLinks(role.id, ids, role.id);
      forall other: nat | other != role.id
        ensures LinkedIds(db.links + NewLinks(role.id, ids), other) == LinkedIds(db.links, other)
      {
        LinkedIdsAppend(db.links, NewLinks(role.id, ids), other);
        LinkedIdsOfNewLinks(role.id, ids, other);
      }
      db.links := db.links + NewLinks(role.id, ids);
    }
  }

  /** `remove`: NotFound (nothing written) for an absent id; otherwise exactly that role row is deleted. Its
      links and its users' `roleId` are not touched: they no longer lead to a role. */
  method Remove(db: Database, id: int) returns (r: Result<Role, Error>)
    requires db.Valid()
    modifies db
    ensures db.Valid()
    ensures db.nextPermissionId == old(db.nextPermissionId) && db.nextRoleId == old(db.nextRoleId) && db.nextUserId == old(db.nextUserId)
    ensures r.Failure? <==> forall ro :: ro in old(db.roles) ==> ro.id != id
    ensures r.Failure? ==> r.error == NotFound(RoleEntity, id) && unchanged(db)
    ensures r.Success? ==>
      && r.value in old(db.roles) && r.value.id == id
      && (forall ro :: ro in db.roles <==> ro in old(db.roles) && ro.id != id)
      && db.permissions == old(db.permissions) && db.links == old(db.links) && db.users == old(db.users)
      && db.nextRoleId == old(db.nextRoleId)
  {
    var found := FindOne(db.Snapshot(), id);
    if found.Failure? {
      return Failure(found.error);
    }
    var i := FindRole(db.roles, id).value;
    DeleteRoleRow(db.roles, db.nextRoleId, i);
    r := Success(db.roles[i]);
    db.roles := RemoveAt(db.roles, i);
  }

  /** `assignRoleToUser`: the role is checked first, then the user (NotFound for either, nothing written);
      then that user's `roleId` is set and nothing else changes. */
  method AssignRoleToUser(db: Database, userId: int, roleId: int) returns (r: Result<User, Error>)
    requires db.Valid()
    modifies db
    ensures db.Valid()
    ensures db.nextPermissionId == old(db.nextPermissionId) && db.nextRoleId == old(db.nextRoleId) && db.nextUserId == old(db.nextUserId)
    ensures (forall ro :: ro in old(db.roles) ==> ro.id != roleId) ==> r == Failure(NotFound(RoleEntity, roleId))
    ensures (exists ro :: ro in old(db.roles) && ro.id == roleId) && (forall u :: u in old(db.users) ==> u.id != userId) ==>
      r == Failure(NotFound(UserEntity, userId))
    ensures r.Success? <==> (exists ro :: ro in old(db.roles) && ro.id == roleId) && (exists u :: u in old(db.users) && u.id == userId)
    ensures r.Failure? ==> unchanged(db)
    ensures r.Success? ==>
      && roleId >= 0
      && (exists i :: 0 <= i < |old(db.users)| && old(db.users)[i].id == userId &&
            r.value == old(db.users)[i].(roleId := Some(roleId as nat)) &&
            db.users == old(db.users)[i := r.value])
      && db.permissions == old(db.permissions) && db.roles == old(db.roles) && db.links == old(db.links)
  {
    var role := FindOne(db.Snapshot(), roleId);
    if role.Failure? {
      return Failure(role.error);
    }
    var found := FindUser(db.users, userId);
    if found.None? {
      return Failure(NotFound(UserEntity, userId));
    }
    var i := found.value;
    var u := db.users[i].(roleId := Some(role.value.role.id));
    RewriteUserKeepsValid(db.users, db.nextUserId, i, u);
    db.users := db.users[i := u];
    r := Success(u);
  }

  /** `removeRoleFromUser`: NotFound (nothing written) for an absent user; otherwise that user's `roleId`
      becomes null and the user row stays. */
  method RemoveRoleFromUser(db: Database, userId: int) returns (r: Result<User, Error>)
    requires db.Valid()
    modifies db
    ensures db.Valid()
    ensures db.nextPermissionId == old(db.nextPermissionId) && db.nextRoleId == old(db.nextRoleId) && db.nextUserId == old(db.nextUserId)
    ensures r.Failure? <==> forall u :: u in old(db.users) ==> u.id != userId
    ensures r.Failure? ==> r.error == NotFound(UserEntity, userId) && unchanged(db)
    ensures r.Success? ==>
      && (exists i :: 0 <= i < |old(db.users)| && old(db.users)[i].id == userId &&
            r.value == old(db.users)[i].(roleId := None) &&
            db.users == old(db.users)[i := r.value])
      && |db.users| == |old(db.users)|
      && db.permissions == old(db.permissions) && db.roles == old(db.roles) && db.links == old(db.links)
  {
    var found := FindUser(db.users, userId);
    if found.None? {
      return Failure(NotFound(UserEntity, userId));
    }
    var i := found.value;
    var u := db.users[i].(roleId := None);
    RewriteUserKeepsValid(db.users, db.nextUserId, i, u);
    db.users := db.users[i := u];
    r := Success(u);
  }
}
