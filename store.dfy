/** The database behind the services: the permission, role, role-permission and user tables, as rows in
    insertion (ascending id) order, the lookups the services make, and the mutable `Database` that holds them. */
module Store {
  import opened Wrappers
  import opened Errors

  /** `moduleName` is the `module` column (a keyword in Dafny). */
  datatype Permission = Permission(id: nat, name: string, description: Option<string>, moduleName: string, action: string)

  datatype Role = Role(id: nat, name: string, description: Option<string>)

  /** One row of the role-permission join table. */
  datatype RolePermission = RolePermission(roleId: nat, permissionId: nat)

  /** A user row. `None` is SQL NULL; times (`birthDate`, `resetTokenExpiry`, `createdAt`) are milliseconds. */
  datatype User = User(
    id: nat,
    email: string,
    password: Option<string>,
    googleId: Option<string>,
    name: Option<string>,
    lastName: Option<string>,
    cedula: Option<string>,
    birthDate: Option<int>,
    phone: Option<string>,
    position: Option<string>,
    profileComplete: bool,
    roleId: Option<nat>,
    resetToken: Option<string>,
    resetTokenExpiry: Option<int>,
    createdAt: int)

  datatype Tables = Tables(
    permissions: seq<Permission>,
    roles: seq<Role>,
    links: seq<RolePermission>,
    users: seq<User>)

  /** A role as the `include: { role: { include: { permissions: { include: { permission: true } } } } }`
      queries return it, reduced to what every caller reads: its name and its permission names in link order. */
  datatype RoleInfo = RoleInfo(name: string, permissions: seq<string>)

  /** The first row satisfying `p`: `findUnique` on a unique column, `findFirst` otherwise. */
  function IndexWhere<T>(s: seq<T>, p: T -> bool): (r: Option<nat>)
    ensures r.Some? ==> r.value < |s| && p(s[r.value]) && forall k :: 0 <= k < r.value ==> !p(s[k])
    ensures r.None? ==> forall k :: 0 <= k < |s| ==> !p(s[k])
  {
    if s == [] then None
    else if p(s[0]) then Some(0)
    else match IndexWhere(s[1..], p)
      case None => None
      case Some(k) => Some(k + 1)
  }

  function FindPermission(ps: seq<Permission>, id: int): Option<nat>
  {
    IndexWhere(ps, (p: Permission) => p.id == id)
  }

  function FindPermissionByName(ps: seq<Permission>, name: string): Option<nat>
  {
    IndexWhere(ps, (p: Permission) => p.name == name)
  }

  function FindRole(rs: seq<Role>, id: int): Option<nat>
  {
    IndexWhere(rs, (r: Role) => r.id == id)
  }

  function FindRoleByName(rs: seq<Role>, name: string): Option<nat>
  {
    IndexWhere(rs, (r: Role) => r.name == name)
  }

  function FindUser(us: seq<User>, id: int): Option<nat>
  {
    IndexWhere(us, (u: User) => u.id == id)
  }

  function FindUserByEmail(us: seq<User>, email: string): Option<nat>
  {
    IndexWhere(us, (u: User) => u.email == email)
  }

  /** `findFirst({ where: { resetToken } })`. */
  function FindUserByResetToken(us: seq<User>, token: string): Option<nat>
  {
    IndexWhere(us, (u: User) => u.resetToken == Some(token))
  }

  /** The permission ids linked to role `roleId`, in link order. */
  function LinkedIds(links: seq<RolePermission>, roleId: nat): seq<nat>
  {
    if links == [] then []
    else (if links[0].roleId == roleId then [links[0].permissionId] else []) + LinkedIds(links[1..], roleId)
  }

  /** `rolePermission.deleteMany({ where: { roleId } })`. */
  function Unlinked(links: seq<RolePermission>, roleId: nat): seq<RolePermission>
  {
    if links == [] then []
    else (if links[0].roleId == roleId then [] else [links[0]]) + Unlinked(links[1..], roleId)
  }

  /** The nested `permissions: { create: ids.map(...) }` of a role write. */
  function NewLinks(roleId: nat, ids: seq<nat>): (r: seq<RolePermission>)
    ensures |r| == |ids|
    ensures forall k :: 0 <= k < |ids| ==> r[k] == RolePermission(roleId, ids[k])
  {
    if ids == [] then [] else [RolePermission(roleId, ids[0])] + NewLinks(roleId, ids[1..])
  }

  /** `rp.permission.name` for every linked id; a link whose permission row is gone has no name. */
  function PermissionNames(ps: seq<Permission>, ids: seq<nat>): (r: seq<string>)
    ensures |r| <= |ids|
    ensures forall n :: n in r ==> exists p :: p in ps && p.name == n
  {
    if ids == [] then []
    else
      (match FindPermission(ps, ids[0])
       case Some(i) => [ps[i].name]
       case None => [])
      + PermissionNames(ps, ids[1..])
  }

  function RolePermissionNames(t: Tables, roleId: nat): seq<string>
  {
    PermissionNames(t.permissions, LinkedIds(t.links, roleId))
  }

  /** The user's role with its permission names, as read fresh from the tables; `None` for a roleless user
      (or one whose role row is gone). */
  function RoleOf(t: Tables, u: User): (r: Option<RoleInfo>)
    ensures u.roleId.None? ==> r.None?
    ensures r.Some? ==> exists ro :: ro in t.roles && Some(ro.id) == u.roleId && ro.name == r.value.name
    ensures r.Some? ==> forall n :: n in r.value.permissions ==> exists p :: p in t.permissions && p.name == n
    ensures u.roleId.Some? && FindRole(t.roles, u.roleId.value).Some? ==>
      r == Some(RoleInfo(t.roles[FindRole(t.roles, u.roleId.value).value].name, RolePermissionNames(t, u.roleId.value)))
    ensures u.roleId.Some? && FindRole(t.roles, u.roleId.value).None? ==> r.None?
  {
    match u.roleId
    case None => None
    case Some(rid) =>
      match FindRole(t.roles, rid)
      case None => None
      case Some(i) => Some(RoleInfo(t.roles[i].name, RolePermissionNames(t, rid)))
  }

  /** `user.findUnique({ where: { id }, include: { role: ... } })?.role`. */
  function RoleOfUserId(t: Tables, userId: int): (r: Option<RoleInfo>)
    ensures (forall u :: u in t.users ==> u.id != userId) ==> r.None?
    ensures r.Some? ==> exists u :: u in t.users && u.id == userId && r == RoleOf(t, u)
    ensures FindUser(t.users, userId).Some? ==> r == RoleOf(t, t.users[FindUser(t.users, userId).value])
  {
    match FindUser(t.users, userId)
    case None => None
    case Some(i) => RoleOf(t, t.users[i])
  }

  lemma {:induction false} LinkedIdsAppend(a: seq<RolePermission>, b: seq<RolePermission>, roleId: nat)
    ensures LinkedIds(a + b, roleId) == LinkedIds(a, roleId) + LinkedIds(b, roleId)
  {
    if a == [] {
      assert a + b == b;
    } else {
      assert (a + b)[0] == a[0] && (a + b)[1..] == a[1..] + b;
      LinkedIdsAppend(a[1..], b, roleId);
    }
  }

  /** The links created for `roleId` are exactly the supplied ids, and belong to no other role. */
  lemma {:induction false} LinkedIdsOfNewLinks(roleId: nat, ids: seq<nat>, other: nat)
    ensures LinkedIds(NewLinks(roleId, ids), roleId) == ids
    ensures other != roleId ==> LinkedIds(NewLinks(roleId, ids), other) == []
  {
    if ids != [] {
      LinkedIdsOfNewLinks(roleId, ids[1..], other);
      assert NewLinks(roleId, ids)[1..] == NewLinks(roleId, ids[1..]);
      assert ids == [ids[0]] + ids[1..];
    }
  }

  /** `deleteMany` on one role removes all of its links and keeps every other role's links, in order. */
  lemma {:induction false} LinkedIdsOfUnlinked(links: seq<RolePermission>, roleId: nat, other: nat)
    ensures LinkedIds(Unlinked(links, roleId), roleId) == []
    ensures other != roleId ==> LinkedIds(Unlinked(links, roleId), other) == LinkedIds(links, other)
  {
    if links != [] {
      LinkedIdsOfUnlinked(links[1..], roleId, other);
      var head := if links[0].roleId == roleId then [] else [links[0]];
      LinkedIdsAppend(head, Unlinked(links[1..], roleId), roleId);
      LinkedIdsAppend(head, Unlinked(links[1..], roleId), other);
    }
  }

  /** `deleteMany` keeps a subset of the rows, none of them of the deleted role. */
  lemma {:induction false} UnlinkedRows(links: seq<RolePermission>, roleId: nat)
    ensures forall l :: l in Unlinked(links, roleId) <==> l in links && l.roleId != roleId
    ensures (forall i, j :: 0 <= i < j < |links| ==> links[i] != links[j]) ==>
      forall i, j :: 0 <= i < j < |Unlinked(links, roleId)| ==> Unlinked(links, roleId)[i] != Unlinked(links, roleId)[j]
  {
    if links != [] {
      UnlinkedRows(links[1..], roleId);
      if forall i, j :: 0 <= i < j < |links| ==> links[i] != links[j] {
        assert forall i, j :: 0 <= i < j < |links[1..]| ==> links[1..][i] != links[1..][j] by {
          forall i, j | 0 <= i < j < |links[1..]|
            ensures links[1..][i] != links[1..][j]
          {
            assert links[1..][i] == links[i + 1] && links[1..][j] == links[j + 1];
          }
        }
        assert links[0] !in links[1..];
      }
    }
  }

  /** A permission id is linked to a role exactly when some link row pairs them. */
  lemma {:induction false} LinkedIdsMembers(links: seq<RolePermission>, roleId: nat)
    ensures forall x :: x in LinkedIds(links, roleId) <==> exists l :: l in links && l.roleId == roleId && l.permissionId == x
  {
    if links != [] {
      LinkedIdsMembers(links[1..], roleId);
      assert links == [links[0]] + links[1..];
    }
  }

  /** The name of a permission id, when a row has it. */
  predicate NamedBy(ps: seq<Permission>, x: nat, n: string)
  {
    FindPermission(ps, x).Some? && ps[FindPermission(ps, x).value].name == n
  }

  /** A name is listed exactly when some id in the list names a permission row with that name. */
  lemma {:induction false} PermissionNamesMembers(ps: seq<Permission>, ids: seq<nat>)
    ensures forall n :: n in PermissionNames(ps, ids) <==> exists x :: x in ids && NamedBy(ps, x, n)
  {
    if ids != [] {
      PermissionNamesMembers(ps, ids[1..]);
      var head := if FindPermission(ps, ids[0]).Some? then [ps[FindPermission(ps, ids[0]).value].name] else [];
      assert PermissionNames(ps, ids) == head + PermissionNames(ps, ids[1..]);
      assert forall n :: n in head <==> NamedBy(ps, ids[0], n);
      assert forall x :: x in ids <==> x == ids[0] || x in ids[1..];
    }
  }

  /** When every id names a permission row, the names come one per id, in the order of the ids. */
  lemma {:induction false} PermissionNamesInOrder(ps: seq<Permission>, ids: seq<nat>)
    requires forall k :: 0 <= k < |ids| ==> FindPermission(ps, ids[k]).Some?
    ensures |PermissionNames(ps, ids)| == |ids|
    ensures forall k :: 0 <= k < |ids| ==> PermissionNames(ps, ids)[k] == ps[FindPermission(ps, ids[k]).value].name
  {
    if ids != [] {
      assert forall k :: 0 <= k < |ids[1..]| ==> ids[1..][k] == ids[k + 1];
      PermissionNamesInOrder(ps, ids[1..]);
    }
  }

  /** In a valid permission table, a role's permission names are exactly the names of the permission rows
      that a link pairs with the role. */
  lemma RoleNamesAreLinkedPermissions(t: Tables, next: nat, roleId: nat)
    requires PermissionsValid(t.permissions, next)
    ensures forall n :: n in RolePermissionNames(t, roleId) <==>
      exists p, l :: p in t.permissions && l in t.links && l.roleId == roleId && l.permissionId == p.id && p.name == n
  {
    LinkedIdsMembers(t.links, roleId);
    PermissionNamesMembers(t.permissions, LinkedIds(t.links, roleId));
    forall n
      ensures n in RolePermissionNames(t, roleId) <==>
        exists p, l :: p in t.permissions && l in t.links && l.roleId == roleId && l.permissionId == p.id && p.name == n
    {
      if n in RolePermissionNames(t, roleId) {
        var x :| x in LinkedIds(t.links, roleId) && NamedBy(t.permissions, x, n);
        var l :| l in t.links && l.roleId == roleId && l.permissionId == x;
        var p := t.permissions[FindPermission(t.permissions, x).value];
        assert p in t.permissions && l.permissionId == p.id && p.name == n;
      }
      if exists p, l :: p in t.permissions && l in t.links && l.roleId == roleId && l.permissionId == p.id && p.name == n {
        var p, l :| p in t.permissions && l in t.links && l.roleId == roleId && l.permissionId == p.id && p.name == n;
        var k :| 0 <= k < |t.permissions| && t.permissions[k] == p;
        var i := FindPermission(t.permissions, p.id).value;
        assert !(i < k) && !(k < i);
        assert NamedBy(t.permissions, p.id, n);
      }
    }
  }

  predicate PermissionsValid(ps: seq<Permission>, next: nat)
  {
    && (forall i, j :: 0 <= i < j < |ps| ==> ps[i].id < ps[j].id && ps[i].name != ps[j].name)
    && (forall i :: 0 <= i < |ps| ==> ps[i].id < next)
  }

  predicate RolesValid(rs: seq<Role>, next: nat)
  {
    && (forall i, j :: 0 <= i < j < |rs| ==> rs[i].id < rs[j].id && rs[i].name != rs[j].name)
    && (forall i :: 0 <= i < |rs| ==> rs[i].id < next)
  }

  /** Each (role, permission) pair is linked at most once, and only to a role id already handed out. */
  predicate LinksValid(ls: seq<RolePermission>, nextRole: nat)
  {
    && (forall i, j :: 0 <= i < j < |ls| ==> ls[i] != ls[j])
    && (forall i :: 0 <= i < |ls| ==> ls[i].roleId < nextRole)
  }

  /** Ids ascend; `email` is unique; a non-null `cedula` is unique. */
  predicate UsersValid(us: seq<User>, next: nat)
  {
    && (forall i, j :: 0 <= i < j < |us| ==>
          && us[i].id < us[j].id
          && us[i].email != us[j].email
          && (us[i].cedula.Some? ==> us[i].cedula != us[j].cedula))
    && (forall i :: 0 <= i < |us| ==> us[i].id < next)
  }

  /** The unique constraint that writing `u` into row `i` of `us` (a new row when `i == |us|`) would break,
      as the P2002 error the store raises (its target is the column). */
  function UserWriteConflict(us: seq<User>, i: nat, u: User): (r: Option<DbError>)
    ensures r.None? <==>
      forall j :: 0 <= j < |us| && j != i ==>
        us[j].email != u.email && (u.cedula.Some? ==> us[j].cedula != u.cedula)
    ensures r.Some? ==> r.value.UniqueViolation?
  {
    if exists j :: 0 <= j < |us| && j != i && us[j].email == u.email then
      Some(UniqueViolation("email"))
    else if u.cedula.Some? && exists j :: 0 <= j < |us| && j != i && us[j].cedula == u.cedula then
      Some(UniqueViolation("cedula"))
    else
      None
  }

  /** Writing a row that breaks no unique constraint, without changing its id, keeps the user table valid. */
  lemma WriteUserKeepsValid(us: seq<User>, next: nat, i: nat, u: User)
    requires UsersValid(us, next) && i < |us| && u.id == us[i].id
    requires UserWriteConflict(us, i, u).None?
    ensures UsersValid(us[i := u], next)
  {
  }

  /** Rewriting a user row without touching its id, email or cedula keeps the user table valid. */
  lemma RewriteUserKeepsValid(us: seq<User>, next: nat, i: nat, u: User)
    requires UsersValid(us, next) && i < |us|
    requires u.id == us[i].id && u.email == us[i].email && u.cedula == us[i].cedula
    ensures UsersValid(us[i := u], next)
  {
  }

  /** Appending the links of a role that has none yet keeps the link table valid, when the ids are distinct. */
  lemma AppendLinksKeepsValid(ls: seq<RolePermission>, nextRole: nat, roleId: nat, ids: seq<nat>)
    requires forall i, j :: 0 <= i < j < |ls| ==> ls[i] != ls[j]
    requires forall i :: 0 <= i < |ls| ==> ls[i].roleId < nextRole && ls[i].roleId != roleId
    requires roleId < nextRole
    requires forall a, b :: 0 <= a < b < |ids| ==> ids[a] != ids[b]
    ensures LinksValid(ls + NewLinks(roleId, ids), nextRole)
  {
    var r := ls + NewLinks(roleId, ids);
    forall a, b | 0 <= a < b < |r|
      ensures r[a] != r[b]
    {
      if b >= |ls| && a >= |ls| {
        assert r[a] == RolePermission(roleId, ids[a - |ls|]) && r[b] == RolePermission(roleId, ids[b - |ls|]);
      }
    }
  }

  /** Appending a row with a fresh id that breaks no unique constraint keeps the user table valid. */
  lemma AppendUserKeepsValid(us: seq<User>, next: nat, u: User)
    requires UsersValid(us, next) && u.id == next
    requires UserWriteConflict(us, |us|, u).None?
    ensures UsersValid(us + [u], next + 1)
  {
  }

  /** `delete({ where: { id } })` on the row at index `i`. */
  function RemoveAt<T>(s: seq<T>, i: nat): (r: seq<T>)
    requires i < |s|
    ensures |r| == |s| - 1
    ensures forall k :: 0 <= k < i ==> r[k] == s[k]
    ensures forall k :: i <= k < |r| ==> r[k] == s[k + 1]
  {
    s[..i] + s[i + 1..]
  }

  /** Removing one row keeps every other row, and only those. */
  lemma RemoveAtRows<T>(s: seq<T>, i: nat)
    requires i < |s|
    ensures forall x :: x in RemoveAt(s, i) <==> exists k :: 0 <= k < |s| && k != i && s[k] == x
  {
    var r := RemoveAt(s, i);
    forall x
      ensures x in r <==> exists k :: 0 <= k < |s| && k != i && s[k] == x
    {
      if x in r {
        var k :| 0 <= k < |r| && r[k] == x;
        if k < i {
          assert s[k] == x;
        } else {
          assert s[k + 1] == x;
        }
      }
      if exists k :: 0 <= k < |s| && k != i && s[k] == x {
        var k :| 0 <= k < |s| && k != i && s[k] == x;
        if k < i {
          assert r[k] == x;
        } else {
          assert r[k - 1] == x;
        }
      }
    }
  }

  lemma DeletePermissionRow(ps: seq<Permission>, next: nat, i: nat)
    requires PermissionsValid(ps, next) && i < |ps|
    ensures PermissionsValid(RemoveAt(ps, i), next)
    ensures forall p :: p in RemoveAt(ps, i) <==> p in ps && p.id != ps[i].id
  {
    RemoveAtRows(ps, i);
    var r := RemoveAt(ps, i);
    forall a, b | 0 <= a < b < |r|
      ensures r[a].id < r[b].id && r[a].name != r[b].name
    {
      var a' := if a < i then a else a + 1;
      var b' := if b < i then b else b + 1;
      assert r[a] == ps[a'] && r[b] == ps[b'];
    }
  }

  lemma DeleteRoleRow(rs: seq<Role>, next: nat, i: nat)
    requires RolesValid(rs, next) && i < |rs|
    ensures RolesValid(RemoveAt(rs, i), next)
    ensures forall r :: r in RemoveAt(rs, i) <==> r in rs && r.id != rs[i].id
  {
    RemoveAtRows(rs, i);
    var r := RemoveAt(rs, i);
    forall a, b | 0 <= a < b < |r|
      ensures r[a].id < r[b].id && r[a].name != r[b].name
    {
      var a' := if a < i then a else a + 1;
      var b' := if b < i then b else b + 1;
      assert r[a] == rs[a'] && r[b] == rs[b'];
    }
  }

  lemma DeleteUserRow(us: seq<User>, next: nat, i: nat)
    requires UsersValid(us, next) && i < |us|
    ensures UsersValid(RemoveAt(us, i), next)
    ensures forall u :: u in RemoveAt(us, i) <==> u in us && u.id != us[i].id
  {
    RemoveAtRows(us, i);
    var r := RemoveAt(us, i);
    forall a, b | 0 <= a < b < |r|
      ensures r[a].id < r[b].id && r[a].email != r[b].email && (r[a].cedula.Some? ==> r[a].cedula != r[b].cedula)
    {
      var a' := if a < i then a else a + 1;
      var b' := if b < i then b else b + 1;
      assert r[a] == us[a'] && r[b] == us[b'];
    }
  }

  /** The tables and the autoincrement counters behind them (the Prisma client the services share). */
  class Database {
    var permissions: seq<Permission>
    var roles: seq<Role>
    var links: seq<RolePermission>
    var users: seq<User>
    var nextPermissionId: nat
    var nextRoleId: nat
    var nextUserId: nat

    function Snapshot(): Tables
      reads this
    {
      Tables(permissions, roles, links, users)
    }

    ghost predicate Valid()
      reads this
    {
      && PermissionsValid(permissions, nextPermissionId)
      && RolesValid(roles, nextRoleId)
      && LinksValid(links, nextRoleId)
      && UsersValid(users, nextUserId)
    }

    constructor ()
      ensures Valid() && Snapshot() == Tables([], [], [], [])
      ensures nextPermissionId == 1 && nextRoleId == 1 && nextUserId == 1
    {
      permissions, roles, links, users := [], [], [], [];
      nextPermissionId, nextRoleId, nextUserId := 1, 1, 1;
    }
  }
}
