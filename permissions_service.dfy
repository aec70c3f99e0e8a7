/** `PermissionsService`: the permission catalog, its sorted and filtered listings, and its two writes. */
module PermissionsService {
  import opened Wrappers
  import opened Errors
  import opened Store
  import opened Sorting
  import opened Strings

  /** `orderBy: [{ module: 'asc' }, { action: 'asc' }]`. */
  predicate ModuleThenAction(p: Permission, q: Permission)
  {
    Lt(p.moduleName, q.moduleName) || (p.moduleName == q.moduleName && Le(p.action, q.action))
  }

  /** `orderBy: { action: 'asc' }`. */
  predicate ByAction(p: Permission, q: Permission)
  {
    Le(p.action, q.action)
  }

  lemma ModuleThenActionIsPreorder()
    ensures TotalPreorder(ModuleThenAction)
  {
    forall p: Permission, q: Permission
      ensures ModuleThenAction(p, q) || ModuleThenAction(q, p)
    {
      LeTotal(p.moduleName, q.moduleName);
      LeTotal(p.action, q.action);
    }
    forall p: Permission, q: Permission, s: Permission | ModuleThenAction(p, q) && ModuleThenAction(q, s)
      ensures ModuleThenAction(p, s)
    {
      if p.moduleName == q.moduleName && q.moduleName == s.moduleName {
        LeTransitive(p.action, q.action, s.action);
      } else {
        LeReflexive(p.moduleName);
        LeReflexive(q.moduleName);
        LeTransitive(p.moduleName, q.moduleName, s.moduleName);
        if p.moduleName == s.moduleName {
          LeAntisymmetric(p.moduleName, q.moduleName);
        }
      }
    }
  }

  lemma ByActionIsPreorder()
    ensures TotalPreorder(ByAction)
  {
    forall p: Permission, q: Permission
      ensures ByAction(p, q) || ByAction(q, p)
    {
      LeTotal(p.action, q.action);
    }
    forall p: Permission, q: Permission, s: Permission | ByAction(p, q) && ByAction(q, s)
      ensures ByAction(p, s)
    {
      LeTransitive(p.action, q.action, s.action);
    }
  }

  lemma StringLeIsPreorder()
    ensures TotalPreorder(Le)
  {
    forall a: string, b: string
      ensures Le(a, b) || Le(b, a)
    {
      LeTotal(a, b);
    }
    forall a: string, b: string, c: string | Le(a, b) && Le(b, c)
      ensures Le(a, c)
    {
      LeTransitive(a, b, c);
    }
  }

  /** `findAll`: every permission, ordered by module and then by action. */
  function FindAll(t: Tables): (r: seq<Permission>)
    ensures multiset(r) == multiset(t.permissions)
    ensures SortedBy(r, ModuleThenAction)
  {
    ModuleThenActionIsPreorder();
    Sort(t.permissions, ModuleThenAction)
  }

  /** `where: { module }`, keeping table order. */
  function WithModule(ps: seq<Permission>, m: string): (r: seq<Permission>)
    ensures forall p :: p in r <==> p in ps && p.moduleName == m
  {
    if ps == [] then []
    else (if ps[0].moduleName == m then [ps[0]] else []) + WithModule(ps[1..], m)
  }

  /** `findByModule`: exactly the permissions of module `m`, ordered by action. */
  function FindByModule(t: Tables, m: string): (r: seq<Permission>)
    ensures forall p :: p in r <==> p in t.permissions && p.moduleName == m
    ensures multiset(r) == multiset(WithModule(t.permissions, m))
    ensures SortedBy(r, ByAction)
  {
    ByActionIsPreorder();
    var r := Sort(WithModule(t.permissions, m), ByAction);
    PermutationSameElements(r, WithModule(t.permissions, m));
    r
  }

  /** `findOne`: the permission with that id, or NotFound when there is none. */
  function FindOne(t: Tables, id: int): (r: Result<Permission, Error>)
    ensures r.Success? ==> r.value in t.permissions && r.value.id == id
    ensures r.Failure? ==> r.error == NotFound(PermissionEntity, id) && forall p :: p in t.permissions ==> p.id != id
  {
    match FindPermission(t.permissions, id)
    case Some(i) => Success(t.permissions[i])
    case None => Failure(NotFound(PermissionEntity, id))
  }

  function ModuleNames(ps: seq<Permission>): (r: seq<string>)
    ensures forall m :: m in r <==> exists p :: p in ps && p.moduleName == m
  {
    if ps == [] then [] else [ps[0].moduleName] + ModuleNames(ps[1..])
  }

  /** In an ascending sequence whose first two elements differ, the first occurs only once. */
  lemma HeadOccursOnce(s: seq<string>)
    requires SortedBy(s, Le) && |s| >= 2 && s[0] != s[1]
    ensures s[0] !in s[1..]
  {
    if s[0] in s[1..] {
      var j :| 1 <= j < |s| && s[j] == s[0];
      assert Le(s[1], s[j]);
      LeAntisymmetric(s[0], s[1]);
    }
  }

  /** `distinct`: collapses the runs of an ascending sequence. */
  function Dedup(s: seq<string>): (r: seq<string>)
    requires SortedBy(s, Le)
    ensures forall x :: x in r <==> x in s
    ensures forall i, j :: 0 <= i < j < |r| ==> Lt(r[i], r[j])
    ensures |r| > 0 ==> |s| > 0 && r[0] == s[0]
  {
    if |s| <= 1 then
      assert |s| == 1 ==> s == [s[0]];
      s
    else if s[0] == s[1] then
      assert s == [s[0]] + s[1..];
      Dedup(s[1..])
    else
      var rest := Dedup(s[1..]);
      HeadOccursOnce(s);
      assert forall x :: x in rest ==> Le(s[0], x) && x != s[0] by {
        forall x | x in rest
          ensures Le(s[0], x) && x != s[0]
        {
          var j :| 1 <= j < |s| && s[j] == x;
        }
      }
      assert s == [s[0]] + s[1..];
      [s[0]] + rest
  }

  /** `getModules`: each module name once, in ascending order. */
  function GetModules(t: Tables): (r: seq<string>)
    ensures forall m :: m in r <==> exists p :: p in t.permissions && p.moduleName == m
    ensures forall i, j :: 0 <= i < j < |r| ==> Lt(r[i], r[j])
  {
    StringLeIsPreorder();
    var sorted := Sort(ModuleNames(t.permissions), Le);
    PermutationSameElements(sorted, ModuleNames(t.permissions));
    Dedup(sorted)
  }

  /** `create`: Conflict on a name already in the catalog, the store untouched; otherwise the record as given,
      with the next id, appended. */
  method Create(db: Database, name: string, description: Option<string>, moduleName: string, action: string)
    returns (r: Result<Permission, Error>)
    requires db.Valid()
    modifies db
    ensures db.Valid()
    ensures db.nextRoleId == old(db.nextRoleId) && db.nextUserId == old(db.nextUserId)
    ensures r.Failure? <==> exists p :: p in old(db.permissions) && p.name == name
    ensures r.Failure? ==> r.error == Conflict(PermissionNameTaken(name)) && unchanged(db)
    ensures r.Success? ==>
      && r.value == Permission(old(db.nextPermissionId), name, description, moduleName, action)
      && db.permissions == old(db.permissions) + [r.value]
      && db.roles == old(db.roles) && db.links == old(db.links) && db.users == old(db.users)
      && db.nextPermissionId == old(db.nextPermissionId) + 1
      && db.nextRoleId == old(db.nextRoleId) && db.nextUserId == old(db.nextUserId)
  {
    if FindPermissionByName(db.permissions, name).Some? {
      return Failure(Conflict(PermissionNameTaken(name)));
    }
    var p := Permission(db.nextPermissionId, name, description, moduleName, action);
    db.permissions := db.permissions + [p];
    db.nextPermissionId := db.nextPermissionId + 1;
    r := Success(p);
  }

  /** `remove`: NotFound for an absent id, the store untouched; otherwise exactly that permission is deleted
      (its links are left in place and no longer name anything). */
  method Remove(db: Database, id: int) returns (r: Result<Permission, Error>)
    requires db.Valid()
    modifies db
    ensures db.Valid()
    ensures db.nextPermissionId == old(db.nextPermissionId) && db.nextRoleId == old(db.nextRoleId) && db.nextUserId == old(db.nextUserId)
    ensures r.Failure? <==> forall p :: p in old(db.permissions) ==> p.id != id
    ensures r.Failure? ==> r.error == NotFound(PermissionEntity, id) && unchanged(db)
    ensures r.Success? ==>
      && r.value in old(db.permissions) && r.value.id == id
      && (forall p :: p in db.permissions <==> p in old(db.permissions) && p.id != id)
      && |db.permissions| == |old(db.permissions)| - 1
      && db.roles == old(db.roles) && db.links == old(db.links) && db.users == old(db.users)
      && db.nextPermissionId == old(db.nextPermissionId)
  {
    var found := FindOne(db.Snapshot(), id);
    if found.Failure? {
      return found;
    }
    var i := FindPermission(db.permissions, id).value;
    DeletePermissionRow(db.permissions, db.nextPermissionId, i);
    db.permissions := RemoveAt(db.permissions, i);
    r := found;
  }
}
