/** Seeding of the permission catalogue and of the role matrix, and the access check that reads the result. */
module PermissionSeed {
  import opened Optional

  datatype Permission = Permission(id: nat, key: string, area: string, action: string, description: string)

  datatype CatalogueEntry = CatalogueEntry(key: string, area: string, action: string, description: string)

  datatype Role = Role(id: nat, name: string)

  datatype Grant = Grant(roleId: nat, permissionId: nat)

  // The permission keys a role is to have.
  datatype Row = Row(role: string, keys: seq<string>)

  // Fresh permission ids are drawn from nextId.
  datatype Tables = Tables(permissions: seq<Permission>, grants: seq<Grant>, nextId: nat)

  function FindKey(permissions: seq<Permission>, key: string): (i: Option<nat>)
    ensures i.Some? ==> i.value < |permissions| && permissions[i.value].key == key
    ensures i.None? ==> forall k :: 0 <= k < |permissions| ==> permissions[k].key != key
  {
    if permissions == [] then None
    else if permissions[0].key == key then Some(0)
    else
      var i := FindKey(permissions[1..], key);
      assert forall k :: 0 < k < |permissions| ==> permissions[k] == permissions[1..][k-1];
      if i.Some? then Some(i.value + 1) else None
  }

  function Upsert(db: Tables, c: CatalogueEntry): Tables {
    match FindKey(db.permissions, c.key)
    case Some(i) =>
      db.(permissions := db.permissions[i := db.permissions[i].(
        description := c.description, area := c.area, action := c.action)])
    case None =>
      db.(permissions := db.permissions + [Permission(db.nextId, c.key, c.area, c.action, c.description)],
          nextId := db.nextId + 1)
  }

  // The id of the row with a key that is there.
  function IdOf(permissions: seq<Permission>, key: string): nat
    requires FindKey(permissions, key).Some?
  {
    permissions[FindKey(permissions, key).value].id
  }

  lemma UpsertFinds(db: Tables, c: CatalogueEntry)
    ensures FindKey(Upsert(db, c).permissions, c.key).Some?
  {
    var after := Upsert(db, c).permissions;
    var i := FindKey(db.permissions, c.key);
    assert after[if i.Some? then i.value else |db.permissions|].key == c.key;
  }

  datatype Catalogued = Catalogued(db: Tables, ids: map<string, nat>)

  /** The upsert loop: the rows it leaves, and the map from keys to ids it fills. */
  function SeedCatalogue(db: Tables, ids: map<string, nat>, entries: seq<CatalogueEntry>): Catalogued
    decreases entries
  {
    if entries == [] then Catalogued(db, ids)
    else
      var next := Upsert(db, entries[0]);
      UpsertFinds(db, entries[0]);
      SeedCatalogue(next, ids[entries[0].key := IdOf(next.permissions, entries[0].key)], entries[1..])
  }

  // Add the grants that are missing, key by key.
  function AssignKeys(grants: seq<Grant>, roleId: nat, ids: map<string, nat>, keys: seq<string>): seq<Grant>
    decreases keys
  {
    if keys == [] then grants
    else if keys[0] !in ids then AssignKeys(grants, roleId, ids, keys[1..])
    else
      var g := Grant(roleId, ids[keys[0]]);
      AssignKeys(if g in grants then grants else grants + [g], roleId, ids, keys[1..])
  }

  // The ids by role name; a later row replaces an earlier one.
  function RoleIds(roles: seq<Role>): map<string, nat> {
    if roles == [] then map[]
    else var n := |roles| - 1; RoleIds(roles[..n])[roles[n].name := roles[n].id]
  }

  function AssignRows(grants: seq<Grant>, roleIds: map<string, nat>, ids: map<string, nat>, matrix: seq<Row>)
    : seq<Grant>
    decreases matrix
  {
    if matrix == [] then grants
    else
      AssignRows(
        if matrix[0].role in roleIds then AssignKeys(grants, roleIds[matrix[0].role], ids, matrix[0].keys) else grants,
        roleIds, ids, matrix[1..])
  }

  function Seed(db: Tables, roles: seq<Role>, entries: seq<CatalogueEntry>, matrix: seq<Row>): Tables {
    var c := SeedCatalogue(db, map[], entries);
    c.db.(grants := AssignRows(c.db.grants, RoleIds(roles), c.ids, matrix))
  }

  /** The tables as the seed changes them, row by row. */
  class Database {
    var permissions: seq<Permission>
    var grants: seq<Grant>
    var nextId: nat

    function View(): Tables
      reads this
    {
      Tables(permissions, grants, nextId)
    }

    method UpsertAll(entries: seq<CatalogueEntry>) returns (ids: map<string, nat>)
      modifies this`permissions, this`nextId
      ensures SeedCatalogue(old(View()), map[], entries) == Catalogued(View(), ids)
    {
      ids := map[];
      for k := 0 to |entries|
        invariant SeedCatalogue(View(), ids, entries[k..]) == SeedCatalogue(old(View()), map[], entries)
      {
        assert entries[k..][1..] == entries[k+1..];
        var c := entries[k];
        ghost var was := View();
        var existing := FindKey(permissions, c.key);
        if existing.Some? {
          permissions := permissions[existing.value := permissions[existing.value].(
            description := c.description, area := c.area, action := c.action)];
        } else {
          permissions := permissions + [Permission(nextId, c.key, c.area, c.action, c.description)];
          nextId := nextId + 1;
        }
        assert View() == Upsert(was, c);
        UpsertFinds(was, c);
        ids := ids[c.key := IdOf(permissions, c.key)];
      }
    }

    method AssignPermissionsToRole(role: string, keys: seq<string>, roleIds: map<string, nat>, ids: map<string, nat>)
      modifies this`grants
      ensures grants == if role in roleIds then AssignKeys(old(grants), roleIds[role], ids, keys) else old(grants)
    {
      if role !in roleIds {
        return;
      }
      var roleId := roleIds[role];
      for k := 0 to |keys|
        invariant AssignKeys(grants, roleId, ids, keys[k..]) == AssignKeys(old(grants), roleId, ids, keys)
      {
        assert keys[k..][1..] == keys[k+1..];
        if keys[k] in ids {
          var g := Grant(roleId, ids[keys[k]]);
          if g !in grants {
            grants := grants + [g];
          }
        }
      }
    }

    method SeedAll(roles: seq<Role>, entries: seq<CatalogueEntry>, matrix: seq<Row>)
      modifies this
      ensures View() == Seed(old(View()), roles, entries, matrix)
    {
      var ids := UpsertAll(entries);
      var roleIds := RoleIds(roles);
      ghost var before := grants;
      for k := 0 to |matrix|
        invariant permissions == SeedCatalogue(old(View()), map[], entries).db.permissions
        invariant nextId == SeedCatalogue(old(View()), map[], entries).db.nextId
        invariant AssignRows(grants, roleIds, ids, matrix[k..]) == AssignRows(before, roleIds, ids, matrix)
      {
        assert matrix[k..][1..] == matrix[k+1..];
        AssignPermissionsToRole(matrix[k].role, matrix[k].keys, roleIds, ids);
      }
    }
  }

  // ----- Which grants there are

  ghost predicate NoDuplicates(grants: seq<Grant>) {
    forall i, j :: 0 <= i < j < |grants| ==> grants[i] != grants[j]
  }

  ghost predicate Wanted(g: Grant, roleIds: map<string, nat>, ids: map<string, nat>, matrix: seq<Row>) {
    exists row, key :: row in matrix && key in row.keys && Names(g, row.role, key, roleIds, ids)
  }

  ghost predicate Names(g: Grant, role: string, key: string, roleIds: map<string, nat>, ids: map<string, nat>) {
    role in roleIds && key in ids && g == Grant(roleIds[role], ids[key])
  }

  lemma {:induction false} AssignedKeys(
    grants: seq<Grant>, roleId: nat, ids: map<string, nat>, keys: seq<string>, g: Grant)
    requires NoDuplicates(grants)
    ensures NoDuplicates(AssignKeys(grants, roleId, ids, keys)) && grants <= AssignKeys(grants, roleId, ids, keys)
    ensures g in AssignKeys(grants, roleId, ids, keys)
            <==> g in grants || exists key :: key in keys && key in ids && g == Grant(roleId, ids[key])
    decreases keys
  {
    if keys != [] {
      var h := if keys[0] in ids then [Grant(roleId, ids[keys[0]])] else [];
      var next := if h == [] || h[0] in grants then grants else grants + h;
      AssignedKeys(next, roleId, ids, keys[1..], g);
      assert forall key :: key in keys <==> key == keys[0] || key in keys[1..];
      assert g in next <==> g in grants || g in h;
    }
  }

  /** The matrix adds exactly the grants it names, for the roles and permissions that exist, each once. */
  lemma {:induction false} AssignedRows(
    grants: seq<Grant>, roleIds: map<string, nat>, ids: map<string, nat>, matrix: seq<Row>, g: Grant)
    requires NoDuplicates(grants)
    ensures NoDuplicates(AssignRows(grants, roleIds, ids, matrix))
    ensures grants <= AssignRows(grants, roleIds, ids, matrix)
    ensures g in AssignRows(grants, roleIds, ids, matrix) <==> g in grants || Wanted(g, roleIds, ids, matrix)
    decreases matrix
  {
    if matrix != [] {
      var row := matrix[0];
      var next := if row.role in roleIds then AssignKeys(grants, roleIds[row.role], ids, row.keys) else grants;
      if row.role in roleIds {
        AssignedKeys(grants, roleIds[row.role], ids, row.keys, g);
      }
      AssignedRows(next, roleIds, ids, matrix[1..], g);
      assert forall r :: r in matrix <==> r == row || r in matrix[1..];
      assert (exists key :: key in row.keys && Names(g, row.role, key, roleIds, ids)) ==> g in next;
    }
  }

  lemma {:induction false} OnceEach(grants: seq<Grant>, g: Grant)
    requires NoDuplicates(grants)
    ensures multiset(grants)[g] == if g in grants then 1 else 0
    decreases |grants|
  {
    if grants != [] {
      var n := |grants| - 1;
      OnceEach(grants[..n], g);
      assert grants == grants[..n] + [grants[n]];
    }
  }

  /** The order of the assignment calls, and repeating some, makes no difference to the grants. */
  lemma AssignmentOrderIrrelevant(
    grants: seq<Grant>, roleIds: map<string, nat>, ids: map<string, nat>, a: seq<Row>, b: seq<Row>)
    requires NoDuplicates(grants) && forall row :: row in a <==> row in b
    ensures multiset(AssignRows(grants, roleIds, ids, a)) == multiset(AssignRows(grants, roleIds, ids, b))
  {
    forall g: Grant
      ensures multiset(AssignRows(grants, roleIds, ids, a))[g] == multiset(AssignRows(grants, roleIds, ids, b))[g]
    {
      AssignedRows(grants, roleIds, ids, a, g);
      AssignedRows(grants, roleIds, ids, b, g);
      OnceEach(AssignRows(grants, roleIds, ids, a), g);
      OnceEach(AssignRows(grants, roleIds, ids, b), g);
    }
  }

  // ----- The catalogue

  /** Permission keys and ids are unique, fresh ids unused, and grants point at permissions. */
  ghost predicate Inv(db: Tables) {
    && (forall i, j :: 0 <= i < j < |db.permissions| ==>
          db.permissions[i].key != db.permissions[j].key && db.permissions[i].id != db.permissions[j].id)
    && (forall i :: 0 <= i < |db.permissions| ==> db.permissions[i].id < db.nextId)
    && (forall g :: g in db.grants ==> g.permissionId < db.nextId)
    && NoDuplicates(db.grants)
  }

  // Old rows keep their place, id and key; new ones get fresh ids.
  ghost predicate Extends(before: Tables, after: Tables) {
    && |before.permissions| <= |after.permissions|
    && (forall i :: 0 <= i < |before.permissions| ==>
          after.permissions[i].id == before.permissions[i].id && after.permissions[i].key == before.permissions[i].key)
    && (forall i :: |before.permissions| <= i < |after.permissions| ==> before.nextId <= after.permissions[i].id)
    && before.nextId <= after.nextId
    && after.grants == before.grants
  }

  // The map knows the row of each of its keys.
  ghost predicate Points(db: Tables, ids: map<string, nat>) {
    forall key :: key in ids ==>
      exists i :: 0 <= i < |db.permissions| && db.permissions[i].key == key && db.permissions[i].id == ids[key]
  }

  lemma ExtendsTransitive(a: Tables, b: Tables, c: Tables)
    requires Extends(a, b) && Extends(b, c)
    ensures Extends(a, c)
  {
  }

  lemma PointsStill(a: Tables, b: Tables, ids: map<string, nat>)
    requires Points(a, ids) && Extends(a, b)
    ensures Points(b, ids)
  {
  }

  lemma UpsertExtends(db: Tables, c: CatalogueEntry)
    requires Inv(db)
    ensures Inv(Upsert(db, c)) && Extends(db, Upsert(db, c))
  {
  }

  lemma EntryExtends(db: Tables, ids: map<string, nat>, e: CatalogueEntry)
    requires Inv(db) && Points(db, ids)
    ensures var next := Upsert(db, e);
            && Inv(next) && Extends(db, next)
            && FindKey(next.permissions, e.key).Some?
            && Points(next, ids[e.key := IdOf(next.permissions, e.key)])
  {
    var next := Upsert(db, e);
    UpsertExtends(db, e);
    UpsertFinds(db, e);
    PointsStill(db, next, ids);
    assert next.permissions[FindKey(next.permissions, e.key).value].key == e.key;
  }

  lemma {:induction false} CatalogueExtends(db: Tables, ids: map<string, nat>, entries: seq<CatalogueEntry>)
    requires Inv(db) && Points(db, ids)
    ensures var c := SeedCatalogue(db, ids, entries);
            && Inv(c.db) && Extends(db, c.db) && Points(c.db, c.ids)
            && (forall key :: key in c.ids <==> key in ids || exists e :: e in entries && e.key == key)
    decreases entries
  {
    if entries != [] {
      var e := entries[0];
      var next := Upsert(db, e);
      EntryExtends(db, ids, e);
      var ids' := ids[e.key := IdOf(next.permissions, e.key)];
      CatalogueExtends(next, ids', entries[1..]);
      ExtendsTransitive(db, next, SeedCatalogue(next, ids', entries[1..]).db);
      assert forall x :: x in entries <==> x == e || x in entries[1..];
    }
  }

  /** The whole seed: exactly the wanted grants are added, none twice, none lost; rows keep their ids. */
  lemma SeedGrantsExactly(db: Tables, roles: seq<Role>, entries: seq<CatalogueEntry>, matrix: seq<Row>, g: Grant)
    requires Inv(db)
    ensures var after := Seed(db, roles, entries, matrix);
            var ids := SeedCatalogue(db, map[], entries).ids;
            && Inv(after)
            && db.grants <= after.grants
            && (g in after.grants <==> g in db.grants || Wanted(g, RoleIds(roles), ids, matrix))
            && (forall key :: key in ids <==> exists e :: e in entries && e.key == key)
  {
    CatalogueExtends(db, map[], entries);
    var c := SeedCatalogue(db, map[], entries);
    forall h: Grant
      ensures h in AssignRows(c.db.grants, RoleIds(roles), c.ids, matrix)
              <==> h in db.grants || Wanted(h, RoleIds(roles), c.ids, matrix)
    {
      AssignedRows(c.db.grants, RoleIds(roles), c.ids, matrix, h);
    }
    AssignedRows(c.db.grants, RoleIds(roles), c.ids, matrix, g);
    forall h | Wanted(h, RoleIds(roles), c.ids, matrix)
      ensures h.permissionId < c.db.nextId
    {
      var row, key :| row in matrix && key in row.keys && Names(h, row.role, key, RoleIds(roles), c.ids);
      assert key in c.ids;
    }
  }

  // ----- The access check

  datatype Principal = Principal(userId: string, role: string, roleId: nat)

  datatype Access = Allowed | Unauthorized | Forbidden

  function KeysOfRole(db: Tables, roleId: nat): set<string> {
    set g, p | g in db.grants && g.roleId == roleId && p in db.permissions && p.id == g.permissionId :: p.key
  }

  function RequirePermission(db: Tables, user: Option<Principal>, required: seq<string>): Access {
    if user.None? || user.value.userId == "" then Unauthorized
    else if user.value.role == "OWNER" then Allowed
    else if forall k :: 0 <= k < |required| ==> required[k] in KeysOfRole(db, user.value.roleId) then Allowed
    else Forbidden
  }

  // Some row grants a permission with this key to the role.
  ghost predicate Holds(db: Tables, roleId: nat, key: string) {
    exists i, j :: GrantedAt(db, roleId, key, i, j)
  }

  ghost predicate GrantedAt(db: Tables, roleId: nat, key: string, i: int, j: int) {
    && 0 <= i < |db.grants| && 0 <= j < |db.permissions|
    && db.grants[i].roleId == roleId && db.grants[i].permissionId == db.permissions[j].id
    && db.permissions[j].key == key
  }

  lemma KeysAreHeld(db: Tables, roleId: nat, key: string)
    ensures key in KeysOfRole(db, roleId) <==> Holds(db, roleId, key)
  {
    if key in KeysOfRole(db, roleId) {
      var g, p :| g in db.grants && g.roleId == roleId && p in db.permissions && p.id == g.permissionId && p.key == key;
      var i :| 0 <= i < |db.grants| && db.grants[i] == g;
      var j :| 0 <= j < |db.permissions| && db.permissions[j] == p;
      assert GrantedAt(db, roleId, key, i, j);
    }
    if i, j :| GrantedAt(db, roleId, key, i, j) {
      assert db.grants[i] in db.grants && db.permissions[j] in db.permissions;
    }
  }

  // A request that comes from a signed-in user.
  ghost predicate SignedIn(user: Option<Principal>) {
    user != None && user.value.userId != ""
  }

  /** The decision for every user over every table: without a user id it is 401; the owner may do everything; anyone
      else may do what needs only permissions some grant row gives the role, and gets 403 for the rest. */
  lemma AccessDecision(db: Tables, user: Option<Principal>, required: seq<string>)
    ensures RequirePermission(db, user, required) == Unauthorized <==> !SignedIn(user)
    ensures SignedIn(user) && user.value.role == "OWNER" ==> RequirePermission(db, user, required) == Allowed
    ensures SignedIn(user) && user.value.role != "OWNER" ==>
              RequirePermission(db, user, required)
              == if forall key :: key in required ==> Holds(db, user.value.roleId, key) then Allowed else Forbidden
  {
    if SignedIn(user) {
      forall key: string
        ensures key in KeysOfRole(db, user.value.roleId) <==> Holds(db, user.value.roleId, key)
      {
        KeysAreHeld(db, user.value.roleId, key);
      }
      assert (forall k :: 0 <= k < |required| ==> required[k] in KeysOfRole(db, user.value.roleId))
        <==> (forall key :: key in required ==> key in KeysOfRole(db, user.value.roleId));
    }
  }

  // The matrix gives the key to the role with this id.
  ghost predicate MatrixGives(
    roleIds: map<string, nat>, entries: seq<CatalogueEntry>, matrix: seq<Row>, roleId: nat, key: string)
  {
    && (exists e :: e in entries && e.key == key)
    && (exists row :: row in matrix && row.role in roleIds && roleIds[row.role] == roleId && key in row.keys)
  }

  // Every grant names a permission that exists.
  ghost predicate GrantsPoint(db: Tables) {
    forall g :: g in db.grants ==> exists i :: 0 <= i < |db.permissions| && db.permissions[i].id == g.permissionId
  }

  ghost predicate Unlocks(db: Tables, g: Grant, key: string) {
    exists i :: 0 <= i < |db.permissions| && db.permissions[i].id == g.permissionId && db.permissions[i].key == key
  }

  lemma KeysUnlocked(db: Tables, roleId: nat, key: string)
    ensures key in KeysOfRole(db, roleId) <==> exists g :: g in db.grants && g.roleId == roleId && Unlocks(db, g, key)
  {
  }

  lemma OldGrantUnlocksTheSame(before: Tables, after: Tables, g: Grant, key: string)
    requires Inv(after) && Extends(before, after) && GrantsPoint(before) && g in before.grants
    ensures Unlocks(before, g, key) <==> Unlocks(after, g, key)
  {
  }

  lemma NewGrantUnlocksItsKey(db: Tables, g: Grant, role: string, named: string, key: string,
                              roleIds: map<string, nat>, ids: map<string, nat>)
    requires Inv(db) && Points(db, ids) && Names(g, role, named, roleIds, ids)
    ensures Unlocks(db, g, key) <==> key == named
  {
  }

  // The seed changes no permission row once the catalogue is in.
  lemma SameUnlocks(db: Tables, grants: seq<Grant>, g: Grant, key: string)
    ensures Unlocks(db.(grants := grants), g, key) <==> Unlocks(db, g, key)
  {
  }

  lemma OldGrantAfterSeed(
    db: Tables, roles: seq<Role>, entries: seq<CatalogueEntry>, matrix: seq<Row>, key: string, g: Grant)
    requires Inv(db) && GrantsPoint(db) && g in db.grants
    ensures var after := Seed(db, roles, entries, matrix);
            g in after.grants && (Unlocks(after, g, key) <==> Unlocks(db, g, key))
  {
    var c := SeedCatalogue(db, map[], entries);
    CatalogueExtends(db, map[], entries);
    SeedGrantsExactly(db, roles, entries, matrix, g);
    OldGrantUnlocksTheSame(db, c.db, g, key);
    SameUnlocks(c.db, Seed(db, roles, entries, matrix).grants, g, key);
  }

  lemma NewGrantAfterSeed(
    db: Tables, roles: seq<Role>, entries: seq<CatalogueEntry>, matrix: seq<Row>, key: string, g: Grant)
    requires Inv(db) && g !in db.grants
    requires g in Seed(db, roles, entries, matrix).grants && Unlocks(Seed(db, roles, entries, matrix), g, key)
    ensures MatrixGives(RoleIds(roles), entries, matrix, g.roleId, key)
  {
    var c := SeedCatalogue(db, map[], entries);
    CatalogueExtends(db, map[], entries);
    SeedGrantsExactly(db, roles, entries, matrix, g);
    var row, named :| row in matrix && named in row.keys && Names(g, row.role, named, RoleIds(roles), c.ids);
    NewGrantUnlocksItsKey(c.db, g, row.role, named, key, RoleIds(roles), c.ids);
    SameUnlocks(c.db, Seed(db, roles, entries, matrix).grants, g, key);
  }

  lemma MatrixGrant(
    db: Tables, roles: seq<Role>, entries: seq<CatalogueEntry>, matrix: seq<Row>, roleId: nat, key: string)
    returns (g: Grant)
    requires Inv(db) && MatrixGives(RoleIds(roles), entries, matrix, roleId, key)
    ensures var after := Seed(db, roles, entries, matrix);
            g in after.grants && g.roleId == roleId && Unlocks(after, g, key)
  {
    var c := SeedCatalogue(db, map[], entries);
    var after := Seed(db, roles, entries, matrix);
    CatalogueExtends(db, map[], entries);
    var row :| row in matrix && row.role in RoleIds(roles) && RoleIds(roles)[row.role] == roleId && key in row.keys;
    g := Grant(roleId, c.ids[key]);
    assert Names(g, row.role, key, RoleIds(roles), c.ids);
    SeedGrantsExactly(db, roles, entries, matrix, g);
    NewGrantUnlocksItsKey(c.db, g, row.role, key, key, RoleIds(roles), c.ids);
    SameUnlocks(c.db, after.grants, g, key);
  }

  lemma KeysAfterSeed(
    db: Tables, roles: seq<Role>, entries: seq<CatalogueEntry>, matrix: seq<Row>, roleId: nat, key: string)
    requires Inv(db) && GrantsPoint(db)
    ensures key in KeysOfRole(Seed(db, roles, entries, matrix), roleId)
            <==> key in KeysOfRole(db, roleId) || MatrixGives(RoleIds(roles), entries, matrix, roleId, key)
  {
    KeysUnlocked(db, roleId, key);
    KeysUnlocked(Seed(db, roles, entries, matrix), roleId, key);
    var after := Seed(db, roles, entries, matrix);
    forall g | g in db.grants
      ensures g in after.grants && (Unlocks(after, g, key) <==> Unlocks(db, g, key))
    {
      OldGrantAfterSeed(db, roles, entries, matrix, key, g);
    }
    forall g | g in after.grants && g !in db.grants && Unlocks(after, g, key)
      ensures MatrixGives(RoleIds(roles), entries, matrix, g.roleId, key)
    {
      NewGrantAfterSeed(db, roles, entries, matrix, key, g);
    }
    if MatrixGives(RoleIds(roles), entries, matrix, roleId, key) {
      var g := MatrixGrant(db, roles, entries, matrix, roleId, key);
    }
  }

  /** Who gets through after seeding: the owner, and whoever holds each required permission from before or
      from the matrix. In particular the seed never turns an accepted request into a refused one. */
  lemma AccessAfterSeed(
    db: Tables, roles: seq<Role>, entries: seq<CatalogueEntry>, matrix: seq<Row>,
    user: Option<Principal>, required: seq<string>)
    requires Inv(db) && GrantsPoint(db)
    ensures var after := Seed(db, roles, entries, matrix);
            && (RequirePermission(db, user, required) == Allowed ==>
                  RequirePermission(after, user, required) == Allowed)
            && (user.Some? && user.value.userId != "" && user.value.role != "OWNER" ==>
                  (RequirePermission(after, user, required) == Allowed <==>
                   forall k :: 0 <= k < |required| ==>
                     || required[k] in KeysOfRole(db, user.value.roleId)
                     || MatrixGives(RoleIds(roles), entries, matrix, user.value.roleId, required[k])))
  {
    if user.Some? {
      forall k | 0 <= k < |required| {
        KeysAfterSeed(db, roles, entries, matrix, user.value.roleId, required[k]);
      }
    }
  }

  // ----- Seeding again

  // The row says what the catalogue entry says.
  ghost predicate UpToDate(db: Tables, e: CatalogueEntry) {
    var i := FindKey(db.permissions, e.key);
    i.Some?
    && var p := db.permissions[i.value];
       p.area == e.area && p.action == e.action && p.description == e.description
  }

  ghost predicate DistinctEntries(entries: seq<CatalogueEntry>) {
    forall i, j :: 0 <= i < j < |entries| ==> entries[i].key != entries[j].key
  }

  lemma RowWithKey(permissions: seq<Permission>, key: string, i: nat)
    requires i < |permissions| && permissions[i].key == key
    requires forall j, k :: 0 <= j < k < |permissions| ==> permissions[j].key != permissions[k].key
    ensures FindKey(permissions, key) == Some(i)
  {
  }

  lemma UpsertedRow(db: Tables, c: CatalogueEntry, e: CatalogueEntry)
    requires Inv(db) && (e == c || (e.key != c.key && UpToDate(db, e)))
    ensures UpToDate(Upsert(db, c), e)
  {
    UpsertExtends(db, c);
    var after := Upsert(db, c).permissions;
    var i := FindKey(db.permissions, e.key);
    RowWithKey(after, e.key, if i.Some? then i.value else |db.permissions|);
  }

  lemma {:induction false} CatalogueUpToDate(
    db: Tables, ids: map<string, nat>, entries: seq<CatalogueEntry>, e: CatalogueEntry)
    requires Inv(db) && DistinctEntries(entries)
    requires e in entries || (UpToDate(db, e) && forall k :: 0 <= k < |entries| ==> entries[k].key != e.key)
    ensures UpToDate(SeedCatalogue(db, ids, entries).db, e)
    decreases entries
  {
    if entries != [] {
      var next := Upsert(db, entries[0]);
      UpsertExtends(db, entries[0]);
      UpsertFinds(db, entries[0]);
      assert forall k :: 0 < k < |entries| ==> entries[k] == entries[1..][k-1];
      if e == entries[0] || e !in entries {
        UpsertedRow(db, entries[0], e);
      }
      CatalogueUpToDate(next, ids[entries[0].key := IdOf(next.permissions, entries[0].key)], entries[1..], e);
    }
  }

  /** A permission whose key the catalogue does not list stays as it is. */
  lemma {:induction false} UnlistedPermissionUntouched(
    db: Tables, ids: map<string, nat>, entries: seq<CatalogueEntry>, i: nat)
    requires i < |db.permissions| && forall e :: e in entries ==> e.key != db.permissions[i].key
    ensures var after := SeedCatalogue(db, ids, entries).db.permissions;
            i < |after| && after[i] == db.permissions[i]
    decreases entries
  {
    if entries != [] {
      var next := Upsert(db, entries[0]);
      UpsertFinds(db, entries[0]);
      UnlistedPermissionUntouched(next, ids[entries[0].key := IdOf(next.permissions, entries[0].key)], entries[1..], i);
    }
  }

  /** A listed one ends up with the listed texts. */
  lemma SeedBringsCatalogueUpToDate(
    db: Tables, roles: seq<Role>, entries: seq<CatalogueEntry>, matrix: seq<Row>, e: CatalogueEntry)
    requires Inv(db) && DistinctEntries(entries) && e in entries
    ensures UpToDate(Seed(db, roles, entries, matrix), e)
  {
    CatalogueUpToDate(db, map[], entries, e);
  }

  lemma {:induction false} UpToDateCatalogueIsIdle(db: Tables, ids: map<string, nat>, entries: seq<CatalogueEntry>)
    requires forall e :: e in entries ==> UpToDate(db, e)
    ensures SeedCatalogue(db, ids, entries).db == db
    decreases entries
  {
    if entries != [] {
      assert UpToDate(db, entries[0]);
      assert Upsert(db, entries[0]) == db;
      UpsertFinds(db, entries[0]);
      UpToDateCatalogueIsIdle(db, ids[entries[0].key := IdOf(db.permissions, entries[0].key)], entries[1..]);
    }
  }

  lemma {:induction false} NothingMissing(grants: seq<Grant>, roleId: nat, ids: map<string, nat>, keys: seq<string>)
    requires forall key :: key in keys && key in ids ==> Grant(roleId, ids[key]) in grants
    ensures AssignKeys(grants, roleId, ids, keys) == grants
    decreases keys
  {
    if keys != [] {
      NothingMissing(grants, roleId, ids, keys[1..]);
    }
  }

  lemma {:induction false} NoRowMissing(
    grants: seq<Grant>, roleIds: map<string, nat>, ids: map<string, nat>, matrix: seq<Row>)
    requires forall g :: Wanted(g, roleIds, ids, matrix) ==> g in grants
    ensures AssignRows(grants, roleIds, ids, matrix) == grants
    decreases matrix
  {
    if matrix != [] {
      var row := matrix[0];
      if row.role in roleIds {
        forall key | key in row.keys && key in ids
          ensures Grant(roleIds[row.role], ids[key]) in grants
        {
          assert Names(Grant(roleIds[row.role], ids[key]), row.role, key, roleIds, ids);
        }
        NothingMissing(grants, roleIds[row.role], ids, row.keys);
      }
      forall g | Wanted(g, roleIds, ids, matrix[1..])
        ensures g in grants
      {
        var r, key :| r in matrix[1..] && key in r.keys && Names(g, r.role, key, roleIds, ids);
        assert r in matrix;
      }
      NoRowMissing(grants, roleIds, ids, matrix[1..]);
    }
  }

  // Two maps that point into the same rows agree.
  lemma SameIds(db: Tables, a: map<string, nat>, b: map<string, nat>)
    requires Inv(db) && Points(db, a) && Points(db, b) && forall key :: key in a <==> key in b
    ensures a == b
  {
  }

  /** A second run changes no row of any table. */
  lemma SecondRunChangesNothing(db: Tables, roles: seq<Role>, entries: seq<CatalogueEntry>, matrix: seq<Row>)
    requires Inv(db) && DistinctEntries(entries)
    ensures var once := Seed(db, roles, entries, matrix);
            Seed(once, roles, entries, matrix) == once
  {
    var once := Seed(db, roles, entries, matrix);
    var c := SeedCatalogue(db, map[], entries);
    CatalogueExtends(db, map[], entries);
    SeedGrantsExactly(db, roles, entries, matrix, Grant(0, 0));
    forall e | e in entries
      ensures UpToDate(once, e)
    {
      SeedBringsCatalogueUpToDate(db, roles, entries, matrix, e);
    }
    UpToDateCatalogueIsIdle(once, map[], entries);
    CatalogueExtends(once, map[], entries);
    SameIds(once, c.ids, SeedCatalogue(once, map[], entries).ids);
    forall g | Wanted(g, RoleIds(roles), c.ids, matrix)
      ensures g in once.grants
    {
      SeedGrantsExactly(db, roles, entries, matrix, g);
    }
    NoRowMissing(once.grants, RoleIds(roles), c.ids, matrix);
  }

  // ----- The branch manager's keys

  predicate ManagerMayHave(key: string) {
    !("role." <= key) && !("permission." <= key) && !("company.delete" <= key)
  }

  function ManagerKeys(keys: seq<string>): seq<string> {
    if keys == [] then []
    else (if ManagerMayHave(keys[0]) then [keys[0]] else []) + ManagerKeys(keys[1..])
  }

  function AllKeys(entries: seq<CatalogueEntry>): seq<string> {
    seq(|entries|, i requires 0 <= i < |entries| => entries[i].key)
  }

  /** The role matrix; `others` are the rows whose key lists are written out. */
  function Matrix(entries: seq<CatalogueEntry>, others: seq<Row>): seq<Row> {
    var all := AllKeys(entries);
    [Row("OWNER", all), Row("SUPER_ADMIN", all), Row("ADMIN", all), Row("BRANCH_MANAGER", ManagerKeys(all))] + others
  }

  lemma {:induction false} ManagerKeysFiltered(keys: seq<string>, key: string)
    ensures key in ManagerKeys(keys) <==> key in keys && ManagerMayHave(key)
    decreases keys
  {
    if keys != [] {
      ManagerKeysFiltered(keys[1..], key);
    }
  }

  /** Seeding gives the branch manager each catalogued permission but those on roles, on permissions and on
      deleting companies; those stay as they were. */
  lemma ManagerAfterSeed(
    db: Tables, roles: seq<Role>, entries: seq<CatalogueEntry>, others: seq<Row>, roleId: nat, key: string)
    requires Inv(db) && GrantsPoint(db)
    requires "BRANCH_MANAGER" in RoleIds(roles) && RoleIds(roles)["BRANCH_MANAGER"] == roleId
    requires forall name :: name in RoleIds(roles) && RoleIds(roles)[name] == roleId ==> name == "BRANCH_MANAGER"
    requires forall row :: row in others ==> row.role != "BRANCH_MANAGER"
    ensures key in KeysOfRole(Seed(db, roles, entries, Matrix(entries, others)), roleId)
            <==> || key in KeysOfRole(db, roleId)
                 || (ManagerMayHave(key) && exists e :: e in entries && e.key == key)
  {
    var matrix := Matrix(entries, others);
    KeysAfterSeed(db, roles, entries, matrix, roleId, key);
    ManagerKeysFiltered(AllKeys(entries), key);
    var manager := Row("BRANCH_MANAGER", ManagerKeys(AllKeys(entries)));
    assert matrix[3] == manager;
    forall row | row in matrix && row.role == "BRANCH_MANAGER"
      ensures row == manager
    {
      assert row == matrix[0] || row == matrix[1] || row == matrix[2] || row == matrix[3] || row in others;
    }
    forall e | e in entries && e.key == key
      ensures key in AllKeys(entries)
    {
      var i :| 0 <= i < |entries| && entries[i] == e;
      assert AllKeys(entries)[i] == key;
    }
  }

  /** So seeding never adds for the branch manager a key that starts with one of these. */
  lemma ManagerGainsNoAdministration(
    db: Tables, roles: seq<Role>, entries: seq<CatalogueEntry>, others: seq<Row>, roleId: nat, rest: string)
    requires Inv(db) && GrantsPoint(db)
    requires "BRANCH_MANAGER" in RoleIds(roles) && RoleIds(roles)["BRANCH_MANAGER"] == roleId
    requires forall name :: name in RoleIds(roles) && RoleIds(roles)[name] == roleId ==> name == "BRANCH_MANAGER"
    requires forall row :: row in others ==> row.role != "BRANCH_MANAGER"
    ensures forall key :: key in {"role." + rest, "permission." + rest, "company.delete" + rest} ==>
              (Holds(Seed(db, roles, entries, Matrix(entries, others)), roleId, key) <==> Holds(db, roleId, key))
  {
    forall key | key in {"role." + rest, "permission." + rest, "company.delete" + rest}
      ensures Holds(Seed(db, roles, entries, Matrix(entries, others)), roleId, key) <==> Holds(db, roleId, key)
    {
      ManagerAfterSeed(db, roles, entries, others, roleId, key);
      KeysAreHeld(db, roleId, key);
      KeysAreHeld(Seed(db, roles, entries, Matrix(entries, others)), roleId, key);
    }
  }

  // Keys that differ from all of those from their first characters on.
  ghost predicate StartsWith(key: string, start: string) {
    exists rest :: key == start + rest
  }

  lemma ManagerMayHaveExactlyWhen(key: string)
    ensures ManagerMayHave(key) <==>
              !StartsWith(key, "role.") && !StartsWith(key, "permission.") && !StartsWith(key, "company.delete")
  {
    forall start: string
      ensures start <= key <==> StartsWith(key, start)
    {
      if start <= key {
        assert key == start + key[|start|..];
      }
    }
  }

  /** The manager gains every other catalogued key. */
  lemma ManagerGainsTheRest(
    db: Tables, roles: seq<Role>, entries: seq<CatalogueEntry>, others: seq<Row>, roleId: nat, e: CatalogueEntry)
    requires Inv(db) && GrantsPoint(db) && e in entries
    requires "BRANCH_MANAGER" in RoleIds(roles) && RoleIds(roles)["BRANCH_MANAGER"] == roleId
    requires forall name :: name in RoleIds(roles) && RoleIds(roles)[name] == roleId ==> name == "BRANCH_MANAGER"
    requires forall row :: row in others ==> row.role != "BRANCH_MANAGER"
    requires !StartsWith(e.key, "role.") && !StartsWith(e.key, "permission.") && !StartsWith(e.key, "company.delete")
    ensures Holds(Seed(db, roles, entries, Matrix(entries, others)), roleId, e.key)
  {
    ManagerMayHaveExactlyWhen(e.key);
    ManagerAfterSeed(db, roles, entries, others, roleId, e.key);
    KeysAreHeld(Seed(db, roles, entries, Matrix(entries, others)), roleId, e.key);
  }

  /** The three administrator roles, where they exist, hold every catalogued permission afterwards. */
  lemma AdministratorsHoldEverything(
    db: Tables, roles: seq<Role>, entries: seq<CatalogueEntry>, others: seq<Row>, name: string, e: CatalogueEntry)
    requires Inv(db) && GrantsPoint(db) && e in entries
    requires name in {"OWNER", "SUPER_ADMIN", "ADMIN"} && name in RoleIds(roles)
    ensures Holds(Seed(db, roles, entries, Matrix(entries, others)), RoleIds(roles)[name], e.key)
  {
    var matrix, all := Matrix(entries, others), AllKeys(entries);
    var i :| 0 <= i < |entries| && entries[i] == e;
    assert all[i] == e.key;
    assert matrix[0] == Row("OWNER", all) && matrix[1] == Row("SUPER_ADMIN", all) && matrix[2] == Row("ADMIN", all);
    assert Row(name, all) in matrix;
    KeysAfterSeed(db, roles, entries, matrix, RoleIds(roles)[name], e.key);
    KeysAreHeld(Seed(db, roles, entries, matrix), RoleIds(roles)[name], e.key);
  }

  /** A role name is known exactly if some role has it, and stands for the last such role. */
  lemma {:induction false} RoleIdsExactly(roles: seq<Role>, name: string)
    ensures name in RoleIds(roles) <==> exists k :: 0 <= k < |roles| && roles[k].name == name
    ensures forall k :: 0 <= k < |roles| && roles[k].name == name
                        && (forall m :: k < m < |roles| ==> roles[m].name != name)
                        ==> RoleIds(roles)[name] == roles[k].id
    decreases |roles|
  {
    if roles != [] {
      var n := |roles| - 1;
      RoleIdsExactly(roles[..n], name);
      assert forall k :: 0 <= k < n ==> roles[..n][k] == roles[k];
    }
  }
}
