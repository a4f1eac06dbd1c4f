/** The users, roles and departments tables behind `userModel`, kept in
    memory. Users are listed in `order` oldest first: ids are handed out in
    increasing order, so creation order is id order. The email column is
    unique and every user's role id names a stored role, as the schema's
    constraints demand. */
module UserModel {
  import opened Common
  import opened Domain

  /** The record `userModel.update` receives; `Keep` is an undefined key. */
  datatype UserFields = UserFields(
    email: Patch<string>,
    firstName: Patch<string>,
    lastName: Patch<string>,
    roleId: Patch<int>,
    departmentId: Patch<Option<int>>,
    passwordHash: Patch<string>)

  const NoUserFields := UserFields(Keep, Keep, Keep, Keep, Keep, Keep)

  predicate IsEmptyUpdate(f: UserFields) {
    f == NoUserFields
  }

  /** The row after `UPDATE users SET <defined columns>`; a falsy
      department id is written as null. */
  function ApplyUser(u: User, f: UserFields): User {
    u.(email := if f.email.Set? then f.email.value else u.email,
       firstName := if f.firstName.Set? then f.firstName.value else u.firstName,
       lastName := if f.lastName.Set? then f.lastName.value else u.lastName,
       roleId := if f.roleId.Set? then f.roleId.value else u.roleId,
       departmentId := if f.departmentId.Set? then NullIfZero(f.departmentId.value) else u.departmentId,
       passwordHash := if f.passwordHash.Set? then f.passwordHash.value else u.passwordHash)
  }

  /** A partial update keeps the id and the active flag, is the identity
      with no keys, never stores a department id of 0, and is idempotent. */
  lemma ApplyUserProperties(u: User, f: UserFields)
    ensures ApplyUser(u, f).id == u.id && ApplyUser(u, f).isActive == u.isActive
    ensures IsEmptyUpdate(f) ==> ApplyUser(u, f) == u
    ensures u.departmentId != Some(0) ==> ApplyUser(u, f).departmentId != Some(0)
    ensures ApplyUser(ApplyUser(u, f), f) == ApplyUser(u, f)
  {
  }

  /** No two users share an email. */
  ghost predicate EmailsUnique(rows: map<int, User>) {
    forall a, b :: a in rows && b in rows && rows[a].email == rows[b].email ==> a == b
  }

  /** Some user has this email. */
  predicate EmailInUse(rows: map<int, User>, email: string) {
    exists id :: id in rows && rows[id].email == email
  }

  /** Some user other than `excludeId` has this email. */
  predicate EmailTakenByOther(rows: map<int, User>, email: string, excludeId: int) {
    exists id :: id in rows && id != excludeId && rows[id].email == email
  }

  /** `s` lists ids in strictly increasing order. */
  ghost predicate Increasing(s: seq<int>) {
    forall i, j :: 0 <= i < j < |s| ==> s[i] < s[j]
  }

  ghost predicate UsersWf(rows: map<int, User>, order: seq<int>, roles: map<int, RoleName>, nextId: int) {
    && nextId >= 1
    && (forall id :: id in rows ==> rows[id].id == id && 0 < id < nextId && rows[id].roleId in roles)
    && (forall id :: id in rows <==> id in order)
    && (forall i :: 0 <= i < |order| ==> order[i] in rows)
    && Increasing(order)
    && EmailsUnique(rows)
  }

  /** The SET list of `update`, field by field: the row it writes and how
      many columns it names. */
  method SetUserColumns(row: User, f: UserFields) returns (u: User, fields: nat)
    ensures u == ApplyUser(row, f)
    ensures fields == 0 <==> IsEmptyUpdate(f)
    ensures fields <= 6
  {
    u, fields := row, 0;
    if f.email.Set? { u := u.(email := f.email.value); fields := fields + 1; }
    if f.firstName.Set? { u := u.(firstName := f.firstName.value); fields := fields + 1; }
    if f.lastName.Set? { u := u.(lastName := f.lastName.value); fields := fields + 1; }
    if f.roleId.Set? { u := u.(roleId := f.roleId.value); fields := fields + 1; }
    if f.departmentId.Set? { u := u.(departmentId := NullIfZero(f.departmentId.value)); fields := fields + 1; }
    if f.passwordHash.Set? { u := u.(passwordHash := f.passwordHash.value); fields := fields + 1; }
  }

  class UserTable {
    var rows: map<int, User>
    var order: seq<int>
    var roles: map<int, RoleName>
    var departments: set<int>
    var nextId: int

    ghost predicate Valid()
      reads this
    {
      UsersWf(rows, order, roles, nextId)
    }

    constructor (roles: map<int, RoleName>, departments: set<int>)
      ensures Valid() && rows == map[] && this.roles == roles && this.departments == departments
    {
      this.rows, this.order, this.nextId := map[], [], 1;
      this.roles, this.departments := roles, departments;
    }

    /** `findById`: the row with that id, or null. */
    method FindById(id: int) returns (r: Option<User>)
      requires Valid()
      ensures r.Some? <==> id in rows
      ensures r.Some? ==> r.value == rows[id] && r.value.id == id
    {
      if id in rows {
        r := Some(rows[id]);
      } else {
        r := None;
      }
    }

    /** `findByEmail`: the one user with exactly that email, or null. */
    method FindByEmail(email: string) returns (r: Option<User>)
      requires Valid()
      ensures r.Some? <==> EmailInUse(rows, email)
      ensures r.Some? ==> r.value.id in rows && rows[r.value.id] == r.value && r.value.email == email
    {
      var i := 0;
      while i < |order|
        invariant 0 <= i <= |order|
        invariant forall k :: 0 <= k < i ==> rows[order[k]].email != email
      {
        assert order[i] in order;
        if rows[order[i]].email == email {
          return Some(rows[order[i]]);
        }
        i := i + 1;
      }
      forall id | id in rows ensures rows[id].email != email {
        var k :| 0 <= k < |order| && order[k] == id;
      }
      return None;
    }

    /** `findByEmailExcluding`: the id of a user other than `excludeId`
        with that email, or null. */
    method FindByEmailExcluding(email: string, excludeId: int) returns (r: Option<int>)
      requires Valid()
      ensures r.Some? <==> EmailTakenByOther(rows, email, excludeId)
      ensures r.Some? ==> r.value in rows && r.value != excludeId && rows[r.value].email == email
    {
      var i := 0;
      while i < |order|
        invariant 0 <= i <= |order|
        invariant forall k :: 0 <= k < i ==> order[k] == excludeId || rows[order[k]].email != email
      {
        assert order[i] in order;
        if order[i] != excludeId && rows[order[i]].email == email {
          return Some(order[i]);
        }
        i := i + 1;
      }
      forall id | id in rows && id != excludeId ensures rows[id].email != email {
        var k :| 0 <= k < |order| && order[k] == id;
      }
      return None;
    }

    /** `findAll`: every user once, newest first. */
    method FindAll() returns (r: seq<User>)
      requires Valid()
      ensures forall u :: u in r ==> u.id in rows && rows[u.id] == u
      ensures forall id :: id in rows ==> rows[id] in r
      ensures forall i, j :: 0 <= i < j < |r| ==> r[i].id > r[j].id
    {
      r := [];
      var k := |order|;
      while k > 0
        invariant 0 <= k <= |order|
        invariant |r| == |order| - k
        invariant forall i :: 0 <= i < |r| ==> r[i] == rows[order[|order| - 1 - i]] && r[i].id == order[|order| - 1 - i]
      {
        k := k - 1;
        assert order[k] in order;
        r := r + [rows[order[k]]];
      }
      forall id | id in rows ensures rows[id] in r {
        var k :| 0 <= k < |order| && order[k] == id;
        assert r[|order| - 1 - k] == rows[id];
      }
    }

    /** `create`: a new active row with a fresh id; a falsy department id
        is stored as null. The email column is unique and the role must
        exist. */
    method Create(email: string, passwordHash: string, firstName: string, lastName: string,
                  roleId: int, departmentId: Option<int>) returns (id: int)
      requires Valid()
      requires roleId in roles
      requires !EmailInUse(rows, email)
      modifies this
      ensures Valid()
      ensures id == old(nextId) && id !in old(rows)
      ensures rows == old(rows)[id := User(id, email, passwordHash, firstName, lastName, roleId,
                                           NullIfZero(departmentId), true)]
      ensures order == old(order) + [id] && nextId == old(nextId) + 1
      ensures roles == old(roles) && departments == old(departments)
    {
      id := nextId;
      var u := User(id, email, passwordHash, firstName, lastName, roleId, NullIfZero(departmentId), true);
      assert forall i :: 0 <= i < |order| ==> order[i] < id;
      rows := rows[id := u];
      order := order + [id];
      nextId := nextId + 1;
    }

    /** `update`: writes exactly the defined columns of the one row, and
        does nothing when no column is defined or no row has that id. */
    method Update(id: int, f: UserFields)
      requires Valid()
      requires f.roleId.Set? ==> f.roleId.value in roles
      requires f.email.Set? ==> !EmailTakenByOther(rows, f.email.value, id)
      modifies this
      ensures Valid()
      ensures rows == if id in old(rows) && !IsEmptyUpdate(f) then old(rows)[id := ApplyUser(old(rows)[id], f)] else old(rows)
      ensures order == old(order) && nextId == old(nextId) && roles == old(roles) && departments == old(departments)
    {
      if id !in rows {
        return;
      }
      var u, fields := SetUserColumns(rows[id], f);
      if fields == 0 {
        return;
      }
      rows := rows[id := u];
    }

    /** `setActive`: only the active flag of the one row changes. */
    method SetActive(id: int, isActive: bool)
      requires Valid()
      modifies this
      ensures Valid()
      ensures rows == if id in old(rows) then old(rows)[id := old(rows)[id].(isActive := isActive)] else old(rows)
      ensures order == old(order) && nextId == old(nextId) && roles == old(roles) && departments == old(departments)
    {
      if id in rows {
        rows := rows[id := rows[id].(isActive := isActive)];
      }
    }
  }
}
