/** The user lifecycle guard (`userService`): account creation and update
    under the email, password, name, role and department rules with email
    uniqueness, and activation toggling that never deactivates the caller
    or the last active admin. The password hash is an opaque function
    passed in. */
module UserService {
  import opened Common
  import opened Text
  import opened Domain
  import opened UserRules
  import opened UserModel

  const UserNotFound := "User not found"
  const FieldsRequired := "Email, password, first name, last name, and role are required"
  const EmailTooLong := "Email must be 255 characters or fewer"
  const EmailInvalid := "Invalid email format"
  const EmailTaken := "A user with this email already exists"
  const FirstNameTooLong := "First name must be 100 characters or fewer"
  const LastNameTooLong := "Last name must be 100 characters or fewer"
  const NoFieldsToUpdate := "No fields to update"
  const OwnAccount := "You cannot deactivate your own account"
  const LastAdmin := "Cannot deactivate the last active admin account"

  /** A string that JavaScript treats as false: missing, null or empty. */
  predicate Blank(s: Option<string>) {
    s.None? || s.value == ""
  }

  /** `getById`: the user, or NotFound. */
  method GetById(users: UserTable, id: int) returns (r: Result<User>)
    requires users.Valid()
    ensures id in users.rows <==> r.Ok?
    ensures r.Ok? ==> r.value == users.rows[id]
    ensures r.Err? ==> r.error == NotFound(UserNotFound)
  {
    var found := users.FindById(id);
    if found.None? {
      return Err(NotFound(UserNotFound));
    }
    return Ok(found.value);
  }

  // --------------------------------------------------------------- create

  /** The body of a create request; `None` is a missing or null key. */
  datatype NewUserData = NewUserData(email: Option<string>, password: Option<string>,
                                     firstName: Option<string>, lastName: Option<string>,
                                     roleId: Option<int>, departmentId: Option<int>)

  /** The checked columns of the account `create` inserts; the password
      is hashed from the request as it stands. */
  datatype UserDraft = UserDraft(email: string, firstName: string, lastName: string,
                                 roleId: int, departmentId: Option<int>)

  /** The email checks shared by `create` and `update`: the normalised
      email is at most 255 characters and matches the pattern. */
  function CheckEmailFormat(raw: string): (r: Result<string>)
    ensures r.Ok? <==> |NormalizeEmail(raw)| <= MaxEmailLength && ValidateEmail(NormalizeEmail(raw))
    ensures r.Ok? ==> r.value == NormalizeEmail(raw)
    ensures r.Err? ==> r.error == Validation(if |NormalizeEmail(raw)| > MaxEmailLength then EmailTooLong else EmailInvalid)
  {
    var email := NormalizeEmail(raw);
    if |email| > MaxEmailLength then Err(Validation(EmailTooLong))
    else if !ValidateEmail(email) then Err(Validation(EmailInvalid))
    else Ok(email)
  }

  /** The password policy as a ValidationError carrying its message. */
  function CheckPassword(p: string): (r: Outcome)
    ensures r.Pass? <==> ValidatePassword(p).None?
    ensures r.Fail? ==> r.error == Validation(ValidatePassword(p).value)
  {
    var problem := ValidatePassword(p);
    if problem.Some? then Fail(Validation(problem.value)) else Pass
  }

  /** A name is stored trimmed and may then have at most 100 characters. */
  function CheckName(raw: string, tooLong: string): (r: Result<string>)
    ensures r.Ok? <==> |Trim(raw)| <= MaxNameLength
    ensures r.Ok? ==> r.value == Trim(raw)
    ensures r.Err? ==> r.error == Validation(tooLong)
  {
    var name := Trim(raw);
    if |name| > MaxNameLength then Err(Validation(tooLong)) else Ok(name)
  }

  /** The checks of `create` that need no lookup of existing users, in
      order, and the account they produce. */
  function ValidateNewUser(d: NewUserData, roleIds: set<int>, departmentIds: set<int>): Result<UserDraft> {
    if Blank(d.email) || Blank(d.password) || Blank(d.firstName) || Blank(d.lastName) || NullIfZero(d.roleId).None? then
      Err(Validation(FieldsRequired))
    else
      var email := CheckEmailFormat(d.email.value);
      var password := CheckPassword(d.password.value);
      var firstName := CheckName(d.firstName.value, FirstNameTooLong);
      var lastName := CheckName(d.lastName.value, LastNameTooLong);
      var role := ValidateRoleId(d.roleId.value, roleIds);
      var department := ValidateDepartmentId(d.departmentId, departmentIds);
      if email.Err? then Err(email.error)
      else if password.Fail? then Err(password.error)
      else if firstName.Err? then Err(firstName.error)
      else if lastName.Err? then Err(lastName.error)
      else if role.Fail? then Err(role.error)
      else if department.Fail? then Err(department.error)
      else Ok(UserDraft(email.value, firstName.value, lastName.value,
                        d.roleId.value, NullIfZero(d.departmentId)))
  }

  /** All checks of `create`, the last being that no stored user already
      has the normalised email. */
  function CheckCreateUser(d: NewUserData, rows: map<int, User>, roleIds: set<int>, departmentIds: set<int>): Result<UserDraft> {
    var v := ValidateNewUser(d, roleIds, departmentIds);
    if v.Err? then v
    else if EmailInUse(rows, v.value.email) then Err(Validation(EmailTaken))
    else v
  }

  /** The field checks of `create` accept a request exactly when each of
      them passes, and then guarantee about the account: every required
      field was present; the email is normalised, at most
      255 characters and matches the pattern; the password meets the
      policy; the names are trimmed and at most 100 characters; the role
      exists; the department is null or exists. Every failure is a
      ValidationError, and a missing field is reported first. */
  lemma ValidateNewUserSpec(d: NewUserData, roleIds: set<int>, departmentIds: set<int>)
    ensures var r := ValidateNewUser(d, roleIds, departmentIds);
      && (r.Err? ==> r.error.Validation?)
      && (Blank(d.email) || Blank(d.password) || Blank(d.firstName) || Blank(d.lastName) || NullIfZero(d.roleId).None? ==>
            r == Err(Validation(FieldsRequired)))
      && (r.Ok? <==>
            && !Blank(d.email) && !Blank(d.password) && !Blank(d.firstName) && !Blank(d.lastName)
            && NullIfZero(d.roleId).Some?
            && |NormalizeEmail(d.email.value)| <= MaxEmailLength && ValidateEmail(NormalizeEmail(d.email.value))
            && ValidatePassword(d.password.value).None?
            && |Trim(d.firstName.value)| <= MaxNameLength && |Trim(d.lastName.value)| <= MaxNameLength
            && d.roleId.value in roleIds
            && (NullIfZero(d.departmentId).Some? ==> d.departmentId.value in departmentIds))
      && (r.Ok? ==>
            && r.value.email == NormalizeEmail(d.email.value)
            && |r.value.email| <= MaxEmailLength
            && ValidateEmail(r.value.email)
            && ValidatePassword(d.password.value).None?
            && r.value.firstName == Trim(d.firstName.value) && |r.value.firstName| <= MaxNameLength
            && r.value.lastName == Trim(d.lastName.value) && |r.value.lastName| <= MaxNameLength
            && r.value.roleId in roleIds
            && (r.value.departmentId.Some? ==> r.value.departmentId.value in departmentIds && r.value.departmentId.value != 0))
  {
  }

  /** `create` accepts exactly what the field checks accept when no stored
      user has the normalised email, and refuses a taken email as a
      ValidationError. */
  lemma CreateUserSpec(d: NewUserData, rows: map<int, User>, roleIds: set<int>, departmentIds: set<int>)
    ensures var r := CheckCreateUser(d, rows, roleIds, departmentIds);
      var v := ValidateNewUser(d, roleIds, departmentIds);
      && (r.Ok? <==> v.Ok? && !EmailInUse(rows, v.value.email))
      && (r.Ok? ==> r == v)
      && (r.Err? ==> r.error.Validation?)
  {
    ValidateNewUserSpec(d, roleIds, departmentIds);
  }

  /** An email already stored, in any spelling that normalises to it, is
      refused once every other check passes. */
  lemma DuplicateEmailRefused(d: NewUserData, rows: map<int, User>, roleIds: set<int>, departmentIds: set<int>, id: int)
    requires ValidateNewUser(d, roleIds, departmentIds).Ok?
    requires id in rows && rows[id].email == NormalizeEmail(d.email.value)
    ensures CheckCreateUser(d, rows, roleIds, departmentIds) == Err(Validation(EmailTaken))
  {
  }

  /** `create`: checks, then one lookup by email, then the insert of an
      active account with the hashed password; returns the stored account.
      On failure nothing changes. Emails stay unique. */
  method Create(users: UserTable, hash: string -> string, d: NewUserData) returns (r: Result<User>)
    requires users.Valid()
    modifies users
    ensures users.Valid()
    ensures var c := CheckCreateUser(d, old(users.rows), old(users.roles).Keys, old(users.departments));
      c.Err? ==> r == Err(c.error) && users.rows == old(users.rows)
    ensures var c := CheckCreateUser(d, old(users.rows), old(users.roles).Keys, old(users.departments));
      c.Ok? ==>
        && r.Ok? && r.value.id !in old(users.rows)
        && r.value == User(r.value.id, c.value.email, hash(d.password.value), c.value.firstName, c.value.lastName,
                           c.value.roleId, c.value.departmentId, true)
        && users.rows == old(users.rows)[r.value.id := r.value]
        && users.order == old(users.order) + [r.value.id] && users.nextId == old(users.nextId) + 1
    ensures var c := CheckCreateUser(d, old(users.rows), old(users.roles).Keys, old(users.departments));
      c.Err? ==> users.order == old(users.order) && users.nextId == old(users.nextId)
    ensures users.roles == old(users.roles) && users.departments == old(users.departments)
  {
    var v := ValidateNewUser(d, users.roles.Keys, users.departments);
    if v.Err? {
      return Err(v.error);
    }
    var draft := v.value;
    var existing := users.FindByEmail(draft.email);
    if existing.Some? {
      return Err(Validation(EmailTaken));
    }
    var id := users.Create(draft.email, hash(d.password.value), draft.firstName, draft.lastName,
                           draft.roleId, draft.departmentId);
    r := GetById(users, id);
  }

  // --------------------------------------------------------------- update

  /** The body of an update request. Email, password and names are missing
      or strings; role and department may also be an explicit null. */
  datatype UserUpdateData = UserUpdateData(email: Option<string>, password: Option<string>,
                                           firstName: Option<string>, lastName: Option<string>,
                                           roleId: Input<int>, departmentId: Input<int>)

  /** The update record `update` builds: a key for each field the request
      carries, with the email normalised, the names trimmed, the password
      hashed when it is not empty, and a falsy department id as null. */
  function UserFieldsOf(d: UserUpdateData, hash: string -> string): UserFields {
    UserFields(
      if d.email.Some? then Set(NormalizeEmail(d.email.value)) else Keep,
      if d.firstName.Some? then Set(Trim(d.firstName.value)) else Keep,
      if d.lastName.Some? then Set(Trim(d.lastName.value)) else Keep,
      if d.roleId.Given? then Set(d.roleId.value) else Keep,
      if d.departmentId.Undefined? then Keep
      else Set(NullIfZero(if d.departmentId.Given? then Some(d.departmentId.value) else None)),
      if d.password.Some? && d.password.value != "" then Set(hash(d.password.value)) else Keep)
  }

  /** The field checks of `update`, in order, then the refusal of an empty
      update record. `rows` is what the uniqueness lookup sees; `id` is the
      user being updated. */
  function PlanUserFields(id: int, d: UserUpdateData, rows: map<int, User>, roleIds: set<int>,
                          departmentIds: set<int>, hash: string -> string): Result<UserFields> {
    var email := if d.email.Some? then NormalizeEmail(d.email.value) else "";
    var newPassword := d.password.Some? && d.password.value != "";
    if d.email.Some? && |email| > MaxEmailLength then Err(Validation(EmailTooLong))
    else if d.email.Some? && !ValidateEmail(email) then Err(Validation(EmailInvalid))
    else if d.email.Some? && EmailTakenByOther(rows, email, id) then Err(Validation(EmailTaken))
    else if newPassword && ValidatePassword(d.password.value).Some? then Err(Validation(ValidatePassword(d.password.value).value))
    else if d.firstName.Some? && |Trim(d.firstName.value)| > MaxNameLength then Err(Validation(FirstNameTooLong))
    else if d.lastName.Some? && |Trim(d.lastName.value)| > MaxNameLength then Err(Validation(LastNameTooLong))
    else if d.roleId.Null? then Err(Validation(InvalidRole))
    else if d.roleId.Given? && ValidateRoleId(d.roleId.value, roleIds).Fail? then Err(ValidateRoleId(d.roleId.value, roleIds).error)
    else if d.departmentId.Given? && ValidateDepartmentId(Some(d.departmentId.value), departmentIds).Fail? then
      Err(ValidateDepartmentId(Some(d.departmentId.value), departmentIds).error)
    else if IsEmptyUpdate(UserFieldsOf(d, hash)) then Err(Validation(NoFieldsToUpdate))
    else Ok(UserFieldsOf(d, hash))
  }

  /** All checks of `update`: the user exists, then the field checks. */
  function CheckUpdateUser(id: int, d: UserUpdateData, rows: map<int, User>, roleIds: set<int>,
                           departmentIds: set<int>, hash: string -> string): Result<UserFields> {
    if id !in rows then Err(NotFound(UserNotFound))
    else PlanUserFields(id, d, rows, roleIds, departmentIds, hash)
  }

  /** The request carries a key that `update` would write: an email, a
      non-empty password, a name, or a role or department, even null. */
  predicate CarriesField(d: UserUpdateData) {
    d.email.Some? || (d.password.Some? && d.password.value != "") || d.firstName.Some? || d.lastName.Some? ||
    !d.roleId.Undefined? || !d.departmentId.Undefined?
  }

  /** Each key the request carries passes its own check. */
  predicate UpdateChecksPass(id: int, d: UserUpdateData, rows: map<int, User>, roleIds: set<int>, departmentIds: set<int>) {
    && (d.email.Some? ==>
          var email := NormalizeEmail(d.email.value);
          |email| <= MaxEmailLength && ValidateEmail(email) && !EmailTakenByOther(rows, email, id))
    && (d.password.Some? && d.password.value != "" ==> ValidatePassword(d.password.value).None?)
    && (d.firstName.Some? ==> |Trim(d.firstName.value)| <= MaxNameLength)
    && (d.lastName.Some? ==> |Trim(d.lastName.value)| <= MaxNameLength)
    && !d.roleId.Null? && (d.roleId.Given? ==> d.roleId.value in roleIds)
    && (d.departmentId.Given? ==> d.departmentId.value == 0 || d.departmentId.value in departmentIds)
  }

  /** `update` accepts a request for a stored user exactly when every key
      it carries passes its check and it carries at least one, and then
      writes the record built from it; a request with no such key is
      refused with "No fields to update". */
  lemma UpdateUserAcceptance(id: int, d: UserUpdateData, rows: map<int, User>, roleIds: set<int>,
                             departmentIds: set<int>, hash: string -> string)
    ensures var r := CheckUpdateUser(id, d, rows, roleIds, departmentIds, hash);
      && (r.Ok? <==> id in rows && UpdateChecksPass(id, d, rows, roleIds, departmentIds) && CarriesField(d))
      && (r.Ok? ==> r.value == UserFieldsOf(d, hash))
      && (id in rows && !CarriesField(d) ==> r == Err(Validation(NoFieldsToUpdate)))
  {
    assert !d.roleId.Null? ==> (CarriesField(d) <==> !IsEmptyUpdate(UserFieldsOf(d, hash)));
  }

  /** What `update` guarantees: a new email is normalised, valid and used
      by no other user; an empty or missing password leaves the hash alone
      and any other one must meet the policy; names are trimmed and at most
      100 characters; a role must exist (null is refused); a department is
      null or exists; some column is always written. */
  lemma UpdateUserSpec(id: int, d: UserUpdateData, rows: map<int, User>, roleIds: set<int>,
                       departmentIds: set<int>, hash: string -> string)
    ensures var r := CheckUpdateUser(id, d, rows, roleIds, departmentIds, hash);
      && (id !in rows ==> r == Err(NotFound(UserNotFound)))
      && (r.Err? && id in rows ==> r.error.Validation?)
      && (r.Ok? ==> id in rows && !IsEmptyUpdate(r.value))
      && (r.Ok? ==> (r.value.email.Set? <==> d.email.Some?))
      && (r.Ok? && r.value.email.Set? ==>
            && r.value.email.value == NormalizeEmail(d.email.value)
            && |r.value.email.value| <= MaxEmailLength
            && ValidateEmail(r.value.email.value)
            && !EmailTakenByOther(rows, r.value.email.value, id))
      && (r.Ok? ==> (r.value.passwordHash.Set? <==> d.password.Some? && d.password.value != ""))
      && (r.Ok? && r.value.passwordHash.Set? ==>
            ValidatePassword(d.password.value).None? && r.value.passwordHash.value == hash(d.password.value))
      && (r.Ok? && r.value.firstName.Set? ==> |r.value.firstName.value| <= MaxNameLength)
      && (r.Ok? && r.value.lastName.Set? ==> |r.value.lastName.value| <= MaxNameLength)
      && (r.Ok? && r.value.roleId.Set? ==> r.value.roleId.value in roleIds)
      && (r.Ok? ==> !d.roleId.Null?)
      && (r.Ok? && r.value.departmentId.Set? && r.value.departmentId.value.Some? ==>
            r.value.departmentId.value.value in departmentIds && r.value.departmentId.value.value != 0)
  {
  }

  /** Re-submitting one's own email, in any spelling that normalises to
      the stored one, passes the uniqueness check. */
  lemma OwnEmailAllowed(id: int, rows: map<int, User>, typed: string)
    requires id in rows && NormalizeEmail(typed) == rows[id].email
    requires forall a, b :: a in rows && b in rows && rows[a].email == rows[b].email ==> a == b
    ensures !EmailTakenByOther(rows, NormalizeEmail(typed), id)
  {
  }

  /** A request whose only key is an empty password writes nothing and is
      refused as empty. */
  lemma EmptyPasswordIsNoField(id: int, rows: map<int, User>, roleIds: set<int>, departmentIds: set<int>, hash: string -> string)
    requires id in rows
    ensures CheckUpdateUser(id, UserUpdateData(None, Some(""), None, None, Undefined, Undefined),
                            rows, roleIds, departmentIds, hash) == Err(Validation(NoFieldsToUpdate))
  {
  }

  /** The field part of `update`: builds the update record field by field,
      consulting the table for another user with the email, and stops at
      the first failing check. */
  method BuildUserFields(users: UserTable, id: int, d: UserUpdateData, hash: string -> string) returns (r: Result<UserFields>)
    requires users.Valid()
    ensures r == PlanUserFields(id, d, users.rows, users.roles.Keys, users.departments, hash)
  {
    var f := NoUserFields;
    if d.email.Some? {
      var email := NormalizeEmail(d.email.value);
      if |email| > MaxEmailLength {
        return Err(Validation(EmailTooLong));
      }
      if !ValidateEmail(email) {
        return Err(Validation(EmailInvalid));
      }
      var duplicate := users.FindByEmailExcluding(email, id);
      if duplicate.Some? {
        return Err(Validation(EmailTaken));
      }
      f := f.(email := Set(email));
    }
    if d.password.Some? && d.password.value != "" {
      var problem := ValidatePassword(d.password.value);
      if problem.Some? {
        return Err(Validation(problem.value));
      }
      f := f.(passwordHash := Set(hash(d.password.value)));
    }
    if d.firstName.Some? {
      if |Trim(d.firstName.value)| > MaxNameLength {
        return Err(Validation(FirstNameTooLong));
      }
      f := f.(firstName := Set(Trim(d.firstName.value)));
    }
    if d.lastName.Some? {
      if |Trim(d.lastName.value)| > MaxNameLength {
        return Err(Validation(LastNameTooLong));
      }
      f := f.(lastName := Set(Trim(d.lastName.value)));
    }
    if !d.roleId.Undefined? {
      var roleId := if d.roleId.Given? then d.roleId.value else 0;
      if d.roleId.Null? {
        return Err(Validation(InvalidRole));
      }
      var check := ValidateRoleId(roleId, users.roles.Keys);
      if check.Fail? {
        return Err(check.error);
      }
      f := f.(roleId := Set(roleId));
    }
    if !d.departmentId.Undefined? {
      var given := if d.departmentId.Given? then Some(d.departmentId.value) else None;
      var check := ValidateDepartmentId(given, users.departments);
      if check.Fail? {
        return Err(check.error);
      }
      f := f.(departmentId := Set(NullIfZero(given)));
    }
    assert f == UserFieldsOf(d, hash);
    if IsEmptyUpdate(f) {
      return Err(Validation(NoFieldsToUpdate));
    }
    return Ok(f);
  }

  /** `update`: on success exactly the planned columns of the one user are
      written and the stored account is returned; on failure nothing
      changes. Emails stay unique. */
  method Update(users: UserTable, hash: string -> string, id: int, d: UserUpdateData) returns (r: Result<User>)
    requires users.Valid()
    modifies users
    ensures users.Valid()
    ensures var c := CheckUpdateUser(id, d, old(users.rows), old(users.roles).Keys, old(users.departments), hash);
      c.Err? ==> r == Err(c.error) && users.rows == old(users.rows)
    ensures var c := CheckUpdateUser(id, d, old(users.rows), old(users.roles).Keys, old(users.departments), hash);
      c.Ok? ==>
        && users.rows == old(users.rows)[id := ApplyUser(old(users.rows)[id], c.value)]
        && r == Ok(users.rows[id])
    ensures users.order == old(users.order) && users.nextId == old(users.nextId)
    ensures users.roles == old(users.roles) && users.departments == old(users.departments)
  {
    var existing := users.FindById(id);
    if existing.None? {
      return Err(NotFound(UserNotFound));
    }
    var plan := BuildUserFields(users, id, d, hash);
    if plan.Err? {
      return Err(plan.error);
    }
    UpdateUserSpec(id, d, users.rows, users.roles.Keys, users.departments, hash);
    users.Update(id, plan.value);
    r := GetById(users, id);
  }

  // -------------------------------------------------------- toggle active

  /** An active user whose role is admin. */
  predicate IsActiveAdmin(u: User, roles: map<int, RoleName>) {
    u.isActive && u.roleId in roles && roles[u.roleId] == Admin
  }

  /** The ids of the active admins. */
  function ActiveAdmins(rows: map<int, User>, roles: map<int, RoleName>): set<int> {
    set id | id in rows && IsActiveAdmin(rows[id], roles)
  }

  /** The admin floor: flipping the active flag of one user, unless that
      user is the only active admin, leaves at least one active admin
      whenever there was one. */
  lemma {:induction false} AdminFloor(rows: map<int, User>, roles: map<int, RoleName>, id: int)
    requires id in rows
    requires IsActiveAdmin(rows[id], roles) ==> |ActiveAdmins(rows, roles)| >= 2
    ensures |ActiveAdmins(rows, roles)| >= 1 ==>
      |ActiveAdmins(rows[id := rows[id].(isActive := !rows[id].isActive)], roles)| >= 1
  {
    var after := rows[id := rows[id].(isActive := !rows[id].isActive)];
    var a, b := ActiveAdmins(rows, roles), ActiveAdmins(after, roles);
    if IsActiveAdmin(rows[id], roles) {
      assert a - {id} <= b;
      assert |a - {id}| == |a| - 1;
      SubsetSize(a - {id}, b);
    } else {
      assert a <= b;
      SubsetSize(a, b);
    }
  }

  lemma SubsetSize(a: set<int>, b: set<int>)
    requires a <= b
    ensures |a| <= |b|
  {
    assert b == a + (b - a);
  }

  /** `toggleActive`: refuses the caller's own account before any lookup,
      then a missing user, then deactivating the last active admin (all
      ValidationErrors but the missing user); otherwise flips only that
      user's active flag. At least one active admin remains whenever there
      was one. */
  method ToggleActive(users: UserTable, id: int, requestingUserId: int) returns (r: Result<User>)
    requires users.Valid()
    modifies users
    ensures users.Valid()
    ensures id == requestingUserId ==> r == Err(Validation(OwnAccount)) && users.rows == old(users.rows)
    ensures id != requestingUserId && id !in old(users.rows) ==> r == Err(NotFound(UserNotFound)) && users.rows == old(users.rows)
    ensures id != requestingUserId && id in old(users.rows) && IsActiveAdmin(old(users.rows)[id], users.roles) &&
            |ActiveAdmins(old(users.rows), users.roles)| <= 1 ==>
      r == Err(Validation(LastAdmin)) && users.rows == old(users.rows)
    ensures r.Ok? <==>
      && id != requestingUserId && id in old(users.rows)
      && (IsActiveAdmin(old(users.rows)[id], users.roles) ==> |ActiveAdmins(old(users.rows), users.roles)| >= 2)
    ensures r.Ok? ==>
      && users.rows == old(users.rows)[id := old(users.rows)[id].(isActive := !old(users.rows)[id].isActive)]
      && r == Ok(users.rows[id])
    ensures users.roles == old(users.roles) && users.departments == old(users.departments)
    ensures users.order == old(users.order) && users.nextId == old(users.nextId)
    ensures |ActiveAdmins(old(users.rows), users.roles)| >= 1 ==> |ActiveAdmins(users.rows, users.roles)| >= 1
  {
    if id == requestingUserId {
      return Err(Validation(OwnAccount));
    }
    var found := users.FindById(id);
    if found.None? {
      return Err(NotFound(UserNotFound));
    }
    var user := found.value;
    if IsActiveAdmin(user, users.roles) {
      var all := users.FindAll();
      var count := CountActiveAdmins(users, all);
      if count <= 1 {
        return Err(Validation(LastAdmin));
      }
    }
    AdminFloor(users.rows, users.roles, id);
    users.SetActive(id, !user.isActive);
    r := GetById(users, id);
  }

  /** `allUsers.filter(u => u.role === 'admin' && u.is_active).length` over
      the list `findAll` returns. */
  method CountActiveAdmins(users: UserTable, all: seq<User>) returns (count: nat)
    requires users.Valid()
    requires forall u :: u in all ==> u.id in users.rows && users.rows[u.id] == u
    requires forall id :: id in users.rows ==> users.rows[id] in all
    requires forall i, j :: 0 <= i < j < |all| ==> all[i].id > all[j].id
    ensures count == |ActiveAdmins(users.rows, users.roles)|
  {
    count := 0;
    var i := 0;
    ghost var seen: set<int> := {};
    while i < |all|
      invariant 0 <= i <= |all|
      invariant seen == set k | 0 <= k < i && IsActiveAdmin(all[k], users.roles) :: all[k].id
      invariant count == |seen|
      invariant forall x :: x in seen ==> exists k :: 0 <= k < i && all[k].id == x
    {
      assert all[i] in all;
      if IsActiveAdmin(all[i], users.roles) {
        assert all[i].id !in seen;
        seen := seen + {all[i].id};
        count := count + 1;
      }
      i := i + 1;
    }
    assert seen == ActiveAdmins(users.rows, users.roles) by {
      forall x | x in ActiveAdmins(users.rows, users.roles) ensures x in seen {
        var k :| 0 <= k < |all| && all[k] == users.rows[x];
      }
    }
  }
}
