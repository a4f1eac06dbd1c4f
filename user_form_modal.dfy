/** The decisions of the user form (`UserFormModal`): its validator, the
    edit-mode prefill, and the request it sends, proved consistent with
    the user service's own checks. */
module UserFormModal {
  import opened Common
  import opened Text
  import opened Numbers
  import opened Domain
  import opened UserRules
  import opened UserModel
  import opened UserService

  const FieldsMissing := "Email, first name, last name, and role are required"
  const EmailFormat := "Invalid email format"
  const PasswordRequired := "Password is required for new users"
  const PasswordShort := "Password must be at least 8 characters with uppercase, lowercase, and a digit"

  /** The form's state; every value is the text of its input. */
  datatype UserForm = UserForm(email: string, password: string, firstName: string, lastName: string,
                               roleId: string, departmentId: string)

  const InitialForm := UserForm("", "", "", "", "", "")

  /** `validate`: the first failing check's message, or null. `editing`
      is true when the form edits an existing user. */
  function Validate(f: UserForm, editing: bool): (r: Option<string>)
    ensures r.None? <==>
      && f.email != "" && f.firstName != "" && f.lastName != "" && f.roleId != ""
      && ValidateEmail(f.email)
      && (!editing ==> f.password != "")
      && (f.password != "" ==> |f.password| >= 8)
  {
    if f.email == "" || f.firstName == "" || f.lastName == "" || f.roleId == "" then Some(FieldsMissing)
    else if !ValidateEmail(f.email) then Some(EmailFormat)
    else if !editing && f.password == "" then Some(PasswordRequired)
    else if f.password != "" && |f.password| < 8 then Some(PasswordShort)
    else None
  }

  /** The checks fire in order, and in edit mode an empty password passes. */
  lemma ValidatePrecedence(f: UserForm, editing: bool)
    ensures f.email == "" || f.firstName == "" || f.lastName == "" || f.roleId == "" ==>
      Validate(f, editing) == Some(FieldsMissing)
    ensures f.email != "" && f.firstName != "" && f.lastName != "" && f.roleId != "" && !ValidateEmail(f.email) ==>
      Validate(f, editing) == Some(EmailFormat)
    ensures editing && f.password == "" ==>
      (Validate(f, editing).None? <==>
         f.email != "" && f.firstName != "" && f.lastName != "" && f.roleId != "" && ValidateEmail(f.email))
    ensures !editing && f.password == "" ==> Validate(f, editing).Some?
    ensures f.email != "" && f.firstName != "" && f.lastName != "" && f.roleId != "" && ValidateEmail(f.email) &&
            !editing && f.password == "" ==>
      Validate(f, editing) == Some(PasswordRequired)
    ensures f.email != "" && f.firstName != "" && f.lastName != "" && f.roleId != "" && ValidateEmail(f.email) &&
            f.password != "" && |f.password| < 8 ==>
      Validate(f, editing) == Some(PasswordShort)
  {
  }

  /** Every password the service accepts passes the form's weaker check,
      so the form never refuses a password the service would take. */
  lemma ServerPasswordPassesForm(f: UserForm, editing: bool)
    requires ValidatePassword(f.password).None?
    ensures f.password != "" && |f.password| >= 8
    ensures Validate(f, editing).None? <==>
      f.email != "" && f.firstName != "" && f.lastName != "" && f.roleId != "" && ValidateEmail(f.email)
  {
  }

  /** An email the form accepts passes the service's pattern check too:
      the service normalises it, which only lower-cases it, and the result
      still matches. The form sets no length limit, so the service's
      format check accepts it exactly when it has at most 255 characters,
      and refuses a longer one as too long. */
  lemma FormEmailPassesServer(f: UserForm, editing: bool)
    requires Validate(f, editing).None?
    ensures NormalizeEmail(f.email) == ToLower(f.email)
    ensures ValidateEmail(NormalizeEmail(f.email))
    ensures CheckEmailFormat(f.email).Ok? <==> |f.email| <= MaxEmailLength
    ensures |f.email| > MaxEmailLength ==> CheckEmailFormat(f.email) == Err(Validation(EmailTooLong))
  {
    ValidEmailSurvivesNormalization(f.email);
  }

  // ------------------------------------------------------------- payload

  /** The request body the form sends. */
  datatype UserPayload = UserPayload(email: string, firstName: string, lastName: string,
                                     roleId: Input<int>, departmentId: Input<int>, password: Option<string>)

  /** The payload `handleSubmit` builds: the texts as typed, the role as a
      number (NaN travels as null), the department as a number or null for
      '', and the password only when one was typed. */
  function PayloadOf(f: UserForm): (p: UserPayload)
    ensures p.email == f.email && p.firstName == f.firstName && p.lastName == f.lastName
    ensures p.password.Some? <==> f.password != ""
    ensures p.password.Some? ==> p.password.value == f.password
    ensures p.roleId.Given? <==> NumberOf(f.roleId).Some?
    ensures p.roleId.Given? ==> Some(p.roleId.value) == NumberOf(f.roleId)
    ensures f.departmentId == "" ==> p.departmentId == Null
    ensures p.departmentId.Given? <==> f.departmentId != "" && NumberOf(f.departmentId).Some?
    ensures p.departmentId.Given? ==> Some(p.departmentId.value) == NumberOf(f.departmentId)
    ensures !p.roleId.Undefined? && !p.departmentId.Undefined?
  {
    UserPayload(f.email, f.firstName, f.lastName, NumberForJson(f.roleId),
                if f.departmentId == "" then Null else NumberForJson(f.departmentId),
                if f.password != "" then Some(f.password) else None)
  }

  /** What submitting does: show the validator's message, or send. */
  datatype SubmitOutcome = Rejected(message: string) | Submit(payload: UserPayload)

  function SubmitOutcomeOf(f: UserForm, editing: bool): SubmitOutcome {
    var problem := Validate(f, editing);
    if problem.Some? then Rejected(problem.value) else Submit(PayloadOf(f))
  }

  /** `handleSubmit`: validates, builds the payload without a password,
      then adds the password when one was typed. */
  method HandleSubmit(f: UserForm, editing: bool) returns (o: SubmitOutcome)
    ensures o == SubmitOutcomeOf(f, editing)
  {
    var problem := Validate(f, editing);
    if problem.Some? {
      return Rejected(problem.value);
    }
    var payload := UserPayload(f.email, f.firstName, f.lastName, NumberForJson(f.roleId),
                               if f.departmentId != "" then NumberForJson(f.departmentId) else Null, None);
    if f.password != "" {
      payload := payload.(password := Some(f.password));
    }
    return Submit(payload);
  }

  /** The payload as the body of a `create` request. */
  function AsNewUser(p: UserPayload): NewUserData {
    NewUserData(Some(p.email), p.password, Some(p.firstName), Some(p.lastName),
                if p.roleId.Given? then Some(p.roleId.value) else None,
                if p.departmentId.Given? then Some(p.departmentId.value) else None)
  }

  /** The payload as the body of an `update` request: every key is sent. */
  function AsUserUpdate(p: UserPayload): UserUpdateData {
    UserUpdateData(Some(p.email), p.password, Some(p.firstName), Some(p.lastName), p.roleId, p.departmentId)
  }

  /** A create form the validator passes gets past the service's check for
      missing fields whenever its role is an offered (positive) id. */
  lemma ValidCreateFormHasAllFields(f: UserForm, roleId: int)
    requires Validate(f, false).None?
    requires roleId > 0 && f.roleId == IntToString(roleId)
    ensures var d := AsNewUser(PayloadOf(f));
      !Blank(d.email) && !Blank(d.password) && !Blank(d.firstName) && !Blank(d.lastName) && NullIfZero(d.roleId) == Some(roleId)
  {
    NumberOfIntToString(roleId);
  }

  // -------------------------------------------------------------- prefill

  /** The edit-mode prefill: the password empty, the role id as text and
      a missing department as ''. */
  function Prefill(u: User): (f: UserForm)
    ensures f.password == ""
    ensures NumberOf(f.roleId) == Some(u.roleId)
    ensures f.departmentId == "" <==> NullIfZero(u.departmentId).None?
  {
    NumberOfIntToString(u.roleId);
    UserForm(u.email, "", u.firstName, u.lastName, IntToString(u.roleId),
             if NullIfZero(u.departmentId).Some? then IntToString(u.departmentId.value) else "")
  }

  /** The payload from an untouched edit form carries the user's own values
      back: the same email and names, the role id, the department id or
      null, and no password. */
  lemma PrefillRoundTrip(u: User)
    ensures var p := PayloadOf(Prefill(u));
      && p.email == u.email && p.firstName == u.firstName && p.lastName == u.lastName
      && p.roleId == Given(u.roleId)
      && p.departmentId == (if NullIfZero(u.departmentId).Some? then Given(u.departmentId.value) else Null)
      && p.password.None?
  {
    NumberOfIntToString(u.roleId);
    if NullIfZero(u.departmentId).Some? {
      NumberOfIntToString(u.departmentId.value);
    }
  }

  /** Saving an untouched edit form of a stored user is accepted by
      `update` and writes the row back unchanged, when the stored row is
      one the service could have written: a valid normalised email of at
      most 255 characters used by nobody else, non-empty trimmed names of
      at most 100 characters, an existing role and a null or existing
      department. */
  lemma UntouchedEditIsNoOp(u: User, rows: map<int, User>, roleIds: set<int>, departmentIds: set<int>, hash: string -> string)
    requires u.id in rows && rows[u.id] == u
    requires ValidateEmail(u.email) && NormalizeEmail(u.email) == u.email && |u.email| <= MaxEmailLength
    requires !EmailTakenByOther(rows, u.email, u.id)
    requires u.firstName != "" && !IsSpace(u.firstName[0]) && !IsSpace(u.firstName[|u.firstName| - 1])
    requires u.lastName != "" && !IsSpace(u.lastName[0]) && !IsSpace(u.lastName[|u.lastName| - 1])
    requires |u.firstName| <= MaxNameLength && |u.lastName| <= MaxNameLength
    requires u.roleId in roleIds
    requires u.departmentId.Some? ==> u.departmentId.value in departmentIds && u.departmentId.value != 0
    ensures Validate(Prefill(u), true).None?
    ensures var r := CheckUpdateUser(u.id, AsUserUpdate(PayloadOf(Prefill(u))), rows, roleIds, departmentIds, hash);
      r.Ok? && ApplyUser(u, r.value) == u
  {
    PrefillRoundTrip(u);
    TrimOfTrimmed(u.firstName);
    TrimOfTrimmed(u.lastName);
    var d := AsUserUpdate(PayloadOf(Prefill(u)));
    assert d == UserUpdateData(Some(u.email), None, Some(u.firstName), Some(u.lastName), Given(u.roleId),
                               if u.departmentId.Some? then Given(u.departmentId.value) else Null);
  }
}
