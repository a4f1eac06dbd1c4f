# Helpdesk ticket workflow and user guard, modelled in Dafny

This project models the core of a small helpdesk application: its back
end written in Node.js and its React front end. The model covers:

- **The ticket workflow engine** (`ticketService`):
  - who may see and modify a ticket;
  - the status transition table (`open → in_progress | closed`,
    `in_progress → on_hold | closed`, `on_hold → in_progress`, `closed`
    terminal);
  - the checks of `create`, `update`, `changeStatus` and `assign`, and the
    order they fire in;
  - the change auditor `logChanges`, which writes one history row per field
    whose text changes.
- **The user lifecycle guard** (`userService`):
  - the email pattern and its normalisation (trim, then lower-case);
  - the password policy;
  - the role and department reference checks;
  - email uniqueness;
  - the rule that `toggleActive` never deactivates the caller or the last
    active admin.
- **The storage both depend on** (`ticketModel`, `userModel`), as in-memory
  tables:
  - maps of rows;
  - an id list that gives the listing order;
  - an append-only history;
  - partial updates that write exactly the defined columns.
- **The front-end decisions that mirror those rules**:
  - the ticket detail page's own transition table, status buttons, `canEdit`,
    history labels, edit payload and assignee selector;
  - the ticket list page's create-form validator, payload and list filter;
  - the user form's validator, prefill and payload.

**How it is modelled**
- Every check sequence is a pure function returning `Result` (Ok, or one of
  ValidationError, NotFoundError and ForbiddenError with its message). The
  methods that change the tables are proved to do exactly what that function
  decides.
- A request key can be missing, `null` or a value, written `Input`. A key of
  an update record can be left out or set, written `Patch`.
- The service methods take the tables (`TicketTable`, `UserTable`) as
  objects and change them in place.

**Behaviours of the source worth knowing, kept in the model**
- A manager who created a ticket in another department may open it, but
  does not see it in their list (`TicketService.ListedVersusAccessible`).
- A manager who moves a ticket of their own department into another one
  gets Forbidden after the write has been done: the read-back refuses it
  (`TicketService.UpdateCanCommitThenForbid`).
- The back end accepts an update of a closed ticket. Only the detail page
  hides the editor for one (`TicketDetailPage.CanEditVersusServer`).
- The list page refuses titles shorter than 3 characters that the service
  would accept (`TicketListPage.ShortTitleOnlyRefusedByPage`).
- The user form has no email length limit: an email of more than 255
  characters passes the form and is refused by the service as too long
  (`UserFormModal.FormEmailPassesServer`).
- `assign` ignores the general modify check. A worker who created the ticket
  may edit it but not assign it (`TicketService.AssignStricterThanModify`).
- Every `toggleActive` refusal except the missing user is a
  ValidationError.

## Model

| member | source | states |
|---|---|---|
| Common.NullIfEmpty | backend/src/models/ticketModel.js:95 | `x \|\| null` on text: null and '' become null, any other string is kept |
| Common.NullIfZero | backend/src/models/userModel.js:52 | `x \|\| null` on an id: null and 0 become null, any other id is kept |
| Text.Trim | backend/src/services/userService.js:80 | the result has no whitespace at either end, is no longer than the input, and is empty exactly when the input is all whitespace |
| Text.TrimContent | backend/src/services/userService.js:80 | the result is the input less a leading and a trailing run of whitespace: a slice whose dropped start and end are all whitespace |
| Text.TrimIdempotent | frontend/src/pages/TicketDetailPage.jsx:138 | trimming an already trimmed text changes nothing |
| Text.TrimCommutesWithLower | backend/src/services/userService.js:80 | trimming and lower-casing commute |
| Numbers.NumberOfIntToString | frontend/src/pages/TicketDetailPage.jsx:142 | `Number(String(n)) === n` for every integer id |
| Numbers.IntToStringInjective | backend/src/services/ticketService.js:82-83 | two ids have the same decimal text exactly when they are equal |
| Domain.ParseStatus | backend/src/services/ticketService.js:7 | returns the status with that name, or none when no status has that name |
| Domain.ParsePriority | backend/src/services/ticketService.js:6 | returns the priority with that name, or none when no priority has that name |
| Domain.ParseStatusRoundTrip | backend/src/services/ticketService.js:7 | every status name parses back to its status |
| Domain.ParsePriorityRoundTrip | backend/src/services/ticketService.js:6 | every priority name parses back to its priority |
| TicketRules.AccessRule | backend/src/services/ticketService.js:62-74 | the access and modify predicates agree, and allow exactly an admin, a manager of the ticket's department, the creator and the assignee, whatever their role |
| TicketRules.TransitionTableShape | backend/src/services/ticketService.js:9-14 | `closed` has no exits; no status moves to itself or back to `open`; every other status has an exit |
| TicketRules.StatusNames | backend/src/services/ticketService.js:248 | the names of the allowed targets, one per target, in table order |
| TicketRules.AllowedTextValues | backend/src/services/ticketService.js:245-249 | the transition error lists the allowed targets joined by ", ", and says "none" exactly for `closed` |
| UserRules.EmailPatternIff | backend/src/services/userService.js:25-28 | the scanning validator accepts exactly the strings `^[^\s@]+@[^\s@]+\.[^\s@]+$` matches |
| UserRules.NormalizeIdempotent | backend/src/services/userService.js:80 | normalising a normalised email changes nothing |
| UserRules.ValidEmailSurvivesNormalization | backend/src/services/userService.js:80-88 | an email the pattern accepts is only lower-cased by normalisation and is still accepted |
| UserRules.ContainsInRange | backend/src/services/userService.js:34 | `/[lo-hi]/.test(s)` holds exactly when some character lies in the range |
| UserRules.PasswordPolicy | backend/src/services/userService.js:30-44 | null exactly for a strong password (at least 8 characters, with upper case, lower case and a digit); otherwise the first failing rule's message, in the order length, upper, lower, digit |
| UserRules.ValidateRoleId | backend/src/services/userService.js:46-51 | passes exactly for a stored role id; otherwise a ValidationError |
| UserRules.ValidateDepartmentId | backend/src/services/userService.js:53-59 | passes exactly for null, 0 or a stored department id; otherwise a ValidationError |
| TicketModel.ApplyProperties | backend/src/models/ticketModel.js:57-75 | a partial update keeps the id and creator, is the identity with no keys, and is idempotent |
| TicketModel.SetColumns | backend/src/models/ticketModel.js:57-69 | the SET list writes exactly the defined keys and is empty exactly when no key is defined |
| TicketModel.TicketTable.FindById | backend/src/models/ticketModel.js:40-46 | the stored row with that id, or null when there is none |
| TicketModel.TicketTable.FindAll | backend/src/models/ticketModel.js:19-37 | exactly the rows the role may list (admin all; manager their department; others created by or assigned to them), each once, latest updated first |
| TicketModel.TicketTable.Create | backend/src/models/ticketModel.js:48-55 | one new row with a fresh id, status `open`, no assignee and a falsy description stored as null; it becomes the latest updated, the other rows keep their stamps and order, and the history is untouched |
| TicketModel.TicketTable.Update | backend/src/models/ticketModel.js:57-76 | exactly the defined columns of that one row are written and it moves to the front of the update order, the others keeping theirs; when no key is defined or no row has that id, nothing at all changes |
| TicketModel.TicketTable.CreateHistoryEntry | backend/src/models/ticketModel.js:91-97 | appends one row with the next id, storing a falsy old or new value as null; tickets, stamps and order are untouched |
| TicketModel.TicketTable.FindHistoryByTicketId | backend/src/models/ticketModel.js:78-89 | exactly that ticket's history rows, newest first |
| UserModel.ApplyUserProperties | backend/src/models/userModel.js:57-75 | a partial user update keeps the id and active flag, is the identity with no keys, never stores department 0, and is idempotent |
| UserModel.SetUserColumns | backend/src/models/userModel.js:57-68 | the SET list writes exactly the defined keys, a falsy department as null, and is empty exactly when no key is defined |
| UserModel.UserTable.FindById | backend/src/models/userModel.js:19-32 | the stored user with that id, or null when there is none |
| UserModel.UserTable.FindByEmail | backend/src/models/userModel.js:4-17 | a user exactly when some stored user has that email, and then that user |
| UserModel.UserTable.FindByEmailExcluding | backend/src/models/userModel.js:84-90 | an id exactly when a user other than the excluded id has that email |
| UserModel.UserTable.FindAll | backend/src/models/userModel.js:34-46 | every stored user once, newest first |
| UserModel.UserTable.Create | backend/src/models/userModel.js:48-55 | one new active user with a fresh id, appended to the id order, and a falsy department stored as null; roles and departments kept; emails stay unique |
| UserModel.UserTable.Update | backend/src/models/userModel.js:57-75 | exactly the defined columns of that one user are written; a no-op when none is defined or no user has that id |
| UserModel.UserTable.SetActive | backend/src/models/userModel.js:77-82 | only the active flag of that one user changes |
| Audit.DiffSpec | backend/src/services/ticketService.js:76-100 | one entry per defined key whose text differs from the current text, with both texts, in the order title, description, priority, status, category, assignee |
| Audit.DiffIgnoresDepartment | backend/src/services/ticketService.js:77-84 | the department key never produces an entry |
| Audit.DiffMatchesUpdate | backend/src/services/ticketService.js:86-100 | a column is audited exactly when the partial update changes it, so re-submitted values record nothing |
| Audit.DiffOfOneKey | backend/src/services/ticketService.js:86-100 | a record defining one key records at most that key's row |
| Audit.DiffOfStatus | backend/src/services/ticketService.js:252 | a status change records one row, from the old status name to the new one |
| Audit.DiffOfSameTitle | backend/src/services/ticketService.js:91 | re-submitting the current title records nothing |
| Audit.Recorded | backend/src/services/ticketService.js:102-104 | one history row per collected entry, numbered consecutively, attributed to the acting user, with the entry's column and its old and new texts, a falsy text stored as null |
| Audit.LogChanges | backend/src/services/ticketService.js:76-105 | appends exactly the rows for the collected changes and leaves the tickets, their stamps and their order untouched |
| TicketService.TrimmedOrNull | backend/src/services/ticketService.js:156 | null for a falsy description, otherwise the trimmed text |
| TicketService.GetById | backend/src/services/ticketService.js:117-128 | NotFound for a missing ticket; Forbidden when the actor may not access it; otherwise the ticket |
| TicketService.GetAll | backend/src/services/ticketService.js:108-115 | exactly the stored tickets the role's filter lists, latest updated first; every listed ticket is one the actor may open |
| TicketService.ListedImpliesAccessible | backend/src/services/ticketService.js:108-115 | the list never shows a ticket the actor could not open |
| TicketService.ListedVersusAccessible | backend/src/models/ticketModel.js:23-31 | for admins and workers the list is exactly the accessible tickets; a manager's own ticket in another department is accessible but not listed |
| TicketService.GetHistory | backend/src/services/ticketService.js:288-300 | NotFound, then Forbidden, otherwise exactly that ticket's history rows, newest first |
| TicketService.CheckCreate | backend/src/services/ticketService.js:130-161 | accepts exactly a non-blank title of at most 255 characters after trimming, a description of at most 2000 characters after trimming, a truthy category id, a known priority and an existing active category; the draft holds the trimmed title and that category's department; failures are ValidationErrors |
| TicketService.CreatePrecedence | backend/src/services/ticketService.js:133-152 | the first failing check names the error: a missing title, a long title, a long description, a missing (absent or 0) category, an unknown priority, then an unknown or inactive category |
| TicketService.Create | backend/src/services/ticketService.js:130-164 | on success one new `open`, unassigned ticket created by the actor, at the head of the update order, with no history row; on failure no part of the tables changes (rows, history, stamps, order, next id, clock) |
| TicketService.UpdateSpec | backend/src/services/ticketService.js:166-219 | NotFound, then Forbidden without the modify right; success never writes status or assignee, nor priority for a worker; a title is written exactly when sent (trimmed, 1 to 255 characters); a description exactly when its key is sent, trimmed, or null when sent null or empty; the category sent exactly when one is sent, together with that category's department; the priority named exactly when one is sent |
| TicketService.PlanFieldsAcceptance | backend/src/services/ticketService.js:182-219 | the field checks accept a request exactly when every key it sends passes its own check and it sends at least one key |
| TicketService.WorkerPriorityForbidden | backend/src/services/ticketService.js:176-180 | a worker sending any priority key, even null or the current value, gets Forbidden |
| TicketService.UpdateGatePassed | backend/src/services/ticketService.js:166-180 | once the existence, permission and worker checks pass, the outcome is that of the field checks |
| TicketService.ResubmittedTitleRecordsNothing | backend/src/services/ticketService.js:184-192 | re-sending the current title succeeds and records no history |
| TicketService.EmptyUpdateRefused | backend/src/services/ticketService.js:217-219 | "No fields to update" exactly when none of the four keys is sent |
| TicketService.UpdateAcceptsInactiveCategory | backend/src/services/ticketService.js:201-208 | an existing but inactive category is accepted, and it brings its department |
| TicketService.Update | backend/src/services/ticketService.js:166-224 | on success the history gains the audited rows, the ticket is updated with exactly the planned fields and moves to the head of the update order, then is read back (which may be Forbidden); on failure no part of the tables changes |
| TicketService.BuildUpdateFields | backend/src/services/ticketService.js:182-219 | the key-by-key construction yields exactly the planned update record or the first failing check |
| TicketService.UpdateCanCommitThenForbid | backend/src/services/ticketService.js:221-223 | a manager moving their ticket to another department gets an accepted write and a refused read-back |
| TicketService.CheckChangeStatus | backend/src/services/ticketService.js:226-250 | succeeds exactly when the ticket exists, the actor may modify it, the status is known and an edge of the table, and it is not a worker closing; the result is that status |
| TicketService.ChangeStatusPrecedence | backend/src/services/ticketService.js:229-250 | errors fire in the order NotFound, Forbidden, unknown status, worker closing, missing edge (with the allowed targets in the message) |
| TicketService.ClosedIsFinal | backend/src/services/ticketService.js:9-14 | a closed ticket never changes status, and no ticket moves to its own status |
| TicketService.ChangeStatus | backend/src/services/ticketService.js:226-255 | on success exactly one history row (old name to new), the new status written and the ticket moved to the head of the update order; on failure no part of the tables changes |
| TicketService.CheckAssign | backend/src/services/ticketService.js:257-281 | succeeds exactly when the ticket exists, the actor is an admin or a manager of its department, the key is sent, and a non-null target is an active user; null unassigns |
| TicketService.AssignStricterThanModify | backend/src/services/ticketService.js:264-270 | whoever may assign may modify, but a worker creator or a manager creator outside the department may modify and not assign |
| TicketService.Assign | backend/src/services/ticketService.js:257-286 | on success the assignee is written with its audited row and the ticket moves to the head of the update order; on failure no part of the tables changes |
| UserService.GetById | backend/src/services/userService.js:67-73 | the user, or NotFound exactly when there is none |
| UserService.CheckEmailFormat | backend/src/services/userService.js:80-88 | accepts exactly a normalised email of at most 255 characters that matches the pattern, returning it normalised; otherwise the length error or the format error |
| UserService.CheckPassword | backend/src/services/userService.js:90-93 | passes exactly when the policy returns null; otherwise a ValidationError with the policy's message |
| UserService.CheckName | backend/src/services/userService.js:95-100 | accepts exactly a name of at most 100 characters after trimming, returning it trimmed |
| UserService.ValidateNewUserSpec | backend/src/services/userService.js:75-103 | accepted exactly when every field check passes; a missing field is reported first; every failure is a ValidationError; an accepted account has the normalised valid email, a strong password, trimmed short names, an existing role and a null or existing department |
| UserService.CreateUserSpec | backend/src/services/userService.js:105-108 | `create` accepts exactly what the field checks accept when no stored user has the normalised email |
| UserService.DuplicateEmailRefused | backend/src/services/userService.js:105-108 | a stored email, in any spelling that normalises to it, is refused as taken |
| UserService.Create | backend/src/services/userService.js:75-122 | on success one new active user with the normalised email, hashed password and trimmed names, appended to the id order; on failure rows, order and next id are unchanged; roles and departments never change |
| UserService.UpdateUserSpec | backend/src/services/userService.js:124-179 | NotFound for a missing user; other failures are ValidationErrors; an accepted email is normalised, valid and used by no other user; a password is hashed exactly when a non-empty one is sent and then meets the policy; names are at most 100 characters; a null role is refused; the update record is never empty |
| UserService.UpdateUserAcceptance | backend/src/services/userService.js:124-179 | a stored user's request is accepted exactly when every key it carries passes its check and it carries at least one, and the record built from it is what gets written; a request with no such key is refused with "No fields to update" |
| UserService.OwnEmailAllowed | backend/src/services/userService.js:140-143 | re-submitting one's own email passes the uniqueness check |
| UserService.EmptyPasswordIsNoField | backend/src/services/userService.js:147 | a request whose only key is an empty password is refused as empty |
| UserService.BuildUserFields | backend/src/services/userService.js:130-179 | the field-by-field construction yields exactly the planned update record or the first failing check |
| UserService.Update | backend/src/services/userService.js:124-183 | on success exactly the planned columns of that user are written and it is returned; on failure the rows are unchanged; order, next id, roles and departments never change |
| UserService.AdminFloor | backend/src/services/userService.js:195-204 | flipping one user's flag, when that user is not the only active admin, leaves at least one active admin |
| UserService.ToggleActive | backend/src/services/userService.js:185-206 | own account refused first, then a missing user, then the last active admin; succeeds exactly otherwise and flips only that user's flag; order, next id, roles and departments never change; an active admin always remains |
| UserService.CountActiveAdmins | backend/src/services/userService.js:196-198 | the count of the filtered list equals the number of active admins |
| TicketDetailPage.ClientTableMatchesServer | frontend/src/pages/TicketDetailPage.jsx:12-17 | the client transition table equals the service's, edge for edge and in order |
| TicketDetailPage.FieldLabelCoversAudit | frontend/src/pages/TicketDetailPage.jsx:19-29 | each audited column has its own distinct label; any other field shows as stored (see Left out for inherited object keys) |
| TicketDetailPage.CanEditVersusServer | frontend/src/pages/TicketDetailPage.jsx:162-166 | editing is offered exactly on a non-closed ticket to the users who may modify it, plus any manager |
| TicketDetailPage.WithoutClosed | frontend/src/pages/TicketDetailPage.jsx:170 | keeps exactly the statuses other than `closed` |
| TicketDetailPage.VisibleTransitionsAccepted | frontend/src/pages/TicketDetailPage.jsx:168-171 | for a user who may modify the ticket, a button is shown exactly for each status `changeStatus` accepts |
| TicketDetailPage.NoCloseButtonForWorkers | frontend/src/pages/TicketDetailPage.jsx:168-171 | a worker is never offered `closed`, and a closed ticket offers nothing |
| TicketDetailPage.Prefill | frontend/src/pages/TicketDetailPage.jsx:107-116 | the prefilled category reads back as the ticket's category, and the prefilled priority as the ticket's priority |
| TicketDetailPage.HandleEditSubmit | frontend/src/pages/TicketDetailPage.jsx:128-160 | the key-by-key payload and key count give exactly the specified outcome |
| TicketDetailPage.UnchangedFormSendsNothing | frontend/src/pages/TicketDetailPage.jsx:137-148 | saving an untouched editor closes it without a request |
| TicketDetailPage.EditPayloadSpec | frontend/src/pages/TicketDetailPage.jsx:130-148 | a blank title is refused; the editor closes exactly when nothing differs; otherwise a key is sent exactly for each field that differs, carrying the trimmed title, the trimmed description or null when it is blank, the category's number or null for NaN, and the chosen priority |
| TicketDetailPage.WorkerPayloadHasNoPriority | frontend/src/pages/TicketDetailPage.jsx:232-242 | a worker's request never carries a priority, so the service's worker-priority refusal is unreachable |
| TicketDetailPage.SentPayloadPassesFieldChecks | frontend/src/pages/TicketDetailPage.jsx:137-143 | a request from a form within the limits, with an existing category and an offered priority, passes every field check of `update` |
| TicketDetailPage.AssignSelectRoundTrip | frontend/src/pages/TicketDetailPage.jsx:94-98 | an active user's option sends that id, which `assign` accepts from an admin; the empty option sends null, which unassigns |
| TicketListPage.InitialFormDefaults | frontend/src/pages/TicketListPage.jsx:11-16 | the form opens on priority `medium` and is refused until a title is typed |
| TicketListPage.Validate | frontend/src/pages/TicketListPage.jsx:45-53 | null exactly for a trimmed title of at least 3 characters and a chosen category; otherwise the title message first, then the category message |
| TicketListPage.CreatePayload | frontend/src/pages/TicketListPage.jsx:64-69 | the title trimmed, an empty trimmed description as null, the category as a number, the priority as chosen |
| TicketListPage.ValidFormAccepted | frontend/src/pages/TicketListPage.jsx:55-69 | a form the validator passes, within the limits and with an offered category and priority, is accepted by `create` with the title and description shown |
| TicketListPage.ShortTitleOnlyRefusedByPage | frontend/src/pages/TicketListPage.jsx:45-48 | a two-character title is refused by the page and accepted by the service |
| TicketListPage.ActiveCategories | frontend/src/pages/TicketListPage.jsx:75 | offers exactly the active categories, in their order |
| TicketListPage.FilterSpec | frontend/src/pages/TicketListPage.jsx:178-182 | keeps exactly the tickets matching both filters, in list order |
| TicketListPage.FilterIdentityAndIdempotence | frontend/src/pages/TicketListPage.jsx:178-182 | empty filters show the whole list, and filtering twice equals filtering once |
| UserFormModal.Validate | frontend/src/components/UserFormModal.jsx:49-64 | null exactly when the four required fields are present, the email matches the pattern, a new user has a password, and any password has at least 8 characters |
| UserFormModal.ValidatePrecedence | frontend/src/components/UserFormModal.jsx:49-64 | missing fields are reported first, then the email format, then a missing password in create mode, then a password shorter than 8; in edit mode an empty password passes |
| UserFormModal.ServerPasswordPassesForm | frontend/src/components/UserFormModal.jsx:60-62 | every password the service accepts passes the form's length check |
| UserFormModal.FormEmailPassesServer | frontend/src/components/UserFormModal.jsx:53-56 | an email the form accepts passes the service's pattern check after normalisation, and its format check exactly when it has at most 255 characters (a longer one is refused as too long) |
| UserFormModal.PayloadOf | frontend/src/components/UserFormModal.jsx:74-84 | the email and names as typed; the role as its number (null for NaN); the department as its number, or null for '' or NaN; a password exactly when one was typed |
| UserFormModal.HandleSubmit | frontend/src/components/UserFormModal.jsx:66-84 | building the payload, then adding the password, gives the specified outcome |
| UserFormModal.ValidCreateFormHasAllFields | frontend/src/components/UserFormModal.jsx:74-84 | a create form the validator passes gets past the service's missing-field check |
| UserFormModal.Prefill | frontend/src/components/UserFormModal.jsx:17-26 | an empty password, a role text that reads back as the role id, and '' exactly for a missing department |
| UserFormModal.PrefillRoundTrip | frontend/src/components/UserFormModal.jsx:18-26 | an untouched edit form sends back the user's own values and no password |
| UserFormModal.UntouchedEditIsNoOp | frontend/src/components/UserFormModal.jsx:17-26 | saving an untouched edit form of a well-formed stored user is accepted by `update` and rewrites the row unchanged |

## Left out

- SQL and the connection pool: tables are maps with an id list for order. Joins, query text and collation are not modelled. In particular, a case-insensitive `WHERE email = ?` is not modelled; the model compares emails exactly.
- Timestamps: `updated_at` is an abstract stamp from a clock that every write advances, and `created_at` is id order. Two rows written in the same second, which SQL would leave in an unspecified order, are not modelled.
- bcrypt: the hash is a function passed in. The cost factor and salting are not modelled.
- The `is_active` column default: `userModel.create` does not write `is_active`. The model stores new users as active, which assumes the schema default.
- JavaScript coercion: a `null` title, email, password or name (which would throw a TypeError) is not modelled. Neither is an id sent as a string, nor `Number()` on anything but an optional '-' followed by decimal digits; all other text is NaN, which JSON sends as null.
- Unicode: whitespace is the ASCII set (space, tab, line feed, vertical tab, form feed, carriage return), lower-casing is ASCII only, and length counts characters, not UTF-16 units.
- Concurrency: two `toggleActive` calls racing between count and flip, or two creates racing on one email, are not modelled. The model is sequential.
- The DTO mappings (`toTicketDTO`, `toHistoryDTO`, `toUserDTO`), the controllers, routes and middleware, rendering, hooks, fetch orchestration and date formatting are not modelled.
- `userService.getAll`, `getRoles` and `getDepartments` are not modelled beyond `UserModel.UserTable.FindAll`: each only maps a table read.
- The roles table holds exactly the three roles admin, manager and worker; a role id maps to one of them.
- UserModel.UserTable.Create: requires a fresh email and an existing role, which the database's unique key and foreign key enforce by refusing the insert; the model does not return those database errors.
- UserModel.UserTable.Update: requires that a new email is used by no other user and that a new role exists, for the same reason.
- TicketDetailPage.FieldLabelCoversAudit: its clause that any other field is shown as stored holds for `map[field] || field` only for names that are not inherited object keys; for `constructor`, `toString` and the other `Object.prototype` members JavaScript returns the inherited function instead. Stored field names come only from the audited columns, so the page never meets such a name.
- Text.Trim: its own contract gives only the shape of the result; that the result is the input less its edge whitespace is the lemma Text.TrimContent, kept apart because the clause in Trim's contract makes every proof that calls Trim too costly to check.
