/** The ticket workflow engine (`ticketService`): every operation runs a
    fixed sequence of checks, fails with the first one that does not hold,
    and only then writes. Each decision is a pure function of the ticket
    found (if any), the acting user and the request; the methods run the
    decision against the tables and perform the writes. */
module TicketService {
  import opened Common
  import opened Text
  import opened Domain
  import opened TicketRules
  import opened TicketModel
  import opened Audit
  import opened UserModel

  const TicketNotFound := "Ticket not found"
  const NoAccess := "You do not have access to this ticket"
  const NoModify := "You do not have permission to modify this ticket"
  const NoStatusChange := "You do not have permission to change this ticket status"
  const TitleRequired := "Title is required"
  const TitleEmpty := "Title cannot be empty"
  const TitleTooLong := "Title must be 255 characters or fewer"
  const DescriptionTooLong := "Description must be 2000 characters or fewer"
  const CategoryRequired := "Category is required"
  const PriorityInvalid := "Priority must be one of: low, medium, high, critical"
  const StatusInvalid := "Status must be one of: open, in_progress, on_hold, closed"
  const WorkersCannotClose := "Workers cannot close tickets"
  const WorkersCannotPrioritise := "Workers cannot change ticket priority"
  const NoFieldsToUpdate := "No fields to update"

  /** The row `ticketModel.findById` returns. */
  function Lookup(rows: map<int, Ticket>, id: int): (r: Option<Ticket>)
    ensures r.Some? <==> id in rows
  {
    if id in rows then Some(rows[id]) else None
  }

  /** A string that JavaScript treats as false: missing, null or empty. */
  predicate Falsy(s: Option<string>) {
    s.None? || s.value == ""
  }

  /** `description ? description.trim() : null`. */
  function TrimmedOrNull(s: Option<string>): (r: Option<string>)
    ensures r.None? <==> Falsy(s)
    ensures r.Some? ==> r.value == Trim(s.value)
  {
    if Falsy(s) then None else Some(Trim(s.value))
  }

  // ---------------------------------------------------------------- reads

  /** `getById`: the ticket if it exists and the actor may see it. */
  method GetById(db: TicketTable, actor: Actor, id: int) returns (r: Result<Ticket>)
    requires db.Valid()
    ensures id !in db.rows ==> r == Err(NotFound(TicketNotFound))
    ensures id in db.rows && !CanUserAccessTicket(db.rows[id], actor) ==> r == Err(Forbidden(NoAccess))
    ensures id in db.rows && CanUserAccessTicket(db.rows[id], actor) ==> r == Ok(db.rows[id])
  {
    var found := db.FindById(id);
    if found.None? {
      return Err(NotFound(TicketNotFound));
    }
    if !CanUserAccessTicket(found.value, actor) {
      return Err(Forbidden(NoAccess));
    }
    return Ok(found.value);
  }

  /** `getAll`: the role-scoped list, newest first. Every ticket listed is
      one the actor may open. */
  method GetAll(db: TicketTable, actor: Actor) returns (r: seq<Ticket>)
    requires db.Valid()
    ensures forall t :: t in r ==> t.id in db.rows && db.rows[t.id] == t && Listed(actor.role, actor.id, actor.departmentId, t)
    ensures forall t :: t in r ==> CanUserAccessTicket(t, actor)
    ensures forall id :: id in db.rows && Listed(actor.role, actor.id, actor.departmentId, db.rows[id]) ==> db.rows[id] in r
    ensures forall i, j :: 0 <= i < j < |r| ==> db.stamps[r[i].id] > db.stamps[r[j].id]
  {
    r := db.FindAll(actor.role, actor.id, actor.departmentId);
    forall t | t in r ensures CanUserAccessTicket(t, actor) {
      ListedImpliesAccessible(actor, t);
    }
  }

  /** The list filter never shows a ticket the actor could not open. */
  lemma ListedImpliesAccessible(actor: Actor, t: Ticket)
    requires Listed(actor.role, actor.id, actor.departmentId, t)
    ensures CanUserAccessTicket(t, actor)
  {
  }

  /** For admins and workers the list is exactly the accessible tickets; a
      manager who created a ticket in another department may open it but
      does not see it listed. */
  lemma ListedVersusAccessible()
    ensures forall a: Actor, t: Ticket :: a.role != Manager ==>
      (Listed(a.role, a.id, a.departmentId, t) <==> CanUserAccessTicket(t, a))
    ensures var m := Actor(7, Manager, Some(1));
            var t := Ticket(3, "Printer", None, Low, Open, 2, 2, 7, None);
            CanUserAccessTicket(t, m) && !Listed(m.role, m.id, m.departmentId, t)
  {
  }

  /** `getHistory`: the ticket's history rows, newest first, if the actor
      may see the ticket. */
  method GetHistory(db: TicketTable, actor: Actor, id: int) returns (r: Result<seq<HistoryEntry>>)
    requires db.Valid()
    ensures id !in db.rows ==> r == Err(NotFound(TicketNotFound))
    ensures id in db.rows && !CanUserAccessTicket(db.rows[id], actor) ==> r == Err(Forbidden(NoAccess))
    ensures r.Ok? <==> id in db.rows && CanUserAccessTicket(db.rows[id], actor)
    ensures r.Ok? ==> forall e :: e in r.value <==> e in db.history && e.ticketId == id
    ensures r.Ok? ==> forall i, j :: 0 <= i < j < |r.value| ==> r.value[i].id > r.value[j].id
  {
    var found := db.FindById(id);
    if found.None? {
      return Err(NotFound(TicketNotFound));
    }
    if !CanUserAccessTicket(found.value, actor) {
      return Err(Forbidden(NoAccess));
    }
    var rows := db.FindHistoryByTicketId(id);
    return Ok(rows);
  }

  // --------------------------------------------------------------- create

  /** The body of a create request; `None` is a missing or null key. */
  datatype CreateData = CreateData(title: Option<string>, description: Option<string>,
                                   categoryId: Option<int>, priority: Option<string>)

  /** What `create` hands to `ticketModel.create`, less the creator. */
  datatype TicketDraft = TicketDraft(title: string, description: Option<string>, categoryId: int,
                                     priority: Priority, departmentId: int)

  /** The checks of `create`, in order, and the record it inserts. */
  function CheckCreate(d: CreateData, categories: map<int, Category>): (r: Result<TicketDraft>)
    ensures r.Ok? <==>
      && d.title.Some? && Trim(d.title.value) != [] && |Trim(d.title.value)| <= MaxTitleLength
      && (Falsy(d.description) || |Trim(d.description.value)| <= MaxDescriptionLength)
      && NullIfZero(d.categoryId).Some?
      && d.priority.Some? && ParsePriority(d.priority.value).Some?
      && d.categoryId.value in categories && categories[d.categoryId.value].isActive
    ensures r.Ok? ==>
      && r.value.title == Trim(d.title.value)
      && 0 < |r.value.title| <= MaxTitleLength
      && (r.value.description.Some? ==> |r.value.description.value| <= MaxDescriptionLength)
      && r.value.description == TrimmedOrNull(d.description)
      && r.value.categoryId == d.categoryId.value
      && r.value.departmentId == categories[r.value.categoryId].departmentId
      && PriorityName(r.value.priority) == d.priority.value
    ensures r.Err? ==> r.error.Validation?
  {
    if d.title.None? || Trim(d.title.value) == [] then Err(Validation(TitleRequired))
    else if |Trim(d.title.value)| > MaxTitleLength then Err(Validation(TitleTooLong))
    else if !Falsy(d.description) && |Trim(d.description.value)| > MaxDescriptionLength then Err(Validation(DescriptionTooLong))
    else if NullIfZero(d.categoryId).None? then Err(Validation(CategoryRequired))
    else if d.priority.None? || ParsePriority(d.priority.value).None? then Err(Validation(PriorityInvalid))
    else if d.categoryId.value !in categories || !categories[d.categoryId.value].isActive then
      Err(Validation("Invalid or inactive category selected"))
    else
      var c := categories[d.categoryId.value];
      Ok(TicketDraft(Trim(d.title.value), TrimmedOrNull(d.description), d.categoryId.value,
                     ParsePriority(d.priority.value).value, c.departmentId))
  }

  /** A title `create` accepts: present, not blank once trimmed, and at
      most 255 characters. */
  predicate TitleAccepted(d: CreateData) {
    d.title.Some? && Trim(d.title.value) != [] && |Trim(d.title.value)| <= MaxTitleLength
  }

  /** A description `create` accepts: falsy, or at most 2000 characters
      once trimmed. */
  predicate DescriptionAccepted(d: CreateData) {
    Falsy(d.description) || |Trim(d.description.value)| <= MaxDescriptionLength
  }

  /** The checks fire in order: the first failing one names the error. */
  lemma CreatePrecedence(d: CreateData, categories: map<int, Category>)
    ensures d.title.None? || Trim(d.title.value) == [] ==> CheckCreate(d, categories) == Err(Validation(TitleRequired))
    ensures d.title.Some? && |Trim(d.title.value)| > MaxTitleLength ==> CheckCreate(d, categories) == Err(Validation(TitleTooLong))
    ensures TitleAccepted(d) && !DescriptionAccepted(d) ==>
      CheckCreate(d, categories) == Err(Validation(DescriptionTooLong))
    ensures TitleAccepted(d) && DescriptionAccepted(d) && NullIfZero(d.categoryId).None? ==>
      CheckCreate(d, categories) == Err(Validation(CategoryRequired))
    ensures TitleAccepted(d) && DescriptionAccepted(d) && NullIfZero(d.categoryId).Some? &&
            (d.priority.None? || ParsePriority(d.priority.value).None?) ==>
      CheckCreate(d, categories) == Err(Validation(PriorityInvalid))
    ensures TitleAccepted(d) && DescriptionAccepted(d) && NullIfZero(d.categoryId).Some? &&
            d.priority.Some? && ParsePriority(d.priority.value).Some? &&
            (d.categoryId.value !in categories || !categories[d.categoryId.value].isActive) ==>
      CheckCreate(d, categories) == Err(Validation("Invalid or inactive category selected"))
  {
  }

  /** `create`: on success the new ticket is `open`, unassigned, created by
      the actor, in its category's department, and no history is written;
      the creator can always read it back. On failure nothing changes. */
  method Create(db: TicketTable, categories: map<int, Category>, actor: Actor, d: CreateData) returns (r: Result<Ticket>)
    requires db.Valid()
    modifies db
    ensures db.Valid()
    ensures db.history == old(db.history)
    ensures CheckCreate(d, categories).Err? ==>
      r == Err(CheckCreate(d, categories).error) && db.rows == old(db.rows) &&
      db.stamps == old(db.stamps) && db.recent == old(db.recent) && db.nextId == old(db.nextId) && db.clock == old(db.clock)
    ensures CheckCreate(d, categories).Ok? ==>
      var dr := CheckCreate(d, categories).value;
      && r.Ok? && r.value.id !in old(db.rows)
      && r.value == Ticket(r.value.id, dr.title, NullIfEmpty(dr.description), dr.priority, Open, dr.categoryId,
                           dr.departmentId, actor.id, None)
      && db.rows == old(db.rows)[r.value.id := r.value]
      && db.stamps == old(db.stamps)[r.value.id := old(db.clock)] && db.recent == [r.value.id] + old(db.recent)
      && db.nextId == old(db.nextId) + 1 && db.clock == old(db.clock) + 1
  {
    var check := CheckCreate(d, categories);
    if check.Err? {
      return Err(check.error);
    }
    var dr := check.value;
    var id := db.Create(dr.title, dr.description, dr.categoryId, dr.priority, dr.departmentId, actor.id);
    r := GetById(db, actor, id);
  }

  // --------------------------------------------------------------- update

  /** The body of an update request. `title` is missing or a string;
      the other keys may also be an explicit null. */
  datatype UpdateData = UpdateData(title: Option<string>, description: Input<string>,
                                   categoryId: Input<int>, priority: Input<string>)

  /** The field checks of `update`, in order, and the update record they
      build: a trimmed title, a trimmed description or null, the category
      with its department, the priority. */
  function PlanFields(d: UpdateData, categories: map<int, Category>): Result<TicketFields> {
    if d.title.Some? && Trim(d.title.value) == [] then Err(Validation(TitleEmpty))
    else if d.title.Some? && |Trim(d.title.value)| > MaxTitleLength then Err(Validation(TitleTooLong))
    else if d.description.Given? && d.description.value != "" && |Trim(d.description.value)| > MaxDescriptionLength then
      Err(Validation(DescriptionTooLong))
    else if d.categoryId.Null? || (d.categoryId.Given? && d.categoryId.value !in categories) then
      Err(Validation("Invalid category selected"))
    else if d.priority.Null? || (d.priority.Given? && ParsePriority(d.priority.value).None?) then
      Err(Validation(PriorityInvalid))
    else if d.title.None? && d.description.Undefined? && d.categoryId.Undefined? && d.priority.Undefined? then
      Err(Validation(NoFieldsToUpdate))
    else
      Ok(TicketFields(
        if d.title.Some? then Set(Trim(d.title.value)) else Keep,
        if d.description.Undefined? then Keep
        else Set(TrimmedOrNull(if d.description.Given? then Some(d.description.value) else None)),
        if d.categoryId.Given? then Set(d.categoryId.value) else Keep,
        if d.priority.Given? then Set(ParsePriority(d.priority.value).value) else Keep,
        Keep,
        Keep,
        if d.categoryId.Given? then Set(categories[d.categoryId.value].departmentId) else Keep))
  }

  /** The checks of `update`, in order: the ticket exists, the actor may
      modify it, a worker sends no priority, then the field checks. */
  function CheckUpdate(found: Option<Ticket>, actor: Actor, d: UpdateData, categories: map<int, Category>): Result<TicketFields> {
    if found.None? then Err(NotFound(TicketNotFound))
    else if !CanUserModifyTicket(found.value, actor) then Err(Forbidden(NoModify))
    else if actor.role == Worker && !d.priority.Undefined? then Err(Forbidden(WorkersCannotPrioritise))
    else PlanFields(d, categories)
  }

  /** What a successful `update` writes: never the status or the assignee,
      never a priority for a worker, a title only when one was sent (trimmed,
      non-empty, at most 255 characters), a description only when the key
      was sent (trimmed, or null when sent null or empty; at most 2000
      characters), the category sent together with that category's
      department, and the priority named, each exactly when sent. Only the
      modify check and the worker rule refuse with Forbidden. */
  lemma UpdateSpec(found: Option<Ticket>, actor: Actor, d: UpdateData, categories: map<int, Category>)
    ensures var r := CheckUpdate(found, actor, d, categories);
      && (found.None? ==> r == Err(NotFound(TicketNotFound)))
      && (found.Some? && !CanUserModifyTicket(found.value, actor) ==> r == Err(Forbidden(NoModify)))
      && (r.Err? && r.error.Forbidden? ==> r.error.msg in {NoModify, WorkersCannotPrioritise})
      && (r.Ok? ==> found.Some? && CanUserModifyTicket(found.value, actor))
      && (r.Ok? ==> !IsEmpty(r.value) && r.value.status.Keep? && r.value.assignedTo.Keep?)
      && (r.Ok? && actor.role == Worker ==> r.value.priority.Keep?)
      && (r.Ok? ==> (r.value.title.Set? <==> d.title.Some?))
      && (r.Ok? && r.value.title.Set? ==>
            r.value.title.value == Trim(d.title.value) && 0 < |r.value.title.value| <= MaxTitleLength)
      && (r.Ok? ==> (r.value.description.Set? <==> !d.description.Undefined?))
      && (r.Ok? && r.value.description.Set? && r.value.description.value.Some? ==>
            |r.value.description.value.value| <= MaxDescriptionLength)
      && (r.Ok? ==> (r.value.categoryId.Set? <==> r.value.departmentId.Set?))
      && (r.Ok? && r.value.categoryId.Set? ==>
            r.value.categoryId.value in categories &&
            r.value.departmentId.value == categories[r.value.categoryId.value].departmentId)
      && (r.Ok? ==> (r.value.categoryId.Set? <==> d.categoryId.Given?))
      && (r.Ok? && d.categoryId.Given? ==>
            && r.value.categoryId.value == d.categoryId.value
            && r.value.departmentId == Set(categories[d.categoryId.value].departmentId))
      && (r.Ok? ==> (r.value.priority.Set? <==> d.priority.Given?))
      && (r.Ok? && d.priority.Given? ==> PriorityName(r.value.priority.value) == d.priority.value)
      && (r.Ok? && d.description.Given? ==> r.value.description.value == TrimmedOrNull(Some(d.description.value)))
      && (r.Ok? && d.description.Null? ==> r.value.description == Set(None))
  {
  }

  /** The field checks accept a request exactly when every key it sends
      passes its own check and it sends at least one key. */
  lemma PlanFieldsAcceptance(d: UpdateData, categories: map<int, Category>)
    ensures PlanFields(d, categories).Ok? <==>
      && (d.title.Some? ==> Trim(d.title.value) != [] && |Trim(d.title.value)| <= MaxTitleLength)
      && (d.description.Given? && d.description.value != "" ==> |Trim(d.description.value)| <= MaxDescriptionLength)
      && !d.categoryId.Null? && (d.categoryId.Given? ==> d.categoryId.value in categories)
      && !d.priority.Null? && (d.priority.Given? ==> ParsePriority(d.priority.value).Some?)
      && (d.title.Some? || !d.description.Undefined? || !d.categoryId.Undefined? || !d.priority.Undefined?)
  {
  }

  /** A worker who sends any priority key, even the current value or null,
      is refused before any field is looked at. */
  lemma WorkerPriorityForbidden(t: Ticket, actor: Actor, d: UpdateData, categories: map<int, Category>)
    requires CanUserModifyTicket(t, actor) && actor.role == Worker && !d.priority.Undefined?
    ensures CheckUpdate(Some(t), actor, d, categories) == Err(Forbidden(WorkersCannotPrioritise))
  {
  }

  /** Past the existence, permission and worker-priority checks, the
      outcome of `update` is that of its field checks alone. */
  lemma UpdateGatePassed(t: Ticket, actor: Actor, d: UpdateData, categories: map<int, Category>)
    requires CanUserModifyTicket(t, actor)
    requires actor.role != Worker || d.priority.Undefined?
    ensures CheckUpdate(Some(t), actor, d, categories) == PlanFields(d, categories)
  {
  }

  /** A request that sets the current title again succeeds and records no
      history row. */
  lemma ResubmittedTitleRecordsNothing(t: Ticket, actor: Actor, categories: map<int, Category>)
    requires CanUserModifyTicket(t, actor)
    requires t.title != [] && !IsSpace(t.title[0]) && !IsSpace(t.title[|t.title| - 1]) && |t.title| <= MaxTitleLength
    ensures var r := CheckUpdate(Some(t), actor, UpdateData(Some(t.title), Undefined, Undefined, Undefined), categories);
      r.Ok? && Diff(t, r.value) == []
  {
    var d := UpdateData(Some(t.title), Undefined, Undefined, Undefined);
    var f := NoFields.(title := Set(t.title));
    assert PlanFields(d, categories) == Ok(f) by {
      TrimOfTrimmed(t.title);
    }
    UpdateGatePassed(t, actor, d, categories);
    DiffOfSameTitle(t);
  }

  /** Only a request with none of the four keys is refused as empty. */
  lemma EmptyUpdateRefused(t: Ticket, actor: Actor, d: UpdateData, categories: map<int, Category>)
    requires CanUserModifyTicket(t, actor)
    ensures CheckUpdate(Some(t), actor, d, categories) == Err(Validation(NoFieldsToUpdate)) <==>
      d == UpdateData(None, Undefined, Undefined, Undefined)
  {
  }

  /** A category move needs only an existing category, not an active one. */
  lemma UpdateAcceptsInactiveCategory(t: Ticket, actor: Actor, c: Category)
    requires CanUserModifyTicket(t, actor) && !c.isActive
    ensures var r := CheckUpdate(Some(t), actor, UpdateData(None, Undefined, Given(c.id), Undefined), map[c.id := c]);
      r.Ok? && r.value.departmentId == Set(c.departmentId)
  {
  }

  /** `update`: runs the checks as it builds the update record key by key;
      on success it audits the changes, writes exactly the record and then
      reads the ticket back, which for a manager who moved the ticket to
      another department fails with Forbidden after the write. On failure
      nothing changes. */
  method Update(db: TicketTable, categories: map<int, Category>, actor: Actor, id: int, d: UpdateData) returns (r: Result<Ticket>)
    requires db.Valid()
    modifies db
    ensures db.Valid()
    ensures var plan := CheckUpdate(Lookup(old(db.rows), id), actor, d, categories);
      plan.Err? ==> r == Err(plan.error) && db.rows == old(db.rows) && db.history == old(db.history) &&
                    db.stamps == old(db.stamps) && db.recent == old(db.recent) && db.nextId == old(db.nextId) && db.clock == old(db.clock)
    ensures var plan := CheckUpdate(Lookup(old(db.rows), id), actor, d, categories);
      plan.Ok? ==>
        && db.rows == old(db.rows)[id := Apply(old(db.rows)[id], plan.value)]
        && db.history == old(db.history) + Recorded(|old(db.history)|, id, actor.id, Diff(old(db.rows)[id], plan.value))
        && db.stamps == old(db.stamps)[id := old(db.clock)] && db.recent == [id] + Without(old(db.recent), id)
        && db.nextId == old(db.nextId) && db.clock == old(db.clock) + 1
        && r == (if CanUserAccessTicket(db.rows[id], actor) then Ok(db.rows[id]) else Err(Forbidden(NoAccess)))
  {
    var found := db.FindById(id);
    if found.None? {
      return Err(NotFound(TicketNotFound));
    }
    var t := found.value;
    if !CanUserModifyTicket(t, actor) {
      return Err(Forbidden(NoModify));
    }
    if actor.role == Worker && !d.priority.Undefined? {
      return Err(Forbidden(WorkersCannotPrioritise));
    }
    var plan := BuildUpdateFields(d, categories);
    if plan.Err? {
      return Err(plan.error);
    }
    assert !IsEmpty(plan.value);
    LogChanges(db, id, actor.id, t, plan.value);
    db.Update(id, plan.value);
    r := GetById(db, actor, id);
  }

  /** The field part of `update`: builds the update record key by key and
      stops at the first failing check. */
  method BuildUpdateFields(d: UpdateData, categories: map<int, Category>) returns (r: Result<TicketFields>)
    ensures r == PlanFields(d, categories)
  {
    var fields := NoFields;
    if d.title.Some? {
      var title := Trim(d.title.value);
      if title == [] {
        return Err(Validation(TitleEmpty));
      }
      if |title| > MaxTitleLength {
        return Err(Validation(TitleTooLong));
      }
      fields := fields.(title := Set(title));
    }
    if !d.description.Undefined? {
      var given := if d.description.Given? then Some(d.description.value) else None;
      if !Falsy(given) && |Trim(given.value)| > MaxDescriptionLength {
        return Err(Validation(DescriptionTooLong));
      }
      fields := fields.(description := Set(TrimmedOrNull(given)));
    }
    if !d.categoryId.Undefined? {
      if d.categoryId.Null? || d.categoryId.value !in categories {
        return Err(Validation("Invalid category selected"));
      }
      var category := categories[d.categoryId.value];
      fields := fields.(categoryId := Set(d.categoryId.value), departmentId := Set(category.departmentId));
    }
    if !d.priority.Undefined? {
      var p := if d.priority.Given? then ParsePriority(d.priority.value) else None;
      if p.None? {
        return Err(Validation(PriorityInvalid));
      }
      fields := fields.(priority := Set(p.value));
    }
    if IsEmpty(fields) {
      return Err(Validation(NoFieldsToUpdate));
    }
    return Ok(fields);
  }

  /** The write of `update` can succeed while its read-back is refused: a
      manager who moves a ticket of their department into another one. */
  lemma UpdateCanCommitThenForbid()
    ensures var m := Actor(7, Manager, Some(1));
            var t := Ticket(3, "Printer", None, Low, Open, 10, 1, 8, None);
            var cats := map[20 := Category(20, 2, true)];
            var r := CheckUpdate(Some(t), m, UpdateData(None, Undefined, Given(20), Undefined), cats);
            r.Ok? && !CanUserAccessTicket(Apply(t, r.value), m)
  {
  }

  // --------------------------------------------------------- change status

  /** The checks of `changeStatus`, in order; the new status on success. */
  function CheckChangeStatus(found: Option<Ticket>, actor: Actor, status: Option<string>): (r: Result<Status>)
    ensures r.Ok? <==>
      && found.Some?
      && CanUserModifyTicket(found.value, actor)
      && status.Some? && ParseStatus(status.value).Some?
      && ParseStatus(status.value).value in Transitions(found.value.status)
      && !(actor.role == Worker && ParseStatus(status.value).value == Closed)
    ensures r.Ok? ==> StatusName(r.value) == status.value && r.value in Transitions(found.value.status)
  {
    if found.None? then Err(NotFound(TicketNotFound))
    else if !CanUserModifyTicket(found.value, actor) then Err(Forbidden(NoStatusChange))
    else if status.None? || ParseStatus(status.value).None? then Err(Validation(StatusInvalid))
    else if actor.role == Worker && ParseStatus(status.value).value == Closed then Err(Forbidden(WorkersCannotClose))
    else if ParseStatus(status.value).value !in Transitions(found.value.status) then
      Err(Validation(TransitionMessage(found.value.status, status.value)))
    else Ok(ParseStatus(status.value).value)
  }

  /** The error of `changeStatus` is that of the first failing check:
      missing ticket, no permission, unknown status, a worker closing, an
      edge missing from the table (whose message lists the allowed targets). */
  lemma ChangeStatusPrecedence(found: Option<Ticket>, actor: Actor, status: Option<string>)
    ensures found.None? ==> CheckChangeStatus(found, actor, status) == Err(NotFound(TicketNotFound))
    ensures found.Some? && !CanUserModifyTicket(found.value, actor) ==>
      CheckChangeStatus(found, actor, status) == Err(Forbidden(NoStatusChange))
    ensures found.Some? && CanUserModifyTicket(found.value, actor) && (status.None? || ParseStatus(status.value).None?) ==>
      CheckChangeStatus(found, actor, status) == Err(Validation(StatusInvalid))
    ensures found.Some? && CanUserModifyTicket(found.value, actor) && actor.role == Worker && status == Some("closed") ==>
      CheckChangeStatus(found, actor, status) == Err(Forbidden(WorkersCannotClose))
    ensures found.Some? && CanUserModifyTicket(found.value, actor) && status.Some? &&
            ParseStatus(status.value).Some? && ParseStatus(status.value).value !in Transitions(found.value.status) &&
            !(actor.role == Worker && status == Some("closed")) ==>
      CheckChangeStatus(found, actor, status) == Err(Validation(TransitionMessage(found.value.status, status.value)))
  {
  }

  /** A closed ticket never changes status again, and moving a ticket to the
      status it already has is always refused. */
  lemma ClosedIsFinal(t: Ticket, actor: Actor, status: Option<string>)
    ensures t.status == Closed ==> CheckChangeStatus(Some(t), actor, status).Err?
    ensures status == Some(StatusName(t.status)) ==> CheckChangeStatus(Some(t), actor, status).Err?
  {
    TransitionTableShape();
  }

  /** `changeStatus`: on success one history row for the status (the edge
      always changes it) and the new status written; on failure nothing. */
  method ChangeStatus(db: TicketTable, actor: Actor, id: int, status: Option<string>) returns (r: Result<Ticket>)
    requires db.Valid()
    modifies db
    ensures db.Valid()
    ensures var c := CheckChangeStatus(Lookup(old(db.rows), id), actor, status);
      c.Err? ==> r == Err(c.error) && db.rows == old(db.rows) && db.history == old(db.history) &&
                 db.stamps == old(db.stamps) && db.recent == old(db.recent) && db.nextId == old(db.nextId) && db.clock == old(db.clock)
    ensures var c := CheckChangeStatus(Lookup(old(db.rows), id), actor, status);
      c.Ok? ==>
        && db.rows == old(db.rows)[id := old(db.rows)[id].(status := c.value)]
        && db.history == old(db.history) + [HistoryEntry(|old(db.history)| + 1, id, actor.id, StatusColumn,
                                                         Some(StatusName(old(db.rows)[id].status)), Some(StatusName(c.value)))]
        && db.stamps == old(db.stamps)[id := old(db.clock)] && db.recent == [id] + Without(old(db.recent), id)
        && db.nextId == old(db.nextId) && db.clock == old(db.clock) + 1
        && r == Ok(db.rows[id])
  {
    var found := db.FindById(id);
    var c := CheckChangeStatus(found, actor, status);
    if c.Err? {
      return Err(c.error);
    }
    var t := found.value;
    var fields := NoFields.(status := Set(c.value));
    TransitionTableShape();
    DiffOfStatus(t, c.value);
    LogChanges(db, id, actor.id, t, fields);
    db.Update(id, fields);
    AccessRule(t, actor);
    r := GetById(db, actor, id);
  }

  // --------------------------------------------------------------- assign

  /** The checks of `assign`, in order; the new assignee (null to unassign)
      on success. The general modify check is not among them. */
  function CheckAssign(found: Option<Ticket>, actor: Actor, assignedTo: Input<int>, users: map<int, User>): (r: Result<Option<int>>)
    ensures r.Ok? <==>
      && found.Some?
      && actor.role != Worker
      && (actor.role == Manager ==> actor.departmentId == Some(found.value.departmentId))
      && !assignedTo.Undefined?
      && (assignedTo.Given? ==> assignedTo.value in users && users[assignedTo.value].isActive)
    ensures r.Ok? ==> r.value == (if assignedTo.Given? then Some(assignedTo.value) else None)
    ensures found.Some? && actor.role == Worker ==> r == Err(Forbidden("Workers cannot assign tickets"))
  {
    if found.None? then Err(NotFound(TicketNotFound))
    else if actor.role == Worker then Err(Forbidden("Workers cannot assign tickets"))
    else if actor.role == Manager && Some(found.value.departmentId) != actor.departmentId then
      Err(Forbidden("You can only assign tickets within your department"))
    else if assignedTo.Undefined? then Err(Validation("assignedTo is required (use null to unassign)"))
    else if assignedTo.Given? && (assignedTo.value !in users || !users[assignedTo.value].isActive) then
      Err(Validation("Assignee user not found or is inactive"))
    else Ok(if assignedTo.Given? then Some(assignedTo.value) else None)
  }

  /** Whoever may assign may also modify, but not the other way round: the
      creator of a ticket who is a worker, or a manager outside the ticket's
      department, may edit it and still not assign it. */
  lemma AssignStricterThanModify(t: Ticket, actor: Actor, assignedTo: Input<int>, users: map<int, User>)
    ensures CheckAssign(Some(t), actor, assignedTo, users).Ok? ==> CanUserModifyTicket(t, actor)
    ensures t.createdBy == actor.id && actor.role == Worker ==>
      CanUserModifyTicket(t, actor) && CheckAssign(Some(t), actor, assignedTo, users).Err?
    ensures t.createdBy == actor.id && actor.role == Manager && actor.departmentId != Some(t.departmentId) ==>
      CanUserModifyTicket(t, actor) && CheckAssign(Some(t), actor, assignedTo, users).Err?
  {
  }

  /** `assign`: on success the assignee is written and a history row is
      recorded when it changes; on failure nothing changes. */
  method Assign(db: TicketTable, users: UserTable, actor: Actor, id: int, assignedTo: Input<int>) returns (r: Result<Ticket>)
    requires db.Valid()
    modifies db
    ensures db.Valid()
    ensures var c := CheckAssign(Lookup(old(db.rows), id), actor, assignedTo, users.rows);
      c.Err? ==> r == Err(c.error) && db.rows == old(db.rows) && db.history == old(db.history) &&
                 db.stamps == old(db.stamps) && db.recent == old(db.recent) && db.nextId == old(db.nextId) && db.clock == old(db.clock)
    ensures var c := CheckAssign(Lookup(old(db.rows), id), actor, assignedTo, users.rows);
      c.Ok? ==>
        var f := NoFields.(assignedTo := Set(c.value));
        && db.rows == old(db.rows)[id := old(db.rows)[id].(assignedTo := c.value)]
        && db.history == old(db.history) + Recorded(|old(db.history)|, id, actor.id, Diff(old(db.rows)[id], f))
        && db.stamps == old(db.stamps)[id := old(db.clock)] && db.recent == [id] + Without(old(db.recent), id)
        && db.nextId == old(db.nextId) && db.clock == old(db.clock) + 1
        && r == Ok(db.rows[id])
  {
    var found := db.FindById(id);
    var c := CheckAssign(found, actor, assignedTo, users.rows);
    if c.Err? {
      return Err(c.error);
    }
    var t := found.value;
    var fields := NoFields.(assignedTo := Set(c.value));
    LogChanges(db, id, actor.id, t, fields);
    db.Update(id, fields);
    r := GetById(db, actor, id);
  }
}
