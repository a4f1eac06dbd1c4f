/** The decisions of the ticket detail page (`TicketDetailPage`): its own
    copy of the transition table, the status buttons it offers, whether it
    offers editing, the labels of history rows, the request an edit form
    turns into, and the value the assignee selector sends. Each is proved
    consistent with the rules the ticket service enforces. */
module TicketDetailPage {
  import opened Common
  import opened Text
  import opened Numbers
  import opened Domain
  import opened TicketRules
  import opened TicketModel
  import opened TicketService

  /** The page's `VALID_TRANSITIONS`, written out again on the client. */
  function ClientTransitions(from: Status): seq<Status> {
    match from
    case Open => [InProgress, Closed]
    case InProgress => [OnHold, Closed]
    case OnHold => [InProgress]
    case Closed => []
  }

  /** The client table is the service's table, edge for edge and in the
      same order. */
  lemma ClientTableMatchesServer(from: Status)
    ensures ClientTransitions(from) == Transitions(from)
  {
  }

  // ---------------------------------------------------------- field label

  /** The display name of a history row's field, or the name itself for
      any field without one. */
  function FieldLabel(field: string): string {
    if field == "title" then "Title"
    else if field == "description" then "Description"
    else if field == "priority" then "Priority"
    else if field == "status" then "Status"
    else if field == "category_id" then "Category"
    else if field == "assigned_to" then "Assigned To"
    else field
  }

  /** Every column the service audits has its own label, distinct from
      the others and from the stored name; every other field is shown as
      it is stored. */
  lemma FieldLabelCoversAudit(field: string)
    ensures forall c :: FieldLabel(ColumnName(c)) != ColumnName(c)
    ensures forall c1, c2 :: FieldLabel(ColumnName(c1)) == FieldLabel(ColumnName(c2)) ==> c1 == c2
    ensures (forall c :: field != ColumnName(c)) ==> FieldLabel(field) == field
  {
    if forall c :: field != ColumnName(c) {
      assert field != ColumnName(TitleColumn) && field != ColumnName(DescriptionColumn);
      assert field != ColumnName(PriorityColumn) && field != ColumnName(StatusColumn);
      assert field != ColumnName(CategoryColumn) && field != ColumnName(AssigneeColumn);
    }
  }

  // -------------------------------------------------------------- canEdit

  /** `canEdit`: never for a closed ticket; otherwise for any admin or
      manager, the creator and the assignee. */
  predicate CanEdit(t: Ticket, user: Actor) {
    t.status != Closed &&
    (user.role == Admin || user.role == Manager || t.createdBy == user.id || t.assignedTo == Some(user.id))
  }

  /** The page offers editing exactly when the service would accept an
      update from the user, except that it also offers it to a manager of
      another department (whom the service refuses) and never offers it on
      a closed ticket (which the service would still update). */
  lemma CanEditVersusServer(t: Ticket, user: Actor)
    ensures CanEdit(t, user) <==> t.status != Closed && (CanUserModifyTicket(t, user) || user.role == Manager)
    ensures user.role != Manager && t.status != Closed ==> (CanEdit(t, user) <==> CanUserModifyTicket(t, user))
    ensures CanEdit(t, user) && !CanUserModifyTicket(t, user) ==>
      user.role == Manager && user.departmentId != Some(t.departmentId)
  {
  }

  // --------------------------------------------------- visible transitions

  /** `list.filter((s) => s !== 'closed')`. */
  function WithoutClosed(ss: seq<Status>): (r: seq<Status>)
    ensures forall s :: s in r <==> s in ss && s != Closed
    ensures |r| <= |ss|
  {
    if ss == [] then []
    else if ss[0] == Closed then WithoutClosed(ss[1..])
    else [ss[0]] + WithoutClosed(ss[1..])
  }

  /** The status buttons: the allowed targets of the current status, with
      `closed` removed for a worker. */
  function VisibleTransitions(t: Ticket, user: Actor): seq<Status> {
    var allowed := ClientTransitions(t.status);
    if user.role == Worker then WithoutClosed(allowed) else allowed
  }

  /** For a user who may modify the ticket, the page shows a button for
      exactly the statuses `changeStatus` accepts: every button succeeds and
      no accepted status is missing. */
  lemma VisibleTransitionsAccepted(t: Ticket, user: Actor, s: Status)
    requires CanUserModifyTicket(t, user)
    ensures s in VisibleTransitions(t, user) <==> CheckChangeStatus(Some(t), user, Some(StatusName(s))) == Ok(s)
  {
    ClientTableMatchesServer(t.status);
    assert ParseStatus(StatusName(s)) == Some(s) by {
      ParseStatusRoundTrip(s);
    }
  }

  /** A worker is never offered `closed`, and nobody is offered anything on
      a closed ticket. */
  lemma NoCloseButtonForWorkers(t: Ticket, user: Actor)
    ensures user.role == Worker ==> Closed !in VisibleTransitions(t, user)
    ensures t.status == Closed ==> VisibleTransitions(t, user) == []
  {
  }

  // ------------------------------------------------------------ edit form

  /** The edit form's state; every value is the text of its input. */
  datatype EditForm = EditForm(title: string, description: string, categoryId: string, priority: string)

  /** `startEditing`: the form filled from the ticket, with a missing
      description as '' and the category id as text. */
  function Prefill(t: Ticket): (f: EditForm)
    ensures NumberOf(f.categoryId) == Some(t.categoryId)
    ensures ParsePriority(f.priority) == Some(t.priority)
  {
    NumberOfIntToString(t.categoryId);
    ParsePriorityRoundTrip(t.priority);
    EditForm(t.title, if t.description.Some? then t.description.value else "", IntToString(t.categoryId), PriorityName(t.priority))
  }

  /** What submitting the edit form does: refuse a blank title, close the
      editor when nothing changed, or send the changed fields. */
  datatype EditOutcome = TitleMissing | CloseEditor | Send(payload: UpdateData)

  /** The request the edit form makes: a key for exactly each field whose
      form value differs from the ticket's. The title is compared and sent
      trimmed; the description is compared as typed with '' read as null,
      and sent trimmed, or null when that is empty; the category is
      compared as a number; the priority as text. */
  function EditPayload(f: EditForm, t: Ticket): UpdateData {
    var number := NumberOf(f.categoryId);
    UpdateData(
      if Trim(f.title) != t.title then Some(Trim(f.title)) else None,
      if NullIfEmpty(Some(f.description)) != NullIfEmpty(t.description) then
        (if Trim(f.description) == "" then Null else Given(Trim(f.description)))
      else Undefined,
      if number != Some(t.categoryId) then NumberForJson(f.categoryId) else Undefined,
      if f.priority != PriorityName(t.priority) then Given(f.priority) else Undefined)
  }

  function EditOutcomeOf(f: EditForm, t: Ticket): EditOutcome {
    if Trim(f.title) == "" then TitleMissing
    else if EditPayload(f, t) == UpdateData(None, Undefined, Undefined, Undefined) then CloseEditor
    else Send(EditPayload(f, t))
  }

  /** `handleEditSubmit`: checks the title, then builds the payload one
      conditional key at a time and counts its keys. */
  method HandleEditSubmit(f: EditForm, t: Ticket) returns (o: EditOutcome)
    ensures o == EditOutcomeOf(f, t)
  {
    var title := Trim(f.title);
    if title == "" {
      return TitleMissing;
    }
    var payload := UpdateData(None, Undefined, Undefined, Undefined);
    var keys := 0;
    if title != t.title {
      payload := payload.(title := Some(title));
      keys := keys + 1;
    }
    if NullIfEmpty(Some(f.description)) != NullIfEmpty(t.description) {
      var description := Trim(f.description);
      payload := payload.(description := if description == "" then Null else Given(description));
      keys := keys + 1;
    }
    if NumberOf(f.categoryId) != Some(t.categoryId) {
      payload := payload.(categoryId := NumberForJson(f.categoryId));
      keys := keys + 1;
    }
    if f.priority != PriorityName(t.priority) {
      payload := payload.(priority := Given(f.priority));
      keys := keys + 1;
    }
    if keys == 0 {
      assert payload == UpdateData(None, Undefined, Undefined, Undefined);
      return CloseEditor;
    }
    return Send(payload);
  }

  /** Opening the editor and saving at once sends nothing, whenever the
      stored title is already trimmed. */
  lemma UnchangedFormSendsNothing(t: Ticket)
    requires t.title != [] && !IsSpace(t.title[0]) && !IsSpace(t.title[|t.title| - 1])
    ensures EditOutcomeOf(Prefill(t), t) == CloseEditor
  {
    TrimOfTrimmed(t.title);
  }

  /** A request is sent only for a non-blank title, the editor closes
      exactly when no field differs from the ticket, and a request carries
      a key exactly for each field that differs: the trimmed title, the
      trimmed description or null when it is blank, the category as a
      number or null for NaN, and the priority as chosen. */
  lemma EditPayloadSpec(f: EditForm, t: Ticket)
    ensures var o := EditOutcomeOf(f, t);
      && (o == TitleMissing <==> AllSpace(f.title))
      && (o == CloseEditor <==>
            && !AllSpace(f.title) && Trim(f.title) == t.title
            && NullIfEmpty(Some(f.description)) == NullIfEmpty(t.description)
            && NumberOf(f.categoryId) == Some(t.categoryId) && f.priority == PriorityName(t.priority))
      && (o.Send? ==>
            && (o.payload.title.Some? <==> Trim(f.title) != t.title)
            && (o.payload.title.Some? ==> o.payload.title.value == Trim(f.title) && o.payload.title.value != "")
            && (!o.payload.description.Undefined? <==> NullIfEmpty(Some(f.description)) != NullIfEmpty(t.description))
            && (o.payload.description.Null? <==> !o.payload.description.Undefined? && AllSpace(f.description))
            && (o.payload.description.Given? ==> o.payload.description.value == Trim(f.description) != "")
            && (o.payload.categoryId.Undefined? <==> NumberOf(f.categoryId) == Some(t.categoryId))
            && (o.payload.categoryId.Null? <==> NumberOf(f.categoryId).None?)
            && (o.payload.categoryId.Given? ==> Some(o.payload.categoryId.value) == NumberOf(f.categoryId))
            && (o.payload.priority.Undefined? <==> f.priority == PriorityName(t.priority))
            && (!o.payload.priority.Undefined? ==> o.payload.priority == Given(f.priority)))
  {
  }

  /** A worker has no priority input, so the priority keeps its prefilled
      value and the request never carries a priority: the service's
      worker-priority refusal cannot be reached from this page. */
  lemma WorkerPayloadHasNoPriority(f: EditForm, t: Ticket, worker: Actor, categories: map<int, Category>)
    requires worker.role == Worker && CanUserModifyTicket(t, worker)
    requires f.priority == Prefill(t).priority
    ensures var o := EditOutcomeOf(f, t);
      o.Send? ==> o.payload.priority.Undefined? &&
                  CheckUpdate(Some(t), worker, o.payload, categories) == PlanFields(o.payload, categories)
  {
  }

  /** A request built from a form whose inputs respect their limits (255
      and 2000 characters), whose category is an existing one and whose
      priority is one of the offered values passes every field check of
      `update`. */
  lemma SentPayloadPassesFieldChecks(f: EditForm, t: Ticket, categories: map<int, Category>)
    requires |f.title| <= MaxTitleLength && |f.description| <= MaxDescriptionLength
    requires NumberOf(f.categoryId).Some? && NumberOf(f.categoryId).value in categories
    requires ParsePriority(f.priority).Some?
    ensures var o := EditOutcomeOf(f, t);
      o.Send? ==> PlanFields(o.payload, categories).Ok?
  {
  }

  // -------------------------------------------------------------- assign

  /** `handleAssign`: the empty option means unassign (null); any other
      option is sent as a number. */
  function AssignTarget(value: string): Input<int> {
    if value == "" then Null else NumberForJson(value)
  }

  /** The option of an active user sends that user's id, which `assign`
      accepts from an admin, and the empty option sends null, which
      unassigns. */
  lemma AssignSelectRoundTrip(t: Ticket, admin: Actor, users: map<int, User>, id: int)
    requires admin.role == Admin
    requires id in users && users[id].isActive
    ensures AssignTarget(IntToString(id)) == Given(id)
    ensures CheckAssign(Some(t), admin, AssignTarget(IntToString(id)), users) == Ok(Some(id))
    ensures CheckAssign(Some(t), admin, AssignTarget(""), users) == Ok(None)
  {
    NumberOfIntToString(id);
  }
}
