/** The entities of the helpdesk: the status and priority enumerations of a
    ticket, the three roles, the acting identity of a request, and the rows
    of the categories, tickets, ticket_history and users tables. */
module Domain {
  import opened Common

  datatype Status = Open | InProgress | OnHold | Closed
  datatype Priority = Low | Medium | High | Critical
  datatype RoleName = Admin | Manager | Worker

  function StatusName(s: Status): string {
    match s
    case Open => "open"
    case InProgress => "in_progress"
    case OnHold => "on_hold"
    case Closed => "closed"
  }

  function PriorityName(p: Priority): string {
    match p
    case Low => "low"
    case Medium => "medium"
    case High => "high"
    case Critical => "critical"
  }

  /** `VALID_STATUSES` and `VALID_PRIORITIES`, in the order the error
      messages list them. */
  const AllStatuses: seq<Status> := [Open, InProgress, OnHold, Closed]
  const AllPriorities: seq<Priority> := [Low, Medium, High, Critical]

  /** `VALID_STATUSES.includes(s)`, returning the status named. */
  function ParseStatus(s: string): (r: Option<Status>)
    ensures r.Some? ==> StatusName(r.value) == s
    ensures r.None? ==> forall st :: StatusName(st) != s
  {
    if s == "open" then Some(Open)
    else if s == "in_progress" then Some(InProgress)
    else if s == "on_hold" then Some(OnHold)
    else if s == "closed" then Some(Closed)
    else None
  }

  /** `VALID_PRIORITIES.includes(s)`, returning the priority named. */
  function ParsePriority(s: string): (r: Option<Priority>)
    ensures r.Some? ==> PriorityName(r.value) == s
    ensures r.None? ==> forall p :: PriorityName(p) != s
  {
    if s == "low" then Some(Low)
    else if s == "medium" then Some(Medium)
    else if s == "high" then Some(High)
    else if s == "critical" then Some(Critical)
    else None
  }

  /** The authenticated user of a request: `{ id, role, departmentId }`. */
  datatype Actor = Actor(id: int, role: RoleName, departmentId: Option<int>)

  /** A row of the categories table, as the ticket service reads it. */
  datatype Category = Category(id: int, departmentId: int, isActive: bool)

  /** A row of the tickets table. */
  datatype Ticket = Ticket(
    id: int,
    title: string,
    description: Option<string>,
    priority: Priority,
    status: Status,
    categoryId: int,
    departmentId: int,
    createdBy: int,
    assignedTo: Option<int>)

  /** The six audited columns, as stored in `field_changed`. */
  datatype Column = TitleColumn | DescriptionColumn | PriorityColumn | StatusColumn | CategoryColumn | AssigneeColumn

  function ColumnName(c: Column): string {
    match c
    case TitleColumn => "title"
    case DescriptionColumn => "description"
    case PriorityColumn => "priority"
    case StatusColumn => "status"
    case CategoryColumn => "category_id"
    case AssigneeColumn => "assigned_to"
  }

  /** A row of the ticket_history table. */
  datatype HistoryEntry = HistoryEntry(
    id: int,
    ticketId: int,
    changedBy: int,
    field: Column,
    oldValue: Option<string>,
    newValue: Option<string>)

  /** A row of the users table; `passwordHash` is the opaque bcrypt text. */
  datatype User = User(
    id: int,
    email: string,
    passwordHash: string,
    firstName: string,
    lastName: string,
    roleId: int,
    departmentId: Option<int>,
    isActive: bool)

  lemma ParseStatusRoundTrip(s: Status)
    ensures ParseStatus(StatusName(s)) == Some(s)
  {
  }

  lemma ParsePriorityRoundTrip(p: Priority)
    ensures ParsePriority(PriorityName(p)) == Some(p)
  {
  }
}
