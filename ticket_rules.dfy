/** The pure rules of the ticket service: the length limits, the access
    predicates and the status transition table with its error message. */
module TicketRules {
  import opened Common
  import opened Text
  import opened Domain

  const MaxTitleLength := 255
  const MaxDescriptionLength := 2000

  /** `canUserAccessTicket`: admins always; managers of the ticket's
      department; and any actor who created the ticket or is its assignee. */
  predicate CanUserAccessTicket(t: Ticket, u: Actor) {
    if u.role == Admin then true
    else if u.role == Manager && Some(t.departmentId) == u.departmentId then true
    else if t.createdBy == u.id || t.assignedTo == Some(u.id) then true
    else false
  }

  /** `canUserModifyTicket`, written out separately in the service. */
  predicate CanUserModifyTicket(t: Ticket, u: Actor) {
    if u.role == Admin then true
    else if u.role == Manager && Some(t.departmentId) == u.departmentId then true
    else if t.createdBy == u.id || t.assignedTo == Some(u.id) then true
    else false
  }

  /** The two predicates are one function, and it grants access exactly to
      an admin, a manager of the ticket's department, the creator and the
      assignee, whatever the creator's or assignee's role. */
  lemma AccessRule(t: Ticket, u: Actor)
    ensures CanUserModifyTicket(t, u) == CanUserAccessTicket(t, u)
    ensures CanUserAccessTicket(t, u) <==>
      || u.role == Admin
      || (u.role == Manager && u.departmentId == Some(t.departmentId))
      || t.createdBy == u.id
      || t.assignedTo == Some(u.id)
  {
  }

  /** `VALID_TRANSITIONS`: the statuses a ticket may move to from `from`,
      in the order the error message lists them. */
  function Transitions(from: Status): seq<Status> {
    match from
    case Open => [InProgress, Closed]
    case InProgress => [OnHold, Closed]
    case OnHold => [InProgress]
    case Closed => []
  }

  /** The shape of the table: `closed` is terminal, no status moves to
      itself or back to `open`, and every other status can be reached. */
  lemma TransitionTableShape()
    ensures Transitions(Closed) == []
    ensures forall s :: s !in Transitions(s) && Open !in Transitions(s)
    ensures forall s :: s != Closed ==> Transitions(s) != []
    ensures InProgress in Transitions(Open) && OnHold in Transitions(InProgress) && Closed in Transitions(Open)
  {
  }

  function StatusNames(ss: seq<Status>): (r: seq<string>)
    ensures |r| == |ss|
    ensures forall i :: 0 <= i < |ss| ==> r[i] == StatusName(ss[i])
  {
    if ss == [] then [] else [StatusName(ss[0])] + StatusNames(ss[1..])
  }

  /** `allowed.join(', ') || 'none'`. */
  function AllowedText(from: Status): string {
    var joined := Join(StatusNames(Transitions(from)), ", ");
    if joined == "" then "none" else joined
  }

  /** The ValidationError message for an edge missing from the table. */
  function TransitionMessage(from: Status, to: string): string {
    "Cannot transition from '" + StatusName(from) + "' to '" + to + "'. Allowed: " + AllowedText(from)
  }

  /** The message lists the allowed targets, and says "none" exactly for
      the terminal status. */
  lemma AllowedTextValues()
    ensures AllowedText(Open) == "in_progress, closed"
    ensures AllowedText(InProgress) == "on_hold, closed"
    ensures AllowedText(OnHold) == "in_progress"
    ensures AllowedText(Closed) == "none"
  {
    assert StatusNames([InProgress, Closed]) == ["in_progress", "closed"];
    assert StatusNames([OnHold, Closed]) == ["on_hold", "closed"];
    assert StatusNames([InProgress]) == ["in_progress"];
  }
}
