/** The tickets and ticket_history tables behind `ticketModel`, kept in
    memory. A ticket's `updated_at` is an abstract stamp drawn from a clock
    that every write advances; `recent` lists the ticket ids latest-updated
    first, which is the order `findAll` returns. History rows are appended
    and never changed; a row's id is its position plus one, so a larger id
    is a later row. */
module TicketModel {
  import opened Common
  import opened Domain

  /** The record `ticketModel.update` receives: a `Keep` key is one whose
      value is undefined, and its column is not written. */
  datatype TicketFields = TicketFields(
    title: Patch<string>,
    description: Patch<Option<string>>,
    categoryId: Patch<int>,
    priority: Patch<Priority>,
    status: Patch<Status>,
    assignedTo: Patch<Option<int>>,
    departmentId: Patch<int>)

  const NoFields := TicketFields(Keep, Keep, Keep, Keep, Keep, Keep, Keep)

  predicate IsEmpty(f: TicketFields) {
    f == NoFields
  }

  function Pick<T>(p: Patch<T>, current: T): T {
    if p.Set? then p.value else current
  }

  /** The row after `UPDATE tickets SET <defined columns>`. */
  function Apply(t: Ticket, f: TicketFields): Ticket {
    t.(title := Pick(f.title, t.title),
       description := Pick(f.description, t.description),
       categoryId := Pick(f.categoryId, t.categoryId),
       priority := Pick(f.priority, t.priority),
       status := Pick(f.status, t.status),
       assignedTo := Pick(f.assignedTo, t.assignedTo),
       departmentId := Pick(f.departmentId, t.departmentId))
  }

  /** A partial update never touches the id or the creator, is the identity
      when no key is defined, and applying it twice is applying it once. */
  lemma ApplyProperties(t: Ticket, f: TicketFields)
    ensures Apply(t, f).id == t.id && Apply(t, f).createdBy == t.createdBy
    ensures IsEmpty(f) ==> Apply(t, f) == t
    ensures Apply(Apply(t, f), f) == Apply(t, f)
    ensures f.status.Keep? ==> Apply(t, f).status == t.status
  {
  }

  /** The `findAll` filter for the caller's role. */
  predicate Listed(role: RoleName, userId: int, departmentId: Option<int>, t: Ticket) {
    match role
    case Admin => true
    case Manager => Some(t.departmentId) == departmentId
    case Worker => t.createdBy == userId || t.assignedTo == Some(userId)
  }

  /** `s` is ordered by strictly decreasing stamp. */
  ghost predicate NewestFirst(s: seq<int>, stamps: map<int, nat>) {
    && (forall i :: 0 <= i < |s| ==> s[i] in stamps)
    && (forall i, j :: 0 <= i < j < |s| ==> stamps[s[i]] > stamps[s[j]])
  }

  /** The list without `x`, order kept. */
  function Without(s: seq<int>, x: int): (r: seq<int>)
    ensures forall y :: y in r <==> y in s && y != x
  {
    if s == [] then []
    else if s[0] == x then Without(s[1..], x)
    else [s[0]] + Without(s[1..], x)
  }

  lemma {:induction false} WithoutNewestFirst(s: seq<int>, x: int, stamps: map<int, nat>)
    requires NewestFirst(s, stamps)
    ensures NewestFirst(Without(s, x), stamps)
  {
    if s != [] {
      WithoutNewestFirst(s[1..], x, stamps);
      var w := Without(s[1..], x);
      if s[0] != x {
        forall j | 0 <= j < |w| ensures stamps[s[0]] > stamps[w[j]] {
          assert w[j] in s[1..];
        }
      }
    }
  }

  /** The invariant of the two tables. */
  ghost predicate Wf(rows: map<int, Ticket>, stamps: map<int, nat>, recent: seq<int>,
                     history: seq<HistoryEntry>, nextId: int, clock: nat) {
    && nextId >= 1
    && (forall id :: id in rows ==> rows[id].id == id && 0 < id < nextId)
    && stamps.Keys == rows.Keys
    && (forall id :: id in stamps ==> stamps[id] < clock)
    && (forall id :: id in rows <==> id in recent)
    && NewestFirst(recent, stamps)
    && (forall k :: 0 <= k < |history| ==> history[k].id == k + 1)
  }

  /** Rewriting an existing row and stamping it with the clock keeps the
      invariant once its id moves to the front of `recent`. */
  lemma TouchKeepsWf(rows: map<int, Ticket>, stamps: map<int, nat>, recent: seq<int>,
                     history: seq<HistoryEntry>, nextId: int, clock: nat, t: Ticket)
    requires Wf(rows, stamps, recent, history, nextId, clock)
    requires t.id in rows
    ensures Wf(rows[t.id := t], stamps[t.id := clock], [t.id] + Without(recent, t.id), history, nextId, clock + 1)
  {
    var id := t.id;
    WithoutNewestFirst(recent, id, stamps);
    var rest := Without(recent, id);
    var stamps' := stamps[id := clock];
    forall i | 0 <= i < |rest| ensures rest[i] != id && rest[i] in stamps && stamps'[rest[i]] == stamps[rest[i]] {
      assert rest[i] in recent;
    }
    assert NewestFirst(rest, stamps');
    var recent' := [id] + rest;
    forall i, j | 0 <= i < j < |recent'| ensures stamps'[recent'[i]] > stamps'[recent'[j]] {
      if i > 0 {
        assert recent'[i] == rest[i - 1] && recent'[j] == rest[j - 1];
      } else {
        assert recent'[j] == rest[j - 1];
      }
    }
    assert NewestFirst(recent', stamps');
  }

  /** Inserting a row under the next id, stamped with the clock and put at
      the front of `recent`, keeps the invariant. */
  lemma InsertKeepsWf(rows: map<int, Ticket>, stamps: map<int, nat>, recent: seq<int>,
                      history: seq<HistoryEntry>, nextId: int, clock: nat, t: Ticket)
    requires Wf(rows, stamps, recent, history, nextId, clock)
    requires t.id == nextId
    ensures Wf(rows[t.id := t], stamps[t.id := clock], [t.id] + recent, history, nextId + 1, clock + 1)
  {
    var id := t.id;
    var stamps' := stamps[id := clock];
    assert id !in recent;
    forall i | 0 <= i < |recent| ensures recent[i] in stamps && stamps'[recent[i]] == stamps[recent[i]] < clock {
      assert recent[i] in recent;
      assert recent[i] in rows && recent[i] != id;
    }
    var recent' := [id] + recent;
    forall i, j | 0 <= i < j < |recent'| ensures stamps'[recent'[i]] > stamps'[recent'[j]] {
      assert recent'[j] == recent[j - 1];
      if i > 0 {
        assert recent'[i] == recent[i - 1];
      }
    }
    assert NewestFirst(recent', stamps');
  }

  /** The SET list of `update`, column by column: the row it writes and
      how many columns it names. */
  method SetColumns(row: Ticket, f: TicketFields) returns (t: Ticket, columns: nat)
    ensures t == Apply(row, f)
    ensures columns == 0 <==> IsEmpty(f)
    ensures columns <= 7
  {
    t, columns := row, 0;
    if f.title.Set? { t := t.(title := f.title.value); columns := columns + 1; }
    if f.description.Set? { t := t.(description := f.description.value); columns := columns + 1; }
    if f.categoryId.Set? { t := t.(categoryId := f.categoryId.value); columns := columns + 1; }
    if f.priority.Set? { t := t.(priority := f.priority.value); columns := columns + 1; }
    if f.status.Set? { t := t.(status := f.status.value); columns := columns + 1; }
    if f.assignedTo.Set? { t := t.(assignedTo := f.assignedTo.value); columns := columns + 1; }
    if f.departmentId.Set? { t := t.(departmentId := f.departmentId.value); columns := columns + 1; }
  }

  class TicketTable {
    var rows: map<int, Ticket>
    var stamps: map<int, nat>
    var recent: seq<int>
    var history: seq<HistoryEntry>
    var nextId: int
    var clock: nat

    ghost predicate Valid()
      reads this
    {
      Wf(rows, stamps, recent, history, nextId, clock)
    }

    constructor ()
      ensures Valid() && rows == map[] && history == []
    {
      rows, stamps, recent, history := map[], map[], [], [];
      nextId, clock := 1, 0;
    }

    /** `findById`: the row with that id, or null. */
    method FindById(id: int) returns (r: Option<Ticket>)
      requires Valid()
      ensures r.Some? <==> id in rows
      ensures r.Some? ==> r.value == rows[id] && r.value.id == id
    {
      if id in rows {
        r := Some(rows[id]);
      } else {
        r := None;
      }
    }

    /** `findAll`: exactly the tickets the role may list, each once, most
        recently updated first. */
    method FindAll(role: RoleName, userId: int, departmentId: Option<int>) returns (r: seq<Ticket>)
      requires Valid()
      ensures forall t :: t in r ==> t.id in rows && rows[t.id] == t && Listed(role, userId, departmentId, t)
      ensures forall id :: id in rows && Listed(role, userId, departmentId, rows[id]) ==> rows[id] in r
      ensures forall i, j :: 0 <= i < j < |r| ==> stamps[r[i].id] > stamps[r[j].id]
    {
      r := [];
      var i := 0;
      ghost var last := 0;  // position in `recent` of the last ticket kept
      while i < |recent|
        invariant 0 <= i <= |recent|
        invariant forall t :: t in r ==> t.id in rows && rows[t.id] == t && Listed(role, userId, departmentId, t)
        invariant forall k :: 0 <= k < i && Listed(role, userId, departmentId, rows[recent[k]]) ==> rows[recent[k]] in r
        invariant forall a, b :: 0 <= a < b < |r| ==> stamps[r[a].id] > stamps[r[b].id]
        invariant r != [] ==> 0 <= last < i && r[|r| - 1].id == recent[last]
      {
        assert recent[i] in recent;
        var t := rows[recent[i]];
        assert t.id == recent[i];
        if Listed(role, userId, departmentId, t) {
          if r != [] {
            assert stamps[recent[last]] > stamps[recent[i]];
          }
          r := r + [t];
          last := i;
        }
        i := i + 1;
      }
    }

    /** `create`: a new row with a fresh id, status `open`, no assignee,
        and a falsy description stored as null. */
    method Create(title: string, description: Option<string>, categoryId: int, priority: Priority,
                  departmentId: int, createdBy: int) returns (id: int)
      requires Valid()
      modifies this
      ensures Valid()
      ensures id == old(nextId) && id !in old(rows)
      ensures rows == old(rows)[id := Ticket(id, title, NullIfEmpty(description), priority, Open,
                                             categoryId, departmentId, createdBy, None)]
      ensures history == old(history)
      ensures stamps == old(stamps)[id := old(clock)] && recent == [id] + old(recent)
      ensures nextId == old(nextId) + 1 && clock == old(clock) + 1
    {
      id := nextId;
      var t := Ticket(id, title, NullIfEmpty(description), priority, Open, categoryId, departmentId, createdBy, None);
      InsertKeepsWf(rows, stamps, recent, history, nextId, clock, t);
      rows := rows[id := t];
      stamps := stamps[id := clock];
      recent := [id] + recent;
      nextId, clock := nextId + 1, clock + 1;
    }

    /** `update`: writes exactly the defined columns of the one row, and
        does nothing when no column is defined or no row has that id. */
    method Update(id: int, f: TicketFields)
      requires Valid()
      modifies this
      ensures Valid()
      ensures rows == if id in old(rows) && !IsEmpty(f) then old(rows)[id := Apply(old(rows)[id], f)] else old(rows)
      ensures history == old(history) && nextId == old(nextId)
      ensures id in old(rows) && !IsEmpty(f) ==>
        stamps == old(stamps)[id := old(clock)] && recent == [id] + Without(old(recent), id) && clock == old(clock) + 1
      ensures !(id in old(rows) && !IsEmpty(f)) ==>
        stamps == old(stamps) && recent == old(recent) && clock == old(clock)
    {
      if id !in rows {
        return;
      }
      var t, columns := SetColumns(rows[id], f);
      if columns == 0 {
        return;
      }
      assert t.id == id;
      TouchKeepsWf(rows, stamps, recent, history, nextId, clock, t);
      rows := rows[id := t];
      stamps := stamps[id := clock];
      recent := [id] + Without(recent, id);
      clock := clock + 1;
    }

    /** `createHistoryEntry`: appends one row; a falsy old or new value
        (null or the empty string) is stored as null. */
    method CreateHistoryEntry(ticketId: int, changedBy: int, field: Column,
                              oldValue: Option<string>, newValue: Option<string>)
      requires Valid()
      modifies this
      ensures Valid()
      ensures history == old(history) + [HistoryEntry(|old(history)| + 1, ticketId, changedBy, field,
                                                      NullIfEmpty(oldValue), NullIfEmpty(newValue))]
      ensures rows == old(rows) && stamps == old(stamps) && recent == old(recent)
      ensures nextId == old(nextId) && clock == old(clock)
    {
      history := history + [HistoryEntry(|history| + 1, ticketId, changedBy, field,
                                         NullIfEmpty(oldValue), NullIfEmpty(newValue))];
    }

    /** `findHistoryByTicketId`: exactly that ticket's rows, newest first. */
    method FindHistoryByTicketId(ticketId: int) returns (r: seq<HistoryEntry>)
      requires Valid()
      ensures forall e :: e in r <==> e in history && e.ticketId == ticketId
      ensures forall i, j :: 0 <= i < j < |r| ==> r[i].id > r[j].id
    {
      r := [];
      var k := |history|;
      while k > 0
        invariant 0 <= k <= |history|
        invariant forall e :: e in r <==> e in history[k..] && e.ticketId == ticketId
        invariant forall e :: e in r ==> e.id > k
        invariant forall a, b :: 0 <= a < b < |r| ==> r[a].id > r[b].id
      {
        k := k - 1;
        var e := history[k];
        assert history[k..] == [e] + history[k + 1..];
        if e.ticketId == ticketId {
          r := r + [e];
        }
      }
    }
  }
}
