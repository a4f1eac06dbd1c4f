/** The change auditor of the ticket service (`logChanges`): for each
    audited key of an update record, in a fixed order, it compares the
    stringified current value with the stringified new value and records a
    history row when they differ. */
module Audit {
  import opened Common
  import opened Numbers
  import opened Domain
  import opened TicketModel

  /** The keys of the auditor's field map, in the order it visits them. */
  const Keys: seq<Column> := [TitleColumn, DescriptionColumn, PriorityColumn, StatusColumn, CategoryColumn, AssigneeColumn]

  /** Position of a column in `Keys`. */
  function KeyIndex(c: Column): (i: nat)
    ensures i < |Keys| && Keys[i] == c
  {
    match c
    case TitleColumn => 0
    case DescriptionColumn => 1
    case PriorityColumn => 2
    case StatusColumn => 3
    case CategoryColumn => 4
    case AssigneeColumn => 5
  }

  /** The current value of a column as text, or null: the category id is
      turned into its decimal text, and a falsy assignee id becomes null. */
  function OldValue(t: Ticket, c: Column): Option<string> {
    match c
    case TitleColumn => Some(t.title)
    case DescriptionColumn => t.description
    case PriorityColumn => Some(PriorityName(t.priority))
    case StatusColumn => Some(StatusName(t.status))
    case CategoryColumn => Some(IntToString(t.categoryId))
    case AssigneeColumn => if t.assignedTo.Some? && t.assignedTo.value != 0 then Some(IntToString(t.assignedTo.value)) else None
  }

  /** The new value of a key as text or null, or `None` when the key is
      undefined in the update record. */
  function NewValue(f: TicketFields, c: Column): Option<Option<string>> {
    match c
    case TitleColumn => if f.title.Set? then Some(Some(f.title.value)) else None
    case DescriptionColumn => if f.description.Set? then Some(f.description.value) else None
    case PriorityColumn => if f.priority.Set? then Some(Some(PriorityName(f.priority.value))) else None
    case StatusColumn => if f.status.Set? then Some(Some(StatusName(f.status.value))) else None
    case CategoryColumn => if f.categoryId.Set? then Some(Some(IntToString(f.categoryId.value))) else None
    case AssigneeColumn =>
      if f.assignedTo.Set? then
        Some(if f.assignedTo.value.Some? then Some(IntToString(f.assignedTo.value.value)) else None)
      else None
  }

  /** One collected entry: the column with its old and new text. */
  datatype Change = Change(column: Column, oldValue: Option<string>, newValue: Option<string>)

  /** The entries collected after visiting `cols`, in visiting order. */
  function DiffOver(t: Ticket, f: TicketFields, cols: seq<Column>): seq<Change> {
    if cols == [] then []
    else
      var prev := DiffOver(t, f, cols[..|cols| - 1]);
      var c := cols[|cols| - 1];
      var nv := NewValue(f, c);
      if nv.Some? && nv.value != OldValue(t, c) then prev + [Change(c, OldValue(t, c), nv.value)] else prev
  }

  /** The entries `logChanges` collects for the ticket and update record. */
  function Diff(t: Ticket, f: TicketFields): seq<Change> {
    DiffOver(t, f, Keys)
  }

  /** An entry is collected for a visited column exactly when its key is
      defined and its text differs from the current text. */
  lemma {:induction false} DiffOverMembers(t: Ticket, f: TicketFields, cols: seq<Column>, e: Change)
    ensures e in DiffOver(t, f, cols) <==>
      && e.column in cols
      && NewValue(f, e.column) == Some(e.newValue)
      && e.oldValue == OldValue(t, e.column)
      && e.newValue != e.oldValue
  {
    if cols != [] {
      var init := cols[..|cols| - 1];
      DiffOverMembers(t, f, init, e);
      assert cols == init + [cols[|cols| - 1]];
    }
  }

  /** Entries follow the order of the visited columns, so each column
      appears at most once. */
  lemma {:induction false} DiffOverOrdered(t: Ticket, f: TicketFields, cols: seq<Column>)
    requires forall i, j :: 0 <= i < j < |cols| ==> KeyIndex(cols[i]) < KeyIndex(cols[j])
    ensures forall i, j :: 0 <= i < j < |DiffOver(t, f, cols)| ==>
      KeyIndex(DiffOver(t, f, cols)[i].column) < KeyIndex(DiffOver(t, f, cols)[j].column)
  {
    if cols != [] {
      var init := cols[..|cols| - 1];
      var c := cols[|cols| - 1];
      DiffOverOrdered(t, f, init);
      var prev := DiffOver(t, f, init);
      forall i | 0 <= i < |prev| ensures KeyIndex(prev[i].column) < KeyIndex(c) {
        DiffOverMembers(t, f, init, prev[i]);
        var k :| 0 <= k < |init| && init[k] == prev[i].column;
      }
    }
  }

  /** `logChanges` collects one entry per defined key whose text changes,
      with the current and the new text, in the order title, description,
      priority, status, category, assignee. */
  lemma DiffSpec(t: Ticket, f: TicketFields)
    ensures forall e :: e in Diff(t, f) <==>
      NewValue(f, e.column) == Some(e.newValue) && e.oldValue == OldValue(t, e.column) && e.newValue != e.oldValue
    ensures forall i, j :: 0 <= i < j < |Diff(t, f)| ==> KeyIndex(Diff(t, f)[i].column) < KeyIndex(Diff(t, f)[j].column)
    ensures |Diff(t, f)| <= |Keys|
  {
    forall e ensures e in Diff(t, f) <==>
      NewValue(f, e.column) == Some(e.newValue) && e.oldValue == OldValue(t, e.column) && e.newValue != e.oldValue
    {
      DiffOverMembers(t, f, Keys, e);
    }
    DiffOverOrdered(t, f, Keys);
    DiffLength(t, f, Keys);
  }

  lemma {:induction false} DiffLength(t: Ticket, f: TicketFields, cols: seq<Column>)
    ensures |DiffOver(t, f, cols)| <= |cols|
  {
    if cols != [] {
      DiffLength(t, f, cols[..|cols| - 1]);
    }
  }

  /** The department key is never audited: the entries do not depend on it. */
  lemma {:induction false} DiffIgnoresDepartment(t: Ticket, f: TicketFields, d: Patch<int>, cols: seq<Column>)
    ensures DiffOver(t, f.(departmentId := d), cols) == DiffOver(t, f, cols)
  {
    if cols != [] {
      DiffIgnoresDepartment(t, f, d, cols[..|cols| - 1]);
      assert NewValue(f.(departmentId := d), cols[|cols| - 1]) == NewValue(f, cols[|cols| - 1]);
    }
  }

  /** The audited column of a ticket differs between two rows. */
  predicate ColumnDiffers(t: Ticket, u: Ticket, c: Column) {
    match c
    case TitleColumn => t.title != u.title
    case DescriptionColumn => t.description != u.description
    case PriorityColumn => t.priority != u.priority
    case StatusColumn => t.status != u.status
    case CategoryColumn => t.categoryId != u.categoryId
    case AssigneeColumn => t.assignedTo != u.assignedTo
  }

  /** Unless an assignee id of 0 is involved (which the text comparison
      reads as null), a column is audited exactly when the partial update
      changes it: an update that re-submits current values records nothing. */
  lemma DiffMatchesUpdate(t: Ticket, f: TicketFields, c: Column)
    requires t.assignedTo != Some(0)
    requires f.assignedTo != Set(Some(0))
    ensures (exists e :: e in Diff(t, f) && e.column == c) <==> ColumnDiffers(t, Apply(t, f), c)
  {
    DiffSpec(t, f);
    if ColumnDiffers(t, Apply(t, f), c) {
      var e := Change(c, OldValue(t, c), NewValue(f, c).value);
      if c == CategoryColumn {
        IntToStringInjective(t.categoryId, f.categoryId.value);
      } else if c == AssigneeColumn && t.assignedTo.Some? && f.assignedTo.value.Some? {
        IntToStringInjective(t.assignedTo.value, f.assignedTo.value.value);
      }
      assert e in Diff(t, f);
    }
  }

  /** Visiting distinct columns of a record that defines only the key of
      column `c` collects at most the one entry for `c`. */
  lemma {:induction false} DiffOverOneKey(t: Ticket, f: TicketFields, c: Column, cols: seq<Column>)
    requires forall k :: k != c ==> NewValue(f, k).None?
    requires forall i, j :: 0 <= i < j < |cols| ==> cols[i] != cols[j]
    ensures DiffOver(t, f, cols) ==
      if c !in cols || NewValue(f, c).None? || NewValue(f, c).value == OldValue(t, c) then []
      else [Change(c, OldValue(t, c), NewValue(f, c).value)]
  {
    if cols != [] {
      var init := cols[..|cols| - 1];
      DiffOverOneKey(t, f, c, init);
      assert cols == init + [cols[|cols| - 1]];
      if cols[|cols| - 1] == c {
        assert c !in init;
      }
    }
  }

  /** An update record that defines only the key of column `c` records at
      most one row: from the current text to the new one, when they differ. */
  lemma DiffOfOneKey(t: Ticket, f: TicketFields, c: Column)
    requires forall k :: k != c ==> NewValue(f, k).None?
    ensures Diff(t, f) ==
      if NewValue(f, c).None? || NewValue(f, c).value == OldValue(t, c) then []
      else [Change(c, OldValue(t, c), NewValue(f, c).value)]
  {
    DiffOverOneKey(t, f, c, Keys);
    assert c == Keys[KeyIndex(c)];
  }

  /** A status-only record records one row, old status name to new. */
  lemma DiffOfStatus(t: Ticket, s: Status)
    requires s != t.status
    ensures Diff(t, NoFields.(status := Set(s))) == [Change(StatusColumn, Some(StatusName(t.status)), Some(StatusName(s)))]
  {
    DiffOfOneKey(t, NoFields.(status := Set(s)), StatusColumn);
  }

  /** A title-only record that repeats the current title records nothing. */
  lemma DiffOfSameTitle(t: Ticket)
    ensures Diff(t, NoFields.(title := Set(t.title))) == []
  {
    DiffOfOneKey(t, NoFields.(title := Set(t.title)), TitleColumn);
  }

  /** The rows `createHistoryEntry` appends for the collected entries, the
      first with id `start + 1`, all attributed to `changedBy`, each with
      its entry's column and texts, a falsy text stored as null. */
  function Recorded(start: nat, ticketId: int, changedBy: int, changes: seq<Change>): (r: seq<HistoryEntry>)
    ensures |r| == |changes|
    ensures forall k :: 0 <= k < |r| ==>
      r[k].id == start + k + 1 && r[k].ticketId == ticketId && r[k].changedBy == changedBy &&
      r[k].field == changes[k].column &&
      r[k].oldValue == NullIfEmpty(changes[k].oldValue) && r[k].newValue == NullIfEmpty(changes[k].newValue)
  {
    if changes == [] then []
    else
      var n := |changes| - 1;
      Recorded(start, ticketId, changedBy, changes[..n]) +
        [HistoryEntry(start + n + 1, ticketId, changedBy, changes[n].column,
                      NullIfEmpty(changes[n].oldValue), NullIfEmpty(changes[n].newValue))]
  }

  /** Visiting one more column appends at most its own entry. */
  lemma DiffOverSnoc(t: Ticket, f: TicketFields, cols: seq<Column>, i: nat)
    requires i < |cols|
    ensures var c := cols[i];
      DiffOver(t, f, cols[..i + 1]) ==
        if NewValue(f, c).Some? && NewValue(f, c).value != OldValue(t, c) then
          DiffOver(t, f, cols[..i]) + [Change(c, OldValue(t, c), NewValue(f, c).value)]
        else DiffOver(t, f, cols[..i])
  {
    assert cols[..i + 1][..i] == cols[..i];
  }

  /** Writing one more entry appends exactly its row. */
  lemma RecordedSnoc(start: nat, ticketId: int, changedBy: int, changes: seq<Change>, j: nat)
    requires j < |changes|
    ensures Recorded(start, ticketId, changedBy, changes[..j + 1]) ==
      Recorded(start, ticketId, changedBy, changes[..j]) +
        [HistoryEntry(start + j + 1, ticketId, changedBy, changes[j].column,
                      NullIfEmpty(changes[j].oldValue), NullIfEmpty(changes[j].newValue))]
  {
    assert changes[..j + 1][..j] == changes[..j];
  }

  /** `logChanges`: collects the entries in a first loop, then writes them
      one by one in a second. No ticket row changes. */
  method LogChanges(db: TicketTable, ticketId: int, changedBy: int, t: Ticket, f: TicketFields)
    requires db.Valid()
    modifies db
    ensures db.Valid()
    ensures db.rows == old(db.rows) && db.stamps == old(db.stamps) && db.recent == old(db.recent)
    ensures db.nextId == old(db.nextId) && db.clock == old(db.clock)
    ensures db.history == old(db.history) + Recorded(|old(db.history)|, ticketId, changedBy, Diff(t, f))
  {
    var entries: seq<Change> := [];
    var i := 0;
    while i < |Keys|
      invariant 0 <= i <= |Keys|
      invariant entries == DiffOver(t, f, Keys[..i])
      invariant unchanged(db)
    {
      var c := Keys[i];
      DiffOverSnoc(t, f, Keys, i);
      var nv := NewValue(f, c);
      if nv.Some? {
        var ov := OldValue(t, c);
        if nv.value != ov {
          entries := entries + [Change(c, ov, nv.value)];
        }
      }
      i := i + 1;
    }
    assert Keys[..i] == Keys;
    var start := |db.history|;
    var j := 0;
    while j < |entries|
      invariant 0 <= j <= |entries|
      invariant db.Valid()
      invariant db.rows == old(db.rows) && db.stamps == old(db.stamps) && db.recent == old(db.recent)
      invariant db.nextId == old(db.nextId) && db.clock == old(db.clock)
      invariant db.history == old(db.history) + Recorded(start, ticketId, changedBy, entries[..j])
    {
      var e := entries[j];
      RecordedSnoc(start, ticketId, changedBy, entries, j);
      db.CreateHistoryEntry(ticketId, changedBy, e.column, e.oldValue, e.newValue);
      j := j + 1;
    }
    assert entries[..j] == entries;
  }
}
