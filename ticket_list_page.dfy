/** The decisions of the ticket list page (`TicketListPage`): the create
    form's validator and the request it sends, the categories it offers,
    and the status and priority filter over the listed tickets. */
module TicketListPage {
  import opened Common
  import opened Text
  import opened Numbers
  import opened Domain
  import opened TicketRules
  import opened TicketService

  const TitleTooShort := "Title must be at least 3 characters"
  const CategoryMissing := "Category is required"

  /** The create form's state; every value is the text of its input. */
  datatype TicketForm = TicketForm(title: string, description: string, categoryId: string, priority: string)

  /** `initialForm`: everything empty but the priority, which starts at
      `medium`. */
  const InitialForm := TicketForm("", "", "", "medium")

  /** The form opens on a priority the service accepts, and with a title
      and category the validator refuses. */
  lemma InitialFormDefaults()
    ensures ParsePriority(InitialForm.priority) == Some(Medium)
    ensures Validate(InitialForm) == Some(TitleTooShort)
  {
  }

  /** `validate`: a trimmed title of at least 3 characters, then a chosen
      category; the first failure's message, or null. */
  function Validate(f: TicketForm): (r: Option<string>)
    ensures r.None? <==> |Trim(f.title)| >= 3 && f.categoryId != ""
    ensures |Trim(f.title)| < 3 ==> r == Some(TitleTooShort)
    ensures |Trim(f.title)| >= 3 && f.categoryId == "" ==> r == Some(CategoryMissing)
  {
    if f.title == "" || |Trim(f.title)| < 3 then Some(TitleTooShort)
    else if f.categoryId == "" then Some(CategoryMissing)
    else None
  }

  /** The request `handleSubmit` sends: the title trimmed, the description
      trimmed or null when that is empty, the category as a number (NaN
      travels as null), the priority as chosen. */
  function CreatePayload(f: TicketForm): (d: CreateData)
    ensures d.title == Some(Trim(f.title))
    ensures d.description.None? <==> Trim(f.description) == ""
    ensures d.description.Some? ==> d.description.value == Trim(f.description)
    ensures d.categoryId == NumberOf(f.categoryId)
    ensures d.priority == Some(f.priority)
  {
    CreateData(Some(Trim(f.title)), if Trim(f.description) == "" then None else Some(Trim(f.description)),
               NumberOf(f.categoryId), Some(f.priority))
  }

  /** A form the validator passes, with inputs within their limits (255
      and 2000 characters), one of the offered priorities and an offered
      category (an active one with a positive id), is accepted by
      `create`, which stores exactly the title and description the page
      shows. */
  lemma ValidFormAccepted(f: TicketForm, categories: map<int, Category>, c: Category)
    requires Validate(f).None?
    requires |f.title| <= MaxTitleLength && |f.description| <= MaxDescriptionLength
    requires ParsePriority(f.priority).Some?
    requires c.id > 0 && c.id in categories && categories[c.id] == c && c.isActive
    requires f.categoryId == IntToString(c.id)
    ensures var r := CheckCreate(CreatePayload(f), categories);
      && r.Ok?
      && r.value.title == Trim(f.title)
      && r.value.description == CreatePayload(f).description
      && r.value.categoryId == c.id
      && r.value.departmentId == c.departmentId
  {
    NumberOfIntToString(c.id);
    TrimIdempotent(f.description);
  }

  /** The page is stricter than the service on titles: it refuses a title
      of one or two characters that `create` would accept. */
  lemma ShortTitleOnlyRefusedByPage(categories: map<int, Category>, c: Category)
    requires c.id > 0 && c.id in categories && categories[c.id] == c && c.isActive
    ensures Validate(TicketForm("ab", "", IntToString(c.id), "low")) == Some(TitleTooShort)
    ensures CheckCreate(CreatePayload(TicketForm("ab", "", IntToString(c.id), "low")), categories).Ok?
  {
    assert Trim("ab") == "ab" by {
      TrimOfTrimmed("ab");
    }
    assert Trim("") == "";
    NumberOfIntToString(c.id);
  }

  // ----------------------------------------------------------- categories

  /** `categories.filter((c) => c.isActive)`: the categories offered, in
      their order. */
  function ActiveCategories(cs: seq<Category>): (r: seq<Category>)
    ensures forall c :: c in r <==> c in cs && c.isActive
    ensures |r| <= |cs|
    ensures SubsequenceOf(r, cs)
  {
    if cs == [] then []
    else if cs[0].isActive then
      var rest := ActiveCategories(cs[1..]);
      assert ([cs[0]] + rest)[1..] == rest;
      [cs[0]] + rest
    else
      SkipHead(ActiveCategories(cs[1..]), cs);
      ActiveCategories(cs[1..])
  }

  // --------------------------------------------------------------- filter

  /** The filter on the list: an empty filter lets everything through,
      otherwise the status (or priority) name must equal it. */
  predicate Matches(t: Ticket, status: string, priority: string) {
    (status == "" || StatusName(t.status) == status) && (priority == "" || PriorityName(t.priority) == priority)
  }

  /** `filteredTickets`. */
  function FilterTickets(ts: seq<Ticket>, status: string, priority: string): seq<Ticket> {
    if ts == [] then []
    else if Matches(ts[0], status, priority) then [ts[0]] + FilterTickets(ts[1..], status, priority)
    else FilterTickets(ts[1..], status, priority)
  }

  /** `a` is `b` with some elements left out, the rest in their order. */
  predicate SubsequenceOf<T(==)>(a: seq<T>, b: seq<T>)
    decreases |b|
  {
    if a == [] then true
    else if b == [] then false
    else if a[0] == b[0] then SubsequenceOf(a[1..], b[1..])
    else SubsequenceOf(a, b[1..])
  }

  /** The filter keeps exactly the matching tickets, in the order of the
      list. */
  lemma {:induction false} FilterSpec(ts: seq<Ticket>, status: string, priority: string)
    ensures forall t :: t in FilterTickets(ts, status, priority) <==> t in ts && Matches(t, status, priority)
    ensures SubsequenceOf(FilterTickets(ts, status, priority), ts)
    decreases |ts|
  {
    if ts != [] {
      FilterSpec(ts[1..], status, priority);
      assert forall t :: t in ts <==> t == ts[0] || t in ts[1..];
      if !Matches(ts[0], status, priority) {
        SkipHead(FilterTickets(ts[1..], status, priority), ts);
      }
    }
  }

  /** A subsequence of the tail is a subsequence of the whole. */
  lemma {:induction false} SkipHead<T>(a: seq<T>, b: seq<T>)
    requires b != [] && SubsequenceOf(a, b[1..])
    ensures SubsequenceOf(a, b)
    decreases |b|, 0
  {
    if a != [] && a[0] == b[0] {
      SubsequenceOfTail(a, b[1..]);
    }
  }

  /** Dropping the head of a subsequence keeps it a subsequence. */
  lemma {:induction false} SubsequenceOfTail<T>(a: seq<T>, b: seq<T>)
    requires a != [] && SubsequenceOf(a, b)
    ensures SubsequenceOf(a[1..], b)
    decreases |b|, 1
  {
    if a[0] != b[0] {
      SubsequenceOfTail(a, b[1..]);
    }
    if a[1..] != [] {
      SkipHead(a[1..], b);
    }
  }

  /** With both filters empty the whole list is shown, and filtering
      again with the same filters changes nothing. */
  lemma {:induction false} FilterIdentityAndIdempotence(ts: seq<Ticket>, status: string, priority: string)
    ensures FilterTickets(ts, "", "") == ts
    ensures FilterTickets(FilterTickets(ts, status, priority), status, priority) == FilterTickets(ts, status, priority)
    decreases |ts|
  {
    if ts != [] {
      FilterIdentityAndIdempotence(ts[1..], status, priority);
      assert ts == [ts[0]] + ts[1..];
      if Matches(ts[0], status, priority) {
        var rest := FilterTickets(ts[1..], status, priority);
        assert ([ts[0]] + rest)[1..] == rest;
      }
    }
  }
}
