/**
 The pure parts of the catalog component's event handlers. The component's state
 is an explicit value; each handler is a function from the prior state and the
 event's inputs to the next state. Remote replies enter as parameters: `None` (or
 `false`) stands for a failed request, which leaves the state unchanged.
 */
module BookApp {
  import opened Seqs
  import opened BookReducer
  import opened BookView

  /** The three values of the add form's input fields. */
  datatype Fields = Fields(title: string, author: string, year: string)

  /** The component's state: the collection, the search term and the current page. */
  datatype Ui = Ui(books: seq<Book>, term: string, page: int)

  /** State at mount: empty collection, empty term, page 1. */
  const Initial: Ui := Ui([], "", 1)

  /** The records currently shown. */
  function Visible(ui: Ui): seq<Book>
  {
    VisiblePage(ui.books, ui.term, ui.page)
  }

  // ---------------------------------------------------------------------------
  // Add

  /** The record the add handler posts, or `None` when a field is empty and the
      handler does nothing. `now` is the clock reading used as the proposed id. */
  function AddRequest(f: Fields, now: int): (r: Option<Book>)
    ensures r.Some? <==> f.title != "" && f.author != "" && f.year != ""
    ensures r.Some? ==> r.value == Book(now, f.title, f.author, f.year)
  {
    if f.title != "" && f.author != "" && f.year != "" then Some(Book(now, f.title, f.author, f.year))
    else None
  }

  /** The add handler: on a successful post, the record returned by the server (which
      may differ from the one proposed) is appended. */
  function HandleAdd(books: seq<Book>, f: Fields, now: int, reply: Option<Book>): (r: seq<Book>)
    ensures (f.title == "" || f.author == "" || f.year == "") ==> r == books
    ensures reply.None? ==> r == books
    ensures f.title != "" && f.author != "" && f.year != "" && reply.Some? ==>
      r == books + [reply.value]
  {
    match AddRequest(f, now)
    case None => books
    case Some(_) =>
      match reply
      case None => books
      case Some(b) => Reduce(books, AddBook(b))
  }

  // ---------------------------------------------------------------------------
  // Delete and edit

  /** The delete handler: on a successful request every record with the id goes. */
  function HandleDelete(books: seq<Book>, id: int, ok: bool): (r: seq<Book>)
    ensures !ok ==> r == books
    ensures ok ==> !HasId(r, id) && |r| == |books| - Count(books, id)
    ensures ok && HasId(books, id) ==> |r| < |books|
    ensures ok ==> Subseq(r, books)
    ensures ok ==> forall x: Book :: multiset(r)[x] == if x.id == id then 0 else multiset(books)[x]
  {
    if ok then
      DeleteRemovesEveryMatch(books, id);
      CountPositiveIffPresent(books, id);
      Reduce(books, DeleteBook(id))
    else books
  }

  /** `Array.prototype.find` on the id: the first record carrying it, if any. */
  function FindById(s: seq<Book>, id: int): (r: Option<Book>)
    ensures r.None? <==> !HasId(s, id)
    ensures r.Some? ==> exists i :: (0 <= i < |s| && s[i] == r.value && r.value.id == id &&
      forall j :: 0 <= j < i ==> s[j].id != id)
  {
    if |s| == 0 then None
    else if s[0].id == id then Some(s[0])
    else
      FindById(s[1..], id)
  }

  /** What the edit handler does: the field values it fills in, if it found a record,
      and the collection afterwards. */
  datatype EditOutcome = EditOutcome(fields: Option<Fields>, books: seq<Book>)

  /** The edit handler: find the record, copy its values into the form, then run the
      delete handler on its id. An id no record carries does nothing. */
  function HandleEdit(books: seq<Book>, id: int, ok: bool): (r: EditOutcome)
    ensures r.fields.None? <==> !HasId(books, id)
    ensures r.fields.None? ==> r.books == books
    ensures r.fields.Some? ==> exists i :: (0 <= i < |books| && books[i].id == id &&
      (forall j :: 0 <= j < i ==> books[j].id != id) &&
      r.fields.value == Fields(books[i].title, books[i].author, books[i].year))
    ensures r.fields.Some? ==> r.books == HandleDelete(books, id, ok)
    ensures r.fields.Some? && ok ==> !HasId(r.books, id) && |r.books| < |books|
    ensures !ok ==> r.books == books
  {
    match FindById(books, id)
    case None => EditOutcome(None, books)
    case Some(b) => EditOutcome(Some(Fields(b.title, b.author, b.year)), HandleDelete(books, id, ok))
  }

  // ---------------------------------------------------------------------------
  // Load, search and paging

  /** The mount-time load as written: the fetched records go through the reducer as
      `SetBooks`, which returns the prior collection. */
  function HandleLoad(ui: Ui, reply: Option<seq<Book>>): (r: Ui)
    ensures r == ui
  {
    match reply
    case None => ui
    case Some(fetched) => ui.(books := Reduce(ui.books, SetBooks(fetched)))
  }

  /** The mount-time load with the replacing reducer. */
  function HandleLoadIntended(ui: Ui, reply: Option<seq<Book>>): (r: Ui)
    ensures reply.Some? ==> r.books == reply.value
    ensures reply.None? ==> r == ui
    ensures r.term == ui.term && r.page == ui.page
  {
    match reply
    case None => ui
    case Some(fetched) => ui.(books := ReduceIntended(ui.books, SetBooks(fetched)))
  }

  /** The search handler: store the term and return to page 1. */
  function HandleSearch(ui: Ui, term: string): (r: Ui)
    ensures r.books == ui.books && r.term == term && r.page == 1
  {
    ui.(term := term, page := 1)
  }

  /** The Next button. A disabled button does nothing; the handler bounds the page by
      the whole collection's page count. */
  function PressNext(ui: Ui): (r: Ui)
    ensures r.books == ui.books && r.term == ui.term
    ensures r.page == NextPage(ui.page, |ui.books|)
    ensures r.page <= PageCount(|ui.books|)
    ensures ui.page >= 0 ==> r.page >= 0
  {
    if NextDisabled(ui.page, |ui.books|) then ui
    else ui.(page := NextPage(ui.page, |ui.books|))
  }

  /** The Previous button. A disabled button does nothing. */
  function PressPrevious(ui: Ui): (r: Ui)
    ensures r.books == ui.books && r.term == ui.term
    ensures r.page == PrevPage(ui.page)
    ensures r.page >= 1
  {
    if PrevDisabled(ui.page) then ui
    else ui.(page := PrevPage(ui.page))
  }

  /** A disabled button and its handler agree: pressing the handler while the button
      is disabled would leave the page where it is. */
  lemma DisabledButtonsWouldNotMove(ui: Ui)
    ensures NextDisabled(ui.page, |ui.books|) ==> NextPage(ui.page, |ui.books|) == ui.page
    ensures PrevDisabled(ui.page) ==> PrevPage(ui.page) == ui.page
  {
  }

  // ---------------------------------------------------------------------------
  // Event sequences

  /** The user and network events the component reacts to. */
  datatype Event =
    | Loaded(fetched: Option<seq<Book>>)
    | Added(fields: Fields, now: int, reply: Option<Book>)
    | Deleted(id: int, ok: bool)
    | Edited(id: int, ok: bool)
    | Searched(term: string)
    | NextPressed
    | PreviousPressed

  /** One event's effect on the state. */
  function Step(ui: Ui, e: Event): (r: Ui)
    ensures |r.books| <= |ui.books| + (if e.Added? then 1 else 0)
    ensures ui.page >= 0 ==> r.page >= 0
    ensures e.Searched? ==> r.page == 1 && r.term == e.term
    ensures !(e.Searched? || e.NextPressed? || e.PreviousPressed?) ==> r.term == ui.term && r.page == ui.page
    ensures e.Loaded? || e.Searched? || e.NextPressed? || e.PreviousPressed? ==> r.books == ui.books
  {
    match e
    case Loaded(reply) => HandleLoad(ui, reply)
    case Added(f, now, reply) => ui.(books := HandleAdd(ui.books, f, now, reply))
    case Deleted(id, ok) => ui.(books := HandleDelete(ui.books, id, ok))
    case Edited(id, ok) => ui.(books := HandleEdit(ui.books, id, ok).books)
    case Searched(term) => HandleSearch(ui, term)
    case NextPressed => PressNext(ui)
    case PreviousPressed => PressPrevious(ui)
  }

  /** The state after a sequence of events, applied in order. */
  function Run(ui: Ui, es: seq<Event>): Ui
    decreases |es|
  {
    if |es| == 0 then ui else Run(Step(ui, es[0]), es[1..])
  }

  /** The number of events that can append a record. */
  function AddedCount(es: seq<Event>): nat
  {
    if |es| == 0 then 0 else (if es[0].Added? then 1 else 0) + AddedCount(es[1..])
  }

  /** Starting from a non-negative page, no sequence of events makes the page
      negative, so every reachable page is 0 or more; page 0 is reached only through
      Next on an empty collection. */
  lemma {:induction false} RunKeepsPageNonNegative(ui: Ui, es: seq<Event>)
    requires ui.page >= 0
    ensures Run(ui, es).page >= 0
    decreases |es|
  {
    if |es| > 0 {
      RunKeepsPageNonNegative(Step(ui, es[0]), es[1..]);
    }
  }

  /** Only the add handler grows the collection: after any events it is at most as
      long as before plus the number of add events. */
  lemma {:induction false} RunLengthBound(ui: Ui, es: seq<Event>)
    ensures |Run(ui, es).books| <= |ui.books| + AddedCount(es)
    decreases |es|
  {
    if |es| > 0 {
      RunLengthBound(Step(ui, es[0]), es[1..]);
    }
  }

  /** In every state reachable from mount the page is 0 or more, and the view is
      empty only on page 0 or when the page's window starts past the last search
      result. */
  lemma ReachableViewEmptyOnlyOffResults(es: seq<Event>)
    ensures Run(Initial, es).page >= 0
    ensures var ui := Run(Initial, es);
      Visible(ui) == [] <==>
        ui.page == 0 || (ui.page - 1) * PageSize >= |Filtered(ui.books, ui.term)|
  {
    RunKeepsPageNonNegative(Initial, es);
    var ui := Run(Initial, es);
    if ui.page == 0 {
      PageZeroIsEmpty(ui.books, ui.term);
    } else {
      VisiblePageWindow(ui.books, ui.term, ui.page);
    }
  }

  /** As written, the load at mount leaves the collection empty whatever the server
      returns, so nothing is ever shown before the first add. */
  lemma LoadLeavesCollectionEmpty(fetched: seq<Book>)
    ensures Step(Initial, Loaded(Some(fetched))).books == []
    ensures Visible(Step(Initial, Loaded(Some(fetched)))) == []
  {
  }

  /** With the replacing reducer, the load installs the fetched records and page 1
      shows the first five of them. */
  lemma IntendedLoadShowsFetched(fetched: seq<Book>)
    ensures HandleLoadIntended(Initial, Some(fetched)).books == fetched
    ensures Visible(HandleLoadIntended(Initial, Some(fetched))) ==
      fetched[..if |fetched| < PageSize then |fetched| else PageSize]
  {
    EmptyTermKeepsAll(fetched);
  }

  /** Submitting the form with an empty author posts nothing and leaves the
      collection unchanged, whatever reply is supplied. */
  lemma AddWithEmptyAuthorDoesNothing(books: seq<Book>, title: string, year: string, now: int, reply: Option<Book>)
    ensures AddRequest(Fields(title, "", year), now).None?
    ensures HandleAdd(books, Fields(title, "", year), now, reply) == books
  {
  }

  /** A search matching two of twelve records returns to page 1 and shows exactly
      those two there, with Previous disabled. Next stays enabled, because its bound
      comes from the whole collection. */
  lemma SearchTwoOfTwelve(ui: Ui, term: string)
    requires |ui.books| == 12
    requires |Filtered(ui.books, term)| == 2
    ensures HandleSearch(ui, term).page == 1
    ensures Visible(HandleSearch(ui, term)) == Filtered(ui.books, term)
    ensures PrevDisabled(HandleSearch(ui, term).page)
    ensures !NextDisabled(HandleSearch(ui, term).page, |ui.books|)
  {
  }
}
