/** The loans page (src/pages/BookLoans.tsx): local patches after approve,
    reject, return and extend, the search filter, the per-tab views and their
    actions. Dates are day numbers; "today" and "now" are parameters. */
module BookLoans {
  import opened Types
  import opened Api
  import opened Text
  import opened Lists
  import opened BookLoanTableContent

  /** Days added to a date for a default due date. */
  const LoanPeriod := 14

  // ---------------------------------------------------------------------
  // Search

  /** `value?.toLowerCase() || ''`, before lower-casing: a missing value is "". */
  function OrEmpty(o: Option<string>): string {
    if o.Some? then o.value else ""
  }

  /** The fields the search looks at: book title, user name, user email. */
  function SearchFields(loan: BookLoan): seq<string> {
    [OrEmpty(loan.book.title), OrEmpty(loan.user.name), OrEmpty(loan.user.email)]
  }

  predicate LoanMatches(loan: BookLoan, query: string) {
    MatchesAny(SearchFields(loan), query)
  }

  /** `filteredLoans`: the loans the search keeps, in their original order. */
  function FilteredLoans(loans: seq<BookLoan>, query: string): seq<BookLoan> {
    Filter(loans, (l: BookLoan) => LoanMatches(l, query))
  }

  /** The search keeps exactly the loans it matches. */
  lemma FilteredLoansMembers(loans: seq<BookLoan>, query: string)
    ensures forall i :: 0 <= i < |FilteredLoans(loans, query)| ==>
              var l := FilteredLoans(loans, query)[i]; l in loans && LoanMatches(l, query)
    ensures forall i :: 0 <= i < |loans| && LoanMatches(loans[i], query) ==> loans[i] in FilteredLoans(loans, query)
  {
  }

  /** An empty search keeps every loan, in order. */
  lemma EmptySearchKeepsAll(loans: seq<BookLoan>)
    ensures FilteredLoans(loans, "") == loans
  {
    forall i | 0 <= i < |loans|
      ensures LoanMatches(loans[i], "")
    {
      EmptyQueryMatches(SearchFields(loans[i]));
    }
    FilterKeepsAll(loans, (l: BookLoan) => LoanMatches(l, ""));
  }

  /** The search treats the two halves of a list independently, so the order of
      the kept loans is their order in the list. */
  lemma FilteredLoansAppend(a: seq<BookLoan>, b: seq<BookLoan>, query: string)
    ensures FilteredLoans(a + b, query) == FilteredLoans(a, query) + FilteredLoans(b, query)
  {
    FilterAppend(a, b, (l: BookLoan) => LoanMatches(l, query));
  }

  // ---------------------------------------------------------------------
  // Tab views

  /** `getFilteredLoans`: in a status view, the searched loans with that status. */
  function ViewLoans(filtered: seq<BookLoan>, view: Option<string>): (r: seq<BookLoan>)
    ensures |r| <= |filtered|
    ensures Truthy(view) ==> forall i :: 0 <= i < |r| ==> StatusName(r[i].status) == view.value
    ensures Truthy(view) ==> forall i :: 0 <= i < |filtered| && StatusName(filtered[i].status) == view.value ==> filtered[i] in r
    ensures !Truthy(view) ==> r == filtered
  {
    if Truthy(view) then Filter(filtered, (l: BookLoan) => StatusName(l.status) == view.value) else filtered
  }

  /** The buttons of a row in a view: the pending view approves or rejects,
      the approved and overdue views return or extend, the returned and rejected
      views offer nothing, and the general view decides by the loan's status. */
  function PageActions(view: Option<string>, status: LoanStatus): (r: seq<LoanAction>)
    ensures Distribute !in r
    ensures Approve in r <==> Reject in r
    ensures Return in r <==> Extend in r
    ensures !(Approve in r && Return in r)
  {
    match view
    case Some("pending") => [Approve, Reject]
    case Some("approved") => [Return, Extend]
    case Some("overdue") => [Return, Extend]
    case Some("returned") => []
    case Some("rejected") => []
    case _ =>
      if status == Pending then [Approve, Reject]
      else if status == Approved || status == Overdue then [Return, Extend]
      else []
  }

  /** In every view, each listed loan is offered approve/reject only when it is
      pending, and return/extend only when it is out (approved or overdue). */
  lemma ListedActionsFitStatus(filtered: seq<BookLoan>, view: Option<string>, i: int)
    requires 0 <= i < |ViewLoans(filtered, view)|
    ensures var l := ViewLoans(filtered, view)[i];
            var acts := PageActions(view, l.status);
            && (Approve in acts || Reject in acts ==> l.status == Pending)
            && (Return in acts || Extend in acts ==> l.status == Approved || l.status == Overdue)
            && Distribute !in acts
  {
    var l := ViewLoans(filtered, view)[i];
    if Truthy(view) {
      assert StatusName(l.status) == view.value;
    }
    ActionsFitStatus(view, l.status);
  }

  /** The same for one status that the view lets through. */
  lemma ActionsFitStatus(view: Option<string>, status: LoanStatus)
    requires Truthy(view) ==> StatusName(status) == view.value
    ensures var acts := PageActions(view, status);
            && (Approve in acts || Reject in acts ==> status == Pending)
            && (Return in acts || Extend in acts ==> status == Approved || status == Overdue)
            && Distribute !in acts
  {
  }

  /** What a tab shows. */
  datatype TabBody = Loading | Empty | Listed(loans: seq<BookLoan>)

  /** `renderTableContent(view)` as written: the empty message is decided on the
      searched list before the view filter is applied. */
  function RenderTabAsWritten(loans: seq<BookLoan>, loading: bool, query: string, view: Option<string>): (b: TabBody)
    ensures b == Loading <==> loading
    ensures b == Empty ==> RenderTab(loans, loading, query, view) == Empty
    ensures b.Listed? && b.loans != [] ==> b == RenderTab(loans, loading, query, view)
  {
    if loading then Loading
    else if |FilteredLoans(loans, query)| == 0 then Empty
    else Listed(ViewLoans(FilteredLoans(loans, query), view))
  }

  /** As written, a tab with no loan of its status shows neither a row nor the
      empty message: one pending loan, seen from the "returned" tab. */
  lemma EmptyTabWithoutMessage(loan: BookLoan)
    requires loan.status == Pending
    ensures RenderTabAsWritten([loan], false, "", Some("returned")) == Listed([])
  {
    EmptySearchKeepsAll([loan]);
    assert StatusName(Pending) != "returned";
    assert ViewLoans([loan], Some("returned")) == [];
  }

  /** The tab body with the empty check on what the tab lists. */
  function RenderTab(loans: seq<BookLoan>, loading: bool, query: string, view: Option<string>): (b: TabBody)
    ensures b == Loading <==> loading
    ensures b == Empty <==> !loading && ViewLoans(FilteredLoans(loans, query), view) == []
    ensures b.Listed? ==> b.loans == ViewLoans(FilteredLoans(loans, query), view) && b.loans != []
  {
    var shown := ViewLoans(FilteredLoans(loans, query), view);
    if loading then Loading
    else if |shown| == 0 then Empty
    else Listed(shown)
  }

  /** The two agree on every tab that lists at least one loan, and on the general tab. */
  lemma RenderTabAgrees(loans: seq<BookLoan>, loading: bool, query: string, view: Option<string>)
    requires !Truthy(view) || ViewLoans(FilteredLoans(loans, query), view) != []
    ensures RenderTab(loans, loading, query, view) == RenderTabAsWritten(loans, loading, query, view)
  {
  }

  // ---------------------------------------------------------------------
  // Local patches

  /** What `getBookLoans(page, perPage, status, …)` receives: the pages pass a
      single argument, which fills `page` (`None`: left to its default). */
  datatype LoanListArgs = LoanListArgs(page: Option<string>, status: Option<string>)

  /** What a successful action writes into the loan it acted on. */
  datatype LoanUpdate =
    | MarkApproved(dueDate: int, approvedAt: int)
    | MarkRejected
    | MarkReturned(returnedAt: int)
    | SetDueDate(newDueDate: Option<int>)

  function Updated(loan: BookLoan, u: LoanUpdate): BookLoan {
    match u
    case MarkApproved(d, at) => loan.(status := Approved, dueDate := Some(d), approvedAt := Some(at))
    case MarkRejected => loan.(status := Rejected)
    case MarkReturned(at) => loan.(status := Returned, returnedAt := Some(at))
    case SetDueDate(d) => loan.(dueDate := d)
  }

  /** `loans.map(loan => loan.id === id ? {...loan, ...} : loan)`. */
  function UpdateById(loans: seq<BookLoan>, id: int, u: LoanUpdate): (r: seq<BookLoan>)
    ensures |r| == |loans|
    ensures forall i :: 0 <= i < |loans| && loans[i].id != id ==> r[i] == loans[i]
    ensures forall i :: 0 <= i < |loans| && loans[i].id == id ==> r[i] == Updated(loans[i], u)
  {
    Patch(loans, (l: BookLoan) => l.id == id, (l: BookLoan) => Updated(l, u))
  }

  /** A patch keeps every loan's id and the book and user it refers to, and
      applying it twice is the same as applying it once. */
  lemma UpdateByIdKeepsIdentity(loans: seq<BookLoan>, id: int, u: LoanUpdate)
    ensures forall i :: 0 <= i < |loans| ==>
              var l := UpdateById(loans, id, u)[i];
              l.id == loans[i].id && l.bookId == loans[i].bookId && l.userId == loans[i].userId
    ensures UpdateById(UpdateById(loans, id, u), id, u) == UpdateById(loans, id, u)
  {
  }

  /** The default date the extend dialog opens with: 14 days after the loan's
      due date, or 14 days from today for a loan without one. */
  function ExtendDefault(loan: BookLoan, today: int): (d: int)
    ensures loan.dueDate.Some? ==> d - loan.dueDate.value == LoanPeriod
    ensures loan.dueDate.None? ==> d - today == LoanPeriod
  {
    (if loan.dueDate.Some? then loan.dueDate.value else today) + LoanPeriod
  }

  class Page {
    var loans: seq<BookLoan>
    var loading: bool
    var searchQuery: string
    var statusFilter: Option<string>
    var isExtendDialogOpen: bool
    var selectedLoan: Option<BookLoan>
    /** The date in the extend dialog; `None` is the initial empty string. */
    var dueDate: Option<int>

    constructor ()
      ensures loans == [] && loading && searchQuery == "" && statusFilter.None?
      ensures !isExtendDialogOpen && selectedLoan.None? && dueDate.None?
    {
      loans := [];
      loading := true;
      searchQuery := "";
      statusFilter := None;
      isExtendDialogOpen := false;
      selectedLoan := None;
      dueDate := None;
    }

    /** The loans the page lists for a view: searched, then filtered by the view. */
    function Shown(view: Option<string>): seq<BookLoan>
      reads this
    {
      ViewLoans(FilteredLoans(loans, searchQuery), view)
    }

    /** The fetch effect: passes `statusFilter || undefined` as the only
      argument, which `getBookLoans` reads as its page, so no status is sent;
      the list is taken only from a successful reply. */
    method FetchLoans(reply: ListReply<BookLoan>) returns (args: LoanListArgs)
      modifies this
      ensures args.page == (if Truthy(old(statusFilter)) then old(statusFilter) else None)
      ensures args.status == None
      ensures reply.ListAnswered? && reply.success ==> loans == reply.data
      ensures !(reply.ListAnswered? && reply.success) ==> loans == old(loans)
      ensures !loading
      ensures searchQuery == old(searchQuery) && statusFilter == old(statusFilter)
      ensures isExtendDialogOpen == old(isExtendDialogOpen) && selectedLoan == old(selectedLoan) && dueDate == old(dueDate)
    {
      loading := true;
      args := LoanListArgs(if Truthy(statusFilter) then statusFilter else None, None);
      if reply.ListAnswered? && reply.success {
        loans := reply.data;
      }
      loading := false;
    }

    /** Applies `u` to the loan with that id when the reply reports success. */
    method ApplyOnSuccess(id: int, u: LoanUpdate, reply: Reply)
      modifies this
      ensures reply == Answered(true) ==> loans == UpdateById(old(loans), id, u)
      ensures reply != Answered(true) ==> loans == old(loans)
      ensures loading == old(loading) && searchQuery == old(searchQuery) && statusFilter == old(statusFilter)
      ensures isExtendDialogOpen == old(isExtendDialogOpen) && selectedLoan == old(selectedLoan) && dueDate == old(dueDate)
    {
      if reply == Answered(true) {
        loans := UpdateById(loans, id, u);
      }
    }

    /** `handleApprove`: the due date 14 days from today is handed to
      `approveBookLoan`, which takes only the loan id, so only the id reaches
      the server; on success the row records the loan as approved now, with
      that due date. */
    method HandleApprove(loanId: int, today: int, now: int, reply: Reply) returns (sentId: int)
      modifies this
      ensures sentId == loanId
      ensures reply == Answered(true) ==> loans == UpdateById(old(loans), loanId, MarkApproved(today + LoanPeriod, now))
      ensures reply != Answered(true) ==> loans == old(loans)
      ensures loading == old(loading) && searchQuery == old(searchQuery) && statusFilter == old(statusFilter)
      ensures isExtendDialogOpen == old(isExtendDialogOpen) && selectedLoan == old(selectedLoan) && dueDate == old(dueDate)
    {
      sentId := loanId;
      ApplyOnSuccess(loanId, MarkApproved(today + LoanPeriod, now), reply);
    }

    /** `handleReject`: on success the loan becomes rejected. */
    method HandleReject(loanId: int, reply: Reply)
      modifies this
      ensures reply == Answered(true) ==> loans == UpdateById(old(loans), loanId, MarkRejected)
      ensures reply != Answered(true) ==> loans == old(loans)
      ensures loading == old(loading) && searchQuery == old(searchQuery) && statusFilter == old(statusFilter)
      ensures isExtendDialogOpen == old(isExtendDialogOpen) && selectedLoan == old(selectedLoan) && dueDate == old(dueDate)
    {
      ApplyOnSuccess(loanId, MarkRejected, reply);
    }

    /** `handleReturn`: on success the loan becomes returned, now. */
    method HandleReturn(loanId: int, now: int, reply: Reply)
      modifies this
      ensures reply == Answered(true) ==> loans == UpdateById(old(loans), loanId, MarkReturned(now))
      ensures reply != Answered(true) ==> loans == old(loans)
      ensures loading == old(loading) && searchQuery == old(searchQuery) && statusFilter == old(statusFilter)
      ensures isExtendDialogOpen == old(isExtendDialogOpen) && selectedLoan == old(selectedLoan) && dueDate == old(dueDate)
    {
      ApplyOnSuccess(loanId, MarkReturned(now), reply);
    }

    /** `openExtendDialog`: selects the loan, proposes the default date, opens the dialog. */
    method OpenExtendDialog(loan: BookLoan, today: int)
      modifies this
      ensures selectedLoan == Some(loan) && dueDate == Some(ExtendDefault(loan, today)) && isExtendDialogOpen
      ensures loans == old(loans) && loading == old(loading) && searchQuery == old(searchQuery)
      ensures statusFilter == old(statusFilter)
    {
      selectedLoan := Some(loan);
      if loan.dueDate.Some? {
        dueDate := Some(loan.dueDate.value + LoanPeriod);
      } else {
        dueDate := Some(today + LoanPeriod);
      }
      isExtendDialogOpen := true;
    }

    /** `handleExtend`: without a selected loan nothing is sent and nothing
      changes; otherwise the dialog's date is sent for the selected loan, and on
      success that loan takes the date and the dialog closes. */
    method HandleExtend(reply: Reply) returns (sent: bool)
      modifies this
      ensures sent <==> old(selectedLoan).Some?
      ensures sent && reply == Answered(true) ==>
                loans == UpdateById(old(loans), old(selectedLoan).value.id, SetDueDate(old(dueDate)))
                && !isExtendDialogOpen
      ensures !(sent && reply == Answered(true)) ==>
                loans == old(loans) && isExtendDialogOpen == old(isExtendDialogOpen)
      ensures loading == old(loading) && searchQuery == old(searchQuery) && statusFilter == old(statusFilter)
      ensures selectedLoan == old(selectedLoan) && dueDate == old(dueDate)
    {
      if selectedLoan.None? {
        return false;
      }
      sent := true;
      if reply == Answered(true) {
        loans := UpdateById(loans, selectedLoan.value.id, SetDueDate(dueDate));
        isExtendDialogOpen := false;
      }
    }

    /** The tab control: "all" clears the status filter, any other tab sets it. */
    method OnTabChange(value: string)
      modifies this
      ensures statusFilter == if value == "all" then None else Some(value)
      ensures loans == old(loans) && loading == old(loading) && searchQuery == old(searchQuery)
      ensures isExtendDialogOpen == old(isExtendDialogOpen) && selectedLoan == old(selectedLoan) && dueDate == old(dueDate)
    {
      statusFilter := if value == "all" then None else Some(value);
    }
  }
}
