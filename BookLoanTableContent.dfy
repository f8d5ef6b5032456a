/** The body of the loans table (src/components/BookLoan/BookLoanTableContent.tsx):
    which view is shown, one row per loan, and the actions each row offers. */
module BookLoanTableContent {
  import opened Types
  import opened Text

  /** The buttons a loan row can carry. `Extend` is offered only by the loans page. */
  datatype LoanAction = Approve | Reject | Distribute | Return | Extend

  /** The row layouts of the `switch`: one per tab, and the general one. */
  datatype Layout =
    | PendingLayout | PreApprovedLayout | ApprovedLayout | OverdueLayout
    | ReturnedLayout | RejectedLayout | AllLayout

  /** The layout chosen by `statusFilter || dueDateFilter`; any other value,
      or none, selects the general layout. */
  function LayoutFor(statusFilter: Option<string>, dueDateFilter: Option<string>): (l: Layout)
    ensures Truthy(statusFilter) && statusFilter.value == "pending" ==> l == PendingLayout
    ensures Truthy(statusFilter) && statusFilter.value == "overdue" ==> l == OverdueLayout
    ensures !Truthy(statusFilter) && dueDateFilter == Some("overdue") ==> l == OverdueLayout
    ensures l != AllLayout ==> Or(statusFilter, dueDateFilter).Some?
  {
    match Or(statusFilter, dueDateFilter)
    case Some("pending") => PendingLayout
    case Some("pre-approved") => PreApprovedLayout
    case Some("approved") => ApprovedLayout
    case Some("overdue") => OverdueLayout
    case Some("returned") => ReturnedLayout
    case Some("rejected") => RejectedLayout
    case _ => AllLayout
  }

  /** `statusFilter || dueDateFilter`: a status filter that is set decides the
      layout whatever the due-date filter says; without one the due-date filter
      decides alone. */
  lemma LayoutPrecedence(s: Option<string>, d: Option<string>, d2: Option<string>)
    ensures Truthy(s) ==> LayoutFor(s, d) == LayoutFor(s, d2)
    ensures !Truthy(s) ==> LayoutFor(s, d) == LayoutFor(d, None)
  {
  }

  /** The actions a row offers in a layout. A tab layout offers the same
      buttons for every row; the general layout decides by the loan's status.
      The table never offers an extension, and in the general layout an
      overdue, returned or rejected loan gets no button. */
  function ActionsFor(layout: Layout, status: LoanStatus): (r: seq<LoanAction>)
    ensures Extend !in r
    ensures layout == AllLayout ==> (r == [] <==> status in {Overdue, Returned, Rejected})
  {
    match layout
    case PendingLayout => [Approve, Reject]
    case PreApprovedLayout => [Distribute]
    case ApprovedLayout => [Return]
    case OverdueLayout => [Return]
    case ReturnedLayout => []
    case RejectedLayout => []
    case AllLayout =>
      match status
      case Pending => [Approve, Reject]
      case PreApproved => [Distribute]
      case Approved => [Return]
      case _ => []
  }

  /** The loan workflow the buttons drive: pending is approved to
      pre-approved or rejected, pre-approved is distributed to approved, and an
      approved (or overdue) loan is returned. */
  function Transition(status: LoanStatus, action: LoanAction): (r: Option<LoanStatus>)
    ensures r.Some? ==> r.value != status && action != Extend
    ensures status == Returned || status == Rejected ==> r.None?
    ensures r == Some(Approved) <==> status == PreApproved && action == Distribute
  {
    match (status, action)
    case (Pending, Approve) => Some(PreApproved)
    case (Pending, Reject) => Some(Rejected)
    case (PreApproved, Distribute) => Some(Approved)
    case (Approved, Return) => Some(Returned)
    case (Overdue, Return) => Some(Returned)
    case _ => None
  }

  /** The status a tab layout lists. */
  function TabStatus(layout: Layout): Option<LoanStatus> {
    match layout
    case PendingLayout => Some(Pending)
    case PreApprovedLayout => Some(PreApproved)
    case ApprovedLayout => Some(Approved)
    case OverdueLayout => Some(Overdue)
    case ReturnedLayout => Some(Returned)
    case RejectedLayout => Some(Rejected)
    case AllLayout => None
  }

  /** In the general layout, a row offers exactly the workflow steps its status
      allows, for every status the workflow knows except overdue (an overdue
      loan offers nothing there). */
  lemma AllLayoutOffersEnabledActions(status: LoanStatus, a: LoanAction)
    requires a != Extend
    ensures status != Overdue ==> (a in ActionsFor(AllLayout, status) <==> Transition(status, a).Some?)
    ensures status == Overdue ==> ActionsFor(AllLayout, status) == []
  {
  }

  /** In a tab layout, every row of the tab's own status offers exactly the
      workflow steps that status allows. */
  lemma TabLayoutOffersEnabledActions(layout: Layout, a: LoanAction)
    requires layout != AllLayout && a != Extend
    ensures a in ActionsFor(layout, TabStatus(layout).value) <==> Transition(TabStatus(layout).value, a).Some?
  {
  }

  /** One rendered row: the loan it shows, its layout, its buttons, and (in the
      returned layout) the loan duration in days, or `None` for "N/A". */
  datatype Row = Row(loanId: int, layout: Layout, actions: seq<LoanAction>, duration: Option<int>)

  /** The returned layout shows `returned_at - approved_at` only when both dates exist. */
  function Duration(layout: Layout, loan: BookLoan): (d: Option<int>)
    ensures d.Some? <==> layout == ReturnedLayout && loan.approvedAt.Some? && loan.returnedAt.Some?
    ensures d.Some? ==> d.value == loan.returnedAt.value - loan.approvedAt.value
  {
    if layout == ReturnedLayout && loan.approvedAt.Some? && loan.returnedAt.Some? then
      Some(loan.returnedAt.value - loan.approvedAt.value)
    else None
  }

  /** `loans.map(...)`: one row per loan, in order. */
  function Rows(loans: seq<BookLoan>, layout: Layout): (rows: seq<Row>)
    ensures |rows| == |loans|
    ensures forall i :: 0 <= i < |loans| ==>
              rows[i] == Row(loans[i].id, layout, ActionsFor(layout, loans[i].status), Duration(layout, loans[i]))
  {
    if loans == [] then []
    else [Row(loans[0].id, layout, ActionsFor(layout, loans[0].status), Duration(layout, loans[0]))]
         + Rows(loans[1..], layout)
  }

  /** What the table body shows. */
  datatype Body = LoadingView | EmptyView | RowsView(rows: seq<Row>)

  /** The loading view comes first, then the empty view, then the rows. */
  function Render(loans: seq<BookLoan>, loading: bool, statusFilter: Option<string>,
                  dueDateFilter: Option<string>): (b: Body)
    ensures loading <==> b == LoadingView
    ensures b == EmptyView <==> !loading && loans == []
    ensures b.RowsView? ==> b.rows == Rows(loans, LayoutFor(statusFilter, dueDateFilter))
  {
    if loading then LoadingView
    else if |loans| == 0 then EmptyView
    else RowsView(Rows(loans, LayoutFor(statusFilter, dueDateFilter)))
  }

  /** Every row of a rendered table offers, for its loan, the actions of the
      layout the filters select, and row `i` shows loan `i`. */
  lemma RenderedRowsFollowLoans(loans: seq<BookLoan>, statusFilter: Option<string>,
                                dueDateFilter: Option<string>, i: int)
    requires loans != [] && 0 <= i < |loans|
    ensures var b := Render(loans, false, statusFilter, dueDateFilter);
            && b.RowsView? && |b.rows| == |loans|
            && b.rows[i].loanId == loans[i].id
            && b.rows[i].actions == ActionsFor(LayoutFor(statusFilter, dueDateFilter), loans[i].status)
  {
  }
}
