/** The due-date extension table (src/components/DueDateExtensions/DueDateExtensionsTable.tsx):
    four tabs over one status filter, Approve/Reject only where a request is
    still pending, the status badge and the page strip. */
module DueDateExtensionsTable {
  import opened Types
  import opened Text
  import BookLoanTable

  /** The four fields of the pagination block the page keeps. */
  datatype MetaView = MetaView(currentPage: int, lastPage: int, perPage: int, total: int)

  /** The status filter a tab writes: "all" clears it, any other tab is that status. */
  function StatusFor(tab: string): (f: Option<string>)
    ensures f.None? <==> tab == "all"
    ensures f.Some? ==> f.value == tab
  {
    if tab == "all" then None else Some(tab)
  }

  /** The selected tab, `statusFilter || "all"`. */
  function TabValue(statusFilter: Option<string>): string {
    if Truthy(statusFilter) then statusFilter.value else "all"
  }

  /** Round trip: selecting any non-empty tab shows that tab. */
  lemma TabRoundTrip(tab: string)
    requires tab != ""
    ensures TabValue(StatusFor(tab)) == tab
  {
  }

  /** The filter state the tabs drive. */
  class TabState {
    var statusFilter: Option<string>
    var currentPage: int

    constructor (statusFilter: Option<string>, currentPage: int)
      ensures this.statusFilter == statusFilter && this.currentPage == currentPage
    {
      this.statusFilter := statusFilter;
      this.currentPage := currentPage;
    }

    /** `onValueChange`: the tab's filter, then page 1. */
    method OnTabChange(tab: string)
      modifies this
      ensures statusFilter == StatusFor(tab)
      ensures currentPage == 1
    {
      statusFilter := if tab == "all" then None else Some(tab);
      currentPage := 1;
    }
  }

  /** The four tab panels; a filter outside them selects no panel. */
  datatype View = AllView | PendingView | ApprovedView | RejectedView

  function ViewFor(statusFilter: Option<string>): (v: Option<View>)
    ensures v == Some(AllView) <==> !Truthy(statusFilter) || statusFilter.value == "all"
    ensures v.None? <==> TabValue(statusFilter) !in ["all", "pending", "approved", "rejected"]
  {
    match TabValue(statusFilter)
    case "all" => Some(AllView)
    case "pending" => Some(PendingView)
    case "approved" => Some(ApprovedView)
    case "rejected" => Some(RejectedView)
    case _ => None
  }

  datatype RequestAction = ApproveRequest | RejectRequest

  /** The buttons of one row: the pending panel offers both on every row, the
      general panel only on a pending request, the other panels none. */
  function RowActions(view: View, status: RequestStatus): (r: seq<RequestAction>)
    ensures r == [] || r == [ApproveRequest, RejectRequest]
    ensures view != PendingView && r != [] ==> status == RequestPending
  {
    match view
    case AllView => if status == RequestPending then [ApproveRequest, RejectRequest] else []
    case PendingView => [ApproveRequest, RejectRequest]
    case ApprovedView => []
    case RejectedView => []
  }

  /** A request can be acted on only while it is pending: in the general panel
      the buttons appear exactly for pending requests, and no panel offers them
      on a request the server lists as decided, except the pending panel, which
      trusts the server's filter. */
  lemma ActionsOnlyWhilePending(view: View, status: RequestStatus)
    ensures view == AllView ==> (RowActions(view, status) != [] <==> status == RequestPending)
    ensures view == ApprovedView || view == RejectedView ==> RowActions(view, status) == []
    ensures RowActions(view, status) != [] ==> RowActions(view, status) == [ApproveRequest, RejectRequest]
  {
  }

  /** One rendered row; the pending panel also shows the days since the loan's due date. */
  datatype Row = Row(requestId: int, actions: seq<RequestAction>, daysOverdue: Option<int>)

  function DaysOverdue(view: View, request: DueDateRequest, today: int): (d: Option<int>)
    ensures d.Some? <==> view == PendingView && request.bookLoan.dueDate.Some?
    ensures d.Some? ==> d.value + request.bookLoan.dueDate.value == today
  {
    if view == PendingView && request.bookLoan.dueDate.Some? then
      Some(today - request.bookLoan.dueDate.value)
    else None
  }

  function Rows(requests: seq<DueDateRequest>, view: View, today: int): (rows: seq<Row>)
    ensures |rows| == |requests|
    ensures forall i :: 0 <= i < |requests| ==>
              rows[i] == Row(requests[i].id, RowActions(view, requests[i].status),
                             DaysOverdue(view, requests[i], today))
  {
    if requests == [] then []
    else [Row(requests[0].id, RowActions(view, requests[0].status), DaysOverdue(view, requests[0], today))]
         + Rows(requests[1..], view, today)
  }

  /** The text of each panel's empty view. */
  function EmptyMessage(view: View): (m: string)
    ensures m != ""
  {
    match view
    case AllView => "No due date extension requests found"
    case PendingView => "No pending requests found"
    case ApprovedView => "No approved requests found"
    case RejectedView => "No rejected requests found"
  }

  datatype Body = LoadingView | EmptyView(message: string) | RowsView(rows: seq<Row>)

  /** A panel's body: loading first, then the empty view, then one row per request. */
  function Render(view: View, loading: bool, requests: seq<DueDateRequest>, today: int): (b: Body)
    ensures b == LoadingView <==> loading
    ensures b.EmptyView? <==> !loading && requests == []
    ensures b.EmptyView? ==> b.message == EmptyMessage(view)
    ensures b.RowsView? ==> b.rows == Rows(requests, view, today)
  {
    if loading then LoadingView
    else if |requests| == 0 then EmptyView(EmptyMessage(view))
    else RowsView(Rows(requests, view, today))
  }

  /** The row of a pending request in the general panel carries both buttons,
      and the row of a decided one none. */
  lemma AllPanelRows(requests: seq<DueDateRequest>, today: int, i: int)
    requires 0 <= i < |requests|
    ensures var b := Render(AllView, false, requests, today);
            && b.RowsView?
            && (b.rows[i].actions != [] <==> requests[i].status == RequestPending)
            && b.rows[i].requestId == requests[i].id
  {
  }

  /** The badge colour: the three request statuses have their own, anything else is gray. */
  function StatusColor(status: string): (c: BookLoanTable.BadgeColor)
    ensures c == BookLoanTable.Gray <==> status !in ["pending", "approved", "rejected"]
  {
    match status
    case "pending" => BookLoanTable.Yellow
    case "approved" => BookLoanTable.Green
    case "rejected" => BookLoanTable.Red
    case _ => BookLoanTable.Gray
  }

  /** Every request status gets a colour of its own. */
  lemma RequestStatusColors(s: RequestStatus, t: RequestStatus)
    ensures StatusColor(RequestStatusName(s)) != BookLoanTable.Gray
    ensures StatusColor(RequestStatusName(s)) == StatusColor(RequestStatusName(t)) ==> s == t
  {
  }

  /** The strip under the table, drawn from the kept pagination block. */
  function Strip(meta: MetaView, currentPage: int): BookLoanTable.Strip {
    BookLoanTable.PageStrip(meta.lastPage, currentPage)
  }

  /** The strip appears iff there is more than one page, lists every page with
      the current one active, and its arrows stop at either end. */
  lemma StripFollowsMeta(meta: MetaView, currentPage: int)
    requires 1 <= currentPage <= meta.lastPage
    ensures Strip(meta, currentPage).Shown? <==> meta.lastPage > 1
    ensures meta.lastPage > 1 ==>
              var s := Strip(meta, currentPage);
              && |s.links| == meta.lastPage
              && (forall i :: 0 <= i < |s.links| ==> s.links[i].page == i + 1)
              && s.links[currentPage - 1].active
              && (s.previous.None? <==> currentPage == 1)
              && (s.next.None? <==> currentPage == meta.lastPage)
  {
    BookLoanTable.PageStripLists(meta.lastPage, currentPage);
    if meta.lastPage > 1 {
      BookLoanTable.PageStripArrows(meta.lastPage, currentPage);
    }
  }
}
