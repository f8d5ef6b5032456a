/** The loans table with its tabs, status badge and page strip
    (src/components/BookLoan/BookLoanTable.tsx). The strip is the one the other
    paginated tables draw as well. */
module BookLoanTable {
  import opened Types
  import opened Text

  /** The two filter groups a tab writes. */
  datatype Filters = Filters(status: Option<string>, dueDate: Option<string>)

  /** The filters a tab selects: "all" clears both, "overdue" and "today" are
      due-date buckets, and any other tab is a status. */
  function SelectTab(value: string): (f: Filters)
    ensures value == "all" ==> f == Filters(None, None)
    ensures value == "overdue" || value == "today" ==> f == Filters(None, Some(value))
    ensures value != "all" && value != "overdue" && value != "today" ==> f == Filters(Some(value), None)
  {
    if value == "all" then Filters(None, None)
    else if value == "overdue" then Filters(None, Some("overdue"))
    else if value == "today" then Filters(None, Some("today"))
    else Filters(Some(value), None)
  }

  /** The selected tab, `statusFilter || dueDateFilter || 'all'`. */
  function TabValue(f: Filters): string {
    match Or(f.status, f.dueDate)
    case Some(v) => if v != "" then v else "all"
    case None => "all"
  }

  /** A tab change never leaves both filter groups set. */
  lemma SelectTabExclusive(value: string)
    ensures SelectTab(value).status.None? || SelectTab(value).dueDate.None?
  {
  }

  /** Round trip: the tab shown after selecting any non-empty tab is that tab. */
  lemma SelectTabRoundTrip(value: string)
    requires value != ""
    ensures TabValue(SelectTab(value)) == value
  {
  }

  /** The tab state: the two filters and the page they are shown at. */
  class TabState {
    var statusFilter: Option<string>
    var dueDateFilter: Option<string>
    var currentPage: int

    constructor (statusFilter: Option<string>, dueDateFilter: Option<string>, currentPage: int)
      ensures this.statusFilter == statusFilter && this.dueDateFilter == dueDateFilter
      ensures this.currentPage == currentPage
    {
      this.statusFilter := statusFilter;
      this.dueDateFilter := dueDateFilter;
      this.currentPage := currentPage;
    }

    /** `onValueChange`: writes both filters as `SelectTab` says, then goes back to page 1. */
    method OnTabChange(value: string)
      modifies this
      ensures Filters(statusFilter, dueDateFilter) == SelectTab(value)
      ensures currentPage == 1
    {
      if value == "all" {
        statusFilter := None;
        dueDateFilter := None;
      } else if value == "overdue" {
        statusFilter := None;
        dueDateFilter := Some("overdue");
      } else if value == "today" {
        statusFilter := None;
        dueDateFilter := Some("today");
      } else {
        statusFilter := Some(value);
        dueDateFilter := None;
      }
      currentPage := 1;
    }
  }

  // ---------------------------------------------------------------------
  // Status badge

  datatype BadgeColor = Yellow | Purple | Green | Red | Blue | Gray

  /** The statuses the colour table lists. */
  predicate HasColor(status: string) {
    status in ["pending", "pre-approved", "approved", "rejected", "returned"]
  }

  /** `statusColors[status] || gray`. */
  function StatusColor(status: string): (c: BadgeColor)
    ensures c == Gray <==> !HasColor(status)
  {
    match status
    case "pending" => Yellow
    case "pre-approved" => Purple
    case "approved" => Green
    case "rejected" => Red
    case "returned" => Blue
    case _ => Gray
  }

  /** Every status of the loan workflow has its own colour, except overdue,
      which the table does not list and so is gray. */
  lemma WorkflowStatusColors(s: LoanStatus)
    ensures StatusColor(StatusName(s)) == Gray <==> s == Overdue
    ensures forall t :: StatusColor(StatusName(s)) == StatusColor(StatusName(t)) && s != Overdue ==> s == t
  {
  }

  // ---------------------------------------------------------------------
  // Page strip

  /** One page link: its page and whether it is the active one. */
  datatype PageLink = PageLink(page: int, active: bool)

  /** The strip: Previous, the links, Next; each arrow is inert or leads to a page. */
  datatype Strip = Hidden | Shown(previous: Option<int>, links: seq<PageLink>, next: Option<int>)

  /** `Array.from({ length: n }, (_, i) => i + 1)`, each marked active when it
      is the current page. */
  function Links(n: int, currentPage: int): (r: seq<PageLink>)
    ensures |r| == if n <= 0 then 0 else n
    ensures forall i :: 0 <= i < |r| ==> r[i] == PageLink(i + 1, i + 1 == currentPage)
    decreases n
  {
    if n <= 0 then [] else Links(n - 1, currentPage) + [PageLink(n, n == currentPage)]
  }

  /** The strip under a table: shown only when there is more than one page. */
  function PageStrip(lastPage: int, currentPage: int): Strip {
    if lastPage > 1 then
      Shown(if currentPage == 1 then None else Some(currentPage - 1),
            Links(lastPage, currentPage),
            if currentPage == lastPage then None else Some(currentPage + 1))
    else Hidden
  }

  /** The strip appears iff there are at least two pages; it then lists pages
      1 to the last in order, with exactly the current page active. */
  lemma PageStripLists(lastPage: int, currentPage: int)
    ensures PageStrip(lastPage, currentPage).Shown? <==> lastPage > 1
    ensures lastPage > 1 ==>
              var links := PageStrip(lastPage, currentPage).links;
              && |links| == lastPage
              && (forall i :: 0 <= i < |links| ==> links[i].page == i + 1)
              && (forall i :: 0 <= i < |links| ==> (links[i].active <==> links[i].page == currentPage))
              && (1 <= currentPage <= lastPage ==> links[currentPage - 1].active)
  {
  }

  /** Previous is inert on page 1 and Next on the last page; when they act, and
      the current page is in range, they lead to a page in range. */
  lemma PageStripArrows(lastPage: int, currentPage: int)
    requires 1 < lastPage && 1 <= currentPage <= lastPage
    ensures var s := PageStrip(lastPage, currentPage);
            && (s.previous.None? <==> currentPage == 1)
            && (s.next.None? <==> currentPage == lastPage)
            && (s.previous.Some? ==> 1 <= s.previous.value <= lastPage)
            && (s.next.Some? ==> 1 <= s.next.value <= lastPage)
  {
  }
}
