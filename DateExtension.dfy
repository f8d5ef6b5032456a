/** The due-date extension page (src/pages/DateExtension.tsx): it fetches one
    page of requests for the current page, search and status, and approving or
    rejecting a request refetches it. The search is the debounced value. */
module DateExtension {
  import opened Types
  import opened Api
  import opened DueDateExtensionsTable

  const PerPage := 10

  /** The arguments of one `getDueDateIncreaseRequests` call. */
  datatype FetchQuery = FetchQuery(page: int, perPage: int, search: Option<string>, status: Option<string>)

  /** The query the page sends: ten per page, and an empty search sent as no search. */
  function QueryFor(currentPage: int, search: string, statusFilter: Option<string>): (q: FetchQuery)
    ensures q.page == currentPage && q.perPage == PerPage && q.status == statusFilter
    ensures q.search.None? <==> search == ""
    ensures q.search.Some? ==> q.search.value == search
  {
    FetchQuery(currentPage, PerPage, if search == "" then None else Some(search), statusFilter)
  }

  /** The four meta fields the page keeps out of a reply. */
  function Project(meta: PaginationMeta): (v: MetaView)
    ensures v.currentPage == meta.currentPage && v.lastPage == meta.lastPage
    ensures v.perPage == meta.perPage && v.total == meta.total
  {
    MetaView(meta.currentPage, meta.lastPage, meta.perPage, meta.total)
  }

  /** The values whose change makes the page fetch again. */
  datatype Deps = Deps(currentPage: int, search: string, statusFilter: Option<string>)

  /** The decision `actionDueDateRequest` is called with. */
  datatype Decision = Decision(requestId: int, status: string)

  class Controller {
    var requests: seq<DueDateRequest>
    var loading: bool
    var search: string
    var statusFilter: Option<string>
    var currentPage: int
    var meta: MetaView

    /** The initial state: no requests, loading, page 1 of 1, ten per page. */
    constructor ()
      ensures requests == [] && loading && search == "" && statusFilter.None? && currentPage == 1
      ensures meta == MetaView(1, 1, PerPage, 0)
    {
      requests := [];
      loading := true;
      search := "";
      statusFilter := None;
      currentPage := 1;
      meta := MetaView(1, 1, PerPage, 0);
    }

    function Current(): Deps
      reads this
    {
      Deps(currentPage, search, statusFilter)
    }

    /** `fetchDueDateIncreaseRequests`: asks for the current query; a reply
      replaces the requests and the kept meta, a failure keeps both, and
      loading is over either way. */
    method Fetch(reply: PageReply<DueDateRequest>) returns (sent: FetchQuery)
      modifies this
      ensures sent == QueryFor(currentPage, search, statusFilter)
      ensures reply.PageAnswered? ==> requests == reply.data && meta == Project(reply.meta)
      ensures reply.PageThrew? ==> requests == old(requests) && meta == old(meta)
      ensures !loading
      ensures Current() == old(Current())
    {
      loading := true;
      sent := FetchQuery(currentPage, PerPage, if search == "" then None else Some(search), statusFilter);
      if reply.PageAnswered? {
        requests := reply.data;
        meta := MetaView(reply.meta.currentPage, reply.meta.lastPage, reply.meta.perPage, reply.meta.total);
      }
      loading := false;
    }

    /** The effect on `[currentPage, debouncedSearchQuery, statusFilter]`: the
      new values are taken, and a fetch runs exactly when one of them changed. */
    method SetDeps(deps: Deps, reply: PageReply<DueDateRequest>) returns (fetched: Option<FetchQuery>)
      modifies this
      ensures Current() == deps
      ensures fetched.Some? <==> deps != old(Current())
      ensures fetched.Some? ==> fetched.value == QueryFor(deps.currentPage, deps.search, deps.statusFilter)
      ensures fetched.Some? && reply.PageAnswered? ==> requests == reply.data && meta == Project(reply.meta)
      ensures !(fetched.Some? && reply.PageAnswered?) ==> requests == old(requests) && meta == old(meta)
    {
      var changed := deps != Current();
      currentPage := deps.currentPage;
      search := deps.search;
      statusFilter := deps.statusFilter;
      if changed {
        var q := Fetch(reply);
        fetched := Some(q);
      } else {
        fetched := None;
      }
    }

    /** `handleApprove` and `handleReject`: the decision is sent, and the list
      is fetched again only when the reply carries a message. */
    method Act(requestId: int, approve: bool, reply: Reply, refetch: PageReply<DueDateRequest>)
      returns (decision: Decision, fetched: Option<FetchQuery>)
      modifies this
      ensures decision == Decision(requestId, if approve then "approved" else "rejected")
      ensures fetched.Some? <==> reply == Answered(true)
      ensures fetched.Some? ==> fetched.value == QueryFor(currentPage, search, statusFilter)
      ensures fetched.Some? && refetch.PageAnswered? ==> requests == refetch.data && meta == Project(refetch.meta)
      ensures !(fetched.Some? && refetch.PageAnswered?) ==> requests == old(requests) && meta == old(meta)
      ensures fetched.None? ==> loading == old(loading)
      ensures Current() == old(Current())
    {
      decision := Decision(requestId, if approve then "approved" else "rejected");
      if reply == Answered(true) {
        var q := Fetch(refetch);
        fetched := Some(q);
      } else {
        fetched := None;
      }
    }
  }

  /** A tab change, as the page wires it (src/pages/DateExtension.tsx:111-114):
      the table's `onValueChange` writes the page's own status filter and page
      through the setters it is handed, and the page's effect then runs on the
      new values. It fetches unless both the status and page 1 were already
      current, and then always page 1 of the tab's status with the search
      unchanged; so a change to a different status always fetches. */
  method TabChangeFetchesFirstPage(tabs: TabState, page: Controller, tab: string,
                                   reply: PageReply<DueDateRequest>)
    returns (fetched: Option<FetchQuery>)
    requires tabs.statusFilter == page.statusFilter && tabs.currentPage == page.currentPage
    modifies tabs, page
    ensures page.statusFilter == tabs.statusFilter == StatusFor(tab)
    ensures page.currentPage == tabs.currentPage == 1
    ensures page.search == old(page.search)
    ensures fetched.Some? <==> StatusFor(tab) != old(page.statusFilter) || old(page.currentPage) != 1
    ensures fetched.Some? ==> fetched.value == QueryFor(1, old(page.search), StatusFor(tab))
    ensures StatusFor(tab) != old(page.statusFilter) ==>
              fetched.Some? && fetched.value.page == 1 && fetched.value.status == StatusFor(tab)
  {
    tabs.OnTabChange(tab);
    fetched := page.SetDeps(Deps(tabs.currentPage, page.search, tabs.statusFilter), reply);
  }
}
