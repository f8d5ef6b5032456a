/** The pending-requests page (src/pages/BookRequests.tsx): approving or
    rejecting a request removes it from the list; the search is the one of the
    loans page. */
module BookRequests {
  import opened Types
  import opened Api
  import opened Text
  import opened Lists
  import BookLoans

  /** `requests.filter(req => req.id !== id)`. */
  function WithoutId(requests: seq<BookLoan>, id: int): (r: seq<BookLoan>)
    ensures |r| <= |requests|
    ensures forall i :: 0 <= i < |r| ==> r[i].id != id && r[i] in requests
    ensures forall i :: 0 <= i < |requests| && requests[i].id != id ==> requests[i] in r
  {
    Filter(requests, (q: BookLoan) => q.id != id)
  }

  /** Removing an id that is not in the list changes nothing; removing it from
      a concatenation removes it from each part, so the rest keep their order. */
  lemma WithoutIdPreserves(a: seq<BookLoan>, b: seq<BookLoan>, id: int)
    ensures (forall i :: 0 <= i < |a| ==> a[i].id != id) ==> WithoutId(a, id) == a
    ensures WithoutId(a + b, id) == WithoutId(a, id) + WithoutId(b, id)
  {
    if forall i :: 0 <= i < |a| ==> a[i].id != id {
      FilterKeepsAll(a, (q: BookLoan) => q.id != id);
    }
    FilterAppend(a, b, (q: BookLoan) => q.id != id);
  }

  /** Removing a request that is there shortens the list. */
  lemma WithoutIdShrinks(requests: seq<BookLoan>, k: int)
    requires 0 <= k < |requests|
    ensures |WithoutId(requests, requests[k].id)| < |requests|
  {
    var id := requests[k].id;
    assert requests == requests[..k] + requests[k..];
    WithoutIdPreserves(requests[..k], requests[k..], id);
    assert requests[k..] == [requests[k]] + requests[k + 1..];
    WithoutIdPreserves([requests[k]], requests[k + 1..], id);
    assert WithoutId([requests[k]], id) == [];
  }

  class Page {
    var requests: seq<BookLoan>
    var loading: bool
    var searchQuery: string
    var isDialogOpen: bool
    var selectedRequest: Option<BookLoan>
    /** The due date of the approve dialog; `None` is the initial empty string. */
    var dueDate: Option<int>

    constructor ()
      ensures requests == [] && loading && searchQuery == "" && !isDialogOpen
      ensures selectedRequest.None? && dueDate.None?
    {
      requests := [];
      loading := true;
      searchQuery := "";
      isDialogOpen := false;
      selectedRequest := None;
      dueDate := None;
    }

    /** `filteredRequests`: the loans page's search over the pending requests. */
    function Shown(): seq<BookLoan>
      reads this
    {
      BookLoans.FilteredLoans(requests, searchQuery)
    }

    /** The fetch effect: passes `'pending'` as the only argument, which
      `getBookLoans` reads as its page, so no status is sent; the list is taken
      only from a successful reply. */
    method FetchPending(reply: ListReply<BookLoan>) returns (args: BookLoans.LoanListArgs)
      modifies this
      ensures args == BookLoans.LoanListArgs(Some("pending"), None)
      ensures reply.ListAnswered? && reply.success ==> requests == reply.data
      ensures !(reply.ListAnswered? && reply.success) ==> requests == old(requests)
      ensures !loading
      ensures searchQuery == old(searchQuery) && isDialogOpen == old(isDialogOpen)
      ensures selectedRequest == old(selectedRequest) && dueDate == old(dueDate)
    {
      loading := true;
      args := BookLoans.LoanListArgs(Some("pending"), None);
      if reply.ListAnswered? && reply.success {
        requests := reply.data;
      }
      loading := false;
    }

    /** `openApproveDialog`: selects the request and proposes a due date 14 days from today. */
    method OpenApproveDialog(request: BookLoan, today: int)
      modifies this
      ensures selectedRequest == Some(request) && dueDate == Some(today + BookLoans.LoanPeriod)
      ensures isDialogOpen
      ensures requests == old(requests) && loading == old(loading) && searchQuery == old(searchQuery)
    {
      selectedRequest := Some(request);
      dueDate := Some(today + BookLoans.LoanPeriod);
      isDialogOpen := true;
    }

    /** `handleApprove`: nothing happens without a selected request; otherwise
      `approveBookLoan` is called for its id (the dialog's date is handed over
      too, but that function takes only the id), and on success the request
      leaves the list and the dialog closes. */
    method HandleApprove(reply: Reply) returns (sentId: Option<int>)
      modifies this
      ensures sentId.Some? <==> old(selectedRequest).Some?
      ensures sentId.Some? ==> sentId.value == old(selectedRequest).value.id
      ensures sentId.Some? && reply == Answered(true) ==>
                requests == WithoutId(old(requests), old(selectedRequest).value.id) && !isDialogOpen
      ensures !(sentId.Some? && reply == Answered(true)) ==>
                requests == old(requests) && isDialogOpen == old(isDialogOpen)
      ensures loading == old(loading) && searchQuery == old(searchQuery)
      ensures selectedRequest == old(selectedRequest) && dueDate == old(dueDate)
    {
      if selectedRequest.None? {
        return None;
      }
      sentId := Some(selectedRequest.value.id);
      if reply == Answered(true) {
        requests := WithoutId(requests, selectedRequest.value.id);
        isDialogOpen := false;
      }
    }

    /** `handleReject`: on success the request with that id leaves the list. */
    method HandleReject(requestId: int, reply: Reply)
      modifies this
      ensures reply == Answered(true) ==> requests == WithoutId(old(requests), requestId)
      ensures reply != Answered(true) ==> requests == old(requests)
      ensures loading == old(loading) && searchQuery == old(searchQuery) && isDialogOpen == old(isDialogOpen)
      ensures selectedRequest == old(selectedRequest) && dueDate == old(dueDate)
    {
      if reply == Answered(true) {
        requests := WithoutId(requests, requestId);
      }
    }
  }

  /** What the page shows: the spinner first, then the empty message, then cards. */
  datatype Body = Loading | Empty | Cards(requests: seq<BookLoan>)

  function Render(loading: bool, shown: seq<BookLoan>): (b: Body)
    ensures b == Loading <==> loading
    ensures b == Empty <==> !loading && shown == []
    ensures b.Cards? ==> b.requests == shown
  {
    if loading then Loading else if |shown| == 0 then Empty else Cards(shown)
  }
}
