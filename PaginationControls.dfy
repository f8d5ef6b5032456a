/** The page navigator under the book list (src/components/Book/PaginationControls.tsx):
    the row of page buttons with truncation, the Previous/Next buttons and the
    "Showing a to b of n items" label. */
module PaginationControls {

  /** One button of the row: a page number, or the inert `'...'`. */
  datatype PageItem = Page(n: int) | Ellipsis

  function Max(a: int, b: int): int { if a >= b then a else b }
  function Min(a: int, b: int): int { if a <= b then a else b }

  /** First page of the window around the current page. */
  function StartPage(currentPage: int): int { Max(1, currentPage - 2) }

  /** Last page of the window around the current page. */
  function EndPage(currentPage: int, lastPage: int): int { Min(lastPage, currentPage + 2) }

  /** Pages `lo`, `lo+1`, ..., `hi` (none when `lo > hi`). */
  function Window(lo: int, hi: int): (r: seq<PageItem>)
    ensures |r| == if lo <= hi then hi - lo + 1 else 0
    ensures forall i :: 0 <= i < |r| ==> r[i] == Page(lo + i)
    decreases hi - lo
  {
    if lo > hi then [] else Window(lo, hi - 1) + [Page(hi)]
  }

  /** Page 1, and an ellipsis after it, when the window does not reach them. */
  function Head(currentPage: int): seq<PageItem> {
    var s := StartPage(currentPage);
    if s > 1 then [Page(1)] + (if s > 2 then [Ellipsis] else []) else []
  }

  /** An ellipsis, and the last page, when the window does not reach them. */
  function Tail(currentPage: int, lastPage: int): seq<PageItem> {
    var e := EndPage(currentPage, lastPage);
    if e < lastPage then (if e < lastPage - 1 then [Ellipsis] else []) + [Page(lastPage)] else []
  }

  /** The row of buttons: head, the window of at most five pages, tail. */
  function PageNumbers(currentPage: int, lastPage: int): seq<PageItem> {
    Head(currentPage) + Window(StartPage(currentPage), EndPage(currentPage, lastPage)) + Tail(currentPage, lastPage)
  }

  /** `getPageNumbers`: pushes the head, the window and the tail into a fresh list. */
  method GetPageNumbers(currentPage: int, lastPage: int) returns (pages: seq<PageItem>)
    ensures pages == PageNumbers(currentPage, lastPage)
  {
    pages := [];
    var startPage := Max(1, currentPage - 2);
    var endPage := Min(lastPage, currentPage + 2);
    if startPage > 1 {
      pages := pages + [Page(1)];
      if startPage > 2 {
        pages := pages + [Ellipsis];
      }
    }
    var i := startPage;
    while i <= endPage
      invariant i == startPage || startPage <= i <= endPage + 1
      invariant pages == Head(currentPage) + Window(startPage, i - 1)
    {
      pages := pages + [Page(i)];
      i := i + 1;
    }
    assert Window(startPage, i - 1) == Window(startPage, endPage);
    if endPage < lastPage {
      if endPage < lastPage - 1 {
        pages := pages + [Ellipsis];
      }
      pages := pages + [Page(lastPage)];
    }
  }

  // ---------------------------------------------------------------------
  // Properties of the row

  /** Page numbers strictly increase from left to right (ellipses ignored). */
  predicate Increasing(ps: seq<PageItem>) {
    forall i, j :: 0 <= i < j < |ps| && ps[i].Page? && ps[j].Page? ==> ps[i].n < ps[j].n
  }

  /** Every page number lies in `[lo, hi]`. */
  predicate PagesWithin(ps: seq<PageItem>, lo: int, hi: int) {
    forall i :: 0 <= i < |ps| && ps[i].Page? ==> lo <= ps[i].n <= hi
  }

  /** An ellipsis stands between two page numbers that are more than one apart,
      and two neighbouring page numbers are consecutive. */
  predicate GapsMarked(ps: seq<PageItem>) {
    && (forall i :: 0 <= i < |ps| && ps[i].Ellipsis? ==>
          0 < i < |ps| - 1 && ps[i - 1].Page? && ps[i + 1].Page? && ps[i + 1].n > ps[i - 1].n + 1)
    && (forall i :: 0 <= i < |ps| - 1 && ps[i].Page? && ps[i + 1].Page? ==> ps[i + 1].n == ps[i].n + 1)
  }

  lemma IncreasingAppend(a: seq<PageItem>, b: seq<PageItem>, lo: int, mid: int, hi: int)
    requires Increasing(a) && PagesWithin(a, lo, mid)
    requires Increasing(b) && PagesWithin(b, mid + 1, hi)
    requires lo <= mid + 1 <= hi + 1
    ensures Increasing(a + b) && PagesWithin(a + b, lo, hi)
  {
    var ab := a + b;
    forall i, j | 0 <= i < j < |ab| && ab[i].Page? && ab[j].Page?
      ensures ab[i].n < ab[j].n
    {
      if j < |a| {
        assert ab[i] == a[i] && ab[j] == a[j];
      } else if i < |a| {
        assert ab[i] == a[i] && ab[j] == b[j - |a|];
      } else {
        assert ab[i] == b[i - |a|] && ab[j] == b[j - |a|];
      }
    }
    forall i | 0 <= i < |ab| && ab[i].Page?
      ensures lo <= ab[i].n <= hi
    {
      if i < |a| { assert ab[i] == a[i]; } else { assert ab[i] == b[i - |a|]; }
    }
  }

  /** With `1 <= currentPage <= lastPage`, the numbers strictly increase and all
      lie in `[1, lastPage]`. */
  lemma PageNumbersIncreasing(currentPage: int, lastPage: int)
    requires 1 <= currentPage <= lastPage
    ensures Increasing(PageNumbers(currentPage, lastPage))
    ensures PagesWithin(PageNumbers(currentPage, lastPage), 1, lastPage)
  {
    var s, e := StartPage(currentPage), EndPage(currentPage, lastPage);
    var h, w, t := Head(currentPage), Window(s, e), Tail(currentPage, lastPage);
    assert PagesWithin(h, 1, s - 1);
    assert PagesWithin(w, s, e);
    IncreasingAppend(h, w, 1, s - 1, e);
    assert PagesWithin(t, e + 1, lastPage);
    IncreasingAppend(h + w, t, 1, e, lastPage);
  }

  /** The current page is one of the buttons. */
  lemma PageNumbersHasCurrent(currentPage: int, lastPage: int)
    requires 1 <= currentPage <= lastPage
    ensures Page(currentPage) in PageNumbers(currentPage, lastPage)
  {
    var s, e := StartPage(currentPage), EndPage(currentPage, lastPage);
    var h, w := Head(currentPage), Window(s, e);
    assert w[currentPage - s] == Page(currentPage);
    assert PageNumbers(currentPage, lastPage)[|h| + currentPage - s] == Page(currentPage);
  }

  /** The row starts with page 1 and ends with the last page. */
  lemma PageNumbersEnds(currentPage: int, lastPage: int)
    requires 1 <= currentPage <= lastPage
    ensures var ps := PageNumbers(currentPage, lastPage);
            |ps| > 0 && ps[0] == Page(1) && ps[|ps| - 1] == Page(lastPage)
  {
    var s, e := StartPage(currentPage), EndPage(currentPage, lastPage);
    var h, w, t := Head(currentPage), Window(s, e), Tail(currentPage, lastPage);
    var ps := h + w + t;
    assert |w| > 0;
    if h == [] {
      assert ps[0] == w[0];
    }
    if t == [] {
      assert ps[|ps| - 1] == w[|w| - 1];
    }
  }

  /** The window holds at most five pages, `max(1, c-2)` to `min(last, c+2)`, and
      the row at most nine buttons. */
  lemma PageNumbersSize(currentPage: int, lastPage: int)
    requires 1 <= currentPage <= lastPage
    ensures |Window(StartPage(currentPage), EndPage(currentPage, lastPage))| <= 5
    ensures |PageNumbers(currentPage, lastPage)| <= 9
  {
  }

  /** The row position by position: the head, then page `s + k` at window
      position `k`, then the tail. */
  lemma PageNumbersAt(currentPage: int, lastPage: int, i: int)
    requires 1 <= currentPage <= lastPage
    requires 0 <= i < |PageNumbers(currentPage, lastPage)|
    ensures var h, s, e := Head(currentPage), StartPage(currentPage), EndPage(currentPage, lastPage);
            var t := Tail(currentPage, lastPage);
            PageNumbers(currentPage, lastPage)[i] ==
              if i < |h| then h[i]
              else if i < |h| + e - s + 1 then Page(s + i - |h|)
              else t[i - |h| - (e - s + 1)]
  {
    var s, e := StartPage(currentPage), EndPage(currentPage, lastPage);
    var h, w, t := Head(currentPage), Window(s, e), Tail(currentPage, lastPage);
    assert PageNumbers(currentPage, lastPage) == h + w + t;
    if |h| <= i < |h| + |w| {
      assert (h + w + t)[i] == w[i - |h|];
    }
  }

  /** Ellipses appear only where at least one page is skipped; elsewhere
      neighbouring numbers differ by exactly one. */
  lemma PageNumbersGaps(currentPage: int, lastPage: int)
    requires 1 <= currentPage <= lastPage
    ensures GapsMarked(PageNumbers(currentPage, lastPage))
  {
    var ps := PageNumbers(currentPage, lastPage);
    var s, e := StartPage(currentPage), EndPage(currentPage, lastPage);
    var h, t := Head(currentPage), Tail(currentPage, lastPage);
    assert |ps| == |h| + (e - s + 1) + |t|;
    forall i | 0 <= i < |ps| && ps[i].Ellipsis?
      ensures 0 < i < |ps| - 1 && ps[i - 1].Page? && ps[i + 1].Page? && ps[i + 1].n > ps[i - 1].n + 1
    {
      PageNumbersAt(currentPage, lastPage, i);
      PageNumbersAt(currentPage, lastPage, i - 1);
      PageNumbersAt(currentPage, lastPage, i + 1);
    }
    forall i | 0 <= i < |ps| - 1 && ps[i].Page? && ps[i + 1].Page?
      ensures ps[i + 1].n == ps[i].n + 1
    {
      PageNumbersAt(currentPage, lastPage, i);
      PageNumbersAt(currentPage, lastPage, i + 1);
    }
  }

  // ---------------------------------------------------------------------
  // Buttons and label

  /** The page a click on `item` leads to: a number sets the page, an ellipsis
      leaves it unchanged. */
  function Click(item: PageItem, currentPage: int): (p: int)
    ensures item.Ellipsis? ==> p == currentPage
    ensures item.Page? ==> p == item.n
  {
    match item
    case Page(n) => n
    case Ellipsis => currentPage
  }

  /** Whatever button of the row is clicked, the page stays in `[1, lastPage]`. */
  lemma ClickStaysInRange(currentPage: int, lastPage: int, item: PageItem)
    requires 1 <= currentPage <= lastPage
    requires item in PageNumbers(currentPage, lastPage)
    ensures 1 <= Click(item, currentPage) <= lastPage
  {
    PageNumbersIncreasing(currentPage, lastPage);
  }

  predicate PreviousDisabled(currentPage: int) { currentPage == 1 }

  predicate NextDisabled(currentPage: int, lastPage: int) { currentPage == lastPage }

  /** The page Previous and Next lead to when enabled. */
  function Previous(currentPage: int): int { currentPage - 1 }
  function Next(currentPage: int): int { currentPage + 1 }

  /** An enabled Previous or Next button keeps the page in `[1, lastPage]`. */
  lemma StepStaysInRange(currentPage: int, lastPage: int)
    requires 1 <= currentPage <= lastPage
    ensures !PreviousDisabled(currentPage) ==> 1 <= Previous(currentPage) <= lastPage
    ensures !NextDisabled(currentPage, lastPage) ==> 1 <= Next(currentPage) <= lastPage
  {
  }

  /** The "Showing first to last of total items" label. */
  datatype RangeLabel = RangeLabel(first: int, last: int, total: int, noun: string)

  function Label(from: int, itemCount: int, total: int): (l: RangeLabel)
    ensures l.last - l.first + 1 == itemCount && l.first == from && l.total == total
    ensures l.noun == "item" <==> total == 1
    ensures l.noun == "item" || l.noun == "items"
  {
    RangeLabel(from, from + itemCount - 1, total, if total == 1 then "item" else "items")
  }
}
