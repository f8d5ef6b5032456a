/** The books page (src/pages/Books.tsx): one page of books from the server, a
    search over the loaded page, and a refresh of page 1 after the book dialog
    saves. */
module Books {
  import opened Types
  import opened Api
  import opened Text
  import opened Lists

  const PerPage := 10

  /** `book.description || ""` for searching. */
  function DescriptionText(b: Book): (s: string)
    ensures b.description.Some? ==> s == b.description.value
    ensures b.description.None? ==> s == ""
  {
    if b.description.Some? then b.description.value else ""
  }

  /** A book matches when the lower-cased query occurs in its title, author or description. */
  predicate BookMatches(b: Book, query: string) {
    MatchesAny([b.title, b.author, DescriptionText(b)], query)
  }

  /** `filteredBooks`: the loaded books that match, in their order. */
  function FilteredBooks(books: seq<Book>, query: string): (r: seq<Book>)
    ensures |r| <= |books|
    ensures forall i :: 0 <= i < |r| ==> r[i] in books && BookMatches(r[i], query)
    ensures forall i :: 0 <= i < |books| && BookMatches(books[i], query) ==> books[i] in r
  {
    Filter(books, (b: Book) => BookMatches(b, query))
  }

  /** An empty search keeps every book, in order. */
  lemma EmptySearchKeepsAll(books: seq<Book>)
    ensures FilteredBooks(books, "") == books
  {
    forall i | 0 <= i < |books|
      ensures BookMatches(books[i], "")
    {
      EmptyQueryMatches([books[i].title, books[i].author, DescriptionText(books[i])]);
    }
    FilterKeepsAll(books, (b: Book) => BookMatches(b, ""));
  }

  /** A book without a description is found by its title or author only. */
  lemma MissingDescriptionSearchesTitleAndAuthor(b: Book, query: string)
    requires b.description.None?
    ensures BookMatches(b, query) <==>
              Contains(Lower(b.title), Lower(query)) || Contains(Lower(b.author), Lower(query))
  {
    var fields := [b.title, b.author, DescriptionText(b)];
    assert Lower(fields[2]) == "";
    if query == "" {
      EmptyQueryMatches(fields);
      ContainsEmpty(Lower(b.title));
      assert Lower(query) == "";
    }
    assert |Lower(query)| == |query|;
    if Contains(Lower(b.title), Lower(query)) {
      assert Contains(Lower(fields[0]), Lower(query));
    }
    if Contains(Lower(b.author), Lower(query)) {
      assert Contains(Lower(fields[1]), Lower(query));
    }
  }

  /** What the page hands to the tabs: the filtered books of the loaded page. */
  datatype TabsInput = TabsInput(books: seq<Book>, loading: bool, meta: PaginationMeta, currentPage: int)

  class Page {
    var books: seq<Book>
    var loading: bool
    var isDialogOpen: bool
    var searchQuery: string
    var currentPage: int
    var meta: PaginationMeta

    constructor ()
      ensures books == [] && loading && !isDialogOpen && searchQuery == "" && currentPage == 1
      ensures meta == PaginationMeta(1, 0, 1, PerPage, 0, 0)
    {
      books := [];
      loading := true;
      isDialogOpen := false;
      searchQuery := "";
      currentPage := 1;
      meta := PaginationMeta(1, 0, 1, PerPage, 0, 0);
    }

    /** The table receives the filtered list, never the raw one. */
    function Tabs(): (t: TabsInput)
      reads this
      ensures t.books == FilteredBooks(books, searchQuery)
      ensures t.loading == loading && t.meta == meta && t.currentPage == currentPage
    {
      TabsInput(FilteredBooks(books, searchQuery), loading, meta, currentPage)
    }

    /** The fetch effect for the current page: a reply replaces the books and
      the block, a failure keeps both, and loading is over afterwards. */
    method Fetch(reply: PageReply<Book>) returns (page: int, perPage: int)
      modifies this
      ensures page == currentPage && perPage == PerPage
      ensures reply.PageAnswered? ==> books == reply.data && meta == reply.meta
      ensures reply.PageThrew? ==> books == old(books) && meta == old(meta)
      ensures !loading
      ensures currentPage == old(currentPage) && searchQuery == old(searchQuery)
      ensures isDialogOpen == old(isDialogOpen)
    {
      loading := true;
      page, perPage := currentPage, PerPage;
      if reply.PageAnswered? {
        books := reply.data;
        meta := reply.meta;
      }
      loading := false;
    }

    /** `handleSubmit`, the dialog's success callback: page 1 is fetched and
      replaces the books and the block; the current page is not touched. */
    method HandleSubmit(refresh: PageReply<Book>) returns (page: int)
      modifies this
      ensures page == 1
      ensures refresh.PageAnswered? ==> books == refresh.data && meta == refresh.meta
      ensures refresh.PageThrew? ==> books == old(books) && meta == old(meta)
      ensures currentPage == old(currentPage) && loading == old(loading)
      ensures searchQuery == old(searchQuery) && isDialogOpen == old(isDialogOpen)
    {
      page := 1;
      if refresh.PageAnswered? {
        books := refresh.data;
        meta := refresh.meta;
      }
    }
  }
}
