/** The categories page (src/pages/Categories.tsx): one page of category cards,
    a create/edit dialog, delete with a step back from an emptied page, and
    Previous/Next buttons under the cards. */
module Categories {
  import opened Types
  import opened Api
  import opened Lists

  const PerPage := 10

  /** The state the list handlers write: the cards, the page and its pagination block. */
  datatype Listing = Listing(categories: seq<Category>, currentPage: int, meta: PaginationMeta)

  /** `prev.filter(cat => cat.id !== id)`. */
  function WithoutId(categories: seq<Category>, id: int): (r: seq<Category>)
    ensures |r| <= |categories|
    ensures forall i :: 0 <= i < |r| ==> r[i].id != id && r[i] in categories
    ensures forall i :: 0 <= i < |categories| && categories[i].id != id ==> categories[i] in r
  {
    Filter(categories, (c: Category) => c.id != id)
  }

  /** The fetch effect (it runs whenever the page changes): a reply replaces
      the cards and the block, a failure keeps both. */
  function Fetched(l: Listing, reply: PageReply<Category>): (r: Listing)
    ensures r.currentPage == l.currentPage
    ensures reply.PageAnswered? ==> r.categories == reply.data && r.meta == reply.meta
    ensures reply.PageThrew? ==> r == l
  {
    if reply.PageAnswered? then Listing(reply.data, l.currentPage, reply.meta) else l
  }

  /** `handleDelete` after the server accepted the delete: the card leaves the
      list, then the current page is fetched again. An empty page past the
      first sends the page one back (the list stays as filtered); any other
      reply replaces the cards and the block; a failed fetch keeps the
      filtered list. */
  function AfterDelete(l: Listing, id: int, refresh: PageReply<Category>): (r: Listing)
    ensures refresh.PageThrew? ==> r == Listing(WithoutId(l.categories, id), l.currentPage, l.meta)
    ensures refresh.PageAnswered? && refresh.data == [] && l.currentPage > 1 ==>
              r == Listing(WithoutId(l.categories, id), l.currentPage - 1, l.meta)
    ensures refresh.PageAnswered? && !(refresh.data == [] && l.currentPage > 1) ==>
              r == Listing(refresh.data, l.currentPage, refresh.meta)
  {
    var filtered := WithoutId(l.categories, id);
    match refresh
    case PageThrew => Listing(filtered, l.currentPage, l.meta)
    case PageAnswered(data, meta) =>
      if |data| == 0 && l.currentPage > 1 then Listing(filtered, l.currentPage - 1, l.meta)
      else Listing(data, l.currentPage, meta)
  }

  /** `handleSubmit` after the server accepted the save: back to page 1, and
      the first page's cards are fetched; the pagination block is not. */
  function AfterSave(l: Listing, refresh: PageReply<Category>): (r: Listing)
    ensures r.currentPage == 1 && r.meta == l.meta
    ensures refresh.PageAnswered? ==> r.categories == refresh.data
    ensures refresh.PageThrew? ==> r.categories == l.categories
  {
    match refresh
    case PageThrew => Listing(l.categories, 1, l.meta)
    case PageAnswered(data, _) => Listing(data, 1, l.meta)
  }

  /** A delete never leaves the deleted card on screen unless the server lists
      it again, and never takes the page below 1. */
  lemma DeleteKeepsPageInRange(l: Listing, id: int, refresh: PageReply<Category>)
    requires l.currentPage >= 1
    ensures AfterDelete(l, id, refresh).currentPage >= 1
    ensures AfterDelete(l, id, refresh).currentPage >= l.currentPage - 1
    ensures (refresh.PageThrew? || refresh.data == [] || (forall c :: c in refresh.data ==> c.id != id)) ==>
              forall c :: c in AfterDelete(l, id, refresh).categories ==> c.id != id
  {
    var r := AfterDelete(l, id, refresh);
    if refresh.PageThrew? || (refresh.data == [] && l.currentPage > 1) {
      assert r.categories == WithoutId(l.categories, id);
      forall c | c in r.categories
        ensures c.id != id
      {
        var i :| 0 <= i < |r.categories| && r.categories[i] == c;
      }
    }
  }

  /** A page is stepped back only when the refetched page came back empty. */
  lemma DeleteStepsBackOnlyFromEmptyPage(l: Listing, id: int, refresh: PageReply<Category>)
    ensures AfterDelete(l, id, refresh).currentPage != l.currentPage <==>
              refresh.PageAnswered? && refresh.data == [] && l.currentPage > 1
  {
  }

  /** A save made on the first page shows the first page's cards with the
      pagination block of before: the total, the range and the Next button do
      not follow the save until the page changes. */
  lemma SaveOnFirstPageKeepsMeta(l: Listing, refresh: PageReply<Category>)
    requires l.currentPage == 1 && refresh.PageAnswered?
    ensures AfterSave(l, refresh).currentPage == l.currentPage
    ensures AfterSave(l, refresh).categories == refresh.data
    ensures AfterSave(l, refresh).meta == l.meta
    ensures NextDisabled(AfterSave(l, refresh)) == NextDisabled(l)
  {
  }

  /** Previous is disabled on page 1, Next on the last page of the kept block. */
  predicate PreviousDisabled(l: Listing) {
    l.currentPage == 1
  }

  predicate NextDisabled(l: Listing) {
    l.currentPage == l.meta.lastPage
  }

  /** An enabled button moves by one page and stays within 1..last. */
  lemma NavigationStaysInRange(l: Listing)
    requires 1 <= l.currentPage <= l.meta.lastPage
    ensures !PreviousDisabled(l) ==> 1 <= l.currentPage - 1 <= l.meta.lastPage
    ensures !NextDisabled(l) ==> 1 <= l.currentPage + 1 <= l.meta.lastPage
  {
  }

  /** "Showing {from} to {from + n - 1} of {total} categories", drawn only
      when there are cards. */
  datatype RangeText = RangeText(first: int, last: int, total: int)

  function Range(l: Listing): (t: Option<RangeText>)
    ensures t.Some? <==> |l.categories| > 0
    ensures t.Some? ==> t.value.last - t.value.first + 1 == |l.categories| && t.value.first == l.meta.from
    ensures t.Some? ==> t.value.total == l.meta.total
  {
    if |l.categories| > 0 then
      Some(RangeText(l.meta.from, l.meta.from + |l.categories| - 1, l.meta.total))
    else None
  }

  /** "{n} book" for exactly one book, "{n} books" otherwise. */
  function BookNoun(bookCount: int): (s: string)
    ensures s == "book" <==> bookCount == 1
    ensures s != "book" ==> s == "books"
  {
    if bookCount == 1 then "book" else "books"
  }

  /** What the page shows above the buttons. */
  datatype Body = Loading | Empty | Cards(categories: seq<Category>)

  function Render(loading: bool, categories: seq<Category>): (b: Body)
    ensures b == Loading <==> loading
    ensures b == Empty <==> !loading && categories == []
    ensures b.Cards? ==> b.categories == categories
  {
    if loading then Loading else if |categories| == 0 then Empty else Cards(categories)
  }

  /** The call a save makes: an update of the selected category in edit mode, a create otherwise. */
  datatype SaveCall = UpdateCategory(id: int, name: string) | CreateCategory(name: string)

  class Page {
    var categories: seq<Category>
    var loading: bool
    var isDialogOpen: bool
    var isEditMode: bool
    var selectedCategory: Option<Category>
    var currentPage: int
    var meta: PaginationMeta
    /** `categoryForm.name`. */
    var name: string

    constructor ()
      ensures categories == [] && loading && !isDialogOpen && !isEditMode && selectedCategory.None?
      ensures currentPage == 1 && meta == PaginationMeta(1, 0, 1, PerPage, 0, 0) && name == ""
    {
      categories := [];
      loading := true;
      isDialogOpen := false;
      isEditMode := false;
      selectedCategory := None;
      currentPage := 1;
      meta := PaginationMeta(1, 0, 1, PerPage, 0, 0);
      name := "";
    }

    function State(): Listing
      reads this
    {
      Listing(categories, currentPage, meta)
    }

    /** The fetch effect for the current page; loading is over afterwards. */
    method Fetch(reply: PageReply<Category>) returns (page: int)
      modifies this
      ensures page == old(currentPage)
      ensures State() == Fetched(old(State()), reply)
      ensures !loading
      ensures isDialogOpen == old(isDialogOpen) && isEditMode == old(isEditMode)
      ensures selectedCategory == old(selectedCategory) && name == old(name)
    {
      loading := true;
      page := currentPage;
      if reply.PageAnswered? {
        categories := reply.data;
        meta := reply.meta;
      }
      loading := false;
    }

    /** `resetForm`: an empty name, create mode, nothing selected. */
    method ResetForm()
      modifies this
      ensures name == "" && !isEditMode && selectedCategory.None?
      ensures State() == old(State()) && isDialogOpen == old(isDialogOpen) && loading == old(loading)
    {
      name := "";
      isEditMode := false;
      selectedCategory := None;
    }

    /** `openEditDialog`: edit mode on the category, its name in the form, dialog open. */
    method OpenEditDialog(category: Category)
      modifies this
      ensures isEditMode && selectedCategory == Some(category) && name == category.name && isDialogOpen
      ensures State() == old(State()) && loading == old(loading)
    {
      isEditMode := true;
      selectedCategory := Some(category);
      name := category.name;
      isDialogOpen := true;
    }

    /** `handleSubmit`. The save is an update only in edit mode with a
      selection. An accepted save moves to page 1 and takes the refetched
      cards; when that refetch succeeds the dialog closes and the form is
      reset, and when it throws both stay as they were. */
    method HandleSubmit(reply: Reply, refresh: PageReply<Category>) returns (call: SaveCall)
      modifies this
      ensures old(isEditMode) && old(selectedCategory).Some? ==>
                call == UpdateCategory(old(selectedCategory).value.id, old(name))
      ensures !(old(isEditMode) && old(selectedCategory).Some?) ==> call == CreateCategory(old(name))
      ensures reply == Answered(true) ==> State() == AfterSave(old(State()), refresh)
      ensures reply == Answered(true) && refresh.PageAnswered? ==>
                !isDialogOpen && name == "" && !isEditMode && selectedCategory.None?
      ensures !(reply == Answered(true) && refresh.PageAnswered?) ==>
                isDialogOpen == old(isDialogOpen) && name == old(name)
                && isEditMode == old(isEditMode) && selectedCategory == old(selectedCategory)
      ensures reply != Answered(true) ==> State() == old(State())
      ensures loading == old(loading)
    {
      if isEditMode && selectedCategory.Some? {
        call := UpdateCategory(selectedCategory.value.id, name);
      } else {
        call := CreateCategory(name);
      }
      if reply == Answered(true) {
        currentPage := 1;
        match refresh
        case PageThrew =>
        case PageAnswered(data, _) =>
          categories := data;
          isDialogOpen := false;
          ResetForm();
      }
    }

    /** `handleDelete`: only an accepted delete touches the list, as `AfterDelete` says. */
    method HandleDelete(id: int, reply: Reply, refresh: PageReply<Category>)
      modifies this
      ensures reply == Answered(true) ==> State() == AfterDelete(old(State()), id, refresh)
      ensures reply != Answered(true) ==> State() == old(State())
      ensures loading == old(loading) && isDialogOpen == old(isDialogOpen) && name == old(name)
      ensures isEditMode == old(isEditMode) && selectedCategory == old(selectedCategory)
    {
      if reply == Answered(true) {
        categories := WithoutId(categories, id);
        match refresh
        case PageThrew =>
        case PageAnswered(data, m) =>
          if |data| == 0 && currentPage > 1 {
            currentPage := currentPage - 1;
          } else {
            categories := data;
            meta := m;
          }
      }
    }
  }
}
