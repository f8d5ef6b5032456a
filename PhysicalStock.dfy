/** The physical-stock page (src/pages/PhysicalStock.tsx): stock rows joined
    with the loaded books that have a physical copy, a search over that join,
    and the dialog that sets one stock's quantity. */
module PhysicalStock {
  import opened Types
  import opened Api
  import opened Text
  import opened Lists
  import opened PhysicalStockUpdateDialog

  /** The declared flag `hasPhysical` is truthy. */
  predicate HasPhysical(b: Book) {
    b.hasPhysical != 0
  }

  /** The books with a physical copy, read from the declared flag:
      `booksResponse.data.filter(book => book.hasPhysical)`. */
  function PhysicalBooks(books: seq<Book>): (r: seq<Book>)
    ensures |r| <= |books|
    ensures forall i :: 0 <= i < |r| ==> r[i] in books && HasPhysical(r[i])
    ensures forall i :: 0 <= i < |books| && HasPhysical(books[i]) ==> books[i] in r
  {
    Filter(books, HasPhysical)
  }

  /** `book.has_physical` as the page reads it: the undeclared property,
      truthy only when present and non-zero. */
  predicate HasPhysicalAsWritten(b: Book) {
    b.snakeHasPhysical.Some? && b.snakeHasPhysical.value != 0
  }

  /** The filter as the page writes it: `filter(book => book.has_physical)`. */
  function PhysicalBooksAsWritten(books: seq<Book>): (r: seq<Book>)
    ensures |r| <= |books|
    ensures forall i :: 0 <= i < |r| ==> r[i] in books && HasPhysicalAsWritten(r[i])
    ensures forall i :: 0 <= i < |books| && HasPhysicalAsWritten(books[i]) ==> books[i] in r
  {
    Filter(books, HasPhysicalAsWritten)
  }

  /** `getBookDetails`: the first loaded book with that id, if any. */
  function FindBook(books: seq<Book>, bookId: int): (r: Option<Book>)
    ensures r.None? <==> forall i :: 0 <= i < |books| ==> books[i].id != bookId
    ensures r.Some? ==> exists i :: 0 <= i < |books| && books[i] == r.value
                                    && books[i].id == bookId
                                    && forall j :: 0 <= j < i ==> books[j].id != bookId
  {
    if books == [] then None
    else if books[0].id == bookId then Some(books[0])
    else
      var r := FindBook(books[1..], bookId);
      if r.Some? then
        var i :| 0 <= i < |books[1..]| && books[1..][i] == r.value && books[1..][i].id == bookId
                 && forall j :: 0 <= j < i ==> books[1..][j].id != bookId;
        assert books[i + 1] == r.value && forall j :: 0 <= j < i + 1 ==> books[j].id != bookId;
        r
      else
        assert forall i :: 1 <= i < |books| ==> books[i] == books[1..][i - 1];
        r
  }

  /** A stock is listed when its book is loaded and the query occurs, ignoring
      case, in that book's title or author. */
  predicate StockMatches(books: seq<Book>, query: string, s: Stock) {
    match FindBook(books, s.bookId)
    case None => false
    case Some(b) => MatchesAny([b.title, b.author], query)
  }

  /** `filteredStocks`. */
  function FilteredStocks(stocks: seq<Stock>, books: seq<Book>, query: string): (r: seq<Stock>)
    ensures |r| <= |stocks|
    ensures forall i :: 0 <= i < |r| ==> r[i] in stocks && StockMatches(books, query, r[i])
    ensures forall i :: 0 <= i < |stocks| && StockMatches(books, query, stocks[i]) ==> stocks[i] in r
  {
    Filter(stocks, (s: Stock) => StockMatches(books, query, s))
  }

  /** The join drops every stock whose book is not loaded, whatever the query;
      with an empty query it keeps exactly the stocks whose book is loaded. */
  lemma FilteredStocksJoin(stocks: seq<Stock>, books: seq<Book>, query: string, s: Stock)
    requires s in stocks
    ensures FindBook(books, s.bookId).None? ==> s !in FilteredStocks(stocks, books, query)
    ensures query == "" ==> (s in FilteredStocks(stocks, books, "") <==> FindBook(books, s.bookId).Some?)
  {
    var r := FilteredStocks(stocks, books, query);
    if s in r {
      var i :| 0 <= i < |r| && r[i] == s;
    }
    if query == "" && FindBook(books, s.bookId).Some? {
      var b := FindBook(books, s.bookId).value;
      EmptyQueryMatches([b.title, b.author]);
      var k :| 0 <= k < |stocks| && stocks[k] == s;
      assert StockMatches(books, "", stocks[k]);
    }
  }

  /** `stocks.map(stock => stock.id === id ? { ...stock, quantity } : stock)`. */
  function SetQuantity(stocks: seq<Stock>, id: int, quantity: int): (r: seq<Stock>)
    ensures |r| == |stocks|
    ensures forall i :: 0 <= i < |stocks| ==>
              r[i] == if stocks[i].id == id then Stock(stocks[i].id, stocks[i].bookId, quantity) else stocks[i]
  {
    Patch(stocks, (s: Stock) => s.id == id, (s: Stock) => Stock(s.id, s.bookId, quantity))
  }

  /** Setting a quantity keeps every row's id and book, touches only rows with
      that id, and a second identical update changes nothing. */
  lemma SetQuantityOnlyTouchesId(stocks: seq<Stock>, id: int, quantity: int)
    ensures var r := SetQuantity(stocks, id, quantity);
            && (forall i :: 0 <= i < |r| ==> r[i].id == stocks[i].id && r[i].bookId == stocks[i].bookId)
            && (forall i :: 0 <= i < |r| && r[i].id == id ==> r[i].quantity == quantity)
            && (forall i :: 0 <= i < |r| && r[i].id != id ==> r[i] == stocks[i])
            && SetQuantity(r, id, quantity) == r
  {
    var r := SetQuantity(stocks, id, quantity);
    var r2 := SetQuantity(r, id, quantity);
    assert forall i :: 0 <= i < |r| ==> r2[i] == r[i];
  }

  /** The quantity badge is green for a positive quantity and red otherwise. */
  predicate BadgeGreen(quantity: int) {
    quantity > 0
  }

  /** After a save, the row's badge turns green exactly when the saved quantity
      is positive; every other row keeps its badge. */
  lemma BadgeAfterSave(stocks: seq<Stock>, id: int, quantity: int, i: int)
    requires 0 <= i < |stocks|
    ensures var r := SetQuantity(stocks, id, quantity);
            && (stocks[i].id == id ==> (BadgeGreen(r[i].quantity) <==> quantity > 0))
            && (stocks[i].id != id ==> (BadgeGreen(r[i].quantity) <==> BadgeGreen(stocks[i].quantity)))
  {
  }

  /** In the dialog, plus always leads to a green badge, and an enabled minus
      leads to a red one exactly from a quantity of 1. */
  lemma BadgeFollowsStepper(q: int)
    ensures BadgeGreen(StepUp(q)) <==> q >= 0
    ensures !MinusDisabled(q) ==> (BadgeGreen(StepDown(q)) <==> q > 1)
  {
  }

  /** On books of the declared shape, which carry no `has_physical`, the
      filter as written keeps no book, so no stock row is ever listed. */
  lemma AsWrittenListsNoStock(stocks: seq<Stock>, books: seq<Book>, query: string)
    requires forall i :: 0 <= i < |books| ==> books[i].snakeHasPhysical.None?
    ensures PhysicalBooksAsWritten(books) == []
    ensures FilteredStocks(stocks, PhysicalBooksAsWritten(books), query) == []
  {
    FilterKeepsNone(books, HasPhysicalAsWritten);
    FilterKeepsNone(stocks, (s: Stock) => StockMatches([], query, s));
  }

  /** Book 3 has a physical copy by its declared flag and one stock row: the
      page as written lists nothing, while the corrected filter lists the row. */
  lemma AsWrittenDropsPhysicalBook()
    ensures var b := Book(3, "Title", "Author", None, None, 1, None, None, None);
            var s := Stock(1, 3, 5);
            && FilteredStocks([s], PhysicalBooksAsWritten([b]), "") == []
            && FilteredStocks([s], PhysicalBooks([b]), "") == [s]
  {
    var b := Book(3, "Title", "Author", None, None, 1, None, None, None);
    var s := Stock(1, 3, 5);
    AsWrittenListsNoStock([s], [b], "");
    var r := FilteredStocks([s], PhysicalBooks([b]), "");
    assert PhysicalBooks([b]) == [b];
    FilteredStocksJoin([s], [b], "", s);
    assert s in r;
  }

  /** The stock-update call: the path names a book, and the body the quantity. */
  datatype StockUpdateCall = StockUpdateCall(bookId: int, quantity: int)

  /** The call as the page writes it: the stock's own id is passed where
      `updatePhysicalStock` expects the book id. */
  function UpdateCallAsWritten(stock: Stock, quantity: int): StockUpdateCall {
    StockUpdateCall(stock.id, quantity)
  }

  /** A stock whose id is not its book's id sends the update to another book. */
  lemma AsWrittenTargetsAnotherBook()
    ensures var s := Stock(7, 3, 5);
            UpdateCallAsWritten(s, 4).bookId != s.bookId
  {
  }

  /** The call as intended: the stock's book, with the dialog's quantity. */
  function UpdateCall(stock: Stock, quantity: int): (c: StockUpdateCall)
    ensures c.bookId == stock.bookId && c.quantity == quantity
  {
    StockUpdateCall(stock.bookId, quantity)
  }

  /** The intended call and the local patch agree: the book the server is told
      about is the book of exactly the row that is patched. */
  lemma UpdateCallMatchesPatchedRow(stocks: seq<Stock>, k: int, quantity: int)
    requires 0 <= k < |stocks|
    requires forall i, j :: 0 <= i < j < |stocks| ==> stocks[i].id != stocks[j].id
    ensures var r := SetQuantity(stocks, stocks[k].id, quantity);
            forall i :: 0 <= i < |r| && r[i] != stocks[i] ==>
              r[i].bookId == UpdateCall(stocks[k], quantity).bookId && i == k
  {
  }

  class Page {
    var stocks: seq<Stock>
    var books: seq<Book>
    var loading: bool
    var isDialogOpen: bool
    var searchQuery: string
    var selectedStock: Option<Stock>
    var quantity: int

    constructor ()
      ensures stocks == [] && books == [] && loading && !isDialogOpen && searchQuery == ""
      ensures selectedStock.None? && quantity == 0
    {
      stocks := [];
      books := [];
      loading := true;
      isDialogOpen := false;
      searchQuery := "";
      selectedStock := None;
      quantity := 0;
    }

    /** The rows of the table. */
    function Shown(): seq<Stock>
      reads this
    {
      FilteredStocks(stocks, books, searchQuery)
    }

    /** The fetch effect. Both lists are requested together, so a failure of
      either keeps both; otherwise each successful reply is taken, the books
      narrowed to those with a physical copy by the corrected `PhysicalBooks`. */
    method Fetch(stocksReply: ListReply<Stock>, booksReply: ListReply<Book>)
      modifies this
      ensures stocksReply.ListAnswered? && booksReply.ListAnswered? && stocksReply.success ==>
                stocks == stocksReply.data
      ensures !(stocksReply.ListAnswered? && booksReply.ListAnswered? && stocksReply.success) ==>
                stocks == old(stocks)
      ensures stocksReply.ListAnswered? && booksReply.ListAnswered? && booksReply.success ==>
                books == PhysicalBooks(booksReply.data)
      ensures !(stocksReply.ListAnswered? && booksReply.ListAnswered? && booksReply.success) ==>
                books == old(books)
      ensures !loading
      ensures isDialogOpen == old(isDialogOpen) && searchQuery == old(searchQuery)
      ensures selectedStock == old(selectedStock) && quantity == old(quantity)
    {
      loading := true;
      if stocksReply.ListAnswered? && booksReply.ListAnswered? {
        if stocksReply.success {
          stocks := stocksReply.data;
        }
        if booksReply.success {
          books := PhysicalBooks(booksReply.data);
        }
      }
      loading := false;
    }

    /** `openUpdateDialog`: the stock is selected and its quantity preloaded. */
    method OpenUpdateDialog(stock: Stock)
      modifies this
      ensures selectedStock == Some(stock) && quantity == stock.quantity && isDialogOpen
      ensures stocks == old(stocks) && books == old(books) && loading == old(loading)
      ensures searchQuery == old(searchQuery)
    {
      selectedStock := Some(stock);
      quantity := stock.quantity;
      isDialogOpen := true;
    }

    /** The minus button; a disabled button is not clicked. */
    method ClickMinus()
      modifies this
      ensures MinusDisabled(old(quantity)) ==> quantity == old(quantity)
      ensures !MinusDisabled(old(quantity)) ==> quantity == old(quantity) - 1 && quantity >= 0
      ensures stocks == old(stocks) && selectedStock == old(selectedStock) && isDialogOpen == old(isDialogOpen)
    {
      if !MinusDisabled(quantity) {
        quantity := StepDown(quantity);
      }
    }

    /** The plus button. */
    method ClickPlus()
      modifies this
      ensures quantity == old(quantity) + 1
      ensures stocks == old(stocks) && selectedStock == old(selectedStock) && isDialogOpen == old(isDialogOpen)
    {
      quantity := StepUp(quantity);
    }

    /** Typing into the field. */
    method Type(input: string)
      modifies this
      ensures quantity == ParseQuantity(input)
      ensures stocks == old(stocks) && selectedStock == old(selectedStock) && isDialogOpen == old(isDialogOpen)
    {
      quantity := ParseQuantity(input);
    }

    /** `handleSubmit`: nothing without a selection; otherwise the update is
      sent, and on success the selected row takes the quantity and the dialog
      closes. */
    method HandleSubmit(reply: Reply) returns (call: Option<StockUpdateCall>)
      modifies this
      ensures call.Some? <==> old(selectedStock).Some?
      ensures call.Some? ==> call.value == UpdateCall(old(selectedStock).value, old(quantity))
      ensures call.Some? && reply == Answered(true) ==>
                stocks == SetQuantity(old(stocks), old(selectedStock).value.id, old(quantity)) && !isDialogOpen
      ensures !(call.Some? && reply == Answered(true)) ==>
                stocks == old(stocks) && isDialogOpen == old(isDialogOpen)
      ensures books == old(books) && loading == old(loading) && searchQuery == old(searchQuery)
      ensures selectedStock == old(selectedStock) && quantity == old(quantity)
    {
      if selectedStock.None? {
        return None;
      }
      call := Some(UpdateCall(selectedStock.value, quantity));
      if reply == Answered(true) {
        stocks := SetQuantity(stocks, selectedStock.value.id, quantity);
        isDialogOpen := false;
      }
    }
  }
}
