/** The records the dashboard receives from the library API (src/types/index.ts).
    Dates are integer day numbers; fields the client never inspects are left out. */
module Types {

  datatype Option<+T> = None | Some(value: T)

  /** `role: "user" | "admin"` of a User. */
  datatype Role = UserRole | Admin

  function RoleName(r: Role): string {
    match r
    case UserRole => "user"
    case Admin => "admin"
  }

  datatype User = User(id: int, name: string, email: string, role: Role)

  /** The pagination block returned by every list endpoint. */
  datatype PaginationMeta = PaginationMeta(
    currentPage: int, from: int, lastPage: int, perPage: int, to: int, total: int)

  /** Status of a book loan. The five statuses of the declared union, plus
      `overdue`, which the loans page compares against at run time. */
  datatype LoanStatus = Pending | PreApproved | Approved | Rejected | Returned | Overdue

  /** The string the API uses for each status. */
  function StatusName(s: LoanStatus): string {
    match s
    case Pending => "pending"
    case PreApproved => "pre-approved"
    case Approved => "approved"
    case Rejected => "rejected"
    case Returned => "returned"
    case Overdue => "overdue"
  }

  /** The `Partial<Book>` and `Partial<User>` embedded in a loan: every field may be missing. */
  datatype LoanBook = LoanBook(title: Option<string>, author: Option<string>)
  datatype LoanUser = LoanUser(name: Option<string>, email: Option<string>)

  datatype BookLoan = BookLoan(
    id: int, bookId: int, userId: int, status: LoanStatus, requestedAt: int,
    approvedAt: Option<int>, dueDate: Option<int>, returnedAt: Option<int>,
    book: LoanBook, user: LoanUser)

  /** `status: "pending" | "approved" | "rejected"` of a due-date increase request. */
  datatype RequestStatus = RequestPending | RequestApproved | RequestRejected

  function RequestStatusName(s: RequestStatus): string {
    match s
    case RequestPending => "pending"
    case RequestApproved => "approved"
    case RequestRejected => "rejected"
  }

  datatype DueDateRequest = DueDateRequest(
    id: int, newDueDate: int, reason: string, status: RequestStatus,
    bookLoan: BookLoan, user: User, createdAt: int)

  /** A book as the list endpoints return it. `hasPhysical` is the declared
      0/1 flag; `description`, `ebook`, `quantity` and `categoryId` may be
      missing. `snakeHasPhysical` is a `has_physical` property, which the
      declared type does not have: `None` in a reply of the declared shape. */
  datatype Book = Book(
    id: int, title: string, author: string, description: Option<string>,
    ebook: Option<string>, hasPhysical: int, quantity: Option<int>, categoryId: Option<int>,
    snakeHasPhysical: Option<int>)

  datatype Category = Category(id: int, name: string, bookCount: int)

  datatype Stock = Stock(id: int, bookId: int, quantity: int)
}

/** What an API call can come back with. No I/O happens here: each handler
    receives the reply as a parameter. A reply the caller cannot use (an
    exception, or an undefined body that makes the handler throw) is `Threw`. */
module Api {
  import opened Types

  /** A call whose caller checks one flag of the reply (`status === 'success'`,
      a truthy body, a truthy `data` or `message`); `ok` is that check. */
  datatype Reply = Threw | Answered(ok: bool)

  /** A list call whose caller checks `status === 'success'`. */
  datatype ListReply<T> = ListThrew | ListAnswered(success: bool, data: seq<T>)

  /** A paginated list call whose caller uses `data` and `meta` as they come. */
  datatype PageReply<T> = PageThrew | PageAnswered(data: seq<T>, meta: PaginationMeta)
}
