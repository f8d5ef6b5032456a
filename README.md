# Library admin dashboard: verified model of its UI rules

This project models the rules of the library administration front end
(a React/TypeScript single-page app over a REST API). The rules modelled are:

- the page-number window under the book list;
- the create- and edit-book forms, with their validation, payloads and checkboxes;
- the infinite-scroll category picker;
- the administrator session;
- the loan and due-date-extension tables, with their tabs, badges, actions and page strips;
- the list controllers of the loans, requests, extensions, categories, users,
  books and physical-stock pages.

How the model is built:

- Every API call is an oracle. The reply is a parameter of the handler that
  awaits it (`Api.Reply`, `Api.ListReply`, `Api.PageReply`). A thrown error is
  one case of the reply; so is an undefined body that makes the handler throw.
- Dates are integer day numbers. "Today" and "now" are parameters.
- `JSON.parse` and `JSON.stringify` are function parameters.
- Browser storage is a map from key to string.
- Components that only compute become datatypes, functions and lemmas.
- Components whose handlers overwrite state become classes. Each such class
  has one field per piece of React state and a `modifies this` method per
  handler. Each method's `ensures` clause ties the new state to the pure
  functions that the lemmas are about.
- Each handler is one sequential step.

Shared modules:

- `Types`: the records of `src/types/index.ts`.
- `Api`: the reply shapes.
- `Text`: the JavaScript string built-ins the pages use: `trim` and the
  ECMAScript white-space set, `toLowerCase` on ASCII, `includes`, `parseInt`,
  and `||` on optional strings.
- `Lists`: `Array.prototype.filter`, and the `map` that patches one record by id.

## Model

| member | source | states |
|---|---|---|
| PaginationControls.GetPageNumbers | src/components/Book/PaginationControls.tsx:25-49 | the button row built by pushing first page, ellipsis, the window and last page equals `PageNumbers` (head + window + tail) |
| PaginationControls.Window | src/components/Book/PaginationControls.tsx:38-40 | the window from `lo` to `hi` has `hi - lo + 1` entries and entry `i` is page `lo + i` |
| PaginationControls.PageNumbersIncreasing | src/components/Book/PaginationControls.tsx:28-46 | for `1 <= currentPage <= lastPage` the page numbers strictly increase and all lie in `[1, lastPage]` |
| PaginationControls.IncreasingAppend | src/components/Book/PaginationControls.tsx:31-46 | joining two increasing runs over adjacent ranges gives an increasing run over the whole range |
| PaginationControls.PageNumbersHasCurrent | src/components/Book/PaginationControls.tsx:38-40 | the current page is one of the buttons |
| PaginationControls.PageNumbersEnds | src/components/Book/PaginationControls.tsx:32-46 | the first button is page 1 and the last is the last page |
| PaginationControls.PageNumbersSize | src/components/Book/PaginationControls.tsx:28-29 | the window holds at most 5 pages and the row at most 9 buttons |
| PaginationControls.PageNumbersAt | src/components/Book/PaginationControls.tsx:31-46 | position `i` of the row is a head button, page `start + k` at window position `k`, or a tail button |
| PaginationControls.PageNumbersGaps | src/components/Book/PaginationControls.tsx:34-44 | an ellipsis stands only where at least one page is skipped; elsewhere neighbouring numbers differ by one |
| PaginationControls.Click | src/components/Book/PaginationControls.tsx:70-71 | a number sets the page to itself, an ellipsis leaves the page unchanged |
| PaginationControls.ClickStaysInRange | src/components/Book/PaginationControls.tsx:65-75 | clicking any button of the row keeps the page in `[1, lastPage]` |
| PaginationControls.StepStaysInRange | src/components/Book/PaginationControls.tsx:57-83 | Previous is disabled exactly at page 1 and Next at the last page; an enabled one keeps the page in range |
| PaginationControls.Label | src/components/Book/PaginationControls.tsx:54 | the label spans `itemCount` positions from `from`, and the noun is "item" exactly when the total is 1 |
| CreateBookDialog.Apply | src/components/Book/CreateBookDialog.tsx:149-150 | a field change sets that field to the new value and leaves every other field as it was |
| CreateBookDialog.MatchesUrlPattern | src/components/Book/CreateBookDialog.tsx:86 | the pattern `^https?://[^\s$.?#].[^\s]*$` holds exactly when the scheme is followed by text that matches the rest of the pattern over its UTF-16 code units, as JavaScript matches a pattern without the `u` flag |
| CreateBookDialog.UrlRestOnCodeUnits | src/components/Book/CreateBookDialog.tsx:86 | the character-level rule for the text after the scheme agrees with the pattern read literally over code units, where a character outside the Basic Multilingual Plane is two units |
| CreateBookDialog.AstralHostMatches | src/components/Book/CreateBookDialog.tsx:86 | `"http://😀"` matches: the emoji's two code units fill `[^\s$.?#]` and `.` |
| CreateBookDialog.AstralThenSpaceFails | src/components/Book/CreateBookDialog.tsx:86 | `"http://😀 x"` does not match: the space falls into `[^\s]*` |
| CreateBookDialog.UrlNotBlank | src/components/Book/CreateBookDialog.tsx:86 | a string on the `^https?://[^\s$.?#].[^\s]*$` pattern is never blank |
| CreateBookDialog.MessageText | src/components/Book/CreateBookDialog.tsx:72-91 | every recorded message is a non-empty string, so it counts as an error key |
| CreateBookDialog.ErrorFor | src/components/Book/CreateBookDialog.tsx:69-92 | every message is recorded under its own field, the physical flag never errs, and the PDF URL never errs without the PDF option |
| CreateBookDialog.IsFormValid | src/components/Book/CreateBookDialog.tsx:98-107 | a valid form with the PDF option has a URL on the pattern, and a valid form never sends a negative quantity |
| CreateBookDialog.CollectErrors | src/components/Book/CreateBookDialog.tsx:69-92 | the record filled check by check holds a field exactly when `ErrorFor` gives it a message, with that message |
| CreateBookDialog.FormValidIffNoError | src/components/Book/CreateBookDialog.tsx:69-107 | `isFormValid` holds exactly when `validateForm` would record no error |
| CreateBookDialog.BlankTextIsError | src/components/Book/CreateBookDialog.tsx:72-80 | title, author or description is in error exactly when it trims to "" |
| CreateBookDialog.EbookErrorCases | src/components/Book/CreateBookDialog.tsx:84-88 | with the PDF option a blank URL gives only "required", a non-blank URL off the pattern gives "valid URL", and without the option the field never errs |
| CreateBookDialog.PayloadOf | src/components/Book/CreateBookDialog.tsx:116-124 | the payload copies every field and carries a quantity exactly when `hasPhysical` is 1 |
| CreateBookDialog.Dialog.constructor | src/components/Book/CreateBookDialog.tsx:38-49 | a new dialog starts with the empty form, no PDF option and no errors |
| CreateBookDialog.Dialog.Close | src/components/Book/CreateBookDialog.tsx:52-66 | closing resets the form, the PDF option and the errors |
| CreateBookDialog.Dialog.ValidateForm | src/components/Book/CreateBookDialog.tsx:69-95 | the stored errors are exactly the form's errors, and the result is true iff there are none iff `isFormValid` |
| CreateBookDialog.Dialog.HandleFieldChange | src/components/Book/CreateBookDialog.tsx:149-157 | sets one field and removes only that field's error |
| CreateBookDialog.Dialog.ToggleEbook | src/components/Book/CreateBookDialog.tsx:217-220 | unchecking clears the URL, checking keeps it, and the URL's error goes |
| CreateBookDialog.Dialog.TogglePhysical | src/components/Book/CreateBookDialog.tsx:244-257 | unchecking sets the flag to 0 and the quantity to 0 and drops the quantity error; checking sets the flag to 1 |
| CreateBookDialog.Dialog.HandleSubmit | src/components/Book/CreateBookDialog.tsx:109-146 | an invalid form sends nothing; a valid one sends `PayloadOf(form)`, and a reply with data closes and resets the dialog |
| InfiniteScrollSelect.CategoryPager.constructor | src/components/Book/InfiniteScrollSelect.tsx:14-17 | the pager starts empty, at page 1, with more to load and nothing in flight |
| InfiniteScrollSelect.CategoryPager.LoadCategories | src/components/Book/InfiniteScrollSelect.tsx:20-33 | no-op while loading or when nothing remains (the sentinel is hidden then, and stays hidden); a reply appends its page in order, sets `hasMore` to `page < last_page` and advances by one page, so pages 1, 2, 3… load in order; a failure changes nothing; never loading afterwards |
| InfiniteScrollSelect.CategoryPager.OnInView | src/components/Book/InfiniteScrollSelect.tsx:39-60 | the sentinel, rendered only while more pages remain, triggers a load of the next page exactly when it is in view and no load is in flight; once it is gone nothing is requested and it never comes back |
| AuthContext.Restore | src/contexts/AuthContext.tsx:22-39 | with both keys stored the parsed user is signed in, and a user that does not parse removes both keys; otherwise nothing changes |
| AuthContext.Login | src/contexts/AuthContext.tsx:41-75 | a reply with both token and user stores exactly those two keys and signs the user in; any other reply writes nothing |
| AuthContext.Logout | src/contexts/AuthContext.tsx:77-99 | a successful call removes both keys and signs out; a failed call changes nothing |
| AuthContext.LoginThenRestore | src/contexts/AuthContext.tsx:27-55 | after a sign-in, a reload restores the same user when parsing reads back what serialising wrote |
| AuthContext.LogoutThenRestore | src/contexts/AuthContext.tsx:27-35 | after a sign-out, a reload restores nobody |
| AuthContext.LoginOpensGateOnlyForAdmin | src/contexts/AuthContext.tsx:105 | after a sign-in the session is authenticated exactly when the user is an administrator |
| AuthContext.AuthProvider.constructor | src/contexts/AuthContext.tsx:18-19 | nobody signed in and still loading at mount |
| AuthContext.AuthProvider.RestoreSession | src/contexts/AuthContext.tsx:22-39 | the start-up effect is `Restore`, and loading is over afterwards |
| AuthContext.AuthProvider.SignIn | src/contexts/AuthContext.tsx:41-75 | returns true exactly for an accepted reply, the new session is `Login`, and loading is over |
| AuthContext.AuthProvider.SignOut | src/contexts/AuthContext.tsx:77-99 | the new session is `Logout`, and loading is over |
| BookLoanTableContent.LayoutFor | src/components/BookLoan/BookLoanTableContent.tsx:66 | a "pending" or "overdue" status filter picks its layout, an "overdue" due-date filter picks the overdue layout when no status is set, and only a set filter picks a tab layout |
| BookLoanTableContent.LayoutPrecedence | src/components/BookLoan/BookLoanTableContent.tsx:66 | `statusFilter \|\| dueDateFilter`: any set status filter decides the layout whatever the due-date filter says, and without one the due-date filter decides alone |
| BookLoanTableContent.ActionsFor | src/components/BookLoan/BookLoanTableContent.tsx:78-237 | the table never offers an extension, and in the general layout a loan gets no button exactly when it is overdue, returned or rejected |
| BookLoanTableContent.Transition | src/components/BookLoan/BookLoanTableContent.tsx:78-237 | every workflow step changes the status, returned and rejected are final, and a loan becomes approved only by distributing a pre-approved one |
| BookLoanTableContent.AllLayoutOffersEnabledActions | src/components/BookLoan/BookLoanTableContent.tsx:214-237 | in the general layout a row offers exactly the workflow steps its status allows, and nothing for overdue |
| BookLoanTableContent.TabLayoutOffersEnabledActions | src/components/BookLoan/BookLoanTableContent.tsx:78-189 | in each tab layout, a row of the tab's status offers exactly the steps that status allows |
| BookLoanTableContent.Duration | src/components/BookLoan/BookLoanTableContent.tsx:170-172 | the duration is shown only in the returned layout with both dates, and it is their difference |
| BookLoanTableContent.Rows | src/components/BookLoan/BookLoanTableContent.tsx:52 | one row per loan, in input order |
| BookLoanTableContent.Render | src/components/BookLoan/BookLoanTableContent.tsx:30-52 | loading takes precedence over empty, which takes precedence over rows |
| BookLoanTableContent.RenderedRowsFollowLoans | src/components/BookLoan/BookLoanTableContent.tsx:52-66 | row `i` shows loan `i` with the actions of the selected layout |
| BookLoanTable.SelectTab | src/components/BookLoan/BookLoanTable.tsx:71-86 | "all" clears both filters, "overdue"/"today" set only the due-date filter, any other tab sets only the status filter |
| BookLoanTable.SelectTabExclusive | src/components/BookLoan/BookLoanTable.tsx:71-86 | after any tab change at most one filter is set |
| BookLoanTable.SelectTabRoundTrip | src/components/BookLoan/BookLoanTable.tsx:70-86 | selecting a non-empty tab makes `statusFilter \|\| dueDateFilter \|\| 'all'` that tab |
| BookLoanTable.TabState.OnTabChange | src/components/BookLoan/BookLoanTable.tsx:71-88 | writes the filters `SelectTab` gives and resets the page to 1 |
| BookLoanTable.StatusColor | src/components/BookLoan/BookLoanTable.tsx:56-59 | the colour is gray exactly for a status missing from the colour table |
| BookLoanTable.WorkflowStatusColors | src/components/BookLoan/BookLoanTable.tsx:36-59 | each workflow status but overdue has its own colour; overdue falls back to gray |
| BookLoanTable.Links | src/components/BookLoan/BookLoanTable.tsx:270-274 | pages 1 to n in order, each active exactly when it is the current page |
| BookLoanTable.PageStripLists | src/components/BookLoan/BookLoanTable.tsx:261-290 | the strip appears iff there are at least two pages, lists 1..last in order, and marks exactly the current page active |
| BookLoanTable.PageStripArrows | src/components/BookLoan/BookLoanTable.tsx:263-287 | Previous is inert exactly at page 1 and Next exactly at the last page; active arrows lead into range |
| BookLoans.FilteredLoansMembers | src/pages/BookLoans.tsx:201-208 | the search keeps exactly the loans whose title, user name or email (missing = "") contains the query, ignoring case |
| BookLoans.EmptySearchKeepsAll | src/pages/BookLoans.tsx:201-208 | an empty query keeps every loan, in order |
| BookLoans.FilteredLoansAppend | src/pages/BookLoans.tsx:201-208 | the search preserves order (it distributes over concatenation) |
| BookLoans.ViewLoans | src/pages/BookLoans.tsx:423-428 | a status view keeps exactly the searched loans with that status; no view keeps all |
| BookLoans.PageActions | src/pages/BookLoans.tsx:430-560 | approve comes with reject and return with extend, never with each other, and the page never offers distribute |
| BookLoans.ListedActionsFitStatus | src/pages/BookLoans.tsx:430-560 | in every view a listed loan gets approve/reject only when pending and return/extend only when approved or overdue |
| BookLoans.ActionsFitStatus | src/pages/BookLoans.tsx:430-560 | for a status the view lets through, approve/reject only for pending and return/extend only for approved or overdue |
| BookLoans.EmptyTabWithoutMessage | src/pages/BookLoans.tsx:412-428 | as written, a status tab with no loan of that status shows an empty list and no "No book loans found" |
| BookLoans.RenderTabAsWritten | src/pages/BookLoans.tsx:400-428 | as written, loading shows the spinner; the empty message shows only when the corrected tab would show it too, and a non-empty listed body is the corrected one |
| BookLoans.RenderTab | src/pages/BookLoans.tsx:400-428 | the tab shows the empty message exactly when the list it would show is empty |
| BookLoans.RenderTabAgrees | src/pages/BookLoans.tsx:400-428 | the corrected and the written tab agree on the general tab and on every tab that lists a loan |
| BookLoans.UpdateById | src/pages/BookLoans.tsx:91-93 | the loan with the id takes the update, every other loan and the length stay the same |
| BookLoans.UpdateByIdKeepsIdentity | src/pages/BookLoans.tsx:116-118 | a patch keeps every id, book and user, and applying it twice equals applying it once |
| BookLoans.ExtendDefault | src/pages/BookLoans.tsx:160-168 | the default extension date is the loan's due date + 14, or today + 14 without one |
| BookLoans.Page.FetchLoans | src/pages/BookLoans.tsx:58-74 | passes `statusFilter \|\| undefined` into the page slot of `getBookLoans`, so no status is sent; takes the list only from a successful reply |
| BookLoans.Page.HandleApprove | src/pages/BookLoans.tsx:82-108 | sends only the loan id (`approveBookLoan` ignores the date); on success only that loan becomes approved, with due date today + 14 |
| BookLoans.Page.HandleReject | src/pages/BookLoans.tsx:110-133 | on success only that loan becomes rejected |
| BookLoans.Page.HandleReturn | src/pages/BookLoans.tsx:135-158 | on success only that loan becomes returned, now |
| BookLoans.Page.OpenExtendDialog | src/pages/BookLoans.tsx:160-170 | selects the loan, proposes `ExtendDefault`, opens the dialog |
| BookLoans.Page.HandleExtend | src/pages/BookLoans.tsx:172-199 | a no-op without selection; on success only the selected loan takes the date and the dialog closes |
| BookLoans.Page.OnTabChange | src/pages/BookLoans.tsx:239 | "all" clears the status filter, any other tab sets it |
| BookRequests.WithoutId | src/pages/BookRequests.tsx:77 | the result holds no request with the id and every other request of the list |
| BookRequests.WithoutIdPreserves | src/pages/BookRequests.tsx:102 | removing an absent id changes nothing, and removal distributes over concatenation, so the order of the rest is kept |
| BookRequests.WithoutIdShrinks | src/pages/BookRequests.tsx:77 | removing a listed request makes the list shorter |
| BookRequests.Page.FetchPending | src/pages/BookRequests.tsx:38-60 | passes "pending" into the page slot of `getBookLoans`, so no status is sent; takes the list only from a successful reply; loading ends |
| BookRequests.Page.OpenApproveDialog | src/pages/BookRequests.tsx:62-67 | selects the request, proposes today + 14, opens the dialog |
| BookRequests.Page.HandleApprove | src/pages/BookRequests.tsx:69-94 | a no-op without selection; otherwise only the selected id reaches the server (`approveBookLoan` ignores the date), and on success exactly that id leaves the list and the dialog closes |
| BookRequests.Page.HandleReject | src/pages/BookRequests.tsx:96-117 | on success exactly that id leaves the list |
| BookRequests.Render | src/pages/BookRequests.tsx:147-160 | spinner, then "No pending requests", then one card per searched request |
| DueDateExtensionsTable.StatusFor | src/components/DueDateExtensions/DueDateExtensionsTable.tsx:76-78 | "all" clears the status filter, any other tab sets it to the tab |
| DueDateExtensionsTable.TabRoundTrip | src/components/DueDateExtensions/DueDateExtensionsTable.tsx:75-79 | selecting a non-empty tab makes `statusFilter \|\| "all"` that tab |
| DueDateExtensionsTable.TabState.OnTabChange | src/components/DueDateExtensions/DueDateExtensionsTable.tsx:76-79 | writes `StatusFor(tab)` and resets the page to 1 |
| DueDateExtensionsTable.ViewFor | src/components/DueDateExtensions/DueDateExtensionsTable.tsx:75-88 | the general panel shows for no filter or "all"; a filter outside the four tabs shows no panel |
| DueDateExtensionsTable.ActionsOnlyWhilePending | src/components/DueDateExtensions/DueDateExtensionsTable.tsx:150-172 | in the general panel the buttons appear exactly for pending requests; approved/rejected panels have none |
| DueDateExtensionsTable.RowActions | src/components/DueDateExtensions/DueDateExtensionsTable.tsx:150-172 | a row offers both buttons or none, and outside the pending panel only a pending request has them |
| DueDateExtensionsTable.DaysOverdue | src/components/DueDateExtensions/DueDateExtensionsTable.tsx:234-242 | only the pending panel shows days overdue, today minus the loan's due date, when the loan has one |
| DueDateExtensionsTable.Rows | src/components/DueDateExtensions/DueDateExtensionsTable.tsx:119-174 | one row per request, in order, with the panel's actions |
| DueDateExtensionsTable.EmptyMessage | src/components/DueDateExtensions/DueDateExtensionsTable.tsx:110-116 | every panel has a non-empty empty-view text |
| DueDateExtensionsTable.Render | src/components/DueDateExtensions/DueDateExtensionsTable.tsx:104-118 | loading takes precedence over empty, which takes precedence over rows |
| DueDateExtensionsTable.AllPanelRows | src/components/DueDateExtensions/DueDateExtensionsTable.tsx:119-172 | a rendered general-panel row has buttons exactly when its request is pending |
| DueDateExtensionsTable.StatusColor | src/components/DueDateExtensions/DueDateExtensionsTable.tsx:58-62 | gray exactly for a status other than pending, approved, rejected |
| DueDateExtensionsTable.RequestStatusColors | src/components/DueDateExtensions/DueDateExtensionsTable.tsx:41-45 | the three request statuses get three distinct non-gray colours |
| DueDateExtensionsTable.StripFollowsMeta | src/components/DueDateExtensions/DueDateExtensionsTable.tsx:413-446 | the strip is shown iff `last_page > 1`, lists 1..last, marks the current page, and its arrows are inert at the ends |
| DateExtension.QueryFor | src/pages/DateExtension.tsx:31-36 | asks for the current page, 10 per page, the status, and the search with "" sent as no search |
| DateExtension.Project | src/pages/DateExtension.tsx:40-45 | the kept block is the reply's current page, last page, per page and total |
| DateExtension.Controller.constructor | src/pages/DateExtension.tsx:13-23 | no requests, loading, page 1 of 1, 10 per page |
| DateExtension.Controller.Fetch | src/pages/DateExtension.tsx:28-57 | sends `QueryFor`; a reply replaces the requests and the block, a failure keeps both; loading ends false |
| DateExtension.Controller.SetDeps | src/pages/DateExtension.tsx:59-61 | a fetch runs exactly when the page, the debounced search or the status changed |
| DateExtension.Controller.Act | src/pages/DateExtension.tsx:63-101 | sends "approved" or "rejected" for the id and refetches only after a reply with a message |
| DateExtension.TabChangeFetchesFirstPage | src/pages/DateExtension.tsx:59-61 | the table's tab handler followed by the page's effect: both share status `StatusFor(tab)` and page 1, a fetch runs exactly unless both were already current, it asks for page 1 of that status with the search unchanged, and a change to a different status always fetches |
| Categories.WithoutId | src/pages/Categories.tsx:146 | no category with the id remains and every other one does |
| Categories.Fetched | src/pages/Categories.tsx:67-87 | a reply replaces the cards and the block, a failure keeps both |
| Categories.AfterDelete | src/pages/Categories.tsx:142-153 | the card is removed, then an empty page past the first steps back one page, any other reply replaces cards and block, and a failed refetch keeps the filtered list |
| Categories.AfterSave | src/pages/Categories.tsx:116-121 | a save goes to page 1 and takes page 1's cards, keeping the block |
| Categories.DeleteKeepsPageInRange | src/pages/Categories.tsx:146-153 | a delete never takes the page below 1 nor back more than one, and leaves the id off the list unless the server lists it |
| Categories.DeleteStepsBackOnlyFromEmptyPage | src/pages/Categories.tsx:148-149 | the page changes exactly when the refetched page is empty and not the first |
| Categories.SaveOnFirstPageKeepsMeta | src/pages/Categories.tsx:116-121 | a save on page 1 shows fresh cards under the previous pagination block |
| Categories.NavigationStaysInRange | src/pages/Categories.tsx:270-285 | Previous disabled at 1, Next at the last page, and an enabled one stays in range |
| Categories.Range | src/pages/Categories.tsx:262-268 | the range text appears only with cards and spans exactly their count from `from` |
| Categories.BookNoun | src/pages/Categories.tsx:219 | "book" exactly when the count is 1, "books" otherwise |
| Categories.Render | src/pages/Categories.tsx:187-201 | loading, then "No categories found", then the cards |
| Categories.Page.Fetch | src/pages/Categories.tsx:67-87 | the new listing is `Fetched`, loading ends |
| Categories.Page.ResetForm | src/pages/Categories.tsx:89-95 | empty name, create mode, nothing selected |
| Categories.Page.OpenEditDialog | src/pages/Categories.tsx:97-104 | edit mode on the category with its name, dialog open |
| Categories.Page.HandleSubmit | src/pages/Categories.tsx:106-140 | update in edit mode with a selection, create otherwise; an accepted save is `AfterSave`, and a successful refetch closes and resets the dialog |
| Categories.Page.HandleDelete | src/pages/Categories.tsx:142-167 | an accepted delete is `AfterDelete`; otherwise nothing changes |
| Users.EditForm | src/pages/Users.tsx:98-103 | the edit form copies name, email and role and blanks the password |
| Users.UpdatePayload | src/pages/Users.tsx:113-118 | the update carries the password exactly when one was typed |
| Users.CreatePayload | src/pages/Users.tsx:121 | the create sends the whole form, password included |
| Users.UntouchedEditKeepsPassword | src/pages/Users.tsx:98-118 | editing and saving without typing a password sends the user's own fields and no password |
| Users.PayloadsAgreeWhenPasswordTyped | src/pages/Users.tsx:111-121 | update and create payloads coincide exactly when a password was typed |
| Users.WithoutId | src/pages/Users.tsx:153 | no user with the id remains and every other user does |
| Users.WithoutIdKeepsOrder | src/pages/Users.tsx:153 | removing an absent id changes nothing and removal keeps the order of the rest |
| Users.FilteredUsers | src/pages/Users.tsx:169-172 | keeps exactly the users whose name or email contains the query, ignoring case |
| Users.EmptySearchKeepsAll | src/pages/Users.tsx:169-172 | an empty query keeps every user, in order |
| Users.Page.Fetch | src/pages/Users.tsx:60-82 | a successful reply replaces the list; loading ends |
| Users.Page.ResetForm | src/pages/Users.tsx:84-93 | empty name, email and password, role user, create mode, nothing selected |
| Users.Page.OpenEditDialog | src/pages/Users.tsx:95-105 | edit mode on the user with `EditForm(user)`, dialog open |
| Users.Page.HandleSubmit | src/pages/Users.tsx:107-147 | sends `UpdatePayload` for the selected user or `CreatePayload`; after an accepted save the refetched list is taken when successful, and the dialog closes and resets |
| Users.Page.HandleDelete | src/pages/Users.tsx:149-167 | a successful delete removes exactly the users with that id |
| Books.DescriptionText | src/pages/Books.tsx:82 | a missing description searches as "" |
| Books.FilteredBooks | src/pages/Books.tsx:78-85 | keeps exactly the books whose title, author or description contains the query, ignoring case |
| Books.EmptySearchKeepsAll | src/pages/Books.tsx:78-85 | an empty query keeps every book, in order |
| Books.MissingDescriptionSearchesTitleAndAuthor | src/pages/Books.tsx:80-84 | a book without a description is found by title or author only |
| Books.Page.Tabs | src/pages/Books.tsx:95-101 | the tabs receive the filtered list, never the raw one |
| Books.Page.Fetch | src/pages/Books.tsx:28-52 | asks for the current page; a reply replaces books and block, a failure keeps them; loading ends |
| Books.Page.HandleSubmit | src/pages/Books.tsx:54-76 | fetches page 1 and takes its books and block, leaving the current page untouched |
| PhysicalStock.PhysicalBooks | src/pages/PhysicalStock.tsx:55 | the corrected filter, on the declared flag `hasPhysical` (`src/types/index.ts:66`): keeps exactly the books whose flag is non-zero |
| PhysicalStock.PhysicalBooksAsWritten | src/pages/PhysicalStock.tsx:55 | the filter as written, on the undeclared `has_physical`: keeps exactly the books where that property is present and non-zero |
| PhysicalStock.AsWrittenListsNoStock | src/pages/PhysicalStock.tsx:55 | on books of the declared shape the filter as written keeps none, so `filteredStocks` (:112-120) is empty for every stock list and query |
| PhysicalStock.AsWrittenDropsPhysicalBook | src/pages/PhysicalStock.tsx:55 | book 3 with `hasPhysical` 1 and a stock row for it: nothing is listed as written, and the row is listed with the corrected filter |
| PhysicalStock.FindBook | src/pages/PhysicalStock.tsx:108-110 | the first loaded book with that id, or none exactly when no book has it |
| PhysicalStock.FilteredStocks | src/pages/PhysicalStock.tsx:112-120 | keeps exactly the stocks whose book is loaded and whose title or author contains the query |
| PhysicalStock.FilteredStocksJoin | src/pages/PhysicalStock.tsx:112-120 | a stock without a loaded book is never listed; with an empty query exactly the stocks with a loaded book are |
| PhysicalStock.SetQuantity | src/pages/PhysicalStock.tsx:86-88 | the stock with the id takes the quantity, every other stock stays |
| PhysicalStock.SetQuantityOnlyTouchesId | src/pages/PhysicalStock.tsx:86-88 | ids and books are kept, only that id changes, and repeating the update changes nothing |
| PhysicalStock.BadgeAfterSave | src/pages/PhysicalStock.tsx:181 | after a save the row's badge is green exactly when the saved quantity is positive; other rows keep their badge |
| PhysicalStock.BadgeFollowsStepper | src/pages/PhysicalStock.tsx:181 | plus leads to a green badge from any non-negative quantity, and an enabled minus leads to a red one exactly from 1 |
| PhysicalStock.AsWrittenTargetsAnotherBook | src/pages/PhysicalStock.tsx:82 | as written, the stock's id is passed as the book id, so stock 7 of book 3 updates book 7 |
| PhysicalStock.UpdateCall | src/lib/api.ts:197-201 | the update is sent for the stock's book with the dialog's quantity |
| PhysicalStock.UpdateCallMatchesPatchedRow | src/pages/PhysicalStock.tsx:82-88 | the book the server is told about is the book of the only row that is patched |
| PhysicalStock.Page.Fetch | src/pages/PhysicalStock.tsx:41-70 | a failure of either request keeps both lists; otherwise each successful reply is taken, books narrowed by the corrected `PhysicalBooks` named by the Findings row |
| PhysicalStock.Page.OpenUpdateDialog | src/pages/PhysicalStock.tsx:72-76 | selects the stock and preloads its quantity |
| PhysicalStock.Page.ClickMinus | src/pages/PhysicalStock.tsx:218-219 | a disabled minus changes nothing; an enabled one lowers the quantity by one, never below 0 |
| PhysicalStock.Page.ClickPlus | src/pages/PhysicalStock.tsx:234 | plus adds one |
| PhysicalStock.Page.Type | src/pages/PhysicalStock.tsx:228 | typed text becomes `parseInt(text) \|\| 0` |
| PhysicalStock.Page.HandleSubmit | src/pages/PhysicalStock.tsx:78-105 | a no-op without selection; sends the corrected call `UpdateCall` (the stock's book, not the stock id the page passes); on success only the selected stock takes the quantity, matched by stock id, and the dialog closes |
| PhysicalStockUpdateDialog.StepDown | src/components/PhysicalStock/PhysicalStockUpdateDialog.tsx:45 | minus gives `max(0, q - 1)`, never negative |
| PhysicalStockUpdateDialog.StepUp | src/components/PhysicalStock/PhysicalStockUpdateDialog.tsx:61 | plus gives `q + 1` |
| PhysicalStockUpdateDialog.ParseQuantity | src/components/PhysicalStock/PhysicalStockUpdateDialog.tsx:55 | unparsable input gives 0, otherwise the parsed integer |
| PhysicalStockUpdateDialog.StepsUndoEachOther | src/components/PhysicalStock/PhysicalStockUpdateDialog.tsx:45-61 | minus undoes plus on non-negative quantities, plus undoes an enabled minus |
| PhysicalStockUpdateDialog.ButtonsKeepQuantityNonNegative | src/components/PhysicalStock/PhysicalStockUpdateDialog.tsx:45-46 | from a non-negative quantity both buttons keep it non-negative |
| PhysicalStockUpdateDialog.TypedNumberRoundTrip | src/components/PhysicalStock/PhysicalStockUpdateDialog.tsx:55 | typing any integer in decimal yields exactly that integer, negatives included |
| PhysicalStockUpdateDialog.NonNumericGivesZero | src/components/PhysicalStock/PhysicalStockUpdateDialog.tsx:55 | text not starting with a digit yields 0 |
| EditBookDialog.OrEmpty | src/components/Book/EditBookDialog.tsx:58-60 | a missing or empty value becomes "" |
| EditBookDialog.FormFromBook | src/components/Book/EditBookDialog.tsx:54-62 | the form copies the book, missing description/PDF become "", missing quantity becomes 0 |
| EditBookDialog.ToggleEbook | src/components/Book/EditBookDialog.tsx:160-166 | unchecking clears the URL, checking keeps it |
| EditBookDialog.SelectCategory | src/components/Book/EditBookDialog.tsx:135-137 | the category becomes `parseInt` of the choice and nothing else changes |
| EditBookDialog.PayloadOf | src/components/Book/EditBookDialog.tsx:69-77 | the form's fields, the book's physical flag, and the form quantity only for a book flagged 1, else 0 |
| EditBookDialog.PhysicalFromBookOnly | src/components/Book/EditBookDialog.tsx:75-76 | no form edit changes the physical flag, nor (for an unflagged book) the quantity |
| EditBookDialog.UntouchedFormWritesBookBack | src/components/Book/EditBookDialog.tsx:54-77 | saving an untouched form writes the book back as it was |
| EditBookDialog.CheckboxMatchesForm | src/components/Book/EditBookDialog.tsx:54-63 | the PDF box is ticked exactly when the rebuilt form has a URL |
| EditBookDialog.Dialog.constructor | src/components/Book/EditBookDialog.tsx:43-52 | mounting builds the form and the box from the book |
| EditBookDialog.Dialog.SetBook | src/components/Book/EditBookDialog.tsx:54-64 | a new book rebuilds the form and the box |
| EditBookDialog.Dialog.OnEbookChecked | src/components/Book/EditBookDialog.tsx:160-166 | the box and the form follow `ToggleEbook` |
| EditBookDialog.Dialog.HandleSubmit | src/components/Book/EditBookDialog.tsx:66-99 | sends `PayloadOf(form, book)` for the book's id; a reply with data closes the dialog; submitting ends either way |
| Text.TrimEmptyIffBlank | src/components/Book/CreateBookDialog.tsx:72-80 | `s.trim()` is "" exactly when every character is ECMAScript white space or a line terminator |
| Text.NoWhitespaceUnits | src/components/Book/CreateBookDialog.tsx:86 | a string has no white-space code unit exactly when it has no white-space character |
| Text.Lower | src/pages/Users.tsx:169-172 | lower-casing keeps the length and lowers each ASCII capital |
| Text.Or | src/components/BookLoan/BookLoanTable.tsx:70 | `a \|\| b` on optional strings: `a` when truthy, otherwise `b` |
| Text.EmptyQueryMatches | src/pages/BookRequests.tsx:119-126 | the empty query occurs in any field |
| Text.IntOrZero | src/pages/PhysicalStock.tsx:228 | `parseInt(s) \|\| 0` |
| Text.ParseIntDecimalString | src/components/PhysicalStock/PhysicalStockUpdateDialog.tsx:55 | `parseInt` reads back any integer written in decimal |
| Text.ParseIntNoDigit | src/components/PhysicalStock/PhysicalStockUpdateDialog.tsx:55 | `parseInt` of text without a leading digit is NaN |
| Lists.Filter | src/pages/Users.tsx:153 | the result holds exactly the passing elements of the list |
| Lists.FilterAppend | src/pages/BookRequests.tsx:77 | filtering distributes over concatenation, so kept elements keep their order |
| Lists.FilterKeepsAll | src/pages/BookLoans.tsx:201-208 | a filter every element passes returns the list unchanged |
| Lists.Patch | src/pages/BookLoans.tsx:180-182 | same length; an element the test picks is replaced by its update, every other element stays |

## Left out

- Network I/O, the axios client and its `Authorization: Bearer` header are not modelled; every call is a reply parameter.
- `updateUser`, `deleteUser`, `getPhysicalStocks` and `extendDueDate` are called by the pages but are not defined in `src/lib/api.ts`; their replies are parameters like the others.
- `src/pages/BookLoans.tsx:62` and `src/pages/BookRequests.tsx:42` pass a status as the only argument of `getBookLoans`, which reads it as the page; the model records those arguments but not the server's reply to them.
- `src/pages/BookLoans.tsx:87` and `src/pages/BookRequests.tsx:73` pass a due date to `approveBookLoan`, which takes only the loan id; the model sends only the id; `BookLoans` still writes the date into its local copy of the loan (`src/pages/BookLoans.tsx:91-93`), while `BookRequests` only removes the request (`src/pages/BookRequests.tsx:77`).
- BookLoans.Page.HandleApprove: the page writes `approved` directly, while the reference workflow in `BookLoanTableContent.Transition` goes pending → pre-approved; the page is modelled as written.
- The 300 ms search debounce is not modelled; `DateExtension` is given the debounced value.
- Out-of-order completion of concurrent requests, toasts, `console.error` and navigation are not modelled; each handler is one step.
- Date formatting (`date-fns` `format`, `differenceInDays`, `toLocaleDateString`) is not modelled; dates are day numbers and "today"/"now" are parameters.
- `JSON.parse` and `JSON.stringify` are parameters of the session functions.
- `localStorage` is a map from key to string.
- The `window` global handlers of the loans table are modelled as explicit callbacks.
- Text.Lower: only ASCII letters are lower-cased; full Unicode case mapping is not modelled.
- Text.ParseInt: digits are read as an unbounded integer; floating-point rounding of very long numbers is not modelled.
- EditBookDialog.Dialog: the initial `quantity: book.quantity || undefined` of the first render is not modelled; the mount effect replaces it at once with `|| 0`.
- AuthContext.Logout: keys are cleared only when `logoutUser` resolves, as the code does, and not unconditionally.
- Presentation-only components (layout, charts, headers, search boxes, book display cards and tabs) are not modelled.
- BookLoanTable.StatusColor: a status named like an inherited object property (such as "constructor") finds a truthy entry in the JavaScript colour table and is not gray; the model treats every unlisted status as gray.
- DueDateExtensionsTable.StatusColor: likewise, an inherited property name such as "constructor" is not gray in the JavaScript colour table, while the model treats every unlisted status as gray.
- The strips of `UserTable` and `PhysicalStockTable` repeat the loans-table strip, which is modelled once.

## Findings

| source | as written | input that shows it | evidently intended | confidence | as-written member | corrected member |
|---|---|---|---|---|---|---|
| src/pages/BookLoans.tsx:412-428 | the empty message is decided on the searched list before the tab's status filter is applied | one pending loan, viewed on the "returned" tab: the tab shows an empty table with no message | the tab shows "No book loans found" when the list it would show is empty | high; not executed | BookLoans.EmptyTabWithoutMessage | BookLoans.RenderTab |
| src/pages/PhysicalStock.tsx:82 | `updatePhysicalStock(selectedStock.id, quantity)` passes the stock's id where `src/lib/api.ts:197-201` builds `/v1/books/{bookId}/stock` | a stock with id 7 for book 3: the update is sent for book 7 | the stock's `book_id` is sent | medium (unless stock and book ids always coincide); not executed | PhysicalStock.AsWrittenTargetsAnotherBook | PhysicalStock.UpdateCall |
| src/pages/PhysicalStock.tsx:55 | `filter(book => book.has_physical)` reads a property that `Book` (`src/types/index.ts:66`) declares as `hasPhysical`, and that every other reader of the book list reads as `hasPhysical`; the `booksResponse.status` test at :54 is likewise a field `BookResponseData` (`src/types/index.ts:76-86`) does not declare, which the free success flag of the reply already covers | a books reply `{id: 3, title, author, hasPhysical: 1}` and a stock row for book 3: no book is kept, the table is empty and "No physical stock found" is shown | the books whose `hasPhysical` is truthy are kept | medium (unless the books endpoint also sends `has_physical`); not executed | PhysicalStock.AsWrittenListsNoStock | PhysicalStock.PhysicalBooks |
