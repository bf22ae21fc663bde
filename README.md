# Smart library: loans, PDF requests and notifications in Dafny

This project models the service layer of a university library system. The
catalogue holds books with `available` and `total` copy counters. Students
borrow copies for 30 days and return them, paying a whole-day fine when late.
A sweep flips late loans from BORROWED to OVERDUE. Students ask for a PDF of a
book, and an administrator approves or rejects the request once. Notifications
are flagged read or unread and purged when old. Dashboards and listings are
filtered, sorted and paged reads over the same tables.

The database is `Store.Database`, a class whose fields are the tables (books,
loans, PDF requests, notifications, the append-only activity log) together
with the next value of each auto-increment key. `Valid()` holds the schema's
constraints and one invariant the services keep themselves:

- primary keys are unique and below their counters (schema);
- ISBNs are unique (schema);
- every loan and request points at an existing book (schema, book foreign
  keys only);
- a borrower has at most one PENDING request per book. No database
  constraint enforces this: `createRequest` keeps it by refusing a second
  PENDING request (`lib/services/pdfRequestService.ts:15-25`), and the model
  proves that every write keeps it.

Each service call that writes is a method on the database. It changes exactly
the tables named in its `modifies` clause, keeps `Valid()`, and states the
new contents of those tables. Each read is a function over table values. The
current time is an explicit parameter `now`, in milliseconds. A failed call is
an `Err` outcome that names the error the service throws, and it leaves every
table as it was.

Modules, in dependency order:

- `Wrappers`: Option and Result.
- `Seqs`: filtering, counting, sums, stable sorting by a key, `skip`/`take`
  paging, and keyed tables.
- `Text`: JavaScript whitespace and ASCII case mapping.
- `Schema`: the records and their status enums.
- `Store`: the database.
- `Utils`: the helpers in `lib/utils.ts`.
- `Books`: the catalogue service.
- `Borrowing`: the loan lifecycle.
- `PdfRequests`: the PDF request workflow.
- `Notifications`: the notification table.
- `Users`: the student dashboard and student listing.
- `Stock`: the copy counters against outstanding loans.

### Copies available never exceeding copies owned

A book should never have more copies available than it owns (`available <=
total`), and `available` should change only through borrow and return. The
code keeps this only partly:

- Creating a book, lending, returning, the overdue sweep and an edit without
  a quantity keep each book *balanced*: its available copies plus its loans
  still out add up to its total (`Stock.Balanced`). In a balanced table,
  `available <= total` (`Stock.BalancedBoundsStock`).
- `updateBook` with a quantity writes that quantity into both counters,
  whatever copies are out on loan (`lib/services/bookService.ts:94-95`). A
  book with a copy out then stops being balanced
  (`Stock.QuantityEditUnbalances`).
- The later return of that copy increments `available` past `total`. The
  model follows the code: `Stock.EditDuringLoan` builds a database through
  the service methods in which one book ends with 2 copies available out of
  1 owned.

## Model

| member | source | states |
|---|---|---|
| Utils.OverdueLasts | lib/utils.ts:29-41 | `isOverdue` is strict: a loan is not overdue at its own due time, stays overdue as time passes, and is fined only when overdue |
| Utils.CalculateFine | lib/utils.ts:33-41 | 0 unless the due date is before now; otherwise whole days late times the daily rate (default 50) |
| Utils.WholeDays | lib/utils.ts:38 | `Math.floor` of the elapsed time in days: the whole number `d` with `d` days <= elapsed < `d+1` days |
| Utils.FineBounds | lib/utils.ts:33-41 | for a non-negative rate the fine is never negative, is 0 when less than one full day late, and is at least one daily rate from one full day late on |
| Utils.FineMonotone | lib/utils.ts:33-41 | the fine never decreases as time passes |
| Utils.FineExamples | lib/utils.ts:33-41 | 5 days late costs 250, 5 days 23 hours late also costs 250, and under a day late costs nothing |
| Utils.Capitalize | lib/utils.ts:44-46 | same length, first character upper-cased, every other character lower-cased |
| Utils.CapitalizeIdempotent | lib/utils.ts:44-46 | capitalising twice is capitalising once |
| Utils.CapitalizeIgnoresCase | lib/utils.ts:44-46 | upper- or lower-casing the input first does not change the result |
| Utils.TruncateText | lib/utils.ts:48-51 | text within the limit is returned unchanged; longer text becomes its first `maxLength` characters plus "...", of length `maxLength + 3` |
| Utils.TruncateIdempotent | lib/utils.ts:48-51 | truncating a truncated text again changes nothing |
| Utils.JsSlice | lib/utils.ts:50 | `slice` with in-range bounds is the subsequence between them |
| Utils.IndexOfChar | lib/utils.ts:55 | the first position of a character, or none when it does not occur |
| Utils.IsValidEmail | lib/utils.ts:54-57 | true exactly for the strings `/^[^\s@]+@[^\s@]+\.[^\s@]+$/` matches: local part, '@', host, '.', top-level part, each non-empty and free of '@' and whitespace |
| Utils.EmailScanSound | lib/utils.ts:54-57 | every address the check accepts is local part, '@', host, '.', top-level part, each non-empty and free of '@' and whitespace |
| Utils.EmailScanComplete | lib/utils.ts:54-57 | every string of that shape is accepted |
| Utils.EmailScanMatchesPattern | lib/utils.ts:54-57 | the check accepts exactly the strings the regular expression matches |
| Utils.IsValidStudentId | lib/utils.ts:59-63 | true exactly for two capitals, four digits and three digits joined by '/' (`/^[A-Z]{2}\/\d{4}\/\d{3}$/`) |
| Utils.StudentIdScanMatchesPattern | lib/utils.ts:59-63 | the position-by-position check accepts exactly the strings of that shape |
| Utils.StudentIdParts | lib/utils.ts:59-63 | department/year/serial is valid iff two capitals, four digits and three digits; every valid id splits that way |
| Utils.StudentIdExamples | lib/utils.ts:59-63 | "CS/2020/001" is valid; lower-case letters or misplaced digits are not |
| Utils.StripIsbn | lib/utils.ts:67 | no hyphen or whitespace survives the clean-up |
| Utils.IsValidISBN | lib/utils.ts:65-76 | true exactly when every character is a digit, a hyphen or whitespace and there are 10 or 13 digits in all |
| Utils.IsbnScanMatchesShape | lib/utils.ts:65-76 | stripping separators and then testing 10 or 13 digits accepts exactly the strings of that shape |
| Utils.IsbnIgnoresSeparators | lib/utils.ts:65-76 | inserting a hyphen or whitespace anywhere does not change the verdict |
| Utils.StripDropsSeparator | lib/utils.ts:67 | the clean-up removes an inserted separator |
| Utils.IsbnAcceptsDigits | lib/utils.ts:65-76 | any 10 or 13 digits are valid, with no checksum |
| Utils.IsbnRejectsNonDigit | lib/utils.ts:65-76 | any character that is neither a digit nor a separator, a trailing 'X' included, makes the ISBN invalid |
| Utils.SearchBooks | lib/utils.ts:79-89 | a blank term returns the list unchanged; otherwise exactly the books whose title, author, isbn or category contains the lower-cased term |
| Utils.SearchBooksAppend | lib/utils.ts:79-89 | the search keeps the order of the list: searching a concatenation concatenates the searches |
| Utils.SearchBooksIgnoresCase | lib/utils.ts:79-89 | upper-casing the term does not change the result |
| Utils.JsCeilDiv | lib/utils.ts:111 | `Math.ceil(n/d)`: the least whole number whose product with `d` reaches `n`; none for a zero divisor |
| Utils.PaginateArray | lib/utils.ts:92-114 | the total, page and limit are echoed and the data has at most as many rows as the array (`Utils.PaginateArrayIsPage` states which rows) |
| Utils.PaginateArrayIsPage | lib/utils.ts:92-114 | for page >= 1 and limit >= 1 the data is `array[(page-1)*limit ..]` cut to `limit` rows, and `totalPages` is the ceiling of total over limit |
| Utils.GetStatusColor | lib/utils.ts:117-134 | one of the five badge classes, and the grey one exactly when the lower-cased status is none of the eight known statuses |
| Utils.StatusColorIgnoresCase | lib/utils.ts:117-134 | the colour depends on the status only up to case |
| Utils.StatusColorsOfStoredStatuses | lib/utils.ts:117-134 | BORROWED is blue, OVERDUE and REJECTED red, PENDING yellow, APPROVED green, RETURNED grey |
| Text.Lower | lib/utils.ts:45 | `toLowerCase` character by character, length kept |
| Text.Upper | lib/utils.ts:45 | `toUpperCase` character by character, length kept |
| Text.LowerIdempotent | lib/utils.ts:82 | lower-casing twice is lower-casing once |
| Seqs.PageOf | lib/services/bookService.ts:11-33 | `skip = (page-1)*limit`, `take = limit`: at most `limit` rows, each the matching row at its offset, and a full page whenever enough rows remain |
| Seqs.PaginationOf | lib/services/bookService.ts:38-47 | the pagination block echoes page, limit and total, and `totalPages` is the ceiling of total over limit |
| Seqs.PageWithin | lib/services/bookService.ts:31-32 | a page holds only rows of the listing it is cut from |
| Seqs.FilterMultiplicity | lib/services/borrowingService.ts:147-161 | a `where` keeps every passing row as often as the table holds it and drops every other row |
| Seqs.FilterKeepsSorted | lib/services/userService.ts:161-163 | filtering a sorted listing keeps it sorted |
| Seqs.SortedFilter | lib/services/borrowingService.ts:147-161 | a `findMany` with a `where` and an `orderBy`: sorted by the key, every row it returns is in the table and passes the filter, every passing row is returned, and as many rows as pass |
| Books.CreateBook | lib/services/bookService.ts:68-83 | refuses an ISBN already in use; otherwise appends one book whose available and total copies are both the quantity, raising both stock sums by it |
| Books.ApplyUpdate | lib/services/bookService.ts:85-101 | a quantity overwrites both counters, no quantity leaves both alone, a missing published year becomes null, and id and creation time are kept |
| Books.UpdateBook | lib/services/bookService.ts:85-101 | an unknown id is "record not found", an ISBN held by another book is refused, and otherwise only that book is replaced by its update |
| Books.AdjustAvailable | lib/services/borrowingService.ts:52-59 | the decrement/increment of one book's available copies, with every other field and every other book unchanged |
| Books.AdjustAvailableInverse | lib/services/borrowingService.ts:114-121 | an increment undoes a decrement |
| Books.AdjustAvailableSum | lib/services/bookService.ts:131-133 | moving one book's available copies by `delta` moves the available stock by `delta` and leaves the copies owned alone |
| Books.MatchingBooks | lib/services/bookService.ts:14-36 | exactly the books matching the search (case-insensitive on title, author, isbn or category) and the category filter, newest first, each as often as in the table, with the count the pagination reports |
| Books.AllBooks | lib/services/bookService.ts:5-48 | at most `limit` rows, each a book matching the filters, cut from the newest-first listing at `(page-1)*limit`; the total counts every matching book and `totalPages` is its ceiling over limit |
| Books.BookOnItsPage | lib/services/bookService.ts:5-48 | paging shows every matching book: the `i`-th is row `i % limit` of page `i / limit + 1` |
| Books.CategoryAllIsNoFilter | lib/services/bookService.ts:25-27 | category "all" selects the same books as no category |
| Books.DistinctCategories | lib/services/bookService.ts:109-115 | each category appears once, every book's category appears, and each has at least one book |
| Books.Categories | lib/services/bookService.ts:109-121 | one entry per distinct category, each with the number of books in it, which is positive |
| Books.CategoryCountsSum | lib/services/bookService.ts:109-121 | the category counts add up to the number of books |
| Books.GetBookStats | lib/services/bookService.ts:123-141 | both stock sums are 0 for an empty catalogue, and the borrowed figure counts at most every loan (its partner is `Stock.BookStatsMatchLoans`) |
| Books.AvailableStockNonNegative | lib/services/bookService.ts:131-139 | with no book below zero, the available stock is not negative |
| Borrowing.LateLoansOf | lib/services/borrowingService.ts:19-28 | the borrower's BORROWED loans past due; non-empty exactly when the borrower holds such a loan |
| Borrowing.BorrowBook | lib/services/borrowingService.ts:5-72 | missing book, no copy left, and a late loan are refused in that order with nothing changed; otherwise one BORROWED loan due 30 days on, one copy fewer of that book only, one "Book borrowed" activity |
| Borrowing.LendStock | lib/services/borrowingService.ts:52-59 | decrementing a book that has a copy in takes exactly one copy off the total available stock and leaves no count negative |
| Borrowing.ReturnBook | lib/services/borrowingService.ts:74-135 | unknown and already-returned loans are refused with nothing changed; otherwise the loan becomes RETURNED at now with the whole-day fine, that book gets a copy back, and one "Book returned" activity carries the fine |
| Borrowing.BorrowThenReturn | lib/services/borrowingService.ts:5-135 | borrowing and then returning the same loan leaves the book table as it was and charges the fine for the time between |
| Borrowing.OverdueLoans | lib/services/borrowingService.ts:147-161 | the BORROWED loans past due, each as often as in the table, earliest due date first |
| Borrowing.MarkOverdue | lib/services/borrowingService.ts:163-176 | exactly the late loans become OVERDUE, only their status changes, and no late loan remains |
| Borrowing.UpdateOverdueStatus | lib/services/borrowingService.ts:163-176 | the loan table becomes its sweep; no other table changes |
| Borrowing.SweepIdempotent | lib/services/borrowingService.ts:163-176 | sweeping twice is sweeping once |
| Borrowing.SweepMatchesOverdueQuery | lib/services/borrowingService.ts:147-176 | the sweep changes a loan iff the overdue query lists it |
| Borrowing.SweepClearsLateLoans | lib/services/borrowingService.ts:19-32 | after the sweep the overdue query is empty and no borrower is blocked, so a loan flipped to OVERDUE no longer blocks a borrow |
| Borrowing.SweepKeepsOutstanding | lib/services/borrowingService.ts:163-176 | the sweep keeps the number of loans out (BORROWED plus OVERDUE) and of RETURNED loans |
| Borrowing.LoanStatusPartition | lib/services/borrowingService.ts:178-187 | the BORROWED, OVERDUE and RETURNED counts add up to the number of loans |
| Borrowing.GetBorrowingStats | lib/services/borrowingService.ts:178-206 | the two counts do not exceed the loans, and total fines are never negative and positive iff some RETURNED loan carries a positive fine |
| PdfRequests.CreateRequest | lib/services/pdfRequestService.ts:4-53 | a missing book and a PENDING request of the same user for the same book are refused with nothing changed; otherwise one PENDING request with the reason and one "PDF requested" activity |
| PdfRequests.DecisionStatus | lib/services/pdfRequestService.ts:105 | a decision is APPROVED or REJECTED, never PENDING |
| PdfRequests.DecisionVerb | lib/services/pdfRequestService.ts:143 | the activity verb is the lower-cased status name |
| PdfRequests.Decide | lib/services/pdfRequestService.ts:125-138 | status set to the decision, notes and processing time recorded, the URL kept only on approval, and all other fields kept |
| PdfRequests.DecisionEntry | lib/services/pdfRequestService.ts:141-150 | the activity of a decision: `PDF request approved`/`rejected`, for the requester and the book, with the notes and URL as details |
| PdfRequests.DecisionNote | lib/services/pdfRequestService.ts:153-160 | the requester's notification, unread, titled with the status, SUCCESS exactly on approval and WARNING exactly on rejection |
| PdfRequests.UpdateRequestStatus | lib/services/pdfRequestService.ts:103-163 | unknown and already-processed requests are refused with nothing changed; otherwise the request is decided and exactly one activity and one notification (SUCCESS iff approved) are added |
| PdfRequests.DecideTwice | lib/services/pdfRequestService.ts:121-123 | whatever notes and link either decision carries, a second decision on the same request fails as already processed and the request stays as the first decision left it |
| PdfRequests.StatusFilter | lib/services/pdfRequestService.ts:58-60 | an absent or empty status means no filter; any other is upper-cased and must name a status |
| PdfRequests.StatusFilterIgnoresCase | lib/services/pdfRequestService.ts:58-60 | the filter does not depend on the case of the status |
| PdfRequests.MatchingRequests | lib/services/pdfRequestService.ts:62-68 | the requests of the owner with the status, newest first, each as often as in the table, as many as pass the filter |
| PdfRequests.UserRequests | lib/services/pdfRequestService.ts:55-69 | fails only on an unknown status; otherwise only the caller's own requests |
| PdfRequests.AllRequests | lib/services/pdfRequestService.ts:71-101 | fails exactly when the status names no request status |
| PdfRequests.GetRequestStats | lib/services/pdfRequestService.ts:165-179 | pending + approved + rejected = total = the number of requests |
| PdfRequests.RequestStatusPartition | lib/services/pdfRequestService.ts:165-179 | the three status counts partition the requests |
| Notifications.UserNotifications | lib/services/notificationService.ts:20-51 | at most `limit` rows, each a notification of the user with the requested flag, cut from the newest-first listing at `(page-1)*limit`; the total counts them all and `totalPages` is its ceiling over limit |
| Notifications.NotificationOnItsPage | lib/services/notificationService.ts:20-51 | paging shows every matching notification: the `i`-th is row `i % limit` of page `i / limit + 1` |
| Notifications.CreateNotification | lib/services/notificationService.ts:4-18 | appends exactly one unread notification with the given owner, title, message and type |
| Notifications.SetReadFlag | lib/services/notificationService.ts:53-75 | the shared bulk update: the table becomes its flagged copy, keys stay valid, and the count of rows matched is returned |
| Notifications.WithReadFlag | lib/services/notificationService.ts:53-75 | the flag is set on exactly the listed notifications of the owner, every other row unchanged |
| Notifications.MarkAsRead | lib/services/notificationService.ts:53-63 | the table becomes its read-flagged copy and the count of rows touched is returned |
| Notifications.MarkAsUnread | lib/services/notificationService.ts:65-75 | the same with the flag cleared |
| Notifications.ReadFlagIdempotent | lib/services/notificationService.ts:53-75 | marking twice is marking once |
| Notifications.ReadThenUnread | lib/services/notificationService.ts:53-75 | marking unread rows read and then unread restores the table |
| Notifications.ReadFlagRespectsOwner | lib/services/notificationService.ts:53-75 | a listed id owned by another user is left unchanged |
| Notifications.UnreadCount | lib/services/notificationService.ts:77-84 | 0 exactly when the user has no unread notification |
| Notifications.MarkAllReadClearsUnread | lib/services/notificationService.ts:53-84 | marking all of a user's unread notifications read brings the unread count to 0 |
| Notifications.WithoutNotification | lib/services/notificationService.ts:86-93 | exactly the rows other than the given id owned by the given user |
| Notifications.DeleteRemovesAtMostOne | lib/services/notificationService.ts:86-93 | with unique ids at most one row goes |
| Notifications.DeleteMissingKeepsAll | lib/services/notificationService.ts:86-93 | an unknown id removes nothing |
| Notifications.DeleteNotification | lib/services/notificationService.ts:86-93 | the table loses at most the one row, and the count removed is returned |
| Notifications.PurgeOld | lib/services/notificationService.ts:95-107 | exactly the rows not both read and older than the cutoff survive, so unread rows always survive |
| Notifications.PurgeIdempotent | lib/services/notificationService.ts:95-107 | purging twice is purging once |
| Notifications.PurgeKeepsUnreadCount | lib/services/notificationService.ts:95-107 | the purge leaves every user's unread count unchanged |
| Notifications.DeleteOldNotifications | lib/services/notificationService.ts:95-107 | the table becomes its purge at `now - daysOld` days (30 by default) |
| Notifications.MatchingNotifications | lib/services/notificationService.ts:26-39 | the user's notifications with the requested flag, newest first, each as often as in the table, as many as pass the filter |
| Notifications.UnreadListingMatchesCount | lib/services/notificationService.ts:20-84 | the listing filtered on unread has as many rows as the unread count |
| Users.FindUser | lib/services/userService.ts:141-159 | the user with that id, when one exists |
| Users.LoansOf | lib/services/userService.ts:144-149 | exactly the user's loans, newest borrow first |
| Users.RequestsOf | lib/services/userService.ts:150-155 | exactly the user's requests, newest first |
| Users.LateLoansListed | lib/services/userService.ts:161-163 | the user's BORROWED loans past due, OVERDUE ones excluded, newest borrow first, each as often as in the loan table |
| Users.LateOfMineCounted | lib/services/userService.ts:161-163 | filtering the user's loans on lateness keeps the same rows, with the same multiplicity, as filtering the loan table on both at once |
| Users.LateListedIffBorrowBlocked | lib/services/userService.ts:161-163 | the dashboard lists a late loan iff a borrow by that student would be refused for it |
| Users.StudentDashboard | lib/services/userService.ts:140-176 | "User not found" iff the user is absent; otherwise the user's loans and requests, the late ones, and the counts: every loan, the late ones, the PENDING requests |
| Users.DashboardAfterSweep | lib/services/userService.ts:161-163 | after the overdue sweep no dashboard lists a late loan |
| Users.Students | lib/services/userService.ts:64-68 | exactly the STUDENT users, newest first |
| Users.SummariseAll | lib/services/userService.ts:71-78 | one summary per student of the page, in page order, each for that student, whose borrowed-book and PDF-request counts are the lengths of that student's loan and request listings |
| Users.AllStudents | lib/services/userService.ts:60-92 | the rows summarise page `page` of the newest-first student listing, at most `limit` of them; the total counts only students and `totalPages` is its ceiling over limit |
| Users.StudentOnItsPage | lib/services/userService.ts:60-92 | paging shows every student: the `i`-th is row `i % limit` of page `i / limit + 1`, with that student's loan and request counts |
| Stock.CopiesOutCountsLoans | lib/services/borrowingService.ts:39-59 | when book keys are unique and every loan points at a book, the copies out summed over all books are the loans that are not RETURNED |
| Stock.BalancedStockGap | lib/services/bookService.ts:131-139 | in a balanced table, copies owned minus copies available is the sum of the copies out |
| Stock.OutOnLoanCount | lib/services/borrowingService.ts:178-187 | the loans not RETURNED are the BORROWED ones plus the OVERDUE ones |
| Stock.BookStatsMatchLoans | lib/services/bookService.ts:123-141 | in a balanced table, the catalogue's copies owned minus copies available is the number of loans out, equal to the borrowing statistics' BORROWED plus OVERDUE, and both report the same borrowed figure |
| Stock.Outstanding | lib/services/borrowingService.ts:39-59 | the copies of a book out on loan; 0 iff no BORROWED or OVERDUE loan of it |
| Stock.BalancedBoundsStock | lib/services/borrowingService.ts:52-59 | in a balanced table, available never exceeds total, and equals it iff no copy is out |
| Stock.CreateKeepsBalance | lib/services/bookService.ts:68-83 | a new book with all copies in keeps the table balanced |
| Stock.NoLoanOfNextBook | lib/services/bookService.ts:68-83 | no loan points at the key the next book receives |
| Stock.LendKeepsBalance | lib/services/borrowingService.ts:39-69 | a borrow keeps every book balanced |
| Stock.TakeBackKeepsBalance | lib/services/borrowingService.ts:101-132 | a return keeps every book balanced |
| Stock.SweepKeepsBalance | lib/services/borrowingService.ts:163-176 | the overdue sweep keeps every book balanced |
| Stock.EditKeepsBalance | lib/services/bookService.ts:85-101 | an edit without a quantity keeps every book balanced |
| Stock.QuantityEditUnbalances | lib/services/bookService.ts:94-95 | an edit with a quantity while a copy is out unbalances the book |
| Stock.EditDuringLoan | lib/services/bookService.ts:94-95 | create, borrow, edit the quantity to 1 and return leave 2 copies available of 1 owned |

## Left out

- Seqs.PageOf, Books.AllBooks, PdfRequests.AllRequests, Notifications.UserNotifications, Users.AllStudents: these require `page >= 1` and `limit >= 1`. The ORM rejects the negative `skip` a page below 1 produces, and a zero limit divides by zero; neither is modelled.
- PdfRequests.AllRequests, PdfRequests.UserRequests: their contracts state the error case and ownership. The rows and page come from `PdfRequests.MatchingRequests` and `Seqs.PagedListing` (the pair `Seqs.PageOf`, `Seqs.PaginationOf`).
- Utils.TruncateText: lengths and `slice` count characters (code points), where JavaScript counts UTF-16 code units. For text outside the Basic Multilingual Plane the two differ: "😀😀" with `maxLength` 3 has length 4 in JavaScript and becomes a lone surrogate half after "😀" plus "...", while the model returns it unchanged.
- Utils.JsSlice, Utils.Capitalize: the same code-point reading applies to `slice` and `charAt`.
- User foreign keys: loans, requests and notifications name their user by id, but the model keeps no user table for the writes. A write with an unknown user id succeeds where the database's foreign key would refuse it. The services receive the signed-in user's id from the session (`lib/auth.ts`).
- Text.Lower, Text.Upper, Utils.Capitalize: case mapping covers ASCII letters only; JavaScript also maps other Unicode letters.
- Sorted reads list rows with equal sort keys in insertion order. The database does not specify an order among ties.
- Books.Categories lists categories in the order of their first book. The ORM's `groupBy` specifies no order.
- `parseInt` of the form's quantity and published year: the model takes integers. A quantity that does not parse (NaN) is not modelled.
- Time: each service reads the clock more than once; the model uses one `now` per call. `setDate(getDate() + 30)` and `setDate(getDate() - daysOld)` are modelled as whole 86 400 000 ms days, without local time or daylight saving.
- Notification ids are cuid strings in the schema; they are modelled as integers from a counter.
- Concurrency: each service call is one atomic step. The availability and late-loan checks of a borrow run outside the transaction, and the three writes of a request decision are not one transaction; races between calls are not modelled.
- The `include` joins (book and user records attached to loans and requests) are not modelled; the model returns the rows themselves.
- `getUserBorrowedBooks`, `getBookById`, `deleteBook`: not part of this model. The user's loans, newest first, appear as `Users.LoansOf`.
- User creation, update, deletion, lookup by email or student id, `getUserStats`, password hashing and authentication (`lib/auth.ts`) rely on foreign libraries and are not part of this model.
- Date formatting, file-size formatting, `cn`, alerts and the browser-storage helpers in `lib/utils.ts` are locale, floating-point or browser I/O.
- HTTP routes, pages and seeding are not part of this model. The borrow route (`app/api/borrow/route.ts:33`) passes a book id where `returnBook` expects a loan id; only the service is modelled.
