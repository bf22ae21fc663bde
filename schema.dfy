/** The records of the library's relational schema, as the services read and
    write them, and the errors the services throw. Times are milliseconds
    since the epoch. */
module Schema {
  import opened Wrappers
  import opened Seqs

  type UserId = string

  /** One day in milliseconds (`1000 * 60 * 60 * 24`). */
  const DayMs: int := 1000 * 60 * 60 * 24

  /** A loan runs for 30 days. */
  const LoanDays: int := 30

  /** The fine per whole day late, in naira. */
  const DailyFine: int := 50

  datatype Role = Student | Admin

  datatype LoanStatus = Borrowed | Returned | Overdue

  datatype RequestStatus = Pending | Approved | Rejected

  datatype NotificationType = Info | Success | Warning | Error

  datatype Book = Book(
    id: int,
    title: string,
    author: string,
    isbn: string,
    category: string,
    description: string,
    available: int,
    total: int,
    publishedYear: Option<int>,
    publisher: Option<string>,
    location: Option<string>,
    createdAt: int)

  /** A row of the BorrowedBook table. */
  datatype Loan = Loan(
    id: int,
    bookId: int,
    userId: UserId,
    borrowDate: int,
    dueDate: int,
    returnDate: Option<int>,
    status: LoanStatus,
    fine: Option<int>)

  datatype PdfRequest = PdfRequest(
    id: int,
    bookId: int,
    userId: UserId,
    requestDate: int,
    status: RequestStatus,
    reason: string,
    adminNotes: Option<string>,
    pdfUrl: Option<string>,
    processedDate: Option<int>)

  datatype Notification = Notification(
    id: int,
    userId: UserId,
    title: string,
    message: string,
    kind: NotificationType,
    read: bool,
    createdAt: int)

  /** The free-form `details` an activity may carry. */
  datatype Details =
    | NoDetails
    | FineDetails(fine: int)
    | DecisionDetails(adminNotes: Option<string>, pdfUrl: Option<string>)

  /** A row of the append-only Activity log. */
  datatype Activity = Activity(
    action: string,
    userId: UserId,
    userType: Role,
    bookId: Option<int>,
    bookTitle: Option<string>,
    timestamp: int,
    details: Details)

  datatype User = User(id: UserId, name: string, role: Role, createdAt: int)

  /** What a service call can throw. The last two are raised by the database
      rather than by the services' own checks. */
  datatype ServiceError =
    | BookNotFound
    | BookNotAvailable
    | HasOverdueBooks
    | LoanNotFound
    | AlreadyReturned
    | PendingRequestExists
    | RequestNotFound
    | AlreadyProcessed
    | UserNotFound
    | InvalidStatusFilter(value: string)
    | RecordNotFound
    | DuplicateIsbn

  type Outcome<T> = Result<T, ServiceError>

  /** The message each error is thrown with. */
  function Message(e: ServiceError): string
  {
    match e
    case BookNotFound => "Book not found"
    case BookNotAvailable => "Book is not available"
    case HasOverdueBooks => "You have overdue books. Please return them first."
    case LoanNotFound => "Borrowing record not found"
    case AlreadyReturned => "Book has already been returned"
    case PendingRequestExists => "You already have a pending request for this book"
    case RequestNotFound => "PDF request not found"
    case AlreadyProcessed => "Request has already been processed"
    case UserNotFound => "User not found"
    case InvalidStatusFilter(v) => "Invalid value for argument `status`: " + v
    case RecordNotFound => "Record to update not found."
    case DuplicateIsbn => "Unique constraint failed on the fields: (`isbn`)"
  }

  /** The enum value as stored (`'BORROWED'`, ...). */
  function LoanStatusName(s: LoanStatus): string
  {
    match s
    case Borrowed => "BORROWED"
    case Returned => "RETURNED"
    case Overdue => "OVERDUE"
  }

  function RequestStatusName(s: RequestStatus): string
  {
    match s
    case Pending => "PENDING"
    case Approved => "APPROVED"
    case Rejected => "REJECTED"
  }

  /** The request status whose stored name is `name`, if any: how the
      database reads an enum value given as a string. */
  function ParseRequestStatus(name: string): (r: Option<RequestStatus>)
    ensures r.Some? <==> name in {"PENDING", "APPROVED", "REJECTED"}
    ensures r.Some? ==> RequestStatusName(r.value) == name
  {
    if name == "PENDING" then Some(Pending)
    else if name == "APPROVED" then Some(Approved)
    else if name == "REJECTED" then Some(Rejected)
    else None
  }

  // The primary keys, as functions so that a table's key discipline can be
  // stated once (Seqs.UniqueKeys).
  function BookKey(b: Book): int { b.id }
  function LoanKey(l: Loan): int { l.id }
  function RequestKey(r: PdfRequest): int { r.id }
  function NotificationKey(n: Notification): int { n.id }

  /** Every loan and every PDF request refers to a book that exists (the
      schema's foreign keys). */
  ghost predicate ReferencesBooks(books: seq<Book>, loans: seq<Loan>, requests: seq<PdfRequest>)
  {
    && (forall i :: 0 <= i < |loans| ==> HasKey(books, BookKey, loans[i].bookId))
    && (forall i :: 0 <= i < |requests| ==> HasKey(books, BookKey, requests[i].bookId))
  }

  /** No two books share an ISBN (the unique index on `isbn`). */
  ghost predicate UniqueIsbns(books: seq<Book>)
  {
    forall i, j :: 0 <= i < j < |books| ==> books[i].isbn != books[j].isbn
  }

  /** A borrower has at most one PENDING request per book. */
  ghost predicate SinglePendingPerBook(requests: seq<PdfRequest>)
  {
    forall i, j :: 0 <= i < j < |requests| && requests[i].status == Pending && requests[j].status == Pending
      ==> requests[i].bookId != requests[j].bookId || requests[i].userId != requests[j].userId
  }

  /** Adding a loan for a book that exists keeps the foreign keys. */
  lemma ReferencesAppendLoan(books: seq<Book>, loans: seq<Loan>, requests: seq<PdfRequest>, loan: Loan)
    requires ReferencesBooks(books, loans, requests) && HasKey(books, BookKey, loan.bookId)
    ensures ReferencesBooks(books, loans + [loan], requests)
  {
    assert forall i :: 0 <= i < |loans| ==> (loans + [loan])[i] == loans[i];
  }

  /** Adding a request for a book that exists keeps the foreign keys. */
  lemma ReferencesAppendRequest(books: seq<Book>, loans: seq<Loan>, requests: seq<PdfRequest>, request: PdfRequest)
    requires ReferencesBooks(books, loans, requests) && HasKey(books, BookKey, request.bookId)
    ensures ReferencesBooks(books, loans, requests + [request])
  {
    assert forall i :: 0 <= i < |requests| ==> (requests + [request])[i] == requests[i];
  }

  /** Rewriting loans and requests without changing the books they point at,
      and rewriting books without losing a key, keeps the foreign keys. */
  lemma ReferencesRewrite(books: seq<Book>, loans: seq<Loan>, requests: seq<PdfRequest>,
                          books': seq<Book>, loans': seq<Loan>, requests': seq<PdfRequest>)
    requires ReferencesBooks(books, loans, requests)
    requires forall k :: HasKey(books, BookKey, k) ==> HasKey(books', BookKey, k)
    requires |loans'| == |loans| && forall i :: 0 <= i < |loans| ==> loans'[i].bookId == loans[i].bookId
    requires |requests'| == |requests| && forall i :: 0 <= i < |requests| ==> requests'[i].bookId == requests[i].bookId
    ensures ReferencesBooks(books', loans', requests')
  {
  }

  /** The book with primary key `id` (the ORM's `book.findUnique`). */
  function FindBook(books: seq<Book>, id: int): (r: Option<Book>)
    ensures r.Some? <==> HasKey(books, BookKey, id)
    ensures r.Some? ==> r.value in books && r.value.id == id
  {
    var i := IndexOf(books, BookKey, id);
    if i.Some? then Some(books[i.value]) else None
  }

  function AvailableOf(b: Book): int { b.available }
  function TotalOf(b: Book): int { b.total }

  predicate IsBorrowedLoan(l: Loan) { l.status == Borrowed }
  predicate IsOverdueLoan(l: Loan) { l.status == Overdue }
  predicate IsReturnedLoan(l: Loan) { l.status == Returned }

  predicate IsPendingRequest(r: PdfRequest) { r.status == Pending }
}
