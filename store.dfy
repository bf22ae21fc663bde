/** The database the services share: one table per record kind, each in
    insertion order, with the next value of each auto-increment key. */
module Store {
  import opened Seqs
  import opened Schema

  /** Primary keys are unique and below their counters, no two books share
      an ISBN, a borrower has at most one PENDING request per book, and the
      foreign keys of loans and requests resolve. */
  ghost predicate Consistent(
    books: seq<Book>, loans: seq<Loan>, requests: seq<PdfRequest>, notifications: seq<Notification>,
    nextBookId: int, nextLoanId: int, nextRequestId: int, nextNotificationId: int)
  {
    && UniqueKeys(books, BookKey, nextBookId)
    && UniqueIsbns(books)
    && UniqueKeys(loans, LoanKey, nextLoanId)
    && UniqueKeys(requests, RequestKey, nextRequestId)
    && SinglePendingPerBook(requests)
    && UniqueKeys(notifications, NotificationKey, nextNotificationId)
    && ReferencesBooks(books, loans, requests)
  }

  class Database {
    var books: seq<Book>
    var loans: seq<Loan>
    var requests: seq<PdfRequest>
    var notifications: seq<Notification>
    var activities: seq<Activity>
    var nextBookId: int
    var nextLoanId: int
    var nextRequestId: int
    var nextNotificationId: int

    /** The tables satisfy the schema's constraints. */
    ghost predicate Valid()
      reads this
    {
      Consistent(books, loans, requests, notifications, nextBookId, nextLoanId, nextRequestId, nextNotificationId)
    }

    constructor ()
      ensures Valid()
      ensures books == [] && loans == [] && requests == [] && notifications == [] && activities == []
    {
      books, loans, requests, notifications, activities := [], [], [], [], [];
      nextBookId, nextLoanId, nextRequestId, nextNotificationId := 1, 1, 1, 1;
    }
  }
}
