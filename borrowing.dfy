/** The loan lifecycle: lending a copy, taking it back with a whole-day fine,
    the BORROWED to OVERDUE sweep, the overdue query and the loan figures. A
    loan moves from BORROWED to OVERDUE (by the sweep) and from either of
    them to RETURNED (by a return); RETURNED is final. */
module Borrowing {
  import opened Wrappers
  import opened Seqs
  import opened Schema
  import opened Store
  import opened Books
  import Utils

  /** Still BORROWED and past its due date: the condition the borrow check,
      the overdue query and the sweep all test. */
  predicate IsLate(l: Loan, now: int)
  {
    l.status == Borrowed && Utils.IsOverdue(l.dueDate, now)
  }

  ghost predicate HoldsLateLoan(loans: seq<Loan>, userId: UserId, now: int)
  {
    exists i :: 0 <= i < |loans| && loans[i].userId == userId && IsLate(loans[i], now)
  }

  /** The borrower's late loans, which `borrowBook` looks up before lending. */
  function LateLoansOf(loans: seq<Loan>, userId: UserId, now: int): (r: seq<Loan>)
    ensures forall i :: 0 <= i < |r| ==> r[i].userId == userId && IsLate(r[i], now)
    ensures |r| > 0 <==> HoldsLateLoan(loans, userId, now)
  {
    var r := Filter(loans, (l: Loan) => l.userId == userId && IsLate(l, now));
    assert |r| > 0 ==> HoldsLateLoan(loans, userId, now) by {
      if |r| > 0 {
        assert r[0] in loans;
        var j :| 0 <= j < |loans| && loans[j] == r[0];
      }
    }
    r
  }

  // ---------------------------------------------------------------- borrow

  /** `borrowBook`: refuses a missing book, a book with no copy left and a
      borrower holding a late loan, in that order, and changes nothing then;
      otherwise adds a BORROWED loan due 30 days on, takes one copy of that
      book and logs the loan. What taking the copy does to the stock is
      stated by `LendStock`. */
  method BorrowBook(db: Database, bookId: int, userId: UserId, now: int) returns (r: Outcome<Loan>)
    requires db.Valid()
    modifies db`books, db`loans, db`nextLoanId, db`activities
    ensures db.Valid()
    ensures var found := old(FindBook(db.books, bookId));
      && (found.None? ==> r == Err(BookNotFound))
      && (found.Some? && found.value.available <= 0 ==> r == Err(BookNotAvailable))
      && (found.Some? && found.value.available > 0 && old(HoldsLateLoan(db.loans, userId, now)) ==> r == Err(HasOverdueBooks))
      && (found.Some? && found.value.available > 0 && !old(HoldsLateLoan(db.loans, userId, now)) ==> r.Ok?)
    ensures r.Err? ==>
      && db.books == old(db.books) && db.loans == old(db.loans)
      && db.nextLoanId == old(db.nextLoanId) && db.activities == old(db.activities)
    ensures r.Ok? ==>
      && r.value == Loan(old(db.nextLoanId), bookId, userId, now, now + LoanDays * DayMs, None, Borrowed, None)
      && db.loans == old(db.loans) + [r.value]
      && db.nextLoanId == old(db.nextLoanId) + 1
      && db.books == AdjustAvailable(old(db.books), bookId, -1)
      && db.activities == old(db.activities)
           + [Activity("Book borrowed", userId, Student, Some(bookId), Some(old(FindBook(db.books, bookId)).value.title), now, NoDetails)]
  {
    var k := IndexOf(db.books, BookKey, bookId);
    if k.None? {
      return Err(BookNotFound);
    }
    var book := db.books[k.value];
    if book.available <= 0 {
      return Err(BookNotAvailable);
    }
    var late := LateLoansOf(db.loans, userId, now);
    if |late| > 0 {
      return Err(HasOverdueBooks);
    }
    var loan := Loan(db.nextLoanId, bookId, userId, now, now + LoanDays * DayMs, None, Borrowed, None);
    var books' := AdjustAvailable(db.books, bookId, -1);
    LendKeepsConsistent(db.books, db.loans, db.requests, db.notifications,
      db.nextBookId, db.nextLoanId, db.nextRequestId, db.nextNotificationId, loan);
    RecordLoan(db, books', loan, Activity("Book borrowed", userId, Student, Some(bookId), Some(book.title), now, NoDetails));
    r := Ok(loan);
  }

  /** The writes of a borrow: the new book table, the loan with the next id
      and one activity. */
  method RecordLoan(db: Database, books: seq<Book>, loan: Loan, entry: Activity)
    requires Consistent(books, db.loans + [loan], db.requests, db.notifications,
                        db.nextBookId, db.nextLoanId + 1, db.nextRequestId, db.nextNotificationId)
    modifies db`books, db`loans, db`nextLoanId, db`activities
    ensures db.Valid()
    ensures db.books == books && db.loans == old(db.loans) + [loan] && db.nextLoanId == old(db.nextLoanId) + 1
    ensures db.activities == old(db.activities) + [entry]
  {
    db.books, db.loans, db.nextLoanId, db.activities := books, db.loans + [loan], db.nextLoanId + 1, db.activities + [entry];
  }

  // ---------------------------------------------------------------- return

  /** `returnBook`: refuses an unknown loan and a loan already RETURNED (an
      OVERDUE loan can be returned); otherwise marks it RETURNED at `now`
      with the whole-day fine, gives the copy back and logs the fine. */
  method ReturnBook(db: Database, loanId: int, now: int) returns (r: Outcome<Loan>)
    requires db.Valid()
    modifies db`books, db`loans, db`activities
    ensures db.Valid()
    ensures var k := old(IndexOf(db.loans, LoanKey, loanId));
      && (k.None? ==> r == Err(LoanNotFound))
      && (k.Some? && old(db.loans)[k.value].status == Returned ==> r == Err(AlreadyReturned))
      && (k.Some? && old(db.loans)[k.value].status != Returned ==> r.Ok?)
    ensures r.Err? ==> db.books == old(db.books) && db.loans == old(db.loans) && db.activities == old(db.activities)
    ensures r.Ok? ==>
      old(HasKey(db.loans, LoanKey, loanId)) &&
      var k := old(IndexOf(db.loans, LoanKey, loanId)).value;
      var loan := old(db.loans)[k];
      var fine := Utils.CalculateFine(loan.dueDate, now);
      && r.value == loan.(status := Returned, returnDate := Some(now), fine := Some(fine))
      && db.loans == old(db.loans)[k := r.value]
      && db.books == AdjustAvailable(old(db.books), loan.bookId, 1)
      && db.activities == old(db.activities)
           + [Activity("Book returned", loan.userId, Student, Some(loan.bookId),
                       Some(old(FindBook(db.books, loan.bookId)).value.title), now, FineDetails(fine))]
      && TotalAvailable(db.books) == TotalAvailable(old(db.books)) + 1
  {
    var k := IndexOf(db.loans, LoanKey, loanId);
    if k.None? {
      return Err(LoanNotFound);
    }
    var loan := db.loans[k.value];
    if loan.status == Returned {
      return Err(AlreadyReturned);
    }
    assert HasKey(db.books, BookKey, loan.bookId);
    var title := FindBook(db.books, loan.bookId).value.title;
    var fine := Utils.CalculateFine(loan.dueDate, now);
    var returned := loan.(status := Returned, returnDate := Some(now), fine := Some(fine));
    var loans' := db.loans[k.value := returned];
    var books' := AdjustAvailable(db.books, loan.bookId, 1);
    TakeBackKeepsConsistent(db.books, db.loans, db.requests, db.notifications,
      db.nextBookId, db.nextLoanId, db.nextRequestId, db.nextNotificationId, k.value, returned);
    AdjustAvailableSum(db.books, loan.bookId, 1, db.nextBookId);
    RecordReturn(db, books', loans', Activity("Book returned", loan.userId, Student, Some(loan.bookId), Some(title), now, FineDetails(fine)));
    r := Ok(returned);
  }

  /** The writes of a return: the new book and loan tables and one
      activity. */
  method RecordReturn(db: Database, books: seq<Book>, loans: seq<Loan>, entry: Activity)
    requires Consistent(books, loans, db.requests, db.notifications,
                        db.nextBookId, db.nextLoanId, db.nextRequestId, db.nextNotificationId)
    modifies db`books, db`loans, db`activities
    ensures db.Valid()
    ensures db.books == books && db.loans == loans && db.activities == old(db.activities) + [entry]
  {
    db.books, db.loans, db.activities := books, loans, db.activities + [entry];
  }

  /** Lending a copy of a book that has one in takes one copy off the
      available stock and leaves no book with a negative count. */
  lemma LendStock(books: seq<Book>, k: nat, next: int)
    requires UniqueKeys(books, BookKey, next) && k < |books| && books[k].available > 0
    ensures var r := AdjustAvailable(books, books[k].id, -1);
      && |r| == |books|
      && (forall i :: 0 <= i < |books| && books[i].available >= 0 ==> r[i].available >= 0)
      && TotalAvailable(r) == TotalAvailable(books) - 1
  {
    var id := books[k].id;
    assert BookKey(books[k]) == id;
    AdjustAvailableSum(books, id, -1, next);
    forall i | 0 <= i < |books| && books[i].id == id ensures i == k {
      assert BookKey(books[i]) == BookKey(books[k]);
    }
  }

  /** Lending a copy of an existing book keeps the schema's constraints. */
  lemma LendKeepsConsistent(
    books: seq<Book>, loans: seq<Loan>, requests: seq<PdfRequest>, notifications: seq<Notification>,
    nextBookId: int, nextLoanId: int, nextRequestId: int, nextNotificationId: int, loan: Loan)
    requires Consistent(books, loans, requests, notifications, nextBookId, nextLoanId, nextRequestId, nextNotificationId)
    requires loan.id == nextLoanId && HasKey(books, BookKey, loan.bookId)
    ensures Consistent(AdjustAvailable(books, loan.bookId, -1), loans + [loan], requests, notifications,
                       nextBookId, nextLoanId + 1, nextRequestId, nextNotificationId)
  {
    AdjustAvailableKeepsKeys(books, loan.bookId, -1, nextBookId);
    UniqueKeysAppend(loans, LoanKey, nextLoanId, loan);
    ReferencesAppendLoan(books, loans, requests, loan);
    ReferencesRewrite(books, loans + [loan], requests, AdjustAvailable(books, loan.bookId, -1), loans + [loan], requests);
  }

  /** Rewriting loan `k` without changing its key or book, and giving a copy
      of that book back, keeps the schema's constraints. */
  lemma TakeBackKeepsConsistent(
    books: seq<Book>, loans: seq<Loan>, requests: seq<PdfRequest>, notifications: seq<Notification>,
    nextBookId: int, nextLoanId: int, nextRequestId: int, nextNotificationId: int, k: nat, loan: Loan)
    requires Consistent(books, loans, requests, notifications, nextBookId, nextLoanId, nextRequestId, nextNotificationId)
    requires k < |loans| && loan.id == loans[k].id && loan.bookId == loans[k].bookId
    ensures Consistent(AdjustAvailable(books, loan.bookId, 1), loans[k := loan], requests, notifications,
                       nextBookId, nextLoanId, nextRequestId, nextNotificationId)
  {
    var loans' := loans[k := loan];
    AdjustAvailableKeepsKeys(books, loan.bookId, 1, nextBookId);
    assert SameKeys(loans, loans', LoanKey);
    SameKeysPreserve(loans, loans', LoanKey, nextLoanId);
    ReferencesRewrite(books, loans, requests, AdjustAvailable(books, loan.bookId, 1), loans', requests);
  }

  /** A client of the two operations: lending a copy and taking the same loan
      back leaves every book's stock as it was. */
  method BorrowThenReturn(db: Database, bookId: int, userId: UserId, now: int, later: int)
    returns (borrowed: Outcome<Loan>, returned: Outcome<Loan>)
    requires db.Valid()
    modifies db`books, db`loans, db`nextLoanId, db`activities
    ensures db.Valid()
    ensures db.books == old(db.books)
    ensures borrowed.Err? ==> returned == borrowed && db.loans == old(db.loans)
    ensures borrowed.Ok? ==>
      && returned.Ok?
      && returned.value.id == borrowed.value.id
      && returned.value.status == Returned
      && returned.value.fine == Some(Utils.CalculateFine(borrowed.value.dueDate, later))
      && |db.activities| == |old(db.activities)| + 2
  {
    borrowed := BorrowBook(db, bookId, userId, now);
    if borrowed.Err? {
      returned := borrowed;
      return;
    }
    ghost var last := |db.loans| - 1;
    assert db.loans[last] == borrowed.value;
    IndexOfUnique(db.loans, LoanKey, db.nextLoanId, last);
    returned := ReturnBook(db, borrowed.value.id, later);
    assert db.books == AdjustAvailable(AdjustAvailable(old(db.books), bookId, -1), bookId, 1);
    AdjustAvailableInverse(old(db.books), bookId, -1);
  }

  // ----------------------------------------------------------- overdue sweep

  /** Ascending `dueDate`. */
  function DueKey(l: Loan): int { l.dueDate }

  /** `getOverdueBooks`: every late loan and nothing else, earliest due date
      first. */
  function OverdueLoans(loans: seq<Loan>, now: int): (r: seq<Loan>)
    ensures SortedBy(r, DueKey)
    ensures forall i :: 0 <= i < |r| ==> r[i] in loans && IsLate(r[i], now)
    ensures forall i :: 0 <= i < |loans| && IsLate(loans[i], now) ==> loans[i] in r
    ensures multiset(r) <= multiset(loans)
    ensures multiset(r) == multiset(Filter(loans, (l: Loan) => IsLate(l, now)))
  {
    SortedFilter(loans, (l: Loan) => IsLate(l, now), DueKey)
  }

  /** The loan table after `updateOverdueStatus`: the late loans become
      OVERDUE, every other loan and every other field stays. */
  function MarkOverdue(loans: seq<Loan>, now: int): (r: seq<Loan>)
    ensures |r| == |loans|
    ensures forall i :: 0 <= i < |loans| ==> r[i] == loans[i].(status := r[i].status)
    ensures forall i :: 0 <= i < |loans| ==> (r[i] != loans[i] <==> IsLate(loans[i], now))
    ensures forall i :: 0 <= i < |loans| && IsLate(loans[i], now) ==> r[i].status == Overdue
    ensures forall i :: 0 <= i < |r| ==> !IsLate(r[i], now)
  {
    seq(|loans|, i requires 0 <= i < |loans| =>
      if IsLate(loans[i], now) then loans[i].(status := Overdue) else loans[i])
  }

  /** `updateOverdueStatus`: one bulk update of the loan table; no book's
      stock is touched. */
  method UpdateOverdueStatus(db: Database, now: int)
    requires db.Valid()
    modifies db`loans
    ensures db.Valid()
    ensures db.loans == MarkOverdue(old(db.loans), now)
  {
    var swept := MarkOverdue(db.loans, now);
    assert SameKeys(db.loans, swept, LoanKey);
    SameKeysPreserve(db.loans, swept, LoanKey, db.nextLoanId);
    ReferencesRewrite(db.books, db.loans, db.requests, db.books, swept, db.requests);
    db.loans := swept;
  }

  /** Running the sweep twice is running it once. */
  lemma SweepIdempotent(loans: seq<Loan>, now: int)
    ensures MarkOverdue(MarkOverdue(loans, now), now) == MarkOverdue(loans, now)
  {
  }

  /** The sweep changes exactly the loans the overdue query lists. */
  lemma SweepMatchesOverdueQuery(loans: seq<Loan>, now: int)
    ensures forall i :: 0 <= i < |loans| ==>
      (MarkOverdue(loans, now)[i] != loans[i] <==> loans[i] in OverdueLoans(loans, now))
  {
    var q := OverdueLoans(loans, now);
    forall i | 0 <= i < |loans| && loans[i] in q ensures IsLate(loans[i], now) {
      var j :| 0 <= j < |q| && q[j] == loans[i];
    }
  }

  /** After the sweep the overdue query is empty, and no borrower is held
      back by a late loan any more. */
  lemma SweepClearsLateLoans(loans: seq<Loan>, now: int, userId: UserId)
    ensures OverdueLoans(MarkOverdue(loans, now), now) == []
    ensures !HoldsLateLoan(MarkOverdue(loans, now), userId, now)
  {
    var q := OverdueLoans(MarkOverdue(loans, now), now);
    if q != [] {
      assert false;
    }
  }

  /** The sweep keeps the number of outstanding loans (BORROWED or OVERDUE)
      and of returned ones. */
  lemma {:induction false} SweepKeepsOutstanding(loans: seq<Loan>, now: int)
    ensures var swept := MarkOverdue(loans, now);
      && Count(swept, IsBorrowedLoan) + Count(swept, IsOverdueLoan) == Count(loans, IsBorrowedLoan) + Count(loans, IsOverdueLoan)
      && Count(swept, IsReturnedLoan) == Count(loans, IsReturnedLoan)
  {
    var swept := MarkOverdue(loans, now);
    CountPointwise(loans, swept, IsReturnedLoan);
    LoanStatusPartition(loans);
    LoanStatusPartition(swept);
  }

  // ------------------------------------------------------------------ stats

  /** Every loan is BORROWED, OVERDUE or RETURNED. */
  lemma {:induction false} LoanStatusPartition(loans: seq<Loan>)
    ensures Count(loans, IsBorrowedLoan) + Count(loans, IsOverdueLoan) + Count(loans, IsReturnedLoan) == |loans|
  {
    if loans != [] {
      LoanStatusPartition(loans[1..]);
    }
  }

  /** A RETURNED loan that carries a positive fine. */
  predicate FinedReturn(l: Loan)
  {
    l.status == Returned && l.fine.Some? && l.fine.value > 0
  }

  function FineOf(l: Loan): int { if l.fine.Some? then l.fine.value else 0 }

  datatype BorrowingStats = BorrowingStats(totalBorrowed: nat, overdueCount: nat, totalFines: int)

  /** `getBorrowingStats`: the BORROWED count, the OVERDUE count, and the
      fines collected on returns (0 when there are none). */
  function GetBorrowingStats(loans: seq<Loan>): (r: BorrowingStats)
    ensures r.totalBorrowed + r.overdueCount <= |loans|
    ensures r.totalFines >= 0
    ensures r.totalFines > 0 <==> exists i :: 0 <= i < |loans| && FinedReturn(loans[i])
  {
    LoanStatusPartition(loans);
    var fined := Filter(loans, FinedReturn);
    SumOfPositives(fined, FineOf);
    assert fined != [] ==> exists i :: 0 <= i < |loans| && FinedReturn(loans[i]) by {
      if fined != [] {
        assert fined[0] in loans;
      }
    }
    BorrowingStats(Count(loans, IsBorrowedLoan), Count(loans, IsOverdueLoan), Sum(fined, FineOf))
  }
}
