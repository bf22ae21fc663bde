/** The copy counters of a book against its loans. A book is balanced when
    its available copies plus the loans still holding one of its copies
    (BORROWED or OVERDUE) make up its total; then the available count never
    exceeds the total. Creating a book, lending, taking back, the overdue
    sweep and an edit that leaves the quantity alone keep every book
    balanced; an edit of the quantity while a copy is out does not, and the
    sequence create, borrow, edit, return ends with more copies available
    than the book has. */
module Stock {
  import opened Wrappers
  import opened Seqs
  import opened Schema
  import opened Store
  import opened Books
  import opened Borrowing

  /** A loan that still holds a copy of book `bookId`. */
  predicate HoldsCopy(l: Loan, bookId: int)
  {
    l.bookId == bookId && l.status != Returned
  }

  /** The copies of book `bookId` out on loan. */
  function Outstanding(loans: seq<Loan>, bookId: int): (n: nat)
    ensures n <= |loans|
    ensures n == 0 <==> forall i :: 0 <= i < |loans| ==> !HoldsCopy(loans[i], bookId)
  {
    var p := (l: Loan) => HoldsCopy(l, bookId);
    var r := Filter(loans, p);
    assert forall i :: 0 <= i < |loans| && HoldsCopy(loans[i], bookId) ==> loans[i] in r;
    assert r != [] ==> r[0] in loans && HoldsCopy(r[0], bookId);
    |r|
  }

  /** Every book's available copies and outstanding loans add up to its
      total. */
  ghost predicate Balanced(books: seq<Book>, loans: seq<Loan>)
  {
    forall i :: 0 <= i < |books| ==> books[i].available + Outstanding(loans, books[i].id) == books[i].total
  }

  /** In a balanced table no book has more copies available than it owns,
      and a book has all its copies in exactly when none is out on loan. */
  lemma BalancedBoundsStock(books: seq<Book>, loans: seq<Loan>)
    requires Balanced(books, loans)
    ensures forall i :: 0 <= i < |books| ==> books[i].available <= books[i].total
    ensures forall i :: 0 <= i < |books| ==>
      (books[i].available == books[i].total <==> forall j :: 0 <= j < |loans| ==> !HoldsCopy(loans[j], books[i].id))
    ensures forall i :: 0 <= i < |books| ==> books[i].total - books[i].available <= |loans|
  {
    forall i | 0 <= i < |books|
      ensures books[i].available == books[i].total <==> forall j :: 0 <= j < |loans| ==> !HoldsCopy(loans[j], books[i].id)
    {
      assert Outstanding(loans, books[i].id) == books[i].total - books[i].available;
    }
  }

  /** A new book has all its copies in, and no loan can point at its fresh
      key, so adding it keeps the table balanced. */
  lemma CreateKeepsBalance(books: seq<Book>, loans: seq<Loan>, b: Book)
    requires Balanced(books, loans)
    requires b.available == b.total
    requires forall i :: 0 <= i < |loans| ==> loans[i].bookId != b.id
    ensures Balanced(books + [b], loans)
  {
    assert Outstanding(loans, b.id) == 0;
    assert forall i :: 0 <= i < |books| ==> (books + [b])[i] == books[i];
  }

  /** In a consistent database every loan points at a key below the book
      counter, so the book `createBook` adds has no loans. */
  lemma NoLoanOfNextBook(
    books: seq<Book>, loans: seq<Loan>, requests: seq<PdfRequest>, notifications: seq<Notification>,
    nextBookId: int, nextLoanId: int, nextRequestId: int, nextNotificationId: int)
    requires Consistent(books, loans, requests, notifications, nextBookId, nextLoanId, nextRequestId, nextNotificationId)
    ensures forall i :: 0 <= i < |loans| ==> loans[i].bookId != nextBookId
  {
    forall i | 0 <= i < |loans| ensures loans[i].bookId != nextBookId {
      assert HasKey(books, BookKey, loans[i].bookId);
      var j :| 0 <= j < |books| && BookKey(books[j]) == loans[i].bookId;
    }
  }

  /** Lending a copy: one copy fewer in, one more loan holding it. */
  lemma {:induction false} LendKeepsBalance(books: seq<Book>, loans: seq<Loan>, loan: Loan)
    requires Balanced(books, loans)
    requires loan.status == Borrowed
    ensures Balanced(AdjustAvailable(books, loan.bookId, -1), loans + [loan])
  {
    var books' := AdjustAvailable(books, loan.bookId, -1);
    forall i | 0 <= i < |books'|
      ensures books'[i].available + Outstanding(loans + [loan], books'[i].id) == books'[i].total
    {
      var id := books[i].id;
      CountAppend(loans, loan, (l: Loan) => HoldsCopy(l, id));
    }
  }

  /** Taking a copy back: one copy more in, one loan fewer holding it. */
  lemma {:induction false} TakeBackKeepsBalance(books: seq<Book>, loans: seq<Loan>, k: nat, returned: Loan)
    requires Balanced(books, loans)
    requires k < |loans| && loans[k].status != Returned
    requires returned.bookId == loans[k].bookId && returned.status == Returned
    ensures Balanced(AdjustAvailable(books, loans[k].bookId, 1), loans[k := returned])
  {
    var books' := AdjustAvailable(books, loans[k].bookId, 1);
    forall i | 0 <= i < |books'|
      ensures books'[i].available + Outstanding(loans[k := returned], books'[i].id) == books'[i].total
    {
      var id := books[i].id;
      CountUpdate(loans, k, returned, (l: Loan) => HoldsCopy(l, id));
    }
  }

  /** The overdue sweep only moves loans from BORROWED to OVERDUE, both of
      which hold a copy. */
  lemma {:induction false} SweepKeepsBalance(books: seq<Book>, loans: seq<Loan>, now: int)
    requires Balanced(books, loans)
    ensures Balanced(books, MarkOverdue(loans, now))
  {
    var swept := MarkOverdue(loans, now);
    forall i | 0 <= i < |books|
      ensures books[i].available + Outstanding(swept, books[i].id) == books[i].total
    {
      var id := books[i].id;
      var p := (l: Loan) => HoldsCopy(l, id);
      assert forall j :: 0 <= j < |loans| ==> p(loans[j]) == p(swept[j]);
      CountPointwise(loans, swept, p);
    }
  }

  /** An edit that leaves the quantity out leaves both counters as they
      were. */
  lemma {:induction false} EditKeepsBalance(books: seq<Book>, loans: seq<Loan>, k: nat, u: BookUpdate)
    requires Balanced(books, loans)
    requires k < |books| && u.quantity.None?
    ensures Balanced(books[k := ApplyUpdate(books[k], u)], loans)
  {
  }

  /** An edit of the quantity sets both counters to it, so a book with a
      copy out is no longer balanced: the copy coming back will be counted
      on top of the new quantity. */
  lemma QuantityEditUnbalances(books: seq<Book>, loans: seq<Loan>, k: nat, u: BookUpdate)
    requires k < |books| && u.quantity.Some?
    requires Outstanding(loans, books[k].id) > 0
    ensures !Balanced(books[k := ApplyUpdate(books[k], u)], loans)
  {
    var books' := books[k := ApplyUpdate(books[k], u)];
    assert books'[k].available + Outstanding(loans, books'[k].id) != books'[k].total;
  }

  // ------------------------------------------------------------ statistics

  /** A loan not yet returned (BORROWED or OVERDUE). */
  predicate OutOnLoan(l: Loan) { l.status != Returned }

  /** The copies out on loan, added up over the catalogue. */
  function CopiesOut(books: seq<Book>, loans: seq<Loan>): int
  {
    if books == [] then 0 else Outstanding(loans, books[0].id) + CopiesOut(books[1..], loans)
  }

  /** One more loan adds one copy out to exactly the book it names, if the
      catalogue holds that book once. */
  lemma OutstandingAppend(loans: seq<Loan>, l: Loan, bookId: int)
    ensures Outstanding(loans + [l], bookId) == Outstanding(loans, bookId) + (if HoldsCopy(l, bookId) then 1 else 0)
  {
    CountAppend(loans, l, (x: Loan) => HoldsCopy(x, bookId));
  }

  lemma {:induction false} CopiesOutAppend(books: seq<Book>, loans: seq<Loan>, l: Loan, next: int)
    requires UniqueKeys(books, BookKey, next)
    ensures CopiesOut(books, loans + [l])
         == CopiesOut(books, loans) + (if OutOnLoan(l) && HasKey(books, BookKey, l.bookId) then 1 else 0)
  {
    if books != [] {
      var tail := books[1..];
      UniqueKeysTail(books, BookKey, next);
      CopiesOutAppend(tail, loans, l, next);
      OutstandingAppend(loans, l, books[0].id);
      if books[0].id == l.bookId {
        assert BookKey(books[0]) == l.bookId;
        assert !HasKey(tail, BookKey, l.bookId) by {
          forall i | 0 <= i < |tail| ensures BookKey(tail[i]) != l.bookId {
            assert tail[i] == books[i + 1];
          }
        }
      } else {
        assert HasKey(books, BookKey, l.bookId) == HasKey(tail, BookKey, l.bookId) by {
          if HasKey(books, BookKey, l.bookId) {
            var i :| 0 <= i < |books| && BookKey(books[i]) == l.bookId;
            assert i > 0 && tail[i - 1] == books[i];
          }
          if HasKey(tail, BookKey, l.bookId) {
            var i :| 0 <= i < |tail| && BookKey(tail[i]) == l.bookId;
            assert books[i + 1] == tail[i];
          }
        }
      }
    }
  }

  lemma {:induction false} CopiesOutOfNoLoans(books: seq<Book>)
    ensures CopiesOut(books, []) == 0
  {
    if books != [] {
      CopiesOutOfNoLoans(books[1..]);
    }
  }

  /** When every loan names a book of the catalogue, and each book is there
      once, the copies out add up to the loans not yet returned. */
  lemma {:induction false} CopiesOutCountsLoans(books: seq<Book>, loans: seq<Loan>, next: int)
    requires UniqueKeys(books, BookKey, next)
    requires forall i :: 0 <= i < |loans| ==> HasKey(books, BookKey, loans[i].bookId)
    ensures CopiesOut(books, loans) == Count(loans, OutOnLoan)
    decreases |loans|
  {
    if loans == [] {
      CopiesOutOfNoLoans(books);
    } else {
      var init := loans[..|loans| - 1];
      var l := loans[|loans| - 1];
      assert loans == init + [l];
      assert forall i :: 0 <= i < |init| ==> init[i] == loans[i];
      CopiesOutCountsLoans(books, init, next);
      CopiesOutAppend(books, init, l, next);
      CountAppend(init, l, OutOnLoan);
    }
  }

  /** In a balanced catalogue the copies owned minus the copies available
      are the copies out. */
  lemma {:induction false} BalancedStockGap(books: seq<Book>, loans: seq<Loan>)
    requires Balanced(books, loans)
    ensures TotalCopies(books) - TotalAvailable(books) == CopiesOut(books, loans)
  {
    if books != [] {
      var tail := books[1..];
      assert Balanced(tail, loans) by {
        assert forall i :: 0 <= i < |tail| ==> tail[i] == books[i + 1];
      }
      BalancedStockGap(tail, loans);
    }
  }

  /** `getBookStats` and `getBorrowingStats` agree: in a balanced catalogue
      whose loans all name one of its books, the copies owned minus the
      copies available are exactly the loans not yet returned, the BORROWED
      ones plus the OVERDUE ones, and the borrowed figure of both reports is
      the same. */
  lemma BookStatsMatchLoans(books: seq<Book>, loans: seq<Loan>, next: int)
    requires UniqueKeys(books, BookKey, next) && Balanced(books, loans)
    requires forall i :: 0 <= i < |loans| ==> HasKey(books, BookKey, loans[i].bookId)
    ensures var s := GetBookStats(books, loans);
            var b := GetBorrowingStats(loans);
            && s.totalBooks - s.availableBooks == Count(loans, OutOnLoan)
            && s.totalBooks - s.availableBooks == b.totalBorrowed + b.overdueCount
            && s.borrowedBooks == b.totalBorrowed
  {
    BalancedStockGap(books, loans);
    CopiesOutCountsLoans(books, loans, next);
    OutOnLoanCount(loans);
    var s := GetBookStats(books, loans);
    assert s.totalBooks == TotalCopies(books) && s.availableBooks == TotalAvailable(books);
    assert s.borrowedBooks == Count(loans, IsBorrowedLoan);
    var b := GetBorrowingStats(loans);
    assert b.totalBorrowed == Count(loans, IsBorrowedLoan) && b.overdueCount == Count(loans, IsOverdueLoan);
  }

  /** The loans not yet returned are the BORROWED ones and the OVERDUE
      ones. */
  lemma {:induction false} OutOnLoanCount(loans: seq<Loan>)
    ensures Count(loans, OutOnLoan) == Count(loans, IsBorrowedLoan) + Count(loans, IsOverdueLoan)
  {
    if loans != [] {
      OutOnLoanCount(loans[1..]);
    }
  }

  /** The database holds exactly one book, with key `id` and `available` of
      its `total` copies in. */
  ghost predicate OneBook(db: Database, id: int, available: int, total: int)
    reads db
  {
    |db.books| == 1 && db.books[0].id == id && db.books[0].available == available && db.books[0].total == total
  }

  /** Create a one-copy book, lend the copy, set the quantity to 1 while it
      is out, take it back: the book ends with 2 copies available out of 1. */
  method EditDuringLoan(now: int) returns (available: int, total: int)
    ensures available == 2 && total == 1
    ensures available > total
  {
    var db := new Database();
    var form := BookForm("Title", "Author", "978-0", "Science", "", 1, None, None, None);
    var created := CreateBook(db, form, now);
    assert created.Ok?;
    var id := created.value.id;
    assert db.books == [created.value];
    var loanId := LendOnlyCopy(db, id, now);
    SetQuantity(db, id, 1);
    TakeBackOnlyLoan(db, id, loanId, now);
    available, total := db.books[0].available, db.books[0].total;
  }

  /** Lends the one copy of the only book to a borrower with no loans. */
  method LendOnlyCopy(db: Database, id: int, now: int) returns (loanId: int)
    requires db.Valid() && OneBook(db, id, 1, 1) && db.loans == []
    modifies db`books, db`loans, db`nextLoanId, db`activities
    ensures db.Valid() && OneBook(db, id, 0, 1)
    ensures |db.loans| == 1 && db.loans[0].id == loanId && db.loans[0].bookId == id && db.loans[0].status == Borrowed
  {
    assert BookKey(db.books[0]) == id;
    assert FindBook(db.books, id).value == db.books[0];
    var lent := BorrowBook(db, id, "student", now);
    assert lent.Ok?;
    loanId := lent.value.id;
  }

  /** Sets the quantity of the only book to `q`. */
  method SetQuantity(db: Database, id: int, q: int)
    requires db.Valid() && |db.books| == 1 && db.books[0].id == id
    modifies db`books
    ensures db.Valid() && OneBook(db, id, q, q)
  {
    assert BookKey(db.books[0]) == id;
    var edit := BookUpdate(None, None, None, None, None, Some(q), None, None, None);
    var edited := UpdateBook(db, id, edit);
    assert edited.Ok?;
  }

  /** Takes back the only loan, which holds a copy of the only book. */
  method TakeBackOnlyLoan(db: Database, id: int, loanId: int, now: int)
    requires db.Valid() && |db.books| == 1 && db.books[0].id == id
    requires |db.loans| == 1 && db.loans[0].id == loanId && db.loans[0].bookId == id && db.loans[0].status != Returned
    modifies db`books, db`loans, db`activities
    ensures db.Valid()
    ensures OneBook(db, id, old(db.books[0].available) + 1, old(db.books[0].total))
  {
    assert LoanKey(db.loans[0]) == loanId;
    var back := ReturnBook(db, loanId, now);
    assert back.Ok?;
  }
}
