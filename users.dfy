/** The student-facing reads of the user service: a student's dashboard
    and the admin's paged list of students. */
module Users {
  import opened Wrappers
  import opened Seqs
  import opened Schema
  import opened Borrowing

  /** The user with id `id`, if any (the ORM's `findUnique`). */
  function FindUser(users: seq<User>, id: UserId): (r: Option<User>)
    ensures r.Some? ==> r.value in users && r.value.id == id
    ensures r.None? ==> forall i :: 0 <= i < |users| ==> users[i].id != id
  {
    if users == [] then None
    else if users[0].id == id then Some(users[0])
    else
      var r := FindUser(users[1..], id);
      assert forall i :: 1 <= i < |users| ==> users[i] == users[1..][i - 1];
      r
  }

  /** Descending `borrowDate` and `requestDate` as ascending keys. */
  function NewestLoanFirst(l: Loan): int { -l.borrowDate }
  function NewestRequestFirst(r: PdfRequest): int { -r.requestDate }

  predicate LoanOf(l: Loan, userId: UserId) { l.userId == userId }
  predicate RequestOf(r: PdfRequest, userId: UserId) { r.userId == userId }

  /** The student's loans, newest first. */
  function LoansOf(loans: seq<Loan>, userId: UserId): (r: seq<Loan>)
    ensures SortedBy(r, NewestLoanFirst)
    ensures forall i :: 0 <= i < |r| ==> r[i] in loans && r[i].userId == userId
    ensures forall i :: 0 <= i < |loans| && loans[i].userId == userId ==> loans[i] in r
    ensures |r| == Count(loans, (l: Loan) => LoanOf(l, userId))
    ensures multiset(r) == multiset(Filter(loans, (l: Loan) => LoanOf(l, userId)))
  {
    SortedFilter(loans, (l: Loan) => LoanOf(l, userId), NewestLoanFirst)
  }

  /** The student's PDF requests, newest first. */
  function RequestsOf(requests: seq<PdfRequest>, userId: UserId): (r: seq<PdfRequest>)
    ensures SortedBy(r, NewestRequestFirst)
    ensures forall i :: 0 <= i < |r| ==> r[i] in requests && r[i].userId == userId
    ensures forall i :: 0 <= i < |requests| && requests[i].userId == userId ==> requests[i] in r
    ensures |r| == Count(requests, (q: PdfRequest) => RequestOf(q, userId))
    ensures multiset(r) == multiset(Filter(requests, (q: PdfRequest) => RequestOf(q, userId)))
  {
    SortedFilter(requests, (q: PdfRequest) => RequestOf(q, userId), NewestRequestFirst)
  }

  /** The student's loans still BORROWED past their due date, in the order
      of `LoansOf`: newest first, each late loan of the student once. */
  function LateLoansListed(loans: seq<Loan>, userId: UserId, now: int): (r: seq<Loan>)
    ensures forall i :: 0 <= i < |r| ==> r[i] in loans && r[i].userId == userId && IsLate(r[i], now)
    ensures forall i :: 0 <= i < |loans| && loans[i].userId == userId && IsLate(loans[i], now) ==> loans[i] in r
    ensures SortedBy(r, NewestLoanFirst)
    ensures multiset(r) == multiset(Filter(loans, (l: Loan) => LoanOf(l, userId) && IsLate(l, now)))
    ensures |r| == Count(loans, (l: Loan) => LoanOf(l, userId) && IsLate(l, now))
  {
    var mine := LoansOf(loans, userId);
    var r := Filter(mine, (l: Loan) => IsLate(l, now));
    LateOfMineListed(loans, mine, r, userId, now);
    FilterKeepsSorted(mine, (l: Loan) => IsLate(l, now), NewestLoanFirst);
    LateOfMineCounted(loans, userId, now);
    r
  }

  /** The late loans among the student's loans are, copy for copy, the
      loans that are the student's and late. */
  lemma LateOfMineCounted(loans: seq<Loan>, userId: UserId, now: int)
    ensures multiset(Filter(LoansOf(loans, userId), (l: Loan) => IsLate(l, now)))
         == multiset(Filter(loans, (l: Loan) => LoanOf(l, userId) && IsLate(l, now)))
  {
    var mine := LoansOf(loans, userId);
    var late := (l: Loan) => IsLate(l, now);
    var own := (l: Loan) => LoanOf(l, userId);
    var both := (l: Loan) => LoanOf(l, userId) && IsLate(l, now);
    FilterMultiplicity(mine, late);
    FilterMultiplicity(loans, own);
    FilterMultiplicity(loans, both);
    assert multiset(mine) == multiset(Filter(loans, own));
    assert forall x :: multiset(Filter(mine, late))[x] == multiset(Filter(loans, both))[x];
  }

  lemma LateOfMineListed(loans: seq<Loan>, mine: seq<Loan>, r: seq<Loan>, userId: UserId, now: int)
    requires forall i :: 0 <= i < |mine| ==> mine[i] in loans && mine[i].userId == userId
    requires forall i :: 0 <= i < |loans| && loans[i].userId == userId ==> loans[i] in mine
    requires forall i :: 0 <= i < |r| ==> r[i] in mine && IsLate(r[i], now)
    requires forall i :: 0 <= i < |mine| && IsLate(mine[i], now) ==> mine[i] in r
    ensures forall i :: 0 <= i < |r| ==> r[i] in loans && r[i].userId == userId && IsLate(r[i], now)
    ensures forall i :: 0 <= i < |loans| && loans[i].userId == userId && IsLate(loans[i], now) ==> loans[i] in r
  {
    forall i | 0 <= i < |r| ensures r[i] in loans && r[i].userId == userId {
      var j :| 0 <= j < |mine| && mine[j] == r[i];
    }
    forall i | 0 <= i < |loans| && loans[i].userId == userId && IsLate(loans[i], now) ensures loans[i] in r {
      var j :| 0 <= j < |mine| && mine[j] == loans[i];
    }
  }

  /** The dashboard's overdue list is non-empty exactly when `borrowBook`
      would refuse the student. */
  lemma LateListedIffBorrowBlocked(loans: seq<Loan>, userId: UserId, now: int)
    ensures |LateLoansListed(loans, userId, now)| > 0 <==> HoldsLateLoan(loans, userId, now)
  {
    var r := LateLoansListed(loans, userId, now);
    if HoldsLateLoan(loans, userId, now) {
      var i :| 0 <= i < |loans| && loans[i].userId == userId && IsLate(loans[i], now);
      assert loans[i] in r;
    }
    if |r| > 0 {
      var i :| 0 <= i < |loans| && loans[i] == r[0];
    }
  }

  datatype DashboardStats = DashboardStats(totalBorrowed: nat, overdueCount: nat, pendingRequests: nat)

  datatype Dashboard = Dashboard(
    user: User,
    borrowedBooks: seq<Loan>,
    pdfRequests: seq<PdfRequest>,
    overdueBooks: seq<Loan>,
    stats: DashboardStats)

  /** `getStudentDashboardData`: refuses an unknown user; otherwise the
      student's loans and requests newest first, the loans still BORROWED
      past their due date, and the counts: every loan in any status, the
      late ones, and the PENDING requests. */
  function StudentDashboard(users: seq<User>, loans: seq<Loan>, requests: seq<PdfRequest>, studentId: UserId, now: int)
    : (r: Outcome<Dashboard>)
    ensures r.Err? <==> forall i :: 0 <= i < |users| ==> users[i].id != studentId
    ensures r.Err? ==> r.error == UserNotFound
    ensures r.Ok? ==>
      var d := r.value;
      && d.user.id == studentId
      && d.borrowedBooks == LoansOf(loans, studentId)
      && d.pdfRequests == RequestsOf(requests, studentId)
      && d.overdueBooks == LateLoansListed(loans, studentId, now)
      && d.stats.totalBorrowed == Count(loans, (l: Loan) => LoanOf(l, studentId))
      && d.stats.overdueCount == |d.overdueBooks|
      && d.stats.pendingRequests == Count(d.pdfRequests, IsPendingRequest)
  {
    var user := FindUser(users, studentId);
    if user.None? then Err(UserNotFound)
    else
      var mine := LoansOf(loans, studentId);
      var mineRequests := RequestsOf(requests, studentId);
      var overdue := LateLoansListed(loans, studentId, now);
      Ok(Dashboard(user.value, mine, mineRequests, overdue,
                   DashboardStats(|mine|, |overdue|, Count(mineRequests, IsPendingRequest))))
  }

  /** After the overdue sweep the dashboard lists no overdue loan: loans
      stored as OVERDUE are not counted. */
  lemma DashboardAfterSweep(loans: seq<Loan>, studentId: UserId, now: int)
    ensures LateLoansListed(MarkOverdue(loans, now), studentId, now) == []
  {
    LateListedIffBorrowBlocked(MarkOverdue(loans, now), studentId, now);
    SweepClearsLateLoans(loans, now, studentId);
  }

  // --------------------------------------------------------------- students

  predicate IsStudent(u: User) { u.role == Student }

  function NewestUserFirst(u: User): int { -u.createdAt }

  /** A row of the student list: the user with the number of their loans
      and of their PDF requests (the `_count` the query includes). */
  datatype StudentSummary = StudentSummary(user: User, borrowedBooks: nat, pdfRequests: nat)

  /** Every student, newest first. */
  function Students(users: seq<User>): (r: seq<User>)
    ensures SortedBy(r, NewestUserFirst)
    ensures forall i :: 0 <= i < |r| ==> r[i] in users && IsStudent(r[i])
    ensures forall i :: 0 <= i < |users| && IsStudent(users[i]) ==> users[i] in r
    ensures |r| == Count(users, IsStudent)
    ensures multiset(r) == multiset(Filter(users, IsStudent))
  {
    SortedFilter(users, IsStudent, NewestUserFirst)
  }

  function Summarise(u: User, loans: seq<Loan>, requests: seq<PdfRequest>): StudentSummary
  {
    StudentSummary(u, Count(loans, (l: Loan) => LoanOf(l, u.id)), Count(requests, (q: PdfRequest) => RequestOf(q, u.id)))
  }

  /** Each user of `users` with their counts, in the same order; the counts
      are the lengths of the user's loan and request listings. */
  function SummariseAll(users: seq<User>, loans: seq<Loan>, requests: seq<PdfRequest>): (r: seq<StudentSummary>)
    ensures |r| == |users|
    ensures forall i :: 0 <= i < |users| ==> r[i].user == users[i]
    ensures forall i :: 0 <= i < |users| ==>
      r[i].borrowedBooks == |LoansOf(loans, users[i].id)| && r[i].pdfRequests == |RequestsOf(requests, users[i].id)|
  {
    seq(|users|, i requires 0 <= i < |users| => Summarise(users[i], loans, requests))
  }

  /** `getAllStudents`: one page of students, each with their counts, and
      the pagination block over all students. */
  function AllStudents(users: seq<User>, loans: seq<Loan>, requests: seq<PdfRequest>, page: int, limit: int): (r: Paged<StudentSummary>)
    requires page >= 1 && limit >= 1
    ensures |r.rows| <= limit
    ensures r.rows == SummariseAll(PageOf(Students(users), page, limit), loans, requests)
    ensures r.pagination.total == Count(users, IsStudent)
    ensures r.pagination.page == page && r.pagination.limit == limit
    ensures r.pagination.totalPages * limit >= r.pagination.total
    ensures r.pagination.totalPages == 0 || (r.pagination.totalPages - 1) * limit < r.pagination.total
  {
    var listing := PagedListing(Students(users), page, limit);
    Paged(SummariseAll(listing.rows, loans, requests), listing.pagination)
  }

  /** Paging through the student list shows every student, with their
      counts: the `i`-th student (newest first) is row `i % limit` of page
      `i / limit + 1`. */
  lemma StudentOnItsPage(users: seq<User>, loans: seq<Loan>, requests: seq<PdfRequest>, limit: int, i: nat)
    requires limit >= 1 && i < Count(users, IsStudent)
    ensures var r := AllStudents(users, loans, requests, i / limit + 1, limit);
            var s := Students(users)[i];
            && i % limit < |r.rows|
            && r.rows[i % limit].user == s
            && r.rows[i % limit].borrowedBooks == |LoansOf(loans, s.id)|
            && r.rows[i % limit].pdfRequests == |RequestsOf(requests, s.id)|
  {
    PageLocates(Students(users), limit, i);
  }
}
