/** The PDF-request workflow: a student asks for a PDF of a book, an admin
    approves or rejects it once. PENDING moves to APPROVED or REJECTED, and
    both are final. */
module PdfRequests {
  import opened Wrappers
  import opened Seqs
  import opened Text
  import opened Schema
  import opened Store

  /** The requester already has a PENDING request for the book. */
  predicate HasPendingRequest(requests: seq<PdfRequest>, bookId: int, userId: UserId)
  {
    exists i :: 0 <= i < |requests| && requests[i].bookId == bookId && requests[i].userId == userId && requests[i].status == Pending
  }

  /** `createRequest`: refuses a missing book and a second PENDING request
      for the same book by the same student, changing nothing then;
      otherwise adds a PENDING request with the reason and logs it. */
  method CreateRequest(db: Database, bookId: int, userId: UserId, reason: string, now: int) returns (r: Outcome<PdfRequest>)
    requires db.Valid()
    modifies db`requests, db`nextRequestId, db`activities
    ensures db.Valid()
    ensures var found := old(FindBook(db.books, bookId));
      && (found.None? ==> r == Err(BookNotFound))
      && (found.Some? && old(HasPendingRequest(db.requests, bookId, userId)) ==> r == Err(PendingRequestExists))
      && (found.Some? && !old(HasPendingRequest(db.requests, bookId, userId)) ==> r.Ok?)
    ensures r.Err? ==>
      db.requests == old(db.requests) && db.nextRequestId == old(db.nextRequestId) && db.activities == old(db.activities)
    ensures r.Ok? ==>
      && r.value == PdfRequest(old(db.nextRequestId), bookId, userId, now, Pending, reason, None, None, None)
      && db.requests == old(db.requests) + [r.value]
      && db.nextRequestId == old(db.nextRequestId) + 1
      && db.activities == old(db.activities)
           + [Activity("PDF requested", userId, Student, Some(bookId), Some(old(FindBook(db.books, bookId)).value.title), now, NoDetails)]
  {
    var k := IndexOf(db.books, BookKey, bookId);
    if k.None? {
      return Err(BookNotFound);
    }
    if HasPendingRequest(db.requests, bookId, userId) {
      return Err(PendingRequestExists);
    }
    var request := PdfRequest(db.nextRequestId, bookId, userId, now, Pending, reason, None, None, None);
    FileRequestKeepsConsistent(db.books, db.loans, db.requests, db.notifications,
      db.nextBookId, db.nextLoanId, db.nextRequestId, db.nextNotificationId, request);
    db.requests := db.requests + [request];
    db.nextRequestId := db.nextRequestId + 1;
    db.activities := db.activities + [Activity("PDF requested", userId, Student, Some(bookId), Some(db.books[k.value].title), now, NoDetails)];
    r := Ok(request);
  }

  /** Filing a PENDING request for an existing book, when the student has
      none pending for it, keeps the schema's constraints. */
  lemma FileRequestKeepsConsistent(
    books: seq<Book>, loans: seq<Loan>, requests: seq<PdfRequest>, notifications: seq<Notification>,
    nextBookId: int, nextLoanId: int, nextRequestId: int, nextNotificationId: int, request: PdfRequest)
    requires Consistent(books, loans, requests, notifications, nextBookId, nextLoanId, nextRequestId, nextNotificationId)
    requires request.id == nextRequestId && HasKey(books, BookKey, request.bookId)
    requires !HasPendingRequest(requests, request.bookId, request.userId)
    ensures Consistent(books, loans, requests + [request], notifications,
                       nextBookId, nextLoanId, nextRequestId + 1, nextNotificationId)
  {
    UniqueKeysAppend(requests, RequestKey, nextRequestId, request);
    ReferencesAppendRequest(books, loans, requests, request);
    var rs := requests + [request];
    assert forall i :: 0 <= i < |requests| ==> rs[i] == requests[i];
  }

  // --------------------------------------------------------------- decision

  /** The two outcomes an admin can give. */
  datatype Decision = Approve | Reject

  function DecisionStatus(d: Decision): (s: RequestStatus)
    ensures s != Pending
  {
    match d
    case Approve => Approved
    case Reject => Rejected
  }

  /** The status in lower case, as the activity and the message word it. */
  function DecisionVerb(d: Decision): (w: string)
    ensures w == Lower(RequestStatusName(DecisionStatus(d)))
  {
    match d
    case Approve => "approved"
    case Reject => "rejected"
  }

  /** The notification text: `Your PDF request for "<title>" has been
      approved.` (or `rejected.`). */
  function DecisionMessage(title: string, d: Decision): string
  {
    "Your PDF request for \"" + title + "\" has been " + DecisionVerb(d) + "."
  }

  /** The request after a decision: the new status, the admin's notes, the
      URL only on approval, and the processing time. */
  function Decide(request: PdfRequest, d: Decision, adminNotes: Option<string>, pdfUrl: Option<string>, now: int): (r: PdfRequest)
    ensures r.id == request.id && r.bookId == request.bookId && r.userId == request.userId
    ensures r.requestDate == request.requestDate && r.reason == request.reason
    ensures r.status != Pending && r.status == DecisionStatus(d)
    ensures r.pdfUrl.Some? ==> d == Approve && r.pdfUrl == pdfUrl
    ensures d == Approve ==> r.pdfUrl == pdfUrl
    ensures r.adminNotes == adminNotes && r.processedDate == Some(now)
  {
    request.(status := DecisionStatus(d), adminNotes := adminNotes,
             pdfUrl := if d == Approve then pdfUrl else None, processedDate := Some(now))
  }

  /** The activity a decision logs: `PDF request approved` (or `rejected`)
      against the requester and the book, with the notes and the URL as the
      admin supplied them. */
  function DecisionEntry(request: PdfRequest, title: string, d: Decision, adminNotes: Option<string>, pdfUrl: Option<string>, now: int): (a: Activity)
    ensures a.action == "PDF request " + Lower(RequestStatusName(DecisionStatus(d)))
    ensures a.userId == request.userId && a.bookId == Some(request.bookId) && a.bookTitle == Some(title)
    ensures a.details == DecisionDetails(adminNotes, pdfUrl)
  {
    Activity("PDF request " + DecisionVerb(d), request.userId, Student, Some(request.bookId), Some(title), now, DecisionDetails(adminNotes, pdfUrl))
  }

  /** The notification a decision sends the requester, unread: titled
      `PDF Request APPROVED` (or `REJECTED`), of type SUCCESS exactly on
      approval and WARNING otherwise. */
  function DecisionNote(id: int, request: PdfRequest, title: string, d: Decision, now: int): (n: Notification)
    ensures n.id == id && n.userId == request.userId && !n.read
    ensures n.title == "PDF Request " + RequestStatusName(DecisionStatus(d))
    ensures n.message == DecisionMessage(title, d)
    ensures n.kind == Success <==> d == Approve
    ensures n.kind == Warning <==> d == Reject
  {
    Notification(id, request.userId, "PDF Request " + RequestStatusName(DecisionStatus(d)),
                 DecisionMessage(title, d), if d == Approve then Success else Warning, false, now)
  }

  /** `updateRequestStatus`: refuses an unknown request and one already
      decided, changing nothing then; otherwise records the decision, logs
      it with the notes and the URL as supplied, and notifies the student:
      SUCCESS on approval, WARNING on rejection. */
  method UpdateRequestStatus(db: Database, requestId: int, d: Decision, adminNotes: Option<string>, pdfUrl: Option<string>, now: int)
    returns (r: Outcome<PdfRequest>)
    requires db.Valid()
    modifies db`requests, db`activities, db`notifications, db`nextNotificationId
    ensures db.Valid()
    ensures var k := old(IndexOf(db.requests, RequestKey, requestId));
      && (k.None? ==> r == Err(RequestNotFound))
      && (k.Some? && old(db.requests)[k.value].status != Pending ==> r == Err(AlreadyProcessed))
      && (k.Some? && old(db.requests)[k.value].status == Pending ==> r.Ok?)
    ensures r.Err? ==>
      && db.requests == old(db.requests) && db.activities == old(db.activities)
      && db.notifications == old(db.notifications) && db.nextNotificationId == old(db.nextNotificationId)
    ensures r.Ok? ==>
      old(HasKey(db.requests, RequestKey, requestId)) &&
      var k := old(IndexOf(db.requests, RequestKey, requestId)).value;
      var request := old(db.requests)[k];
      var title := old(FindBook(db.books, request.bookId)).value.title;
      && r.value == Decide(request, d, adminNotes, pdfUrl, now)
      && db.requests == old(db.requests)[k := r.value]
      && db.activities == old(db.activities) + [DecisionEntry(request, title, d, adminNotes, pdfUrl, now)]
      && db.notifications == old(db.notifications) + [DecisionNote(old(db.nextNotificationId), request, title, d, now)]
      && db.nextNotificationId == old(db.nextNotificationId) + 1
  {
    var k := IndexOf(db.requests, RequestKey, requestId);
    if k.None? {
      return Err(RequestNotFound);
    }
    var request := db.requests[k.value];
    if request.status != Pending {
      return Err(AlreadyProcessed);
    }
    assert HasKey(db.books, BookKey, request.bookId);
    var title := FindBook(db.books, request.bookId).value.title;
    var decided := Decide(request, d, adminNotes, pdfUrl, now);
    var note := DecisionNote(db.nextNotificationId, request, title, d, now);
    var entry := DecisionEntry(request, title, d, adminNotes, pdfUrl, now);
    DecideKeepsConsistent(db.books, db.loans, db.requests, db.notifications,
      db.nextBookId, db.nextLoanId, db.nextRequestId, db.nextNotificationId, k.value, decided, note);
    RecordDecision(db, db.requests[k.value := decided], entry, note);
    r := Ok(decided);
  }

  /** The writes of a decision: the new request table, one activity and one
      notification with the next id. */
  method RecordDecision(db: Database, requests: seq<PdfRequest>, entry: Activity, note: Notification)
    requires Consistent(db.books, db.loans, requests, db.notifications + [note],
                        db.nextBookId, db.nextLoanId, db.nextRequestId, db.nextNotificationId + 1)
    modifies db`requests, db`activities, db`notifications, db`nextNotificationId
    ensures db.Valid()
    ensures db.requests == requests && db.activities == old(db.activities) + [entry]
    ensures db.notifications == old(db.notifications) + [note] && db.nextNotificationId == old(db.nextNotificationId) + 1
  {
    db.requests, db.activities, db.notifications, db.nextNotificationId :=
      requests, db.activities + [entry], db.notifications + [note], db.nextNotificationId + 1;
  }

  /** Deciding request `k` (keeping its key and book, leaving PENDING) and
      adding a notification with the next id keeps the schema's constraints. */
  lemma DecideKeepsConsistent(
    books: seq<Book>, loans: seq<Loan>, requests: seq<PdfRequest>, notifications: seq<Notification>,
    nextBookId: int, nextLoanId: int, nextRequestId: int, nextNotificationId: int,
    k: nat, decided: PdfRequest, note: Notification)
    requires Consistent(books, loans, requests, notifications, nextBookId, nextLoanId, nextRequestId, nextNotificationId)
    requires k < |requests| && decided.id == requests[k].id && decided.bookId == requests[k].bookId
    requires decided.status != Pending && note.id == nextNotificationId
    ensures Consistent(books, loans, requests[k := decided], notifications + [note],
                       nextBookId, nextLoanId, nextRequestId, nextNotificationId + 1)
  {
    var rs := requests[k := decided];
    assert SameKeys(requests, rs, RequestKey);
    SameKeysPreserve(requests, rs, RequestKey, nextRequestId);
    ReferencesRewrite(books, loans, requests, books, loans, rs);
    UniqueKeysAppend(notifications, NotificationKey, nextNotificationId, note);
  }

  /** A client deciding the same request twice: once it is decided, the
      second decision is refused, whatever notes and link either carries,
      and leaves the request as the first made it. */
  method DecideTwice(db: Database, requestId: int, first: Decision, second: Decision,
                     notes1: Option<string>, url1: Option<string>, notes2: Option<string>, url2: Option<string>,
                     now: int, later: int)
    returns (r1: Outcome<PdfRequest>, r2: Outcome<PdfRequest>)
    requires db.Valid()
    modifies db`requests, db`activities, db`notifications, db`nextNotificationId
    ensures db.Valid()
    ensures r1.Ok? ==> r2 == Err(AlreadyProcessed) && r1.value in db.requests
    ensures r1.Err? ==> r2 == r1
  {
    ghost var k := IndexOf(db.requests, RequestKey, requestId);
    r1 := UpdateRequestStatus(db, requestId, first, notes1, url1, now);
    if r1.Err? {
      r2 := r1;
      return;
    }
    assert db.requests[k.value].id == requestId && db.requests[k.value].status != Pending;
    IndexOfUnique(db.requests, RequestKey, db.nextRequestId, k.value);
    ghost var decided := db.requests;
    r2 := UpdateRequestStatus(db, requestId, second, notes2, url2, later);
    assert db.requests == decided;
  }

  // ---------------------------------------------------------------- reads

  /** The status filter of the two listings: absent or empty means no
      filter; otherwise the upper-cased value must name a status, and the
      database refuses any other value. */
  function StatusFilter(status: Option<string>): (r: Outcome<Option<RequestStatus>>)
    ensures status.None? || status.value == "" ==> r == Ok(None)
    ensures status.Some? && status.value != "" ==>
      (r.Ok? <==> Upper(status.value) in {"PENDING", "APPROVED", "REJECTED"})
    ensures r.Ok? && r.value.Some? ==> status.Some? && RequestStatusName(r.value.value) == Upper(status.value)
    ensures r.Err? ==> r.error == InvalidStatusFilter(Upper(status.value))
  {
    if status.None? || status.value == "" then Ok(None)
    else
      var name := Upper(status.value);
      var parsed := ParseRequestStatus(name);
      if parsed.None? then Err(InvalidStatusFilter(name)) else Ok(Some(parsed.value))
  }

  /** The filter does not care about the case of the value given. */
  lemma StatusFilterIgnoresCase(status: string)
    ensures StatusFilter(Some(Lower(status))) == StatusFilter(Some(status))
  {
    assert Upper(Lower(status)) == Upper(status);
  }

  predicate StatusHit(r: PdfRequest, status: Option<RequestStatus>)
  {
    status.None? || r.status == status.value
  }

  /** Descending `requestDate` as an ascending key. */
  function NewestRequestFirst(r: PdfRequest): int { -r.requestDate }

  /** A request of `owner` (of anyone when absent) whose status passes the
      filter. */
  predicate RequestListed(q: PdfRequest, owner: Option<UserId>, status: Option<RequestStatus>)
  {
    StatusHit(q, status) && (owner.Some? ==> q.userId == owner.value)
  }

  /** The requests of `owner` (every request when absent) whose status
      passes the filter, newest first, each once. */
  function MatchingRequests(requests: seq<PdfRequest>, owner: Option<UserId>, status: Option<RequestStatus>): (r: seq<PdfRequest>)
    ensures SortedBy(r, NewestRequestFirst)
    ensures forall i :: 0 <= i < |r| ==> r[i] in requests && StatusHit(r[i], status) && (owner.Some? ==> r[i].userId == owner.value)
    ensures forall i :: 0 <= i < |requests| && StatusHit(requests[i], status) && (owner.Some? ==> requests[i].userId == owner.value) ==>
              requests[i] in r
    ensures |r| == Count(requests, (q: PdfRequest) => RequestListed(q, owner, status))
    ensures multiset(r) == multiset(Filter(requests, (q: PdfRequest) => RequestListed(q, owner, status)))
  {
    SortedFilter(requests, (q: PdfRequest) => RequestListed(q, owner, status), NewestRequestFirst)
  }

  /** `getUserRequests`: the student's requests, filtered and newest first. */
  function UserRequests(requests: seq<PdfRequest>, userId: UserId, status: Option<string>): (r: Outcome<seq<PdfRequest>>)
    ensures r.Err? <==> StatusFilter(status).Err?
    ensures r.Ok? ==> forall i :: 0 <= i < |r.value| ==> r.value[i].userId == userId && r.value[i] in requests
  {
    var filter := StatusFilter(status);
    if filter.Err? then Err(filter.error) else Ok(MatchingRequests(requests, Some(userId), filter.value))
  }

  /** `getAllRequests`: one page of every request passing the filter, newest
      first, with the pagination block. */
  function AllRequests(requests: seq<PdfRequest>, status: Option<string>, page: int, limit: int): (r: Outcome<Paged<PdfRequest>>)
    requires page >= 1 && limit >= 1
    ensures r.Err? <==> StatusFilter(status).Err?
  {
    var filter := StatusFilter(status);
    if filter.Err? then Err(filter.error)
    else Ok(PagedListing(MatchingRequests(requests, None, filter.value), page, limit))
  }

  datatype RequestStats = RequestStats(pending: nat, approved: nat, rejected: nat, total: nat)

  predicate IsApprovedRequest(r: PdfRequest) { r.status == Approved }
  predicate IsRejectedRequest(r: PdfRequest) { r.status == Rejected }

  /** `getRequestStats`: the count in each status and the total; the three
      statuses account for every request. */
  function GetRequestStats(requests: seq<PdfRequest>): (r: RequestStats)
    ensures r.pending + r.approved + r.rejected == r.total == |requests|
  {
    RequestStatusPartition(requests);
    RequestStats(Count(requests, IsPendingRequest), Count(requests, IsApprovedRequest), Count(requests, IsRejectedRequest), |requests|)
  }

  lemma {:induction false} RequestStatusPartition(requests: seq<PdfRequest>)
    ensures Count(requests, IsPendingRequest) + Count(requests, IsApprovedRequest) + Count(requests, IsRejectedRequest) == |requests|
  {
    if requests != [] {
      RequestStatusPartition(requests[1..]);
    }
  }
}
