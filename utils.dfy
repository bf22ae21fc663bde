/** The pure helpers of `lib/utils.ts`: fines, string shaping, format checks,
    book search, array pagination and status colours. */
module Utils {
  import opened Wrappers
  import opened Seqs
  import opened Text
  import opened Schema

  // ------------------------------------------------------------- fines

  /** `isOverdue`: the due date lies strictly before now. */
  predicate IsOverdue(dueDate: int, now: int)
  {
    dueDate < now
  }

  /** Once overdue a loan stays overdue, it is never overdue at its own due
      time, and a positive fine is only ever charged on an overdue loan. */
  lemma OverdueLasts(dueDate: int, now1: int, now2: int, dailyRate: int)
    requires now1 <= now2
    ensures IsOverdue(dueDate, now1) ==> IsOverdue(dueDate, now2)
    ensures !IsOverdue(dueDate, dueDate)
    ensures CalculateFine(dueDate, now1, dailyRate) != 0 ==> IsOverdue(dueDate, now1)
  {
  }

  /** The number of whole days from `from` to `to`, partial days dropped
      (`Math.floor` of the elapsed milliseconds over a day's). */
  function WholeDays(from: int, to: int): (d: nat)
    requires from <= to
    ensures d * DayMs <= to - from < (d + 1) * DayMs
  {
    (to - from) / DayMs
  }

  /** `calculateFine`: nothing unless overdue, otherwise the daily rate for
      every whole day late. */
  function CalculateFine(dueDate: int, now: int, dailyRate: int := DailyFine): (fine: int)
    ensures !IsOverdue(dueDate, now) ==> fine == 0
    ensures IsOverdue(dueDate, now) ==> fine == WholeDays(dueDate, now) * dailyRate
  {
    if !IsOverdue(dueDate, now) then 0 else WholeDays(dueDate, now) * dailyRate
  }

  /** A fine at a non-negative rate is never negative, is zero for less than a
      full day late, and is at least one daily rate from a full day on. */
  lemma FineBounds(dueDate: int, now: int, dailyRate: int)
    requires dailyRate >= 0
    ensures CalculateFine(dueDate, now, dailyRate) >= 0
    ensures now - dueDate < DayMs ==> CalculateFine(dueDate, now, dailyRate) == 0
    ensures now - dueDate >= DayMs ==> CalculateFine(dueDate, now, dailyRate) >= dailyRate
  {
    if now - dueDate >= DayMs {
      assert WholeDays(dueDate, now) >= 1;
      MultiplyMonotone(1, WholeDays(dueDate, now), dailyRate);
    }
  }

  /** The fine never shrinks as time goes on. */
  lemma FineMonotone(dueDate: int, now1: int, now2: int, dailyRate: int)
    requires now1 <= now2 && dailyRate >= 0
    ensures CalculateFine(dueDate, now1, dailyRate) <= CalculateFine(dueDate, now2, dailyRate)
  {
    if IsOverdue(dueDate, now1) {
      var d1, d2 := WholeDays(dueDate, now1), WholeDays(dueDate, now2);
      assert d1 <= d2;
      MultiplyMonotone(d1, d2, dailyRate);
    }
  }

  lemma MultiplyMonotone(a: nat, b: nat, c: nat)
    requires a <= b
    ensures a * c <= b * c
  {
  }

  /** Five days late costs 250 at the default rate, and so does five days
      and twenty-three hours: the partial day is dropped. */
  lemma FineExamples(now: int)
    ensures CalculateFine(now - 5 * DayMs, now) == 250
    ensures CalculateFine(now - (5 * DayMs + 23 * 60 * 60 * 1000), now) == 250
    ensures CalculateFine(now - (DayMs - 1), now) == 0
  {
    assert WholeDays(now - 5 * DayMs, now) == 5;
    assert WholeDays(now - (5 * DayMs + 23 * 60 * 60 * 1000), now) == 5;
    assert WholeDays(now - (DayMs - 1), now) == 0;
  }

  // ------------------------------------------------------------- strings

  /** JavaScript's `s.slice(start, end)`: negative positions count from the
      end, and both are clamped to the string. */
  function JsSlice<T>(s: seq<T>, start: int, end: int): (r: seq<T>)
    ensures 0 <= start <= end <= |s| ==> r == s[start..end]
    ensures |r| <= |s|
  {
    var from := if start < 0 then (if |s| + start < 0 then 0 else |s| + start)
                else Min(start, |s|);
    var to := if end < 0 then (if |s| + end < 0 then 0 else |s| + end)
              else Min(end, |s|);
    if from < to then s[from..to] else []
  }

  /** `capitalize`: the first character upper-cased, the rest lower-cased. */
  function Capitalize(s: string): (r: string)
    ensures |r| == |s|
    ensures s != [] ==> r[0] == UpperChar(s[0])
    ensures forall i :: 1 <= i < |s| ==> r[i] == LowerChar(s[i])
  {
    if s == [] then [] else [UpperChar(s[0])] + Lower(s[1..])
  }

  /** Capitalising twice is capitalising once. */
  lemma CapitalizeIdempotent(s: string)
    ensures Capitalize(Capitalize(s)) == Capitalize(s)
  {
    var c := Capitalize(s);
    if s != [] {
      assert UpperChar(UpperChar(s[0])) == UpperChar(s[0]);
      assert Capitalize(c)[0] == c[0];
    }
  }

  /** Capitalisation ignores the case the input was in. */
  lemma CapitalizeIgnoresCase(s: string)
    ensures Capitalize(Upper(s)) == Capitalize(s)
    ensures Capitalize(Lower(s)) == Capitalize(s)
  {
    var u, l := Upper(s), Lower(s);
    if s != [] {
      assert Capitalize(u)[0] == Capitalize(s)[0];
      assert Capitalize(l)[0] == Capitalize(s)[0];
      assert forall i :: 1 <= i < |s| ==> LowerChar(u[i]) == LowerChar(s[i]);
    }
  }

  /** `truncateText`: the text itself when it fits in `maxLength` characters,
      otherwise its `slice(0, maxLength)` followed by an ellipsis. */
  function TruncateText(text: string, maxLength: int): (r: string)
    ensures |text| <= maxLength ==> r == text
    ensures 0 <= maxLength < |text| ==> r == text[..maxLength] + "..." && |r| == maxLength + 3
    ensures maxLength < |text| ==> |r| >= 3 && r[..|r| - 3] <= text && r[|r| - 3..] == "..."
  {
    if |text| <= maxLength then text else JsSlice(text, 0, maxLength) + "..."
  }

  /** Truncating an already truncated text to the same length changes
      nothing. */
  lemma TruncateIdempotent(text: string, maxLength: nat)
    ensures TruncateText(TruncateText(text, maxLength), maxLength) == TruncateText(text, maxLength)
  {
    if maxLength < |text| {
      var t := TruncateText(text, maxLength);
      assert t[..maxLength] == text[..maxLength];
    }
  }

  // ------------------------------------------------------------- email

  /** One of the three parts of `/^[^\s@]+@[^\s@]+\.[^\s@]+$/`: non-empty,
      without whitespace or '@'. */
  predicate EmailPart(p: string)
  {
    |p| > 0 && forall i :: 0 <= i < |p| ==> !IsJsSpace(p[i]) && p[i] != '@'
  }

  /** The strings the email pattern matches, stated as the pattern's shape. */
  ghost predicate MatchesEmailPattern(s: string)
  {
    exists local, host, tld :: EmailPart(local) && EmailPart(host) && EmailPart(tld)
      && s == local + "@" + host + "." + tld
  }

  /** The first position of `c` in `s`. */
  function IndexOfChar(s: string, c: char): (r: Option<nat>)
    ensures r.Some? ==> r.value < |s| && s[r.value] == c && c !in s[..r.value]
    ensures r.None? ==> c !in s
  {
    if s == [] then None
    else if s[0] == c then Some(0)
    else
      var r := IndexOfChar(s[1..], c);
      assert s == [s[0]] + s[1..];
      if r.None? then None
      else
        assert s[..r.value + 1] == [s[0]] + s[1..][..r.value];
        Some(r.value + 1)
  }

  /** A '.' with at least one character on each side. */
  predicate HasInnerDot(d: string)
  {
    exists j :: 0 < j < |d| - 1 && d[j] == '.'
  }

  /** The check `isValidEmail` performs, as a scan: no whitespace, exactly
      one '@' and not at the start, and a dot strictly inside the part after
      it. */
  predicate EmailScan(s: string)
  {
    && (forall i :: 0 <= i < |s| ==> !IsJsSpace(s[i]))
    && var at := IndexOfChar(s, '@');
    && at.Some? && at.value > 0
    && '@' !in s[at.value + 1..]
    && HasInnerDot(s[at.value + 1..])
  }

  /** Every string the scan accepts matches the regular expression. */
  lemma EmailScanSound(s: string)
    requires EmailScan(s)
    ensures MatchesEmailPattern(s)
  {
    var k := IndexOfChar(s, '@').value;
    var d := s[k + 1..];
    var j :| 0 < j < |d| - 1 && d[j] == '.';
    var local, host, tld := s[..k], d[..j], d[j + 1..];
    assert d == host + "." + tld;
    assert s == local + "@" + host + "." + tld;
    assert EmailPart(local) by {
      forall i | 0 <= i < |local| ensures !IsJsSpace(local[i]) && local[i] != '@' {
        assert local[i] == s[i];
      }
    }
    assert EmailPart(host) by {
      forall i | 0 <= i < |host| ensures !IsJsSpace(host[i]) && host[i] != '@' {
        assert host[i] == s[k + 1 + i];
      }
    }
    assert EmailPart(tld) by {
      forall i | 0 <= i < |tld| ensures !IsJsSpace(tld[i]) && tld[i] != '@' {
        assert tld[i] == s[k + 2 + j + i];
      }
    }
  }

  /** Every string the regular expression matches is accepted by the scan. */
  lemma EmailScanComplete(local: string, host: string, tld: string)
    requires EmailPart(local) && EmailPart(host) && EmailPart(tld)
    ensures EmailScan(local + "@" + host + "." + tld)
  {
    var d := host + "." + tld;
    var s := local + "@" + d;
    assert local + "@" + host + "." + tld == s;
    assert s[|local|] == '@';
    assert s[|local| + 1..] == d;
    assert IndexOfChar(s, '@') == Some(|local|) by {
      var r := IndexOfChar(s, '@');
      assert forall i :: 0 <= i < |local| ==> s[i] == local[i];
    }
    assert d[|host|] == '.';
    forall i | 0 <= i < |d| ensures d[i] != '@' && !IsJsSpace(d[i]) {
      if i < |host| { assert d[i] == host[i]; }
      else if i > |host| { assert d[i] == tld[i - |host| - 1]; }
    }
    forall i | 0 <= i < |s| ensures !IsJsSpace(s[i]) {
      if i < |local| { assert s[i] == local[i]; }
      else if i > |local| { assert s[i] == d[i - |local| - 1]; }
    }
  }

  /** The scan accepts exactly the strings the regular expression matches. */
  lemma EmailScanMatchesPattern(s: string)
    ensures EmailScan(s) <==> MatchesEmailPattern(s)
  {
    if EmailScan(s) {
      EmailScanSound(s);
    }
    if MatchesEmailPattern(s) {
      var local, host, tld :| EmailPart(local) && EmailPart(host) && EmailPart(tld)
        && s == local + "@" + host + "." + tld;
      EmailScanComplete(local, host, tld);
    }
  }

  /** `isValidEmail`: `/^[^\s@]+@[^\s@]+\.[^\s@]+$/`, decided by the scan. */
  function IsValidEmail(s: string): (ok: bool)
    ensures ok <==> MatchesEmailPattern(s)
  {
    EmailScanMatchesPattern(s);
    EmailScan(s)
  }

  // ------------------------------------------------------------- student id

  /** The check `isValidStudentId` performs, position by position. */
  predicate StudentIdScan(s: string)
  {
    && |s| == 11
    && IsUpperAscii(s[0]) && IsUpperAscii(s[1])
    && s[2] == '/' && AllDigits(s[3..7])
    && s[7] == '/' && AllDigits(s[8..11])
  }

  predicate AllUpperAscii(s: string) { forall i :: 0 <= i < |s| ==> IsUpperAscii(s[i]) }

  /** A department code, a year and a serial number joined by '/' form a valid
      student id exactly when they are two capitals, four digits and three
      digits; and every valid id splits that way. */
  lemma StudentIdParts(s: string, dept: string, year: string, serial: string)
    requires |dept| == 2 && |year| == 4 && |serial| == 3
    ensures StudentIdScan(dept + "/" + year + "/" + serial)
            <==> AllUpperAscii(dept) && AllDigits(year) && AllDigits(serial)
    ensures StudentIdScan(s) ==>
              s == s[..2] + "/" + s[3..7] + "/" + s[8..] && AllUpperAscii(s[..2])
  {
    var t := dept + "/" + year + "/" + serial;
    assert t[3..7] == year && t[8..11] == serial;
    assert t[0] == dept[0] && t[1] == dept[1];
    if StudentIdScan(s) {
      assert s == s[..2] + "/" + s[3..7] + "/" + s[8..];
    }
  }

  /** The language of `/^[A-Z]{2}\/\d{4}\/\d{3}$/`: two capitals, four digits
      and three digits, joined by '/'. */
  ghost predicate MatchesStudentIdPattern(s: string)
  {
    exists dept, year, serial ::
      && |dept| == 2 && |year| == 4 && |serial| == 3
      && AllUpperAscii(dept) && AllDigits(year) && AllDigits(serial)
      && s == dept + "/" + year + "/" + serial
  }

  lemma StudentIdScanMatchesPattern(s: string)
    ensures StudentIdScan(s) <==> MatchesStudentIdPattern(s)
  {
    if StudentIdScan(s) {
      StudentIdParts(s, "AA", "0000", "000");
      assert AllDigits(s[3..7]) && AllDigits(s[8..]);
    }
    if MatchesStudentIdPattern(s) {
      var dept, year, serial :|
        && |dept| == 2 && |year| == 4 && |serial| == 3
        && AllUpperAscii(dept) && AllDigits(year) && AllDigits(serial)
        && s == dept + "/" + year + "/" + serial;
      StudentIdParts(s, dept, year, serial);
    }
  }

  /** `isValidStudentId`, e.g. "CS/2020/001". */
  function IsValidStudentId(s: string): (ok: bool)
    ensures ok <==> MatchesStudentIdPattern(s)
  {
    StudentIdScanMatchesPattern(s);
    StudentIdScan(s)
  }

  lemma StudentIdExamples()
    ensures IsValidStudentId("CS/2020/001")
    ensures !IsValidStudentId("cs/2020/001")
    ensures !IsValidStudentId("CS/20/0001")
  {
    assert AllDigits("CS/2020/001"[3..7]) by { assert "CS/2020/001"[3..7] == "2020"; }
    assert AllDigits("CS/2020/001"[8..11]) by { assert "CS/2020/001"[8..11] == "001"; }
  }

  // ------------------------------------------------------------- isbn

  predicate IsIsbnSeparator(c: char) { c == '-' || IsJsSpace(c) }

  predicate IsKeptIsbnChar(c: char) { !IsIsbnSeparator(c) }

  /** `isbn.replace(/[-\s]/g, '')`. */
  function StripIsbn(s: string): (r: string)
    ensures forall i :: 0 <= i < |r| ==> !IsIsbnSeparator(r[i])
  {
    Filter(s, IsKeptIsbnChar)
  }

  /** The check `isValidISBN` performs: after stripping separators, 10 or 13
      characters, all digits (`/^\d{10}(\d{3})?$/`). */
  predicate IsbnScan(s: string)
  {
    var c := StripIsbn(s);
    if |c| != 10 && |c| != 13 then false
    else (|c| == 10 || |c| == 13) && AllDigits(c)
  }

  /** Only digits and separators, with ten or thirteen digits in all. */
  predicate IsbnShape(s: string)
  {
    && (forall i :: 0 <= i < |s| ==> IsDigit(s[i]) || IsIsbnSeparator(s[i]))
    && (Count(s, IsDigit) == 10 || Count(s, IsDigit) == 13)
  }

  lemma IsbnScanMatchesShape(s: string)
    ensures IsbnScan(s) <==> IsbnShape(s)
  {
    var c := StripIsbn(s);
    if forall i :: 0 <= i < |s| ==> IsDigit(s[i]) || IsIsbnSeparator(s[i]) {
      forall i | 0 <= i < |s| ensures IsKeptIsbnChar(s[i]) == IsDigit(s[i]) {
        if IsDigit(s[i]) { DigitIsKept(s[i]); }
      }
      FilterCongruent(s, IsKeptIsbnChar, IsDigit);
      assert c == Filter(s, IsDigit);
    } else {
      var i :| 0 <= i < |s| && !IsDigit(s[i]) && !IsIsbnSeparator(s[i]);
      assert s[i] in c;
      var k :| 0 <= k < |c| && c[k] == s[i];
    }
  }

  /** `isValidISBN`. No check digit is computed, so a trailing 'X' is
      refused. */
  function IsValidISBN(s: string): (ok: bool)
    ensures ok <==> IsbnShape(s)
  {
    IsbnScanMatchesShape(s);
    IsbnScan(s)
  }

  /** Hyphens and whitespace anywhere in the input do not change the
      verdict. */
  lemma IsbnIgnoresSeparators(a: string, b: string, sep: char)
    requires IsIsbnSeparator(sep)
    ensures IsValidISBN(a + [sep] + b) == IsValidISBN(a + b)
  {
    StripDropsSeparator(a, b, sep);
  }

  lemma StripDropsSeparator(a: string, b: string, sep: char)
    requires IsIsbnSeparator(sep)
    ensures StripIsbn(a + [sep] + b) == StripIsbn(a + b)
  {
    FilterAppend(a + [sep], b, IsKeptIsbnChar);
    FilterAppend(a, [sep], IsKeptIsbnChar);
    FilterAppend(a, b, IsKeptIsbnChar);
    StripSeparator(sep);
  }

  lemma StripSeparator(sep: char)
    requires IsIsbnSeparator(sep)
    ensures Filter([sep], IsKeptIsbnChar) == []
  {
    assert !IsKeptIsbnChar(sep);
    assert [sep][1..] == [];
  }

  /** Ten or thirteen digits with no separators form a valid ISBN; no check
      digit is computed. */
  lemma IsbnAcceptsDigits(s: string)
    requires AllDigits(s) && (|s| == 10 || |s| == 13)
    ensures IsValidISBN(s)
  {
    forall i | 0 <= i < |s| ensures IsKeptIsbnChar(s[i]) {
      DigitIsKept(s[i]);
    }
    FilterAll(s, IsKeptIsbnChar);
    assert StripIsbn(s) == s;
  }

  lemma DigitIsKept(c: char)
    requires IsDigit(c)
    ensures IsKeptIsbnChar(c)
  {
  }

  /** Any letter left after stripping separators, such as the check
      character 'X', makes the ISBN invalid. */
  lemma IsbnRejectsNonDigit(s: string, i: nat)
    requires i < |s| && !IsDigit(s[i]) && !IsIsbnSeparator(s[i])
    ensures !IsValidISBN(s)
  {
    var c := StripIsbn(s);
    assert s[i] in c;
    var k :| 0 <= k < |c| && c[k] == s[i];
  }

  // ------------------------------------------------------------- search

  /** The lower-cased `term` occurs in the lower-cased title, author, isbn or
      category. */
  predicate MatchesTerm(b: Book, term: string)
  {
    || Contains(Lower(b.title), term)
    || Contains(Lower(b.author), term)
    || Contains(Lower(b.isbn), term)
    || Contains(Lower(b.category), term)
  }

  /** `searchBooks`: every book for a blank term, otherwise the books that
      match the lower-cased (untrimmed) term, in their original order. */
  function SearchBooks(books: seq<Book>, term: string): (r: seq<Book>)
    ensures IsBlank(term) ==> r == books
    ensures |r| <= |books|
    ensures !IsBlank(term) ==> forall i :: 0 <= i < |r| ==> r[i] in books && MatchesTerm(r[i], Lower(term))
    ensures !IsBlank(term) ==> forall i :: 0 <= i < |books| && MatchesTerm(books[i], Lower(term)) ==> books[i] in r
  {
    if IsBlank(term) then books
    else
      var t := Lower(term);
      Filter(books, b => MatchesTerm(b, t))
  }

  /** The search keeps the order of the list it is given. */
  lemma SearchBooksAppend(a: seq<Book>, b: seq<Book>, term: string)
    ensures SearchBooks(a + b, term) == SearchBooks(a, term) + SearchBooks(b, term)
  {
    if !IsBlank(term) {
      var t := Lower(term);
      FilterAppend(a, b, (x: Book) => MatchesTerm(x, t));
    }
  }

  /** The search ignores the case of the term. */
  lemma SearchBooksIgnoresCase(books: seq<Book>, term: string)
    ensures SearchBooks(books, Upper(term)) == SearchBooks(books, term)
  {
    var u := Upper(term);
    assert Lower(u) == Lower(term);
    assert IsBlank(u) == IsBlank(term) by {
      assert forall i :: 0 <= i < |term| ==> (IsJsSpace(u[i]) <==> IsJsSpace(term[i]));
    }
  }

  // ------------------------------------------------------------- pagination

  /** `Math.ceil(n / d)` for a whole `n` and `d`; `None` for a zero divisor,
      where JavaScript yields Infinity or NaN. */
  function JsCeilDiv(n: int, d: int): (r: Option<int>)
    ensures r.None? <==> d == 0
    ensures d > 0 ==> r.value * d >= n && (r.value - 1) * d < n
  {
    if d == 0 then None
    else if d > 0 then Some(-((-n) / d))
    else Some(-(n / -d))
  }

  datatype Paginated<T> = Paginated(data: seq<T>, page: int, limit: int, total: nat, totalPages: Option<int>)

  /** `paginateArray`: the slice from `(page - 1) * limit` to `page * limit`
      and the pagination block. */
  function PaginateArray<T>(a: seq<T>, page: int, limit: int): (r: Paginated<T>)
    ensures r.total == |a| && r.page == page && r.limit == limit
    ensures |r.data| <= |a|
  {
    var startIndex := (page - 1) * limit;
    var endIndex := startIndex + limit;
    Paginated(JsSlice(a, startIndex, endIndex), page, limit, |a|, JsCeilDiv(|a|, limit))
  }

  /** For a positive page and limit, `paginateArray` returns exactly the
      page the services' `skip`/`take` select, and the same page count. */
  lemma PaginateArrayIsPage<T>(a: seq<T>, page: int, limit: int)
    requires page >= 1 && limit >= 1
    ensures PaginateArray(a, page, limit).data == PageOf(a, page, limit)
    ensures |PaginateArray(a, page, limit).data| <= limit
    ensures PaginateArray(a, page, limit).totalPages == Some(CeilDiv(|a|, limit))
  {
    var start := (page - 1) * limit;
    assert start >= 0 by { MultiplyMonotone(0, page - 1, limit); }
    var c := JsCeilDiv(|a|, limit).value;
    var e := CeilDiv(|a|, limit);
    assert c * limit >= |a| && (c - 1) * limit < |a|;
    assert e * limit >= |a| && (e == 0 || (e - 1) * limit < |a|);
    if c < e {
      MultiplyMonotone(c, e - 1, limit);
    } else if c > e {
      MultiplyMonotone(e, c - 1, limit);
    }
  }

  // ------------------------------------------------------------- colours

  const Green := "text-green-600 bg-green-100"
  const Yellow := "text-yellow-600 bg-yellow-100"
  const Red := "text-red-600 bg-red-100"
  const Blue := "text-blue-600 bg-blue-100"
  const Gray := "text-gray-600 bg-gray-100"

  /** The statuses `getStatusColor` knows, lower-cased. */
  const KnownStatuses: set<string> :=
    {"active", "approved", "available", "pending", "overdue", "rejected", "suspended", "borrowed"}

  /** `getStatusColor`: the badge classes for a status, by its lower-cased
      name. */
  function GetStatusColor(status: string): (c: string)
    ensures c in {Green, Yellow, Red, Blue, Gray}
    ensures c == Gray <==> Lower(status) !in KnownStatuses
  {
    var s := Lower(status);
    if s in {"active", "approved", "available"} then Green
    else if s == "pending" then Yellow
    else if s in {"overdue", "rejected", "suspended"} then Red
    else if s == "borrowed" then Blue
    else Gray
  }

  /** The colour does not depend on the case of the status. */
  lemma StatusColorIgnoresCase(status: string)
    ensures GetStatusColor(Upper(status)) == GetStatusColor(status)
  {
    assert Lower(Upper(status)) == Lower(status);
  }

  /** The stored loan and request statuses get their intended colours. */
  lemma StatusColorsOfStoredStatuses()
    ensures GetStatusColor(LoanStatusName(Borrowed)) == Blue
    ensures GetStatusColor(LoanStatusName(Overdue)) == Red
    ensures GetStatusColor(LoanStatusName(Returned)) == Gray
    ensures GetStatusColor(RequestStatusName(Pending)) == Yellow
    ensures GetStatusColor(RequestStatusName(Approved)) == Green
    ensures GetStatusColor(RequestStatusName(Rejected)) == Red
  {
    assert Lower("BORROWED") == "borrowed";
    assert Lower("OVERDUE") == "overdue";
    assert Lower("RETURNED") == "returned";
    assert Lower("PENDING") == "pending";
    assert Lower("APPROVED") == "approved";
    assert Lower("REJECTED") == "rejected";
  }
}
