/** The catalogue service: adding and editing books, the filtered and paged
    listing, the category grouping and the stock sums. */
module Books {
  import opened Wrappers
  import opened Seqs
  import opened Text
  import opened Schema
  import opened Store
  import Utils

  /** The admin's book form with `quantity` and `publishedYear` already read
      as numbers; an empty or absent year is `None`. */
  datatype BookForm = BookForm(
    title: string,
    author: string,
    isbn: string,
    category: string,
    description: string,
    quantity: int,
    publishedYear: Option<int>,
    publisher: Option<string>,
    location: Option<string>)

  /** A partial form. `None` marks a field the caller left out; for
      `quantity` it also stands for the empty string, which the service
      treats as absent. */
  datatype BookUpdate = BookUpdate(
    title: Option<string>,
    author: Option<string>,
    isbn: Option<string>,
    category: Option<string>,
    description: Option<string>,
    quantity: Option<int>,
    publishedYear: Option<int>,
    publisher: Option<string>,
    location: Option<string>)

  // ------------------------------------------------------------- stock sums

  /** The sum of `total` over the catalogue. */
  function TotalCopies(books: seq<Book>): int { Sum(books, TotalOf) }

  /** The sum of `available` over the catalogue. */
  function TotalAvailable(books: seq<Book>): int { Sum(books, AvailableOf) }

  /** The ORM's `available: { increment: delta }` on the book `id`: that
      row's `available` moves by `delta`, every other field and row stays. */
  function AdjustAvailable(books: seq<Book>, id: int, delta: int): (r: seq<Book>)
    ensures |r| == |books|
    ensures forall i :: 0 <= i < |books| ==> r[i] == books[i].(available := r[i].available)
    ensures forall i :: 0 <= i < |books| && books[i].id != id ==> r[i] == books[i]
    ensures forall i :: 0 <= i < |books| && books[i].id == id ==> r[i].available == books[i].available + delta
  {
    seq(|books|, i requires 0 <= i < |books| =>
      if books[i].id == id then books[i].(available := books[i].available + delta) else books[i])
  }

  /** An increment leaves the keys and ISBNs of the table as they were. */
  lemma AdjustAvailableKeepsKeys(books: seq<Book>, id: int, delta: int, next: int)
    requires UniqueKeys(books, BookKey, next) && UniqueIsbns(books)
    ensures var r := AdjustAvailable(books, id, delta);
      && UniqueKeys(r, BookKey, next) && UniqueIsbns(r)
      && forall k :: HasKey(books, BookKey, k) ==> HasKey(r, BookKey, k)
  {
    var r := AdjustAvailable(books, id, delta);
    assert SameKeys(books, r, BookKey);
    SameKeysPreserve(books, r, BookKey, next);
  }

  /** An increment by `-delta` undoes an increment by `delta`. */
  lemma AdjustAvailableInverse(books: seq<Book>, id: int, delta: int)
    ensures AdjustAvailable(AdjustAvailable(books, id, delta), id, -delta) == books
  {
    var r := AdjustAvailable(AdjustAvailable(books, id, delta), id, -delta);
    assert forall i :: 0 <= i < |books| ==> r[i] == books[i];
  }

  /** Incrementing a book that is not in the table changes nothing. */
  lemma AdjustAbsent(books: seq<Book>, id: int, delta: int)
    requires !HasKey(books, BookKey, id)
    ensures AdjustAvailable(books, id, delta) == books
  {
    var r := AdjustAvailable(books, id, delta);
    forall i | 0 <= i < |books| ensures r[i] == books[i] {
      assert BookKey(books[i]) != id;
    }
  }

  /** When `id` is a key of the table, an increment by `delta` moves the
      catalogue's available stock by exactly `delta`. */
  lemma {:induction false} AdjustAvailableSum(books: seq<Book>, id: int, delta: int, next: int)
    requires UniqueKeys(books, BookKey, next) && HasKey(books, BookKey, id)
    ensures TotalAvailable(AdjustAvailable(books, id, delta)) == TotalAvailable(books) + delta
    ensures TotalCopies(AdjustAvailable(books, id, delta)) == TotalCopies(books)
  {
    var r := AdjustAvailable(books, id, delta);
    var tail := books[1..];
    assert r[1..] == AdjustAvailable(tail, id, delta);
    assert UniqueKeys(tail, BookKey, next) by {
      assert forall i :: 0 <= i < |tail| ==> tail[i] == books[i + 1];
    }
    if books[0].id == id {
      assert forall i :: 0 <= i < |tail| ==> BookKey(tail[i]) != id;
      AdjustAbsent(tail, id, delta);
    } else {
      assert HasKey(tail, BookKey, id) by {
        var i :| 0 <= i < |books| && BookKey(books[i]) == id;
        assert i > 0 && BookKey(tail[i - 1]) == id;
      }
      AdjustAvailableSum(tail, id, delta, next);
    }
  }

  // ----------------------------------------------------------- create, update

  /** A book other than `except` already carries `isbn`. */
  predicate IsbnHeldByOther(books: seq<Book>, isbn: string, except: int)
  {
    exists i :: 0 <= i < |books| && books[i].isbn == isbn && books[i].id != except
  }

  /** Some book already carries `isbn`. */
  predicate IsbnInUse(books: seq<Book>, isbn: string)
  {
    exists i :: 0 <= i < |books| && books[i].isbn == isbn
  }

  /** The row `createBook` inserts. */
  function NewBook(id: int, form: BookForm, now: int): Book
  {
    Book(id, form.title, form.author, form.isbn, form.category, form.description,
         form.quantity, form.quantity, form.publishedYear, form.publisher, form.location, now)
  }

  /** `createBook`: a new book whose available and total copies are both the
      quantity; the unique index on ISBN rejects a duplicate. */
  method CreateBook(db: Database, form: BookForm, now: int) returns (r: Outcome<Book>)
    requires db.Valid()
    modifies db`books, db`nextBookId
    ensures db.Valid()
    ensures r.Ok? <==> !IsbnInUse(old(db.books), form.isbn)
    ensures r.Err? ==> r.error == DuplicateIsbn && db.books == old(db.books) && db.nextBookId == old(db.nextBookId)
    ensures r.Ok? ==>
      && r.value == NewBook(old(db.nextBookId), form, now)
      && r.value.available == form.quantity && r.value.total == form.quantity
      && db.books == old(db.books) + [r.value]
      && db.nextBookId == old(db.nextBookId) + 1
      && TotalCopies(db.books) == TotalCopies(old(db.books)) + form.quantity
      && TotalAvailable(db.books) == TotalAvailable(old(db.books)) + form.quantity
  {
    if IsbnInUse(db.books, form.isbn) {
      return Err(DuplicateIsbn);
    }
    var b := NewBook(db.nextBookId, form, now);
    UniqueKeysAppend(db.books, BookKey, db.nextBookId, b);
    HasKeyAppend(db.books, BookKey, b);
    SumAppend(db.books, b, TotalOf);
    SumAppend(db.books, b, AvailableOf);
    db.books := db.books + [b];
    db.nextBookId := db.nextBookId + 1;
    r := Ok(b);
  }

  /** The row an update writes: each field given replaces the stored one, a
      given quantity overwrites both `available` and `total` whatever is on
      loan, and an absent `publishedYear` clears it. */
  function ApplyUpdate(b: Book, u: BookUpdate): (r: Book)
    ensures r.id == b.id && r.createdAt == b.createdAt
    ensures u.quantity.Some? ==> r.available == u.quantity.value && r.total == u.quantity.value
    ensures u.quantity.None? ==> r.available == b.available && r.total == b.total
    ensures r.publishedYear == u.publishedYear
    ensures r.isbn == (if u.isbn.Some? then u.isbn.value else b.isbn)
  {
    Book(
      b.id,
      if u.title.Some? then u.title.value else b.title,
      if u.author.Some? then u.author.value else b.author,
      if u.isbn.Some? then u.isbn.value else b.isbn,
      if u.category.Some? then u.category.value else b.category,
      if u.description.Some? then u.description.value else b.description,
      if u.quantity.Some? then u.quantity.value else b.available,
      if u.quantity.Some? then u.quantity.value else b.total,
      u.publishedYear,
      if u.publisher.Some? then u.publisher else b.publisher,
      if u.location.Some? then u.location else b.location,
      b.createdAt)
  }

  /** `updateBook`: a missing book and an ISBN another book carries are
      refused by the database; otherwise the row becomes `ApplyUpdate`. */
  method UpdateBook(db: Database, id: int, u: BookUpdate) returns (r: Outcome<Book>)
    requires db.Valid()
    modifies db`books
    ensures db.Valid()
    ensures var k := old(IndexOf(db.books, BookKey, id));
      && (k.None? ==> r == Err(RecordNotFound))
      && (k.Some? && u.isbn.Some? && IsbnHeldByOther(old(db.books), u.isbn.value, id) ==> r == Err(DuplicateIsbn))
      && (k.Some? && !(u.isbn.Some? && IsbnHeldByOther(old(db.books), u.isbn.value, id)) ==> r.Ok?)
      && (r.Err? ==> db.books == old(db.books))
      && (r.Ok? ==>
            (k.Some?
             && r.value == ApplyUpdate(old(db.books)[k.value], u)
             && db.books == old(db.books)[k.value := r.value]))
  {
    var k := IndexOf(db.books, BookKey, id);
    if k.None? {
      return Err(RecordNotFound);
    }
    if u.isbn.Some? && IsbnHeldByOther(db.books, u.isbn.value, id) {
      return Err(DuplicateIsbn);
    }
    var b := ApplyUpdate(db.books[k.value], u);
    var old_books := db.books;
    db.books := db.books[k.value := b];
    assert SameKeys(old_books, db.books, BookKey);
    SameKeysPreserve(old_books, db.books, BookKey, db.nextBookId);
    assert UniqueIsbns(db.books) by {
      forall i, j | 0 <= i < j < |db.books| ensures db.books[i].isbn != db.books[j].isbn {
        if i == k.value || j == k.value {
          var other := if i == k.value then j else i;
          assert old_books[other].id != id;
        }
      }
    }
    r := Ok(b);
  }

  // ---------------------------------------------------------------- listing

  /** The search condition: absent or empty matches every book; otherwise
      the term occurs, ignoring case, in the title, author, ISBN or
      category. */
  predicate SearchHit(b: Book, search: Option<string>)
  {
    search.None? || search.value == "" || Utils.MatchesTerm(b, Lower(search.value))
  }

  /** The category condition: absent, empty or `"all"` matches every book;
      otherwise the category is exactly the one given. */
  predicate CategoryHit(b: Book, category: Option<string>)
  {
    category.None? || category.value == "" || category.value == "all" || b.category == category.value
  }

  predicate Listed(b: Book, search: Option<string>, category: Option<string>)
  {
    SearchHit(b, search) && CategoryHit(b, category)
  }

  /** Descending `createdAt` as an ascending key. */
  function NewestBookFirst(b: Book): int { -b.createdAt }

  /** Every book the filters select, newest first. */
  function MatchingBooks(books: seq<Book>, search: Option<string>, category: Option<string>): (r: seq<Book>)
    ensures SortedBy(r, NewestBookFirst)
    ensures forall i :: 0 <= i < |r| ==> r[i] in books && Listed(r[i], search, category)
    ensures forall i :: 0 <= i < |books| && Listed(books[i], search, category) ==> books[i] in r
    ensures |r| == Count(books, b => Listed(b, search, category))
    ensures multiset(r) == multiset(Filter(books, b => Listed(b, search, category)))
  {
    SortedFilter(books, b => Listed(b, search, category), NewestBookFirst)
  }

  /** `getAllBooks`: page `page` of `limit` rows of the matching books, and
      the pagination block over all of them. */
  function AllBooks(books: seq<Book>, search: Option<string>, category: Option<string>, page: int, limit: int): (r: Paged<Book>)
    requires page >= 1 && limit >= 1
    ensures |r.rows| <= limit
    ensures forall b :: b in r.rows ==> b in books && Listed(b, search, category)
    ensures r.rows == PageOf(MatchingBooks(books, search, category), page, limit)
    ensures r.pagination.total == Count(books, b => Listed(b, search, category))
    ensures r.pagination.page == page && r.pagination.limit == limit
    ensures r.pagination.totalPages * limit >= r.pagination.total
    ensures r.pagination.totalPages == 0 || (r.pagination.totalPages - 1) * limit < r.pagination.total
  {
    PageWithin(MatchingBooks(books, search, category), page, limit);
    PagedListing(MatchingBooks(books, search, category), page, limit)
  }

  /** Paging through the listing shows every matching book: the `i`-th one
      (newest first) is row `i % limit` of page `i / limit + 1`. */
  lemma BookOnItsPage(books: seq<Book>, search: Option<string>, category: Option<string>, limit: int, i: nat)
    requires limit >= 1 && i < Count(books, b => Listed(b, search, category))
    ensures var r := AllBooks(books, search, category, i / limit + 1, limit);
            i % limit < |r.rows| && r.rows[i % limit] == MatchingBooks(books, search, category)[i]
  {
    PageLocates(MatchingBooks(books, search, category), limit, i);
  }

  /** The `"all"` category is the same as giving none. */
  lemma {:induction false} CategoryAllIsNoFilter(books: seq<Book>, search: Option<string>)
    ensures MatchingBooks(books, search, Some("all")) == MatchingBooks(books, search, None)
  {
    FilterCongruent(books, b => Listed(b, search, Some("all")), b => Listed(b, search, None));
  }

  // ------------------------------------------------------------- categories

  /** The number of books in `name` (the group-by's `_count`). */
  function CountInCategory(books: seq<Book>, name: string): nat
  {
    if books == [] then 0
    else (if books[0].category == name then 1 else 0) + CountInCategory(books[1..], name)
  }

  /** The distinct categories of the catalogue. */
  function DistinctCategories(books: seq<Book>): (r: seq<string>)
    ensures forall i, j :: 0 <= i < j < |r| ==> r[i] != r[j]
    ensures forall i :: 0 <= i < |books| ==> books[i].category in r
    ensures forall j :: 0 <= j < |r| ==> CountInCategory(books, r[j]) > 0
  {
    if books == [] then []
    else
      var rest := DistinctCategories(books[1..]);
      assert forall i :: 1 <= i < |books| ==> books[i] == books[1..][i - 1];
      if books[0].category in rest then rest else [books[0].category] + rest
  }

  datatype CategoryCount = CategoryCount(name: string, bookCount: nat)

  function BookCountOf(c: CategoryCount): int { c.bookCount }

  /** One entry per name, with the number of books in it. */
  function CategoryList(books: seq<Book>, names: seq<string>): (r: seq<CategoryCount>)
    ensures |r| == |names|
    ensures forall i :: 0 <= i < |r| ==> r[i].name == names[i] && r[i].bookCount == CountInCategory(books, names[i])
  {
    if names == [] then []
    else [CategoryCount(names[0], CountInCategory(books, names[0]))] + CategoryList(books, names[1..])
  }

  /** `getCategories`: one entry per distinct category with its (positive)
      number of books, and every book's category listed. */
  function Categories(books: seq<Book>): (r: seq<CategoryCount>)
    ensures forall i, j :: 0 <= i < j < |r| ==> r[i].name != r[j].name
    ensures forall i :: 0 <= i < |r| ==> r[i].bookCount == CountInCategory(books, r[i].name) > 0
    ensures forall i :: 0 <= i < |books| ==> exists j :: 0 <= j < |r| && r[j].name == books[i].category
  {
    var names := DistinctCategories(books);
    var r := CategoryList(books, names);
    assert forall i :: 0 <= i < |books| ==> exists j :: 0 <= j < |r| && r[j].name == books[i].category by {
      forall i | 0 <= i < |books| ensures exists j :: 0 <= j < |r| && r[j].name == books[i].category {
        var j :| 0 <= j < |names| && names[j] == books[i].category;
        assert r[j].name == books[i].category;
      }
    }
    r
  }

  /** The number of entries of `names` equal to `c`. */
  function Occurrences(names: seq<string>, c: string): nat
  {
    if names == [] then 0 else (if names[0] == c then 1 else 0) + Occurrences(names[1..], c)
  }

  lemma {:induction false} OccursOnce(names: seq<string>, c: string)
    requires forall i, j :: 0 <= i < j < |names| ==> names[i] != names[j]
    requires c in names
    ensures Occurrences(names, c) == 1
  {
    var tail := names[1..];
    assert forall i :: 0 <= i < |tail| ==> tail[i] == names[i + 1];
    if names[0] == c {
      OccursNot(tail, c);
    } else {
      OccursOnce(tail, c);
    }
  }

  lemma {:induction false} OccursNot(names: seq<string>, c: string)
    requires c !in names
    ensures Occurrences(names, c) == 0
  {
    if names != [] {
      assert c !in names[1..] by {
        assert forall k :: 0 <= k < |names| - 1 ==> names[1..][k] == names[k + 1];
      }
      OccursNot(names[1..], c);
    }
  }

  /** Taking the first book out of the catalogue lowers the summed counts by
      the number of listed names equal to its category. */
  lemma {:induction false} PeelFirstBook(books: seq<Book>, names: seq<string>)
    requires books != []
    ensures Sum(CategoryList(books, names), BookCountOf)
         == Sum(CategoryList(books[1..], names), BookCountOf) + Occurrences(names, books[0].category)
  {
    if names != [] {
      PeelFirstBook(books, names[1..]);
    }
  }

  /** The category counts sum to the number of books. */
  lemma {:induction false} CategoryCountsSum(books: seq<Book>)
    ensures Sum(Categories(books), BookCountOf) == |books|
  {
    CountsPartition(books, DistinctCategories(books));
  }

  lemma {:induction false} CountsPartition(books: seq<Book>, names: seq<string>)
    requires forall i, j :: 0 <= i < j < |names| ==> names[i] != names[j]
    requires forall i :: 0 <= i < |books| ==> books[i].category in names
    ensures Sum(CategoryList(books, names), BookCountOf) == |books|
  {
    if books == [] {
      EmptyCatalogueCounts(names);
    } else {
      PeelFirstBook(books, names);
      OccursOnce(names, books[0].category);
      assert forall i :: 0 <= i < |books[1..]| ==> books[1..][i] == books[i + 1];
      CountsPartition(books[1..], names);
    }
  }

  lemma {:induction false} EmptyCatalogueCounts(names: seq<string>)
    ensures Sum(CategoryList([], names), BookCountOf) == 0
  {
    if names != [] {
      EmptyCatalogueCounts(names[1..]);
    }
  }

  // ------------------------------------------------------------------ stats

  datatype BookStats = BookStats(totalBooks: int, borrowedBooks: nat, availableBooks: int)

  /** `getBookStats`: the stock sums (0 over an empty catalogue) and the
      number of loans currently BORROWED. */
  function GetBookStats(books: seq<Book>, loans: seq<Loan>): (r: BookStats)
    ensures books == [] ==> r.totalBooks == 0 && r.availableBooks == 0
    ensures r.borrowedBooks <= |loans|
  {
    BookStats(TotalCopies(books), Count(loans, IsBorrowedLoan), TotalAvailable(books))
  }

  /** With no book below zero available, the available stock is not
      negative either. */
  lemma AvailableStockNonNegative(books: seq<Book>, loans: seq<Loan>)
    requires forall i :: 0 <= i < |books| ==> books[i].available >= 0
    ensures GetBookStats(books, loans).availableBooks >= 0
  {
    SumNonNegative(books, AvailableOf);
  }
}
