/** Generic operations on rows: the filter, ordering, paging, counting and
    summing that the services ask of the database, and the key discipline of
    a table with auto-increment ids. */
module Seqs {
  import opened Wrappers

  function Min(a: int, b: int): int { if a <= b then a else b }

  // ---------------------------------------------------------------- filter

  /** The rows of `s` that satisfy `p`, in their original order. */
  function Filter<T>(s: seq<T>, p: T -> bool): (r: seq<T>)
    ensures |r| <= |s|
    ensures forall i :: 0 <= i < |r| ==> p(r[i])
    ensures forall i :: 0 <= i < |r| ==> r[i] in s
    ensures forall i :: 0 <= i < |s| && p(s[i]) ==> s[i] in r
    ensures multiset(r) <= multiset(s)
  {
    if s == [] then []
    else
      assert s == [s[0]] + s[1..];
      if p(s[0]) then [s[0]] + Filter(s[1..], p) else Filter(s[1..], p)
  }

  /** Filtering keeps order: the rows kept from a prefix come before those
      kept from the rest. */
  lemma {:induction false} FilterAppend<T>(a: seq<T>, b: seq<T>, p: T -> bool)
    ensures Filter(a + b, p) == Filter(a, p) + Filter(b, p)
  {
    var c := a + b;
    if a != [] {
      assert c[0] == a[0] && c[1..] == a[1..] + b;
      FilterAppend(a[1..], b, p);
      if p(a[0]) {
        calc {
          Filter(c, p);
          [a[0]] + Filter(a[1..] + b, p);
          [a[0]] + (Filter(a[1..], p) + Filter(b, p));
          ([a[0]] + Filter(a[1..], p)) + Filter(b, p);
        }
      } else {
        calc {
          Filter(c, p);
          Filter(a[1..] + b, p);
          Filter(a[1..], p) + Filter(b, p);
        }
      }
    } else {
      assert c == b;
    }
  }

  /** A filter that every row passes keeps every row. */
  lemma {:induction false} FilterAll<T>(s: seq<T>, p: T -> bool)
    requires forall i :: 0 <= i < |s| ==> p(s[i])
    ensures Filter(s, p) == s
  {
    if s != [] {
      FilterAll(s[1..], p);
    }
  }

  /** A filter that no row passes keeps nothing. */
  lemma {:induction false} FilterNone<T>(s: seq<T>, p: T -> bool)
    requires forall i :: 0 <= i < |s| ==> !p(s[i])
    ensures Filter(s, p) == []
  {
    if s != [] {
      FilterNone(s[1..], p);
    }
  }

  /** Filtering twice by the same predicate is filtering once. */
  lemma {:induction false} FilterIdempotent<T>(s: seq<T>, p: T -> bool)
    ensures Filter(Filter(s, p), p) == Filter(s, p)
  {
    var r := Filter(s, p);
    FilterAll(r, p);
  }

  /** Keeping some rows of a table keeps its keys unique. */
  lemma {:induction false} FilterKeepsUniqueKeys<T>(s: seq<T>, p: T -> bool, key: T -> int, next: int)
    requires UniqueKeys(s, key, next)
    ensures UniqueKeys(Filter(s, p), key, next)
  {
    if s != [] {
      var tail := s[1..];
      UniqueKeysTail(s, key, next);
      FilterKeepsUniqueKeys(tail, p, key, next);
      var rest := Filter(tail, p);
      if p(s[0]) {
        forall i | 0 <= i < |rest| ensures key(rest[i]) != key(s[0]) {
          var j :| 0 <= j < |tail| && tail[j] == rest[i];
          assert tail[j] == s[j + 1];
        }
        UniqueKeysCons(s[0], rest, key, next);
      }
    }
  }

  /** Dropping the first row keeps the keys unique. */
  lemma UniqueKeysTail<T>(s: seq<T>, key: T -> int, next: int)
    requires UniqueKeys(s, key, next) && s != []
    ensures UniqueKeys(s[1..], key, next)
  {
    var tail := s[1..];
    forall i | 0 <= i < |tail| ensures key(tail[i]) < next {
      assert tail[i] == s[i + 1];
    }
    forall i, j | 0 <= i < j < |tail| ensures key(tail[i]) != key(tail[j]) {
      assert tail[i] == s[i + 1] && tail[j] == s[j + 1];
    }
  }

  /** A row whose key is below `next` and unused can go in front. */
  lemma UniqueKeysCons<T>(x: T, t: seq<T>, key: T -> int, next: int)
    requires UniqueKeys(t, key, next) && key(x) < next
    requires forall i :: 0 <= i < |t| ==> key(t[i]) != key(x)
    ensures UniqueKeys([x] + t, key, next)
  {
    var r := [x] + t;
    forall i | 0 <= i < |r| ensures key(r[i]) < next {
      if i > 0 { assert r[i] == t[i - 1]; }
    }
    forall i, j | 0 <= i < j < |r| ensures key(r[i]) != key(r[j]) {
      assert r[j] == t[j - 1];
      if i > 0 { assert r[i] == t[i - 1]; }
    }
  }

  /** A filter keeps every copy of a row that passes and none of a row
      that fails. */
  lemma {:induction false} FilterMultiplicity<T>(s: seq<T>, p: T -> bool)
    ensures forall x :: multiset(Filter(s, p))[x] == if p(x) then multiset(s)[x] else 0
  {
    if s != [] {
      FilterMultiplicity(s[1..], p);
      assert s == [s[0]] + s[1..];
      assert multiset(s) == multiset{s[0]} + multiset(s[1..]);
    }
  }

  /** The number of rows satisfying `p` (the ORM's `count({ where })`). */
  function Count<T>(s: seq<T>, p: T -> bool): (n: nat)
    ensures n <= |s|
  {
    |Filter(s, p)|
  }

  /** Every row either satisfies `p` or does not. */
  lemma {:induction false} CountComplement<T>(s: seq<T>, p: T -> bool)
    ensures Count(s, p) + Count(s, x => !p(x)) == |s|
  {
    if s != [] {
      CountComplement(s[1..], p);
    }
  }

  /** Two predicates that agree on every row count the same rows. */
  lemma {:induction false} FilterCongruent<T>(s: seq<T>, p: T -> bool, q: T -> bool)
    requires forall i :: 0 <= i < |s| ==> p(s[i]) == q(s[i])
    ensures Filter(s, p) == Filter(s, q)
  {
    if s != [] {
      FilterCongruent(s[1..], p, q);
    }
  }

  /** Two tables that agree row by row on `p` have as many rows satisfying
      it. */
  lemma {:induction false} CountPointwise<T>(s: seq<T>, t: seq<T>, p: T -> bool)
    requires |s| == |t| && forall i :: 0 <= i < |s| ==> p(s[i]) == p(t[i])
    ensures Count(s, p) == Count(t, p)
  {
    if s != [] {
      assert forall i :: 0 <= i < |s| - 1 ==> s[1..][i] == s[i + 1] && t[1..][i] == t[i + 1];
      CountPointwise(s[1..], t[1..], p);
    }
  }

  /** Appending a row adds one to the count exactly when it satisfies `p`. */
  lemma CountAppend<T>(s: seq<T>, x: T, p: T -> bool)
    ensures Count(s + [x], p) == Count(s, p) + (if p(x) then 1 else 0)
  {
    FilterAppend(s, [x], p);
  }

  /** Replacing row `k` moves the count by what the old and new rows
      contribute. */
  lemma {:induction false} CountUpdate<T>(s: seq<T>, k: nat, x: T, p: T -> bool)
    requires k < |s|
    ensures Count(s[k := x], p) + (if p(s[k]) then 1 else 0) == Count(s, p) + (if p(x) then 1 else 0)
  {
    var t := s[k := x];
    if k == 0 {
      assert t[1..] == s[1..];
    } else {
      assert t[0] == s[0] && t[1..] == s[1..][k - 1 := x];
      CountUpdate(s[1..], k - 1, x, p);
    }
  }

  // ----------------------------------------------------------------- sum

  /** The sum of `f` over the rows (the ORM's `aggregate({ _sum })`, taken
      as 0 over no rows). */
  function Sum<T>(s: seq<T>, f: T -> int): int
  {
    if s == [] then 0 else f(s[0]) + Sum(s[1..], f)
  }

  /** A sum of non-negative terms is non-negative. */
  lemma {:induction false} SumNonNegative<T>(s: seq<T>, f: T -> int)
    requires forall i :: 0 <= i < |s| ==> f(s[i]) >= 0
    ensures Sum(s, f) >= 0
  {
    if s != [] {
      SumNonNegative(s[1..], f);
    }
  }

  /** A sum of positive terms is positive exactly when there is a term. */
  lemma {:induction false} SumOfPositives<T>(s: seq<T>, f: T -> int)
    requires forall i :: 0 <= i < |s| ==> f(s[i]) > 0
    ensures Sum(s, f) >= 0
    ensures Sum(s, f) > 0 <==> s != []
  {
    if s != [] {
      SumOfPositives(s[1..], f);
    }
  }

  /** Appending a row adds its term to the sum. */
  lemma {:induction false} SumAppend<T>(s: seq<T>, x: T, f: T -> int)
    ensures Sum(s + [x], f) == Sum(s, f) + f(x)
  {
    if s == [] {
      assert s + [x] == [x];
    } else {
      assert (s + [x])[1..] == s[1..] + [x];
      SumAppend(s[1..], x, f);
    }
  }

  // ---------------------------------------------------------------- order

  ghost predicate SortedBy<T>(s: seq<T>, key: T -> int)
  {
    forall i, j :: 0 <= i < j < |s| ==> key(s[i]) <= key(s[j])
  }

  /** The rows after the first of a sorted sequence are sorted. */
  lemma SortedTail<T>(s: seq<T>, key: T -> int)
    requires SortedBy(s, key) && s != []
    ensures SortedBy(s[1..], key)
  {
    forall i, j | 0 <= i < j < |s| - 1 ensures key(s[1..][i]) <= key(s[1..][j]) {
      assert s[1..][i] == s[i + 1] && s[1..][j] == s[j + 1];
    }
  }

  /** A row no greater than the head of a sorted sequence can go in front. */
  lemma SortedCons<T>(y: T, t: seq<T>, key: T -> int)
    requires SortedBy(t, key) && (t != [] ==> key(y) <= key(t[0]))
    ensures SortedBy([y] + t, key)
  {
    var r := [y] + t;
    forall i, j | 0 <= i < j < |r| ensures key(r[i]) <= key(r[j]) {
      assert r[j] == t[j - 1];
      if i > 0 { assert r[i] == t[i - 1]; }
      else if j > 1 { assert key(t[0]) <= key(t[j - 1]); }
    }
  }

  /** Places `x` before the first row whose key is at least its own. */
  function Insert<T>(x: T, s: seq<T>, key: T -> int): (r: seq<T>)
    requires SortedBy(s, key)
    ensures SortedBy(r, key)
    ensures multiset(r) == multiset(s) + multiset{x}
    ensures |r| == |s| + 1
    ensures r[0] == x || (s != [] && r[0] == s[0])
  {
    if s == [] || key(x) <= key(s[0]) then
      SortedCons(x, s, key);
      [x] + s
    else
      SortedTail(s, key);
      var rest := Insert(x, s[1..], key);
      InsertBehindHead(x, s, rest, key);
      [s[0]] + rest
  }

  /** The step of `Insert` that keeps the head: `x` went into the rest. */
  lemma InsertBehindHead<T>(x: T, s: seq<T>, rest: seq<T>, key: T -> int)
    requires SortedBy(s, key) && s != [] && key(s[0]) < key(x)
    requires SortedBy(rest, key) && multiset(rest) == multiset(s[1..]) + multiset{x}
    requires rest != [] && (rest[0] == x || (|s| > 1 && rest[0] == s[1]))
    ensures SortedBy([s[0]] + rest, key)
    ensures multiset([s[0]] + rest) == multiset(s) + multiset{x}
  {
    assert key(s[0]) <= key(rest[0]);
    SortedCons(s[0], rest, key);
    assert s == [s[0]] + s[1..];
    calc {
      multiset([s[0]] + rest);
      multiset{s[0]} + multiset(rest);
      multiset{s[0]} + multiset(s[1..]) + multiset{x};
      multiset(s) + multiset{x};
    }
  }

  /** The rows of `s` ordered by ascending key (the ORM's `orderBy`; a
      descending order is an ascending order of the negated key). */
  function SortBy<T>(s: seq<T>, key: T -> int): (r: seq<T>)
    ensures SortedBy(r, key)
    ensures multiset(r) == multiset(s)
    ensures |r| == |s|
  {
    if s == [] then []
    else
      assert s == [s[0]] + s[1..];
      Insert(s[0], SortBy(s[1..], key), key)
  }

  /** Keeping some rows of a sorted sequence keeps it sorted. */
  lemma {:induction false} FilterKeepsSorted<T>(s: seq<T>, p: T -> bool, key: T -> int)
    requires SortedBy(s, key)
    ensures SortedBy(Filter(s, p), key)
  {
    if s != [] {
      SortedTail(s, key);
      FilterKeepsSorted(s[1..], p, key);
      var rest := Filter(s[1..], p);
      if p(s[0]) {
        if rest != [] {
          var j :| 0 <= j < |s[1..]| && s[1..][j] == rest[0];
          assert s[1..][j] == s[j + 1];
        }
        SortedCons(s[0], rest, key);
      }
    }
  }

  /** Two orderings of the same rows have the same members. */
  lemma SameMembers<T>(a: seq<T>, b: seq<T>)
    requires multiset(a) == multiset(b)
    ensures forall i :: 0 <= i < |b| ==> b[i] in a
    ensures forall i :: 0 <= i < |a| ==> a[i] in b
  {
    forall i | 0 <= i < |b| ensures b[i] in a {
      assert b[i] in multiset(a);
    }
    forall i | 0 <= i < |a| ensures a[i] in b {
      assert a[i] in multiset(b);
    }
  }

  /** The rows of `s` that satisfy `p`, ordered by ascending `key`: a
      `findMany` with a `where` and an `orderBy`. */
  function SortedFilter<T>(s: seq<T>, p: T -> bool, key: T -> int): (r: seq<T>)
    ensures SortedBy(r, key)
    ensures forall i :: 0 <= i < |r| ==> r[i] in s && p(r[i])
    ensures forall i :: 0 <= i < |s| && p(s[i]) ==> s[i] in r
    ensures |r| == Count(s, p)
    ensures multiset(r) <= multiset(s)
    ensures multiset(r) == multiset(Filter(s, p))
  {
    var hits := Filter(s, p);
    var r := SortBy(hits, key);
    SameMembers(hits, r);
    assert forall i :: 0 <= i < |r| ==> r[i] in hits ==> r[i] in s && p(r[i]) by {
      forall i | 0 <= i < |r| && r[i] in hits ensures r[i] in s && p(r[i]) {
        var j :| 0 <= j < |hits| && hits[j] == r[i];
      }
    }
    r
  }

  // ---------------------------------------------------------------- paging

  /** The ORM's `skip`/`take`: the rows from position `skip` on, at most
      `take` of them. */
  function Page<T>(s: seq<T>, skip: nat, take: nat): (r: seq<T>)
    ensures |r| == if skip >= |s| then 0 else Min(take, |s| - skip)
    ensures forall i :: 0 <= i < |r| ==> skip + i < |s| && r[i] == s[skip + i]
  {
    if skip >= |s| then [] else s[skip..skip + Min(take, |s| - skip)]
  }

  /** `Math.ceil(n / d)` for a positive divisor: the least number of pages
      of `d` rows that hold `n` rows. */
  function CeilDiv(n: nat, d: nat): (r: nat)
    requires d > 0
    ensures r * d >= n
    ensures r == 0 || (r - 1) * d < n
  {
    if n == 0 then 0
    else
      var q := (n - 1) / d;
      assert q * d <= n - 1 < (q + 1) * d;
      q + 1
  }

  /** The `pagination` block every paged read returns. */
  datatype Pagination = Pagination(page: int, limit: int, total: nat, totalPages: int)

  /** Offset and size of page `page` of `limit` rows, as the services compute
      them (`skip = (page - 1) * limit`, `take = limit`). */
  function PageOf<T>(s: seq<T>, page: int, limit: int): (r: seq<T>)
    requires page >= 1 && limit >= 1
    ensures |r| <= limit
    ensures forall i :: 0 <= i < |r| ==> (page - 1) * limit + i < |s| && r[i] == s[(page - 1) * limit + i]
    ensures (page - 1) * limit < |s| ==> |r| == Min(limit, |s| - (page - 1) * limit)
  {
    var skip := (page - 1) * limit;
    Page(s, skip, limit)
  }

  /** A page holds only rows of the listing it is cut from. */
  lemma PageWithin<T>(s: seq<T>, page: int, limit: int)
    requires page >= 1 && limit >= 1
    ensures forall x :: x in PageOf(s, page, limit) ==> x in s
  {
    var r := PageOf(s, page, limit);
    forall x | x in r ensures x in s {
      var i :| 0 <= i < |r| && r[i] == x;
      assert r[i] == s[(page - 1) * limit + i];
    }
  }

  /** The pagination block for `total` matching rows. */
  function PaginationOf(page: int, limit: int, total: nat): (p: Pagination)
    requires limit >= 1
    ensures p.total == total && p.page == page && p.limit == limit
    ensures p.totalPages * limit >= total && (p.totalPages == 0 || (p.totalPages - 1) * limit < total)
  {
    Pagination(page, limit, total, CeilDiv(total, limit))
  }

  /** What a paged read returns: one page of rows and the pagination block
      over all matching rows. */
  datatype Paged<T> = Paged(rows: seq<T>, pagination: Pagination)

  /** Page `page` of `limit` rows of the full listing `m` with the
      pagination block over all of it: what every paged read returns. */
  function PagedListing<T>(m: seq<T>, page: int, limit: int): (r: Paged<T>)
    requires page >= 1 && limit >= 1
    ensures r.rows == PageOf(m, page, limit) && r.pagination == PaginationOf(page, limit, |m|)
  {
    Paged(PageOf(m, page, limit), PaginationOf(page, limit, |m|))
  }

  /** Row `i` of the full listing is row `i % limit` of page `i / limit + 1`. */
  lemma PageLocates<T>(s: seq<T>, limit: int, i: nat)
    requires limit >= 1 && i < |s|
    ensures var page := i / limit + 1;
            var r := PageOf(s, page, limit);
            i % limit < |r| && r[i % limit] == s[i]
  {
    var page := i / limit + 1;
    assert (page - 1) * limit + i % limit == i;
    assert (page - 1) * limit <= i;
  }

  // ---------------------------------------------------------------- keys

  /** Every row's key is below `next` and no two rows share a key: the table
      of an auto-increment primary key whose next value is `next`. */
  ghost predicate UniqueKeys<T>(s: seq<T>, key: T -> int, next: int)
  {
    && (forall i :: 0 <= i < |s| ==> key(s[i]) < next)
    && (forall i, j :: 0 <= i < j < |s| ==> key(s[i]) != key(s[j]))
  }

  ghost predicate HasKey<T>(s: seq<T>, key: T -> int, k: int)
  {
    exists i :: 0 <= i < |s| && key(s[i]) == k
  }

  /** The position of the row with key `k` (the ORM's `findUnique`). */
  function IndexOf<T>(s: seq<T>, key: T -> int, k: int): (r: Option<nat>)
    ensures r.Some? ==> r.value < |s| && key(s[r.value]) == k
    ensures r.None? <==> !HasKey(s, key, k)
  {
    if s == [] then None
    else if key(s[0]) == k then Some(0)
    else
      var r := IndexOf(s[1..], key, k);
      assert forall i :: 0 < i < |s| ==> s[i] == s[1..][i - 1];
      if r.None? then None else Some(r.value + 1)
  }

  /** In a table with unique keys, the row found for a key is the only one. */
  lemma IndexOfUnique<T>(s: seq<T>, key: T -> int, next: int, i: nat)
    requires UniqueKeys(s, key, next) && i < |s|
    ensures IndexOf(s, key, key(s[i])) == Some(i)
  {
  }

  /** Appending a row with key `next` keeps the keys unique. */
  lemma UniqueKeysAppend<T>(s: seq<T>, key: T -> int, next: int, x: T)
    requires UniqueKeys(s, key, next) && key(x) == next
    ensures UniqueKeys(s + [x], key, next + 1)
  {
  }

  /** A key present before an append is still present after it. */
  lemma HasKeyAppend<T>(s: seq<T>, key: T -> int, x: T)
    ensures forall k :: HasKey(s, key, k) ==> HasKey(s + [x], key, k)
  {
    forall k | HasKey(s, key, k) ensures HasKey(s + [x], key, k) {
      var i :| 0 <= i < |s| && key(s[i]) == k;
      assert (s + [x])[i] == s[i];
    }
  }

  /** Two tables whose rows carry the same keys, position by position. */
  ghost predicate SameKeys<T>(s: seq<T>, t: seq<T>, key: T -> int)
  {
    |s| == |t| && forall i :: 0 <= i < |s| ==> key(s[i]) == key(t[i])
  }

  /** Updating rows in place without touching their keys keeps both the key
      discipline and the set of keys present. */
  lemma SameKeysPreserve<T>(s: seq<T>, t: seq<T>, key: T -> int, next: int)
    requires SameKeys(s, t, key)
    ensures UniqueKeys(s, key, next) ==> UniqueKeys(t, key, next)
    ensures forall k :: HasKey(s, key, k) ==> HasKey(t, key, k)
  {
    forall k | HasKey(s, key, k) ensures HasKey(t, key, k) {
      var i :| 0 <= i < |s| && key(s[i]) == k;
      assert key(t[i]) == k;
    }
  }
}
