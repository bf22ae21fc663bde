/** The notification table: adding a notification, the owner's paged list,
    the read flag, the unread count and the two deletes. The writes are
    single bulk statements on the table. */
module Notifications {
  import opened Wrappers
  import opened Seqs
  import opened Schema
  import opened Store

  /** `createNotification`: one new unread notification with the given
      owner, title, message and type. */
  method CreateNotification(db: Database, userId: UserId, title: string, message: string, kind: NotificationType, now: int)
    returns (n: Notification)
    requires db.Valid()
    modifies db`notifications, db`nextNotificationId
    ensures db.Valid()
    ensures n == Notification(old(db.nextNotificationId), userId, title, message, kind, false, now)
    ensures db.notifications == old(db.notifications) + [n]
    ensures db.nextNotificationId == old(db.nextNotificationId) + 1
  {
    n := Notification(db.nextNotificationId, userId, title, message, kind, false, now);
    UniqueKeysAppend(db.notifications, NotificationKey, db.nextNotificationId, n);
    db.notifications := db.notifications + [n];
    db.nextNotificationId := db.nextNotificationId + 1;
  }

  // ------------------------------------------------------------- read flag

  /** The notification is listed in `ids` and belongs to `userId`: the rows
      `markAsRead` and `markAsUnread` update. */
  predicate Targeted(n: Notification, ids: seq<int>, userId: UserId)
  {
    n.id in ids && n.userId == userId
  }

  /** The table after setting `read` to `flag` on the targeted rows; every
      other row and every other field stays. */
  function WithReadFlag(ns: seq<Notification>, ids: seq<int>, userId: UserId, flag: bool): (r: seq<Notification>)
    ensures |r| == |ns|
    ensures forall i :: 0 <= i < |ns| ==> r[i] == ns[i].(read := r[i].read)
    ensures forall i :: 0 <= i < |ns| && Targeted(ns[i], ids, userId) ==> r[i].read == flag
    ensures forall i :: 0 <= i < |ns| && !Targeted(ns[i], ids, userId) ==> r[i] == ns[i]
  {
    seq(|ns|, i requires 0 <= i < |ns| => if Targeted(ns[i], ids, userId) then ns[i].(read := flag) else ns[i])
  }

  /** The number of rows a read-flag update reports. */
  function TargetCount(ns: seq<Notification>, ids: seq<int>, userId: UserId): nat
  {
    Count(ns, (n: Notification) => Targeted(n, ids, userId))
  }

  /** `markAsRead` (`flag` true) and `markAsUnread` (`flag` false): one bulk
      update; returns how many rows it matched. */
  method SetReadFlag(db: Database, ids: seq<int>, userId: UserId, flag: bool) returns (count: nat)
    requires db.Valid()
    modifies db`notifications
    ensures db.Valid()
    ensures db.notifications == WithReadFlag(old(db.notifications), ids, userId, flag)
    ensures count == TargetCount(old(db.notifications), ids, userId)
  {
    var updated := WithReadFlag(db.notifications, ids, userId, flag);
    assert SameKeys(db.notifications, updated, NotificationKey);
    SameKeysPreserve(db.notifications, updated, NotificationKey, db.nextNotificationId);
    count := TargetCount(db.notifications, ids, userId);
    db.notifications := updated;
  }

  method MarkAsRead(db: Database, ids: seq<int>, userId: UserId) returns (count: nat)
    requires db.Valid()
    modifies db`notifications
    ensures db.Valid()
    ensures db.notifications == WithReadFlag(old(db.notifications), ids, userId, true)
    ensures count == TargetCount(old(db.notifications), ids, userId)
  {
    count := SetReadFlag(db, ids, userId, true);
  }

  method MarkAsUnread(db: Database, ids: seq<int>, userId: UserId) returns (count: nat)
    requires db.Valid()
    modifies db`notifications
    ensures db.Valid()
    ensures db.notifications == WithReadFlag(old(db.notifications), ids, userId, false)
    ensures count == TargetCount(old(db.notifications), ids, userId)
  {
    count := SetReadFlag(db, ids, userId, false);
  }

  /** Setting the flag twice is setting it once. */
  lemma ReadFlagIdempotent(ns: seq<Notification>, ids: seq<int>, userId: UserId, flag: bool)
    ensures WithReadFlag(WithReadFlag(ns, ids, userId, flag), ids, userId, flag) == WithReadFlag(ns, ids, userId, flag)
  {
    var once := WithReadFlag(ns, ids, userId, flag);
    assert forall i :: 0 <= i < |ns| ==> Targeted(once[i], ids, userId) == Targeted(ns[i], ids, userId);
  }

  /** Marking as unread undoes marking as read on rows that were unread. */
  lemma ReadThenUnread(ns: seq<Notification>, ids: seq<int>, userId: UserId)
    requires forall i :: 0 <= i < |ns| && Targeted(ns[i], ids, userId) ==> !ns[i].read
    ensures WithReadFlag(WithReadFlag(ns, ids, userId, true), ids, userId, false) == ns
  {
    var once := WithReadFlag(ns, ids, userId, true);
    assert forall i :: 0 <= i < |ns| ==> Targeted(once[i], ids, userId) == Targeted(ns[i], ids, userId);
  }

  // ---------------------------------------------------------------- unread

  predicate UnreadOf(n: Notification, userId: UserId)
  {
    n.userId == userId && !n.read
  }

  /** `getUnreadCount`: the owner's notifications not yet read. */
  function UnreadCount(ns: seq<Notification>, userId: UserId): (n: nat)
    ensures n <= |ns|
    ensures n == 0 <==> forall i :: 0 <= i < |ns| ==> !UnreadOf(ns[i], userId)
  {
    var unread := Filter(ns, (x: Notification) => UnreadOf(x, userId));
    assert unread != [] ==> exists i :: 0 <= i < |ns| && UnreadOf(ns[i], userId) by {
      if unread != [] {
        assert unread[0] in ns;
      }
    }
    |unread|
  }

  /** Marking every unread notification of the owner as read leaves none
      unread. */
  lemma MarkAllReadClearsUnread(ns: seq<Notification>, ids: seq<int>, userId: UserId)
    requires forall i :: 0 <= i < |ns| && UnreadOf(ns[i], userId) ==> ns[i].id in ids
    ensures UnreadCount(WithReadFlag(ns, ids, userId, true), userId) == 0
  {
    var r := WithReadFlag(ns, ids, userId, true);
    assert forall i :: 0 <= i < |r| ==> !UnreadOf(r[i], userId);
  }

  /** Another user's ids in the list change nothing of theirs. */
  lemma ReadFlagRespectsOwner(ns: seq<Notification>, ids: seq<int>, userId: UserId, flag: bool, i: nat)
    requires i < |ns| && ns[i].userId != userId
    ensures WithReadFlag(ns, ids, userId, flag)[i] == ns[i]
  {
  }

  // ---------------------------------------------------------------- delete

  /** Not the notification `id` of `userId`: the rows `deleteNotification`
      keeps. */
  predicate NotTheOne(n: Notification, id: int, userId: UserId)
  {
    !(n.id == id && n.userId == userId)
  }

  /** The table after deleting notification `id` when `userId` owns it. */
  function WithoutNotification(ns: seq<Notification>, id: int, userId: UserId): (r: seq<Notification>)
    ensures forall i :: 0 <= i < |r| ==> r[i] in ns && NotTheOne(r[i], id, userId)
    ensures forall i :: 0 <= i < |ns| && NotTheOne(ns[i], id, userId) ==> ns[i] in r
  {
    Filter(ns, (n: Notification) => NotTheOne(n, id, userId))
  }

  /** With unique ids, deleting one notification removes at most one row. */
  lemma {:induction false} DeleteRemovesAtMostOne(ns: seq<Notification>, id: int, userId: UserId, next: int)
    requires UniqueKeys(ns, NotificationKey, next)
    ensures |ns| - 1 <= |WithoutNotification(ns, id, userId)|
  {
    var p := (n: Notification) => NotTheOne(n, id, userId);
    if ns != [] {
      var tail := ns[1..];
      assert forall i :: 0 <= i < |tail| ==> tail[i] == ns[i + 1];
      if p(ns[0]) {
        DeleteRemovesAtMostOne(tail, id, userId, next);
      } else {
        assert forall i :: 0 <= i < |tail| ==> p(tail[i]);
        FilterAll(tail, p);
      }
    }
  }

  /** Deleting an id no notification carries changes nothing. */
  lemma DeleteMissingKeepsAll(ns: seq<Notification>, id: int, userId: UserId)
    requires !HasKey(ns, NotificationKey, id)
    ensures WithoutNotification(ns, id, userId) == ns
  {
    var p := (n: Notification) => NotTheOne(n, id, userId);
    assert forall i :: 0 <= i < |ns| ==> NotificationKey(ns[i]) != id;
    FilterAll(ns, p);
  }

  /** `deleteNotification`: deletes the notification if the user owns it;
      returns how many rows went (0 or 1). */
  method DeleteNotification(db: Database, id: int, userId: UserId) returns (count: nat)
    requires db.Valid()
    modifies db`notifications
    ensures db.Valid()
    ensures db.notifications == WithoutNotification(old(db.notifications), id, userId)
    ensures count == |old(db.notifications)| - |db.notifications| && count <= 1
  {
    var kept := WithoutNotification(db.notifications, id, userId);
    DeleteRemovesAtMostOne(db.notifications, id, userId, db.nextNotificationId);
    FilterKeepsUniqueKeys(db.notifications, (n: Notification) => NotTheOne(n, id, userId), NotificationKey, db.nextNotificationId);
    count := |db.notifications| - |kept|;
    db.notifications := kept;
  }

  /** Default age, in days, past which read notifications are purged. */
  const DefaultDaysOld: int := 30

  /** Not a read notification created before `cutoff`: the rows
      `deleteOldNotifications` keeps. */
  predicate Recent(n: Notification, cutoff: int)
  {
    !(n.createdAt < cutoff && n.read)
  }

  /** The table after purging read notifications created before `cutoff`. */
  function PurgeOld(ns: seq<Notification>, cutoff: int): (r: seq<Notification>)
    ensures forall i :: 0 <= i < |r| ==> r[i] in ns && Recent(r[i], cutoff)
    ensures forall i :: 0 <= i < |ns| && Recent(ns[i], cutoff) ==> ns[i] in r
    ensures forall i :: 0 <= i < |ns| && !ns[i].read ==> ns[i] in r
  {
    Filter(ns, (n: Notification) => Recent(n, cutoff))
  }

  /** Purging twice with the same cutoff is purging once. */
  lemma PurgeIdempotent(ns: seq<Notification>, cutoff: int)
    ensures PurgeOld(PurgeOld(ns, cutoff), cutoff) == PurgeOld(ns, cutoff)
  {
    FilterIdempotent(ns, (n: Notification) => Recent(n, cutoff));
  }

  /** A purge keeps the number of unread notifications of every user. */
  lemma {:induction false} PurgeKeepsUnreadCount(ns: seq<Notification>, cutoff: int, userId: UserId)
    ensures UnreadCount(PurgeOld(ns, cutoff), userId) == UnreadCount(ns, userId)
  {
    if ns != [] {
      PurgeKeepsUnreadCount(ns[1..], cutoff, userId);
    }
  }

  /** `deleteOldNotifications`: deletes the read notifications older than
      `daysOld` days; returns how many rows went. */
  method DeleteOldNotifications(db: Database, now: int, daysOld: int := DefaultDaysOld) returns (count: nat)
    requires db.Valid()
    modifies db`notifications
    ensures db.Valid()
    ensures db.notifications == PurgeOld(old(db.notifications), now - daysOld * DayMs)
    ensures count == |old(db.notifications)| - |db.notifications|
  {
    var cutoff := now - daysOld * DayMs;
    var kept := PurgeOld(db.notifications, cutoff);
    FilterKeepsUniqueKeys(db.notifications, (n: Notification) => Recent(n, cutoff), NotificationKey, db.nextNotificationId);
    count := |db.notifications| - |kept|;
    db.notifications := kept;
  }

  // ------------------------------------------------------------------ list

  predicate Listed(n: Notification, userId: UserId, read: Option<bool>)
  {
    n.userId == userId && (read.None? || n.read == read.value)
  }

  /** Descending `createdAt` as an ascending key. */
  function NewestNotificationFirst(n: Notification): int { -n.createdAt }

  /** The owner's notifications, optionally only read or only unread ones,
      newest first, each once. */
  function MatchingNotifications(ns: seq<Notification>, userId: UserId, read: Option<bool>): (r: seq<Notification>)
    ensures SortedBy(r, NewestNotificationFirst)
    ensures forall i :: 0 <= i < |r| ==> r[i] in ns && Listed(r[i], userId, read)
    ensures forall i :: 0 <= i < |ns| && Listed(ns[i], userId, read) ==> ns[i] in r
    ensures |r| == Count(ns, (n: Notification) => Listed(n, userId, read))
    ensures multiset(r) == multiset(Filter(ns, (n: Notification) => Listed(n, userId, read)))
  {
    SortedFilter(ns, (n: Notification) => Listed(n, userId, read), NewestNotificationFirst)
  }

  /** `getUserNotifications`: one page of the owner's matching
      notifications and the pagination block. */
  function UserNotifications(ns: seq<Notification>, userId: UserId, read: Option<bool>, page: int, limit: int): (r: Paged<Notification>)
    requires page >= 1 && limit >= 1
    ensures |r.rows| <= limit
    ensures forall n :: n in r.rows ==> n in ns && Listed(n, userId, read)
    ensures r.rows == PageOf(MatchingNotifications(ns, userId, read), page, limit)
    ensures r.pagination.total == Count(ns, (n: Notification) => Listed(n, userId, read))
    ensures r.pagination.page == page && r.pagination.limit == limit
    ensures r.pagination.totalPages * limit >= r.pagination.total
    ensures r.pagination.totalPages == 0 || (r.pagination.totalPages - 1) * limit < r.pagination.total
  {
    PageWithin(MatchingNotifications(ns, userId, read), page, limit);
    PagedListing(MatchingNotifications(ns, userId, read), page, limit)
  }

  /** Paging through the owner's notifications shows every one of them: the
      `i`-th (newest first) is row `i % limit` of page `i / limit + 1`. */
  lemma NotificationOnItsPage(ns: seq<Notification>, userId: UserId, read: Option<bool>, limit: int, i: nat)
    requires limit >= 1 && i < Count(ns, (n: Notification) => Listed(n, userId, read))
    ensures var r := UserNotifications(ns, userId, read, i / limit + 1, limit);
            i % limit < |r.rows| && r.rows[i % limit] == MatchingNotifications(ns, userId, read)[i]
  {
    PageLocates(MatchingNotifications(ns, userId, read), limit, i);
  }

  /** Listing only the unread notifications lists as many as the unread
      count. */
  lemma UnreadListingMatchesCount(ns: seq<Notification>, userId: UserId)
    ensures |MatchingNotifications(ns, userId, Some(false))| == UnreadCount(ns, userId)
  {
    FilterCongruent(ns, (n: Notification) => Listed(n, userId, Some(false)), (x: Notification) => UnreadOf(x, userId));
  }
}
