/** The `notifications` table: adding, marking read and listing a user's notifications. */
module Outbox {

  import opened Tables

  /** `get_user_notifications` returns at most this many rows when it lists read ones too. */
  const AllNotificationsLimit: nat := 50

  /** The rows `get_user_notifications(user, unread_only)` selects, before ordering and limiting. */
  function Shows(user: string, unreadOnly: bool): Notification -> bool {
    (n: Notification) => n.user == user && (!unreadOnly || !n.isRead)
  }

  /** `add_notification`: appends an unread notification; nothing else changes. */
  function AddNotification(db: Db, user: string, message: string, kind: string): (r: Db)
    ensures |r.notifications| == |db.notifications| + 1
    ensures r.notifications[..|db.notifications|] == db.notifications
    ensures Shows(user, true)(r.notifications[|db.notifications|])
    ensures r.notifications[|db.notifications|].message == message
    ensures r.notifications[|db.notifications|].kind == kind
    ensures r == db.(notifications := r.notifications)
  {
    db.(notifications := db.notifications + [Notification(user, message, kind, false)])
  }

  /** `mark_notification_read`: flags the row with that id read; an unknown id changes nothing. */
  function MarkNotificationRead(db: Db, id: int): (r: Db)
    ensures |r.notifications| == |db.notifications|
    ensures forall i :: 0 <= i < |db.notifications| && i != id - 1 ==> r.notifications[i] == db.notifications[i]
    ensures HasRow(db.notifications, id) ==>
      r.notifications[id - 1].isRead && r.notifications[id - 1].(isRead := false) == db.notifications[id - 1].(isRead := false)
    ensures r == db.(notifications := r.notifications)
  {
    if HasRow(db.notifications, id)
    then db.(notifications := db.notifications[id - 1 := db.notifications[id - 1].(isRead := true)])
    else db
  }

  /** Rows equal to `x` that satisfy `p`. */
  function Copies(x: Notification, p: Notification -> bool): Notification -> bool {
    (y: Notification) => y == x && p(y)
  }

  /** The rows of `ns` that satisfy `p`, newest first. */
  function NewestFirst(ns: seq<Notification>, p: Notification -> bool): (r: seq<Notification>)
    ensures |r| == Count(ns, p)
    ensures forall x :: x in r <==> x in ns && p(x)
    ensures forall x :: multiset(r)[x] == Count(ns, Copies(x, p))
  {
    if |ns| == 0 then []
    else
      var n := |ns| - 1;
      (if p(ns[n]) then [ns[n]] else []) + NewestFirst(ns[..n], p)
  }

  /** The rows of `ns` that satisfy `p`, in table order: the reference listing before `ORDER BY ... DESC`. */
  function TableOrder(ns: seq<Notification>, p: Notification -> bool): seq<Notification> {
    if |ns| == 0 then []
    else (if p(ns[0]) then [ns[0]] else []) + TableOrder(ns[1..], p)
  }

  function Reverse<T>(s: seq<T>): (r: seq<T>)
    ensures |r| == |s|
  {
    if |s| == 0 then [] else Reverse(s[1..]) + [s[0]]
  }

  lemma {:induction false} ReverseAppend<T>(a: seq<T>, b: seq<T>)
    ensures Reverse(a + b) == Reverse(b) + Reverse(a)
    decreases |a|
  {
    if |a| == 0 {
      assert a + b == b;
    } else {
      assert (a + b)[1..] == a[1..] + b;
      ReverseAppend(a[1..], b);
    }
  }

  lemma {:induction false} TableOrderAppend(a: seq<Notification>, x: Notification, p: Notification -> bool)
    ensures TableOrder(a + [x], p) == TableOrder(a, p) + (if p(x) then [x] else [])
    decreases |a|
  {
    if |a| == 0 {
      assert TableOrder([x], p) == (if p(x) then [x] else []) + TableOrder([], p);
    } else {
      assert (a + [x])[1..] == a[1..] + [x];
      TableOrderAppend(a[1..], x, p);
    }
  }

  /** Newest first is table order reversed: the latest matching row leads, and every matching row appears once per copy. */
  lemma {:induction false} NewestFirstIsReversedTableOrder(ns: seq<Notification>, p: Notification -> bool)
    ensures NewestFirst(ns, p) == Reverse(TableOrder(ns, p))
    decreases |ns|
  {
    if |ns| > 0 {
      var n := |ns| - 1;
      var last := if p(ns[n]) then [ns[n]] else [];
      assert ns == ns[..n] + [ns[n]];
      NewestFirstIsReversedTableOrder(ns[..n], p);
      TableOrderAppend(ns[..n], ns[n], p);
      ReverseAppend(TableOrder(ns[..n], p), last);
      assert Reverse(last) == last;
    }
  }

  /** How many unread notifications `user` has. */
  function UnreadCount(db: Db, user: string): nat {
    Count(db.notifications, Shows(user, true))
  }

  /**
    `get_user_notifications`: the user's notifications, newest first; with
    `unreadOnly` exactly their unread ones, otherwise the newest 50 of all of
    theirs.
   */
  function GetUserNotifications(db: Db, user: string, unreadOnly: bool): (r: seq<Notification>)
    ensures forall x :: x in r ==> x in db.notifications && x.user == user && (unreadOnly ==> !x.isRead)
    ensures unreadOnly ==> forall x :: x in db.notifications && x.user == user && !x.isRead ==> x in r
    ensures unreadOnly ==> |r| == UnreadCount(db, user)
    ensures !unreadOnly ==> |r| == if Count(db.notifications, Shows(user, false)) < AllNotificationsLimit
                                  then Count(db.notifications, Shows(user, false))
                                  else AllNotificationsLimit
  {
    var all := NewestFirst(db.notifications, Shows(user, unreadOnly));
    if unreadOnly || |all| <= AllNotificationsLimit then all
    else
      assert forall x :: x in all[..AllNotificationsLimit] ==> x in all;
      all[..AllNotificationsLimit]
  }

  /** A new notification heads its user's unread list and does not appear in anyone else's. */
  lemma NewNotificationListedFirst(db: Db, user: string, message: string, kind: string, other: string)
    ensures GetUserNotifications(AddNotification(db, user, message, kind), user, true)
         == [Notification(user, message, kind, false)] + GetUserNotifications(db, user, true)
    ensures other != user ==>
      GetUserNotifications(AddNotification(db, user, message, kind), other, true)
      == GetUserNotifications(db, other, true)
  {
  }

  /**
    The listing is the user's matching rows in table order, reversed, and,
    when read ones are included, cut to the newest 50.
   */
  lemma GetUserNotificationsNewest(db: Db, user: string, unreadOnly: bool)
    ensures var all := Reverse(TableOrder(db.notifications, Shows(user, unreadOnly)));
      GetUserNotifications(db, user, unreadOnly)
      == if unreadOnly || |all| <= AllNotificationsLimit then all else all[..AllNotificationsLimit]
  {
    NewestFirstIsReversedTableOrder(db.notifications, Shows(user, unreadOnly));
  }

  /** A new notification heads its user's full list, which keeps the newest 50. */
  lemma NewNotificationListedFirstAll(db: Db, user: string, message: string, kind: string)
    ensures var all := [Notification(user, message, kind, false)] + NewestFirst(db.notifications, Shows(user, false));
      GetUserNotifications(AddNotification(db, user, message, kind), user, false)
      == if |all| <= AllNotificationsLimit then all else all[..AllNotificationsLimit]
  {
  }

  /**
    Marking an unread notification read removes exactly one entry from its
    owner's unread count; every other user's count, and any mark of an
    already-read or unknown notification, leaves the counts alone.
   */
  lemma MarkReadUnreadCount(db: Db, id: int, user: string)
    ensures var db' := MarkNotificationRead(db, id);
      UnreadCount(db', user) == UnreadCount(db, user)
        - (if HasRow(db.notifications, id) && Shows(user, true)(db.notifications[id - 1]) then 1 else 0)
  {
    if HasRow(db.notifications, id) {
      var n := db.notifications[id - 1];
      CountUpdate(db.notifications, id - 1, n.(isRead := true), Shows(user, true));
    }
  }

  /** Marking the same notification twice is the same as marking it once. */
  lemma MarkReadIdempotent(db: Db, id: int)
    ensures MarkNotificationRead(MarkNotificationRead(db, id), id) == MarkNotificationRead(db, id)
  {
  }
}
