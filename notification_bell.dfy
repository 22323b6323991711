/**
 * The notification bell (components/notification-bell.tsx): the latest
 * twenty notifications of the signed-in user with an unread counter, a
 * click that marks one read and follows it, "mark all read", the badge
 * label and the relative time shown beside each notification.
 */
module NotificationBell {
  import opened Common
  import opened JsString
  import opened Notifications

  const FetchLimit: nat := 20

  // ---------------------------------------------------------------------
  // Local list
  // ---------------------------------------------------------------------

  /** The first `n` rows, as `.limit(n)` keeps them. */
  function Take(rows: seq<Notification>, n: nat): (r: seq<Notification>)
    ensures |r| == Min(n, |rows|) && r == rows[..|r|]
  {
    rows[..Min(n, |rows|)]
  }

  /** `prev.map((n) => ({ ...n, is_read: true }))`. */
  function MarkAllLocal(rows: seq<Notification>): (r: seq<Notification>)
    ensures |r| == |rows|
    ensures forall k :: 0 <= k < |r| ==> r[k] == rows[k].(isRead := true)
  {
    seq(|rows|, k requires 0 <= k < |rows| => rows[k].(isRead := true))
  }

  lemma {:induction false} AllReadNoneUnread(rows: seq<Notification>)
    requires forall k :: 0 <= k < |rows| ==> rows[k].isRead
    ensures CountUnread(rows) == 0
  {
    if rows != [] {
      assert forall k :: 0 <= k < |rows[1..]| ==> rows[1..][k] == rows[k + 1];
      AllReadNoneUnread(rows[1..]);
    }
  }

  /** A positive unread count has an unread row behind it. */
  lemma {:induction false} UnreadWitness(rows: seq<Notification>)
    requires CountUnread(rows) > 0
    ensures exists k :: 0 <= k < |rows| && !rows[k].isRead
  {
    if rows[0].isRead {
      UnreadWitness(rows[1..]);
      var k :| 0 <= k < |rows[1..]| && !rows[1..][k].isRead;
      assert !rows[k + 1].isRead;
    }
  }

  /** After the local mark-all no row is unread. */
  lemma MarkAllLocalNoneUnread(rows: seq<Notification>)
    ensures CountUnread(MarkAllLocal(rows)) == 0
  {
    AllReadNoneUnread(MarkAllLocal(rows));
  }

  /**
   * On a list holding only `u`'s rows, the local mark-all does what the
   * table update `markAllNotificationsAsRead(u)` does to those rows.
   */
  lemma MarkAllLocalMatchesStore(rows: seq<Notification>, u: nat)
    requires forall k :: 0 <= k < |rows| ==> rows[k].userId == u
    ensures MarkAllLocal(rows) == MarkReadWhere(rows, UserIdIs(u))
  {
  }

  /** The unread rows of `u` in the table are the unread rows of `RowsOf(rows, u)`. */
  lemma {:induction false} UnreadOfUser(rows: seq<Notification>, u: nat)
    ensures CountUnread(RowsOf(rows, u)) == CountUnreadSelected(rows, UserIdIs(u))
  {
    if rows != [] {
      UnreadOfUser(rows[1..], u);
      var head: seq<Notification> := if rows[0].userId == u then [rows[0]] else [];
      CountUnreadAppend(head, RowsOf(rows[1..], u));
    }
  }

  lemma {:induction false} CountUnreadAppend(a: seq<Notification>, b: seq<Notification>)
    ensures CountUnread(a + b) == CountUnread(a) + CountUnread(b)
  {
    if a != [] {
      assert (a + b)[1..] == a[1..] + b;
      CountUnreadAppend(a[1..], b);
    } else {
      assert a + b == b;
    }
  }

  lemma {:induction false} CountUnreadTake(rows: seq<Notification>, n: nat)
    ensures CountUnread(Take(rows, n)) <= CountUnread(rows)
  {
    var t := Take(rows, n);
    assert rows == t + rows[|t|..];
    CountUnreadAppend(t, rows[|t|..]);
  }

  /**
   * Fetching `u`'s rows counts at most the unread rows of `u` in the table,
   * and exactly those when `u` has no more than twenty rows.
   */
  lemma FetchedUnreadBound(rows: seq<Notification>, u: nat)
    ensures CountUnread(Take(RowsOf(rows, u), FetchLimit)) <= CountUnreadSelected(rows, UserIdIs(u))
    ensures |RowsOf(rows, u)| <= FetchLimit ==>
      CountUnread(Take(RowsOf(rows, u), FetchLimit)) == CountUnreadSelected(rows, UserIdIs(u))
  {
    UnreadOfUser(rows, u);
    CountUnreadTake(RowsOf(rows, u), FetchLimit);
    if |RowsOf(rows, u)| <= FetchLimit {
      assert Take(RowsOf(rows, u), FetchLimit) == RowsOf(rows, u);
    }
  }

  /** A refetch after marking all of `u`'s rows read shows no unread row. */
  lemma RefetchAfterMarkAll(rows: seq<Notification>, u: nat)
    ensures CountUnread(Take(RowsOf(MarkReadWhere(rows, UserIdIs(u)), u), FetchLimit)) == 0
  {
    MarkAllLeavesNoneUnread(rows, u);
    FetchedUnreadBound(MarkReadWhere(rows, UserIdIs(u)), u);
  }

  // ---------------------------------------------------------------------
  // Badge, icon and relative time
  // ---------------------------------------------------------------------

  /** The badge: hidden at zero, `9+` above nine, the number otherwise. */
  function BadgeLabel(count: nat): (shown: Option<string>)
    ensures shown.None? <==> count == 0
    ensures shown.Some? ==> 1 <= |shown.value| <= 2
  {
    if count == 0 then None
    else if count > 9 then Some("9+")
    else
      assert count < 10;
      Some(Decimal(count))
  }

  /** A shown label reads back as the count, or as `9+` for any count above nine. */
  lemma BadgeLabelMeaning(count: nat)
    requires count > 0
    ensures count > 9 ==> BadgeLabel(count) == Some("9+")
    ensures count <= 9 ==>
      BadgeLabel(count) == Some([Digit(count)]) && RadixValue(BadgeLabel(count).value, 10) == count
  {
    if count <= 9 { RadixRoundTrip(count, 10); }
  }

  /** "Mark all read" is offered only while something is unread. */
  predicate ShowMarkAll(unreadCount: nat) { unreadCount > 0 }

  datatype Icon = MessageSquareIcon | ThumbsUpIcon | AtSignIcon

  /** `getNotificationIcon`: one icon per notification type. */
  function IconFor(kind: NotificationType): (icon: Icon)
    ensures kind == Answer <==> icon == MessageSquareIcon
    ensures kind == Vote <==> icon == ThumbsUpIcon
    ensures kind == Mention <==> icon == AtSignIcon
  {
    match kind
    case Answer => MessageSquareIcon
    case Vote => ThumbsUpIcon
    case Mention => AtSignIcon
  }

  /** The bucket `formatDate` picks, with its whole number. */
  datatype Ago = JustNow | MinutesAgo(n: nat) | HoursAgo(n: nat) | DaysAgo(n: nat)

  const MsPerMinute: int := 1000 * 60

  /**
   * The bucket for a difference of `diff` milliseconds (now minus the
   * creation time). The minutes are `Math.floor(diff / 60000)`, which is
   * Euclidean division for a positive divisor, so a timestamp in the
   * future is "just now"; the hours and days are the floor of the minutes
   * divided again.
   */
  function AgeOf(diff: int): (a: Ago)
    ensures a.JustNow? <==> diff < 60000
    ensures a.MinutesAgo? <==> 60000 <= diff < 3600000
    ensures a.HoursAgo? <==> 3600000 <= diff < 86400000
    ensures a.DaysAgo? <==> 86400000 <= diff
    ensures a.MinutesAgo? ==> a.n == diff / 60000 && 1 <= a.n < 60
    ensures a.HoursAgo? ==> a.n == diff / 3600000 && 1 <= a.n < 24
    ensures a.DaysAgo? ==> a.n == diff / 86400000 && a.n >= 1
  {
    var minutes := diff / MsPerMinute;
    if minutes < 1 then JustNow
    else if minutes < 60 then MinutesAgo(minutes)
    else if minutes < 1440 then HoursAgo(minutes / 60)
    else DaysAgo(minutes / 1440)
  }

  /** The text of a bucket. */
  function RenderAgo(a: Ago): (s: string)
    ensures a.JustNow? <==> s == "Just now"
    ensures !a.JustNow? ==> |s| > 5 && s[|s| - 4..] == " ago"
  {
    assert "Just now"[7] == 'w';
    match a
    case JustNow => "Just now"
    case MinutesAgo(n) => Decimal(n) + "m ago"
    case HoursAgo(n) => Decimal(n) + "h ago"
    case DaysAgo(n) => Decimal(n) + "d ago"
  }

  /** `formatDate(created_at)` at time `now`, both in milliseconds. */
  function FormatDate(now: int, createdAt: int): (s: string)
    ensures s == "Just now" <==> now - createdAt < 60000
  {
    RenderAgo(AgeOf(now - createdAt))
  }

  /** Reads a rendered bucket back. */
  function ParseAgo(s: string): (r: Option<Ago>)
    ensures r == Some(JustNow) <==> s == "Just now"
  {
    if s == "Just now" then Some(JustNow)
    else if |s| <= 5 then None
    else
      var digits, suffix := s[..|s| - 5], s[|s| - 5..];
      if !(forall k :: 0 <= k < |digits| ==> IsDigitIn(digits[k], 10)) then None
      else if suffix == "m ago" then Some(MinutesAgo(RadixValue(digits, 10)))
      else if suffix == "h ago" then Some(HoursAgo(RadixValue(digits, 10)))
      else if suffix == "d ago" then Some(DaysAgo(RadixValue(digits, 10)))
      else None
  }

  /** Every bucket's text is unambiguous: it reads back as that bucket. */
  lemma ParseRenderAgo(a: Ago)
    ensures ParseAgo(RenderAgo(a)) == Some(a)
  {
    match a
    case JustNow =>
    case MinutesAgo(n) => ParseNumbered(n, "m ago");
    case HoursAgo(n) => ParseNumbered(n, "h ago");
    case DaysAgo(n) => ParseNumbered(n, "d ago");
  }

  /** A number followed by a five-character unit splits back into the two. */
  lemma ParseNumbered(n: nat, suffix: string)
    requires |suffix| == 5 && suffix[4] == 'o'
    ensures var s := Decimal(n) + suffix;
      s != "Just now" && |s| > 5 && s[..|s| - 5] == Decimal(n) && s[|s| - 5..] == suffix
      && RadixValue(s[..|s| - 5], 10) == n
  {
    var d := Decimal(n);
    var s := d + suffix;
    assert s[..|s| - 5] == d;
    assert s[|s| - 5..] == suffix;
    assert s[|s| - 1] == 'o';
    RadixRoundTrip(n, 10);
  }

  /** The shown text of a notification created `createdAt` read at `now`. */
  lemma FormatDateReadsBack(now: int, createdAt: int)
    ensures ParseAgo(FormatDate(now, createdAt)) == Some(AgeOf(now - createdAt))
  {
    ParseRenderAgo(AgeOf(now - createdAt));
  }

  // ---------------------------------------------------------------------
  // Bell state
  // ---------------------------------------------------------------------

  /**
   * The component's state. The counter never exceeds the unread rows of
   * the local list: a click lowers it without touching the list's flags,
   * so clicking the same unread row twice lowers it twice.
   */
  class Bell {
    var notifications: seq<Notification>
    var unreadCount: nat
    var isOpen: bool

    ghost predicate Valid()
      reads this
    {
      |notifications| <= FetchLimit && unreadCount <= CountUnread(notifications)
    }

    constructor ()
      ensures Valid() && notifications == [] && unreadCount == 0 && !isOpen
    {
      notifications := [];
      unreadCount := 0;
      isOpen := false;
    }

    /**
     * `fetchNotifications` for `user` against the `notifications` table
     * `rows` (in the order the query returns them): selects the user's
     * rows, keeps the first twenty and counts the unread ones. Without a
     * user, or when the query fails, nothing changes.
     */
    method Fetch(user: Option<nat>, rows: seq<Notification>, fails: bool)
      requires Valid()
      modifies this
      ensures Valid() && isOpen == old(isOpen)
      ensures user.None? || fails ==>
        notifications == old(notifications) && unreadCount == old(unreadCount)
      ensures user.Some? && !fails ==>
        notifications == Take(RowsOf(rows, user.value), FetchLimit)
        && unreadCount == CountUnread(notifications)
        && unreadCount <= CountUnreadSelected(rows, UserIdIs(user.value))
    {
      if user.None? || fails { return; }
      notifications := Take(RowsOf(rows, user.value), FetchLimit);
      unreadCount := CountUnread(notifications);
      FetchedUnreadBound(rows, user.value);
    }

    /** The popover opens or closes. */
    method SetOpen(open: bool)
      requires Valid()
      modifies this
      ensures Valid() && isOpen == open
      ensures notifications == old(notifications) && unreadCount == old(unreadCount)
    {
      isOpen := open;
    }

    /**
     * `handleNotificationClick` on the `i`-th row: an unread row is marked
     * read in the table and the counter drops by one, never below zero; the
     * local list is untouched; the popover closes; the question is the
     * navigation target when the row names one.
     */
    method Click(i: nat, store: NotificationStore, fails: bool) returns (target: Option<nat>)
      requires Valid() && store.Valid() && i < |notifications|
      modifies this, store
      ensures Valid() && store.Valid() && !isOpen
      ensures notifications == old(notifications)
      ensures target == notifications[i].relatedQuestionId
      ensures old(notifications)[i].isRead ==>
        unreadCount == old(unreadCount) && store.rows == old(store.rows)
      ensures !old(notifications)[i].isRead ==>
        unreadCount == Max(0, old(unreadCount) - 1)
        && store.rows == (if fails then old(store.rows) else MarkReadWhere(old(store.rows), IdIs(notifications[i].id)))
      ensures store.nextId == old(store.nextId)
    {
      var n := notifications[i];
      if !n.isRead {
        store.MarkAsRead(n.id, fails);
        unreadCount := Max(0, unreadCount - 1) as nat;
      }
      isOpen := false;
      target := n.relatedQuestionId;
    }

    /**
     * `handleMarkAllAsRead` for `user`: all of the user's rows are marked
     * read in the table; locally, every row is marked read and the counter
     * drops to zero, even when the table update failed.
     */
    method MarkAll(user: Option<nat>, store: NotificationStore, fails: bool)
      requires Valid() && store.Valid()
      modifies this, store
      ensures Valid() && store.Valid() && isOpen == old(isOpen) && store.nextId == old(store.nextId)
      ensures user.None? ==>
        notifications == old(notifications) && unreadCount == old(unreadCount) && store.rows == old(store.rows)
      ensures user.Some? ==>
        notifications == MarkAllLocal(old(notifications)) && unreadCount == 0
        && store.rows == (if fails then old(store.rows) else MarkReadWhere(old(store.rows), UserIdIs(user.value)))
    {
      if user.None? { return; }
      store.MarkAllAsRead(user.value, fails);
      unreadCount := 0;
      notifications := MarkAllLocal(notifications);
    }
  }

  /**
   * "Mark all read" is offered, and the badge shown, only while some
   * listed notification is unread.
   */
  lemma MarkAllOfferedOnlyWhenUnread(b: Bell)
    requires b.Valid() && ShowMarkAll(b.unreadCount)
    ensures exists k :: 0 <= k < |b.notifications| && !b.notifications[k].isRead
  {
    UnreadWitness(b.notifications);
  }
}
