/**
 * lib/notifications.ts: the `@mention` scanner and the three writes to the
 * `notifications` table (insert one row, mark one row read, mark all of a
 * user's rows read). The table is an in-memory sequence of rows; a store
 * error is a `fails` flag, swallowed as `createNotification`,
 * `markNotificationAsRead` and `markAllNotificationsAsRead` swallow it.
 */
module Notifications {
  import opened Common

  // ---------------------------------------------------------------------
  // Rows
  // ---------------------------------------------------------------------

  datatype NotificationType = Answer | Mention | Vote

  /** A row of the `notifications` table; ids are numbers, times milliseconds. */
  datatype Notification = Notification(
    id: nat,
    userId: nat,
    kind: NotificationType,
    title: string,
    message: string,
    relatedQuestionId: Option<nat>,
    relatedAnswerId: Option<nat>,
    relatedUserId: Option<nat>,
    isRead: bool,
    createdAt: int)

  // ---------------------------------------------------------------------
  // The regular expression /@(\w+)/g
  // ---------------------------------------------------------------------

  /** `\w`: an ASCII letter, digit or underscore. */
  predicate IsWordChar(c: char) {
    ('a' <= c <= 'z') || ('A' <= c <= 'Z') || ('0' <= c <= '9') || c == '_'
  }

  /** What a mention can be: a non-empty run of word characters. */
  predicate IsName(s: string) {
    |s| > 0 && forall k :: 0 <= k < |s| ==> IsWordChar(s[k])
  }

  /** The end of the run of word characters starting at `i`. */
  function RunEnd(text: string, i: nat): (j: nat)
    requires i <= |text|
    ensures i <= j <= |text|
    ensures forall k :: i <= k < j ==> IsWordChar(text[k])
    ensures j == |text| || !IsWordChar(text[j])
    decreases |text| - i
  {
    if i < |text| && IsWordChar(text[i]) then RunEnd(text, i + 1) else i
  }

  /** The pattern matches at `i`: an `@` followed by a word character. */
  predicate MentionAt(text: string, i: int) {
    0 <= i && i + 1 < |text| && text[i] == '@' && IsWordChar(text[i + 1])
  }

  /** Capture group 1 of the match at `i`: the whole run after the `@`. */
  function NameAt(text: string, i: int): (name: string)
    requires MentionAt(text, i)
    ensures IsName(name)
  {
    text[i + 1..RunEnd(text, i + 1)]
  }

  /** A match: the offset of its `@` and the offset just past the run. */
  datatype Match = Match(at: nat, end: nat)

  /**
   * `mentionRegex.exec(text)` with `lastIndex == from`: the leftmost match
   * at or after `from`. `\w+` is greedy, so a match ends where the run of
   * word characters ends.
   */
  function NextMatch(text: string, from: nat): (m: Option<Match>)
    ensures m.Some? ==>
      from <= m.value.at && MentionAt(text, m.value.at) && m.value.end == RunEnd(text, m.value.at + 1)
    ensures m.Some? ==> forall i :: from <= i < m.value.at ==> !MentionAt(text, i)
    ensures m.None? ==> forall i :: from <= i ==> !MentionAt(text, i)
    decreases |text| - from
  {
    if from + 1 >= |text| then None
    else if MentionAt(text, from) then Some(Match(from, RunEnd(text, from + 1)))
    else NextMatch(text, from + 1)
  }

  /** The captures of all matches the global regex finds from `from` on. */
  function MentionsFrom(text: string, from: nat): (names: seq<string>)
    ensures forall k :: 0 <= k < |names| ==> IsName(names[k])
    decreases |text| - from
  {
    match NextMatch(text, from)
    case None => []
    case Some(m) => [NameAt(text, m.at)] + MentionsFrom(text, m.end)
  }

  /** The offsets of the `@` of those matches, in the order they are found. */
  ghost function MatchOffsets(text: string, from: nat): seq<nat>
    decreases |text| - from
  {
    match NextMatch(text, from)
    case None => []
    case Some(m) => [m.at] + MatchOffsets(text, m.end)
  }

  /**
   * Each capture the scan collects is the full run after a match found at
   * or after `from`.
   */
  lemma {:induction false} MatchesAt(text: string, from: nat)
    ensures var ms, os := MentionsFrom(text, from), MatchOffsets(text, from);
      |ms| == |os|
      && forall k :: 0 <= k < |os| ==> from <= os[k] && MentionAt(text, os[k]) && ms[k] == NameAt(text, os[k])
    decreases |text| - from
  {
    match NextMatch(text, from)
    case None =>
    case Some(m) =>
      MatchesAt(text, m.end);
      var ms, os := MentionsFrom(text, m.end), MatchOffsets(text, m.end);
      assert MentionsFrom(text, from) == [NameAt(text, m.at)] + ms;
      assert MatchOffsets(text, from) == [m.at] + os;
      forall k | 0 <= k < |os|
        ensures from <= os[k] && MentionAt(text, os[k]) && ms[k] == NameAt(text, os[k])
      {
      }
  }

  /** The matches are found left to right. */
  lemma {:induction false} MatchesIncreasing(text: string, from: nat)
    ensures var os := MatchOffsets(text, from);
      forall k, l :: 0 <= k < l < |os| ==> os[k] < os[l]
    decreases |text| - from
  {
    match NextMatch(text, from)
    case None =>
    case Some(m) =>
      MatchesIncreasing(text, m.end);
      MatchesAt(text, m.end);
      assert MatchOffsets(text, from) == [m.at] + MatchOffsets(text, m.end);
  }

  /** Both together: the scan is sound. */
  lemma MatchesSound(text: string, from: nat)
    ensures var ms, os := MentionsFrom(text, from), MatchOffsets(text, from);
      |ms| == |os|
      && (forall k :: 0 <= k < |os| ==> from <= os[k] && MentionAt(text, os[k]) && ms[k] == NameAt(text, os[k]))
      && (forall k, l :: 0 <= k < l < |os| ==> os[k] < os[l])
  {
    MatchesAt(text, from);
    MatchesIncreasing(text, from);
  }

  /**
   * No match is skipped: every `@` followed by a word character at or
   * after `from` starts a match of the scan. An `@` never sits inside the
   * run of a previous match, since `@` is not a word character.
   */
  lemma {:induction false} MatchesComplete(text: string, from: nat, i: nat)
    requires from <= i && MentionAt(text, i)
    ensures i in MatchOffsets(text, from)
    decreases |text| - from
  {
    var m := NextMatch(text, from).value;
    if i != m.at {
      MatchesComplete(text, m.end, i);
    }
  }

  // ---------------------------------------------------------------------
  // [...new Set(xs)]: duplicates removed, first occurrences kept in order
  // ---------------------------------------------------------------------

  predicate NoDuplicates<T(==)>(xs: seq<T>) {
    forall k, l :: 0 <= k < l < |xs| ==> xs[k] != xs[l]
  }

  /** The elements of `xs`, each once, in order of first occurrence. */
  function Distinct<T(==,!new)>(xs: seq<T>): (r: seq<T>)
    ensures NoDuplicates(r)
    ensures forall x :: x in r <==> x in xs
    decreases |xs|
  {
    if xs == [] then []
    else
      var d := Distinct(xs[..|xs| - 1]);
      var x := xs[|xs| - 1];
      assert forall y :: y in xs <==> y in xs[..|xs| - 1] || y == x by {
        assert xs == xs[..|xs| - 1] + [x];
      }
      if x in d then d else d + [x]
  }

  /** The offset of the first occurrence of `x` in `xs`. */
  function IndexOf<T(==)>(xs: seq<T>, x: T): (k: nat)
    requires x in xs
    ensures k < |xs| && xs[k] == x && forall j :: 0 <= j < k ==> xs[j] != x
  {
    if xs[0] == x then 0 else 1 + IndexOf(xs[1..], x)
  }

  lemma IndexOfSnoc<T>(xs: seq<T>, y: T, x: T)
    requires x in xs + [y]
    ensures IndexOf(xs + [y], x) == if x in xs then IndexOf(xs, x) else |xs|
  {
    if x in xs {
      var j := IndexOf(xs, x);
      assert (xs + [y])[j] == x;
    }
  }

  /** `Distinct` lists elements in the order of their first occurrence. */
  lemma {:induction false} DistinctFirstOccurrenceOrder<T(!new)>(xs: seq<T>)
    ensures forall a, b :: 0 <= a < b < |Distinct(xs)| ==>
      IndexOf(xs, Distinct(xs)[a]) < IndexOf(xs, Distinct(xs)[b])
    decreases |xs|
  {
    if xs != [] {
      var init, x := xs[..|xs| - 1], xs[|xs| - 1];
      assert xs == init + [x];
      DistinctFirstOccurrenceOrder(init);
      var d := Distinct(init);
      var r := Distinct(xs);
      assert r == if x in d then d else d + [x];
      forall a, b | 0 <= a < b < |r| ensures IndexOf(xs, r[a]) < IndexOf(xs, r[b]) {
        assert r[a] == d[a] && d[a] in init;
        IndexOfSnoc(init, x, r[a]);
        IndexOfSnoc(init, x, r[b]);
        assert IndexOf(xs, r[a]) == IndexOf(init, d[a]);
        if b < |d| {
          assert r[b] == d[b] && d[b] in init;
          assert IndexOf(xs, r[b]) == IndexOf(init, d[b]);
          assert IndexOf(init, d[a]) < IndexOf(init, d[b]);
        } else {
          assert r[b] == x && x !in init;
          assert IndexOf(xs, r[b]) == |init|;
          assert IndexOf(init, d[a]) < |init|;
        }
      }
    }
  }

  /** A list already free of duplicates is its own `Distinct`. */
  lemma {:induction false} DistinctOfDistinct<T(!new)>(xs: seq<T>)
    requires NoDuplicates(xs)
    ensures Distinct(xs) == xs
    decreases |xs|
  {
    if xs != [] {
      var init := xs[..|xs| - 1];
      DistinctOfDistinct(init);
      assert xs[|xs| - 1] !in init;
      assert xs == init + [xs[|xs| - 1]];
    }
  }

  // ---------------------------------------------------------------------
  // extractMentions
  // ---------------------------------------------------------------------

  /**
   * What `extractMentions` returns: the distinct captures of the scan. It
   * holds only names, exactly the names that follow an `@`, and is empty
   * for a text without an `@`.
   */
  lemma Mentions(text: string)
    ensures var names := Distinct(MentionsFrom(text, 0));
      && NoDuplicates(names)
      && (forall k :: 0 <= k < |names| ==> IsName(names[k]))
      && (forall k :: 0 <= k < |names| ==> exists i :: MentionAt(text, i) && names[k] == NameAt(text, i))
      && (forall i :: MentionAt(text, i) ==> NameAt(text, i) in names)
      && ('@' !in text ==> names == [])
  {
    var ms, os := MentionsFrom(text, 0), MatchOffsets(text, 0);
    var names := Distinct(ms);
    MatchesSound(text, 0);
    forall k | 0 <= k < |names|
      ensures IsName(names[k]) && exists i :: MentionAt(text, i) && names[k] == NameAt(text, i)
    {
      var p := IndexOf(ms, names[k]);
      assert MentionAt(text, os[p]) && names[k] == NameAt(text, os[p]);
    }
    forall i | MentionAt(text, i) ensures NameAt(text, i) in names {
      MatchesComplete(text, 0, i);
      var p :| 0 <= p < |os| && os[p] == i;
      assert ms[p] == NameAt(text, i);
    }
  }

  /**
   * The names come in order of first occurrence in the text: for any two
   * of them, some mention of the earlier one lies before every mention of
   * the later one.
   */
  lemma MentionsInTextOrder(text: string, a: nat, b: nat)
    requires a < b < |Distinct(MentionsFrom(text, 0))|
    ensures var names := Distinct(MentionsFrom(text, 0));
      exists i :: MentionAt(text, i) && NameAt(text, i) == names[a]
        && forall j :: MentionAt(text, j) && NameAt(text, j) == names[b] ==> i < j
  {
    var ms, os := MentionsFrom(text, 0), MatchOffsets(text, 0);
    var names := Distinct(ms);
    MatchesSound(text, 0);
    DistinctFirstOccurrenceOrder(ms);
    var pa, pb := IndexOf(ms, names[a]), IndexOf(ms, names[b]);
    var i := os[pa];
    forall j | MentionAt(text, j) && NameAt(text, j) == names[b] ensures i < j {
      MatchesComplete(text, 0, j);
      var q :| 0 <= q < |os| && os[q] == j;
      assert ms[q] == names[b];
      assert pb <= q;
    }
    assert MentionAt(text, i) && NameAt(text, i) == names[a];
  }

  /**
   * `extractMentions(text)`: runs the global regex to exhaustion, pushing
   * each capture, then removes duplicates through a `Set`.
   */
  method ExtractMentions(text: string) returns (names: seq<string>)
    ensures names == Distinct(MentionsFrom(text, 0))
  {
    var mentions := ScanMentions(text);
    names := DistinctBySet(mentions);
  }

  /** The `while (exec)` loop: pushes capture group 1 of every match. */
  method ScanMentions(text: string) returns (mentions: seq<string>)
    ensures mentions == MentionsFrom(text, 0)
  {
    mentions := [];
    var lastIndex: nat := 0;
    var m := NextMatch(text, lastIndex);
    while m.Some?
      invariant lastIndex <= |text|
      invariant m == NextMatch(text, lastIndex)
      invariant mentions + MentionsFrom(text, lastIndex) == MentionsFrom(text, 0)
      decreases |text| - lastIndex
    {
      var name := text[m.value.at + 1..m.value.end];
      assert MentionsFrom(text, lastIndex) == [name] + MentionsFrom(text, m.value.end);
      assert (mentions + [name]) + MentionsFrom(text, m.value.end) == mentions + ([name] + MentionsFrom(text, m.value.end));
      mentions := mentions + [name];
      lastIndex := m.value.end;
      m := NextMatch(text, lastIndex);
    }
  }

  /** `[...new Set(xs)]`: a `Set` keeps insertion order and ignores repeats. */
  method DistinctBySet(xs: seq<string>) returns (r: seq<string>)
    ensures r == Distinct(xs)
  {
    var seen: set<string> := {};
    r := [];
    var k := 0;
    while k < |xs|
      invariant k <= |xs|
      invariant r == Distinct(xs[..k])
      invariant forall x :: x in seen <==> x in r
    {
      assert xs[..k + 1][..k] == xs[..k];
      if xs[k] !in seen {
        r := r + [xs[k]];
        seen := seen + {xs[k]};
      }
      k := k + 1;
    }
    assert xs[..k] == xs;
  }

  // ---------------------------------------------------------------------
  // The notifications table
  // ---------------------------------------------------------------------

  /** The `.eq(column, value)` filter of an update. */
  datatype RowFilter = IdIs(id: nat) | UserIdIs(userId: nat)

  predicate Selects(f: RowFilter, n: Notification) {
    match f
    case IdIs(id) => n.id == id
    case UserIdIs(u) => n.userId == u
  }

  /** `update({ is_read: true }).eq(...)` applied to the rows. */
  function MarkReadWhere(rows: seq<Notification>, f: RowFilter): (r: seq<Notification>)
    ensures |r| == |rows|
    ensures forall k :: 0 <= k < |r| ==> r[k].isRead == (rows[k].isRead || Selects(f, rows[k]))
    ensures forall k :: 0 <= k < |r| ==> r[k].(isRead := rows[k].isRead) == rows[k]
  {
    seq(|rows|, k requires 0 <= k < |rows| =>
      if Selects(f, rows[k]) then rows[k].(isRead := true) else rows[k])
  }

  /** Number of unread rows. */
  function CountUnread(rows: seq<Notification>): (n: nat)
    ensures n <= |rows|
  {
    if rows == [] then 0 else (if rows[0].isRead then 0 else 1) + CountUnread(rows[1..])
  }

  /** Number of unread rows the filter selects. */
  function CountUnreadSelected(rows: seq<Notification>, f: RowFilter): nat {
    if rows == [] then 0
    else (if !rows[0].isRead && Selects(f, rows[0]) then 1 else 0) + CountUnreadSelected(rows[1..], f)
  }

  /**
   * The update sets `isRead` on the selected rows and changes nothing
   * else: no other field, no other row, neither length nor order.
   */
  lemma MarkReadWhereEffect(rows: seq<Notification>, f: RowFilter)
    ensures var r := MarkReadWhere(rows, f);
      |r| == |rows|
      && (forall k :: 0 <= k < |r| && Selects(f, rows[k]) ==> r[k].isRead && r[k] == rows[k].(isRead := true))
      && (forall k :: 0 <= k < |r| && !Selects(f, rows[k]) ==> r[k] == rows[k])
  {
  }

  /** Marking read twice is marking read once. */
  lemma MarkReadWhereIdempotent(rows: seq<Notification>, f: RowFilter)
    ensures MarkReadWhere(MarkReadWhere(rows, f), f) == MarkReadWhere(rows, f)
  {
  }

  /** The unread count drops by exactly the number of unread rows selected. */
  lemma {:induction false} MarkReadWhereUnread(rows: seq<Notification>, f: RowFilter)
    ensures CountUnread(MarkReadWhere(rows, f)) == CountUnread(rows) - CountUnreadSelected(rows, f)
  {
    if rows != [] {
      MarkReadWhereUnread(rows[1..], f);
      assert MarkReadWhere(rows, f)[1..] == MarkReadWhere(rows[1..], f);
      CountUnreadSelectedBound(rows[1..], f);
    }
  }

  lemma {:induction false} CountUnreadSelectedBound(rows: seq<Notification>, f: RowFilter)
    ensures CountUnreadSelected(rows, f) <= CountUnread(rows)
  {
    if rows != [] { CountUnreadSelectedBound(rows[1..], f); }
  }

  /** Ids are pairwise distinct. */
  predicate UniqueIds(rows: seq<Notification>) {
    forall j, k :: 0 <= j < k < |rows| ==> rows[j].id != rows[k].id
  }

  /** With distinct ids, marking one id read clears at most one unread row. */
  lemma {:induction false} MarkOneClearsAtMostOne(rows: seq<Notification>, id: nat)
    requires UniqueIds(rows)
    ensures CountUnreadSelected(rows, IdIs(id)) <= 1
    ensures CountUnreadSelected(rows, IdIs(id)) == 1 <==>
      exists k :: 0 <= k < |rows| && rows[k].id == id && !rows[k].isRead
  {
    if rows != [] {
      MarkOneClearsAtMostOne(rows[1..], id);
      if rows[0].id == id {
        assert forall k :: 0 <= k < |rows[1..]| ==> rows[1..][k].id != id by {
          forall k | 0 <= k < |rows[1..]| ensures rows[1..][k].id != id {
            assert rows[1..][k] == rows[k + 1];
          }
        }
        NoneSelected(rows[1..], id);
      }
      if exists k :: 0 <= k < |rows| && rows[k].id == id && !rows[k].isRead {
        var k :| 0 <= k < |rows| && rows[k].id == id && !rows[k].isRead;
        if k > 0 { assert rows[1..][k - 1] == rows[k]; }
      }
      if exists k :: 0 <= k < |rows[1..]| && rows[1..][k].id == id && !rows[1..][k].isRead {
        var k :| 0 <= k < |rows[1..]| && rows[1..][k].id == id && !rows[1..][k].isRead;
        assert rows[k + 1] == rows[1..][k];
      }
    }
  }

  lemma {:induction false} NoneSelected(rows: seq<Notification>, id: nat)
    requires forall k :: 0 <= k < |rows| ==> rows[k].id != id
    ensures CountUnreadSelected(rows, IdIs(id)) == 0
  {
    if rows != [] {
      assert forall k :: 0 <= k < |rows[1..]| ==> rows[1..][k] == rows[k + 1];
      NoneSelected(rows[1..], id);
    }
  }

  /** After marking all of `u`'s rows read, `u` has no unread row left. */
  lemma {:induction false} MarkAllLeavesNoneUnread(rows: seq<Notification>, u: nat)
    ensures CountUnreadSelected(MarkReadWhere(rows, UserIdIs(u)), UserIdIs(u)) == 0
  {
    if rows != [] {
      MarkAllLeavesNoneUnread(rows[1..], u);
      assert MarkReadWhere(rows, UserIdIs(u))[1..] == MarkReadWhere(rows[1..], UserIdIs(u));
    }
  }

  /** The rows of one user, in table order. */
  function RowsOf(rows: seq<Notification>, u: nat): (r: seq<Notification>)
    ensures forall k :: 0 <= k < |r| ==> r[k] in rows && r[k].userId == u
    ensures forall row :: row in rows && row.userId == u ==> row in r
  {
    if rows == [] then []
    else (if rows[0].userId == u then [rows[0]] else []) + RowsOf(rows[1..], u)
  }

  /** Marking all of `u`'s rows read leaves every other user's rows as they were. */
  lemma {:induction false} MarkAllKeepsOthers(rows: seq<Notification>, u: nat, v: nat)
    requires u != v
    ensures RowsOf(MarkReadWhere(rows, UserIdIs(u)), v) == RowsOf(rows, v)
  {
    if rows != [] {
      MarkAllKeepsOthers(rows[1..], u, v);
      assert MarkReadWhere(rows, UserIdIs(u))[1..] == MarkReadWhere(rows[1..], UserIdIs(u));
    }
  }

  /**
   * The `notifications` table. Ids come from `nextId`, standing for the
   * database's generated key; times are passed in as `now`.
   */
  class NotificationStore {
    var rows: seq<Notification>
    var nextId: nat

    ghost predicate Valid()
      reads this
    {
      UniqueIds(rows) && forall k :: 0 <= k < |rows| ==> rows[k].id < nextId
    }

    constructor ()
      ensures Valid() && rows == [] && nextId == 0
    {
      rows := [];
      nextId := 0;
    }

    /**
     * `createNotification`: inserts one unread row carrying the given
     * fields. A failed insert is logged and leaves the table unchanged.
     */
    method Create(userId: nat, kind: NotificationType, title: string, message: string,
                  relatedQuestionId: Option<nat>, relatedAnswerId: Option<nat>,
                  relatedUserId: Option<nat>, now: int, fails: bool)
      requires Valid()
      modifies this
      ensures Valid()
      ensures fails ==> rows == old(rows) && nextId == old(nextId)
      ensures !fails ==> nextId == old(nextId) + 1 && rows == old(rows) + [Notification(
        old(nextId), userId, kind, title, message,
        relatedQuestionId, relatedAnswerId, relatedUserId, false, now)]
    {
      if fails { return; }
      var row := Notification(nextId, userId, kind, title, message,
                              relatedQuestionId, relatedAnswerId, relatedUserId, false, now);
      rows := rows + [row];
      nextId := nextId + 1;
    }

    /** The row-by-row update behind `update(...).eq(...)`. */
    method UpdateWhere(f: RowFilter)
      requires Valid()
      modifies this
      ensures Valid() && nextId == old(nextId)
      ensures rows == MarkReadWhere(old(rows), f)
    {
      var i := 0;
      while i < |rows|
        invariant i <= |rows| && |rows| == |old(rows)|
        invariant forall k :: 0 <= k < i ==> rows[k] == MarkReadWhere(old(rows), f)[k]
        invariant forall k :: i <= k < |rows| ==> rows[k] == old(rows)[k]
        invariant forall k :: 0 <= k < |rows| ==> rows[k].id == old(rows)[k].id
        invariant nextId == old(nextId)
      {
        if Selects(f, rows[i]) {
          rows := rows[i := rows[i].(isRead := true)];
        }
        i := i + 1;
      }
      assert rows == MarkReadWhere(old(rows), f);
    }

    /**
     * `markNotificationAsRead(id)`: sets `isRead` on the row with that id.
     * A failed update is logged and leaves the table unchanged.
     */
    method MarkAsRead(id: nat, fails: bool)
      requires Valid()
      modifies this
      ensures Valid() && nextId == old(nextId)
      ensures rows == if fails then old(rows) else MarkReadWhere(old(rows), IdIs(id))
    {
      if !fails { UpdateWhere(IdIs(id)); }
    }

    /**
     * `markAllNotificationsAsRead(userId)`: sets `isRead` on every row of
     * that user. A failed update is logged and leaves the table unchanged.
     */
    method MarkAllAsRead(userId: nat, fails: bool)
      requires Valid()
      modifies this
      ensures Valid() && nextId == old(nextId)
      ensures rows == if fails then old(rows) else MarkReadWhere(old(rows), UserIdIs(userId))
    {
      if !fails { UpdateWhere(UserIdIs(userId)); }
    }
  }
}
