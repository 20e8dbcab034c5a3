/**
 * The notification bell and dropdown: the list of the user's notifications
 * (newest first), the unread badge, marking one or all as read, deleting all,
 * and the bell animation when the unread count grows between two fetches.
 */
module Notifications {
  import opened Options
  import Streak

  type UserId = Streak.UserId

  /** A row of the notifications table as the dropdown reads it. */
  datatype Notification = Notification(
    id: int, userId: UserId, kind: string, title: string, message: string, url: string,
    read: bool, createdAt: int)

  /** The writes the dropdown sends to the record store. */
  datatype StoreRequest = SetReadById(id: int) | SetReadForUser(userId: UserId) | DeleteForUser(userId: UserId)

  const PREVIEW_LENGTH: nat := 70

  predicate NewestFirst(ns: seq<Notification>) {
    forall i, j :: 0 <= i < j < |ns| ==> ns[i].createdAt >= ns[j].createdAt
  }

  predicate UniqueIds(ns: seq<Notification>) {
    forall i, j :: 0 <= i < j < |ns| ==> ns[i].id != ns[j].id
  }

  /** The number of unread entries. */
  function UnreadCount(ns: seq<Notification>): (r: nat)
    ensures r <= |ns|
    ensures r == 0 <==> forall i :: 0 <= i < |ns| ==> ns[i].read
  {
    if ns == [] then 0 else (if !ns[0].read then 1 else 0) + UnreadCount(ns[1..])
  }

  /** The badge is shown exactly when some entry is unread. */
  function BadgeShown(ns: seq<Notification>): (shown: bool)
    ensures shown <==> exists i :: 0 <= i < |ns| && !ns[i].read
  {
    UnreadCount(ns) > 0
  }

  /** The entries with the given id become read; only their `read` flag changes. */
  function WithRead(ns: seq<Notification>, id: int): (r: seq<Notification>)
    ensures |r| == |ns|
    ensures forall i :: 0 <= i < |ns| ==> r[i].(read := ns[i].read) == ns[i]
    ensures forall i :: 0 <= i < |ns| ==> r[i].read == (ns[i].read || ns[i].id == id)
  {
    seq(|ns|, i requires 0 <= i < |ns| => if ns[i].id == id then ns[i].(read := true) else ns[i])
  }

  /** Every entry becomes read; nothing else about it changes. */
  function WithAllRead(ns: seq<Notification>): (r: seq<Notification>)
    ensures |r| == |ns|
    ensures forall i :: 0 <= i < |ns| ==> r[i].read && r[i].(read := ns[i].read) == ns[i]
  {
    seq(|ns|, i requires 0 <= i < |ns| => ns[i].(read := true))
  }

  /** The first 70 characters of a message, shown in the list. */
  function Preview(message: string): (r: string)
    ensures |r| <= PREVIEW_LENGTH
    ensures r <= message
    ensures |message| <= PREVIEW_LENGTH ==> r == message
    ensures |message| > PREVIEW_LENGTH ==> |r| == PREVIEW_LENGTH
  {
    message[..if |message| < PREVIEW_LENGTH then |message| else PREVIEW_LENGTH]
  }

  /** After a fetch, the bell animates when the unread count grew since the previous fetch. */
  function BellAnimates(prevUnreadCount: int, fetched: seq<Notification>): (animates: bool)
    ensures prevUnreadCount >= |fetched| ==> !animates
    ensures prevUnreadCount >= 0 && animates ==> BadgeShown(fetched)
  {
    UnreadCount(fetched) > prevUnreadCount
  }

  // ---------------------------------------------------------------------------
  // Properties of the list operations

  lemma {:induction false} WithReadTail(ns: seq<Notification>, id: int)
    requires ns != []
    ensures WithRead(ns, id)[1..] == WithRead(ns[1..], id)
  {
  }

  /** Marking one entry is idempotent. */
  lemma WithReadIdempotent(ns: seq<Notification>, id: int)
    ensures WithRead(WithRead(ns, id), id) == WithRead(ns, id)
  {
  }

  /** Clicking an entry that is already read leaves the list as it was. */
  lemma WithReadOfReadEntry(ns: seq<Notification>, k: int)
    requires UniqueIds(ns) && 0 <= k < |ns| && ns[k].read
    ensures WithRead(ns, ns[k].id) == ns
  {
    var r := WithRead(ns, ns[k].id);
    forall i | 0 <= i < |ns| ensures r[i] == ns[i] {
      if i != k {
        assert ns[i].id != ns[k].id;
      }
    }
  }

  /** Marking an id no entry has changes nothing. */
  lemma WithReadAbsent(ns: seq<Notification>, id: int)
    requires forall i :: 0 <= i < |ns| ==> ns[i].id != id
    ensures WithRead(ns, id) == ns
  {
  }

  /** Clicking an unread entry lowers the unread count by one; a read one leaves it. */
  lemma {:induction false} WithReadUnreadCount(ns: seq<Notification>, k: int)
    requires UniqueIds(ns) && 0 <= k < |ns|
    ensures UnreadCount(WithRead(ns, ns[k].id)) == UnreadCount(ns) - (if ns[k].read then 0 else 1)
    decreases |ns|
  {
    var id := ns[k].id;
    var r := WithRead(ns, id);
    WithReadTail(ns, id);
    if k == 0 {
      WithReadAbsent(ns[1..], id);
    } else {
      assert ns[0].id != id;
      assert UniqueIds(ns[1..]) by {
        forall i, j | 0 <= i < j < |ns| - 1 ensures ns[1..][i].id != ns[1..][j].id {
          assert ns[i + 1].id != ns[j + 1].id;
        }
      }
      assert ns[1..][k - 1] == ns[k];
      WithReadUnreadCount(ns[1..], k - 1);
    }
  }

  /** Mark-all-read clears the badge and is idempotent. */
  lemma WithAllReadFacts(ns: seq<Notification>)
    ensures UnreadCount(WithAllRead(ns)) == 0 && !BadgeShown(WithAllRead(ns))
    ensures WithAllRead(WithAllRead(ns)) == WithAllRead(ns)
  {
  }

  /** Both mark operations keep the newest-first order and the ids. */
  lemma MarkingPreservesOrder(ns: seq<Notification>, id: int)
    requires NewestFirst(ns) && UniqueIds(ns)
    ensures NewestFirst(WithRead(ns, id)) && UniqueIds(WithRead(ns, id))
    ensures NewestFirst(WithAllRead(ns)) && UniqueIds(WithAllRead(ns))
  {
  }

  /**
   * The previous unread count is only refreshed by a fetch. After all entries
   * of a fetched list are marked read locally, a later fetch that brings one
   * new unread notification, compared against the count stored by the earlier
   * fetch, animates the bell only if the earlier list had no unread entry at
   * all. The poll as written compares against 0 and always animates it.
   */
  lemma {:induction false} ArrivalAfterMarkAllRead(ns: seq<Notification>, arrival: Notification)
    requires !arrival.read
    ensures BellAnimates(UnreadCount(ns), [arrival] + WithAllRead(ns)) <==> UnreadCount(ns) == 0
    ensures PolledBellAnimates([arrival] + WithAllRead(ns))
  {
    var later := [arrival] + WithAllRead(ns);
    assert later[1..] == WithAllRead(ns);
    assert UnreadCount(later) == 1;
  }

  /**
   * The bell decision the polling timer makes as the component is written:
   * the timer and the first fetch are set up once, on the first render, so the
   * fetch they call reads that render's `prevUnreadCount`, which is 0.
   */
  function PolledBellAnimates(fetched: seq<Notification>): (animates: bool)
    ensures animates <==> BadgeShown(fetched)
  {
    BellAnimates(0, fetched)
  }

  /**
   * As written, every poll that finds an unread entry animates the bell, even
   * when the list is the one the previous poll found. Comparing against the
   * count the previous poll stored, as `NotificationDropdown.FetchNotifications`
   * does, leaves the bell still on such a repeated poll.
   */
  lemma StalePollReanimates(rows: seq<Notification>)
    requires exists i :: 0 <= i < |rows| && !rows[i].read
    ensures PolledBellAnimates(rows)
    ensures !BellAnimates(UnreadCount(rows), rows)
  {
  }

  // ---------------------------------------------------------------------------
  // The dropdown component

  class NotificationDropdown {
    var notifications: seq<Notification>
    var overlay: Option<Notification>
    var open: bool
    var prevUnreadCount: int
    var animateBell: bool
    /** The writes sent to the store, oldest first. */
    var requests: seq<StoreRequest>

    /** The list is in the order the store returned it: newest first, one entry per id. */
    ghost predicate Valid()
      reads this
    {
      NewestFirst(notifications) && UniqueIds(notifications)
    }

    constructor ()
      ensures Valid()
      ensures notifications == [] && overlay == None && !open
      ensures prevUnreadCount == 0 && !animateBell && requests == []
    {
      notifications := [];
      overlay := None;
      open := false;
      prevUnreadCount := 0;
      animateBell := false;
      requests := [];
    }

    /**
     * Polls the store. `rows` is the query's answer (newest first), or None
     * when the query failed; with no user or a failed query nothing changes.
     */
    method FetchNotifications(user: Option<UserId>, rows: Option<seq<Notification>>)
      requires Valid()
      requires rows.Some? ==> NewestFirst(rows.value) && UniqueIds(rows.value)
      modifies this
      ensures Valid()
      ensures user.None? || rows.None? ==>
                notifications == old(notifications) && prevUnreadCount == old(prevUnreadCount)
                && animateBell == old(animateBell)
      ensures user.Some? && rows.Some? ==>
                notifications == rows.value
                && animateBell == (old(animateBell) || BellAnimates(old(prevUnreadCount), rows.value))
                && prevUnreadCount == UnreadCount(rows.value)
      ensures overlay == old(overlay) && open == old(open) && requests == old(requests)
    {
      if user.None? {
        return;
      }
      if rows.Some? {
        var data := rows.value;
        notifications := data;
        var currentUnread := UnreadCount(data);
        if currentUnread > prevUnreadCount {
          animateBell := true;
        }
        prevUnreadCount := currentUnread;
      }
    }

    /**
     * Opens a notification: the store is told to mark it read only if it was
     * unread; locally it is marked read, the dropdown closes and the overlay
     * shows the clicked entry.
     */
    method HandleNotificationClick(n: Notification)
      requires Valid()
      modifies this
      ensures Valid()
      ensures requests == old(requests) + (if n.read then [] else [SetReadById(n.id)])
      ensures notifications == WithRead(old(notifications), n.id)
      ensures !open && overlay == Some(n)
      ensures prevUnreadCount == old(prevUnreadCount) && animateBell == old(animateBell)
    {
      if !n.read {
        requests := requests + [SetReadById(n.id)];
      }
      notifications := WithRead(notifications, n.id);
      open := false;
      overlay := Some(n);
    }

    /** Marks every notification read; a no-op on an empty list or without a user. */
    method MarkAllRead(user: Option<UserId>)
      requires Valid()
      modifies this
      ensures Valid()
      ensures old(notifications) == [] || user.None? ==>
                notifications == old(notifications) && requests == old(requests)
      ensures old(notifications) != [] && user.Some? ==>
                notifications == WithAllRead(old(notifications))
                && requests == old(requests) + [SetReadForUser(user.value)]
                && UnreadCount(notifications) == 0
      ensures overlay == old(overlay) && open == old(open)
      ensures prevUnreadCount == old(prevUnreadCount) && animateBell == old(animateBell)
    {
      if |notifications| == 0 {
        return;
      }
      if user.None? {
        return;
      }
      requests := requests + [SetReadForUser(user.value)];
      notifications := WithAllRead(notifications);
    }

    /** Deletes every notification; a no-op on an empty list or without a user. */
    method DeleteAll(user: Option<UserId>)
      requires Valid()
      modifies this
      ensures Valid()
      ensures old(notifications) == [] || user.None? ==>
                notifications == old(notifications) && requests == old(requests)
      ensures old(notifications) != [] && user.Some? ==>
                notifications == [] && requests == old(requests) + [DeleteForUser(user.value)]
      ensures overlay == old(overlay) && open == old(open)
      ensures prevUnreadCount == old(prevUnreadCount) && animateBell == old(animateBell)
    {
      if |notifications| == 0 {
        return;
      }
      if user.None? {
        return;
      }
      requests := requests + [DeleteForUser(user.value)];
      notifications := [];
    }
  }
}
