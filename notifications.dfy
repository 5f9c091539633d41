/** The template context processor that puts the unread-notification count on every page. */
module Notifications {

  /** A notification as the count sees it: whom it is addressed to, and whether it was read. */
  datatype Notification = Notification(recipient: nat, isRead: bool)

  const CountKey := "unread_notifications_count"

  predicate IsUnreadFor(n: Notification, user: nat) {
    n.recipient == user && !n.isRead
  }

  /** `Notification.objects.filter(recipient=user, is_read=False).count()` */
  function UnreadCount(ns: seq<Notification>, user: nat): (r: nat)
    ensures r <= |ns|
  {
    if ns == [] then 0
    else UnreadCount(ns[..|ns| - 1], user) + (if IsUnreadFor(ns[|ns| - 1], user) then 1 else 0)
  }

  function AddressedCount(ns: seq<Notification>, user: nat): nat {
    if ns == [] then 0
    else AddressedCount(ns[..|ns| - 1], user) + (if ns[|ns| - 1].recipient == user then 1 else 0)
  }

  /** The count is the number of notifications addressed to the user and not yet read. */
  lemma {:induction false} UnreadCountIsCardinality(ns: seq<Notification>, user: nat)
    ensures UnreadCount(ns, user) == |set i | 0 <= i < |ns| && IsUnreadFor(ns[i], user)|
  {
    if ns != [] {
      var init := ns[..|ns| - 1];
      UnreadCountIsCardinality(init, user);
      var before := set i | 0 <= i < |init| && IsUnreadFor(init[i], user);
      var after := set i | 0 <= i < |ns| && IsUnreadFor(ns[i], user);
      if IsUnreadFor(ns[|ns| - 1], user) {
        assert after == before + {|ns| - 1};
      } else {
        assert after == before;
      }
    }
  }

  /** Never more unread notifications than notifications addressed to the user. */
  lemma {:induction false} UnreadAtMostAddressed(ns: seq<Notification>, user: nat)
    ensures UnreadCount(ns, user) <= AddressedCount(ns, user)
  {
    if ns != [] {
      UnreadAtMostAddressed(ns[..|ns| - 1], user);
    }
  }

  /**
    `unread_notifications`: a single-entry context; 0 for an anonymous
    visitor, otherwise the user's unread count.
  */
  function UnreadNotifications(authenticated: bool, user: nat, ns: seq<Notification>): (ctx: map<string, nat>)
    ensures ctx.Keys == {CountKey}
    ensures !authenticated ==> ctx[CountKey] == 0
    ensures authenticated ==> ctx[CountKey] == |set i | 0 <= i < |ns| && IsUnreadFor(ns[i], user)|
    ensures authenticated ==> ctx[CountKey] <= AddressedCount(ns, user)
  {
    if authenticated then
      UnreadCountIsCardinality(ns, user);
      UnreadAtMostAddressed(ns, user);
      map[CountKey := UnreadCount(ns, user)]
    else
      map[CountKey := 0]
  }

  /** For an anonymous visitor the notifications are never consulted: the result does not depend on them. */
  lemma AnonymousIgnoresNotifications(user: nat, ns1: seq<Notification>, ns2: seq<Notification>)
    ensures UnreadNotifications(false, user, ns1) == UnreadNotifications(false, user, ns2)
  {
  }
}
