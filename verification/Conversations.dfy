/** The message table: grouping a user's messages by interlocutor in one pass, and marking a thread
    as read. A query that orders by `sent_at` leaves the order among equal times open, so its
    answer is any listing of the matching rows that is ordered that way. */
module Conversations {

  type UserId = string

  datatype Message = Message(sender: UserId, receiver: UserId, content: string, sentAt: int, isRead: bool)

  datatype Conversation = Conversation(other: UserId, lastMessage: string, lastMessageAt: int, unread: nat)

  // Queries

  predicate Involves(m: Message, user: UserId) {
    m.sender == user || m.receiver == user
  }

  predicate Between(m: Message, a: UserId, b: UserId) {
    (m.sender == a && m.receiver == b) || (m.sender == b && m.receiver == a)
  }

  predicate InRange(order: seq<nat>, rows: seq<Message>) {
    forall k | 0 <= k < |order| :: order[k] < |rows|
  }

  ghost predicate Distinct(order: seq<nat>) {
    forall j, k | 0 <= j < k < |order| :: order[j] != order[k]
  }

  /** `order` lists each message sent or received by `user` exactly once. */
  ghost predicate ListsMessagesOf(order: seq<nat>, rows: seq<Message>, user: UserId) {
    && InRange(order, rows) && Distinct(order)
    && (forall k | 0 <= k < |order| :: Involves(rows[order[k]], user))
    && (forall i: nat | i < |rows| && Involves(rows[i], user) :: i in order)
  }

  /** `order` lists each message exchanged by `a` and `b` exactly once. */
  ghost predicate ListsThread(order: seq<nat>, rows: seq<Message>, a: UserId, b: UserId) {
    && InRange(order, rows) && Distinct(order)
    && (forall k | 0 <= k < |order| :: Between(rows[order[k]], a, b))
    && (forall i: nat | i < |rows| && Between(rows[i], a, b) :: i in order)
  }

  ghost predicate NewestFirst(order: seq<nat>, rows: seq<Message>) {
    && (forall k | 0 <= k < |order| :: order[k] < |rows|)
    && forall j, k | 0 <= j < k < |order| :: rows[order[j]].sentAt >= rows[order[k]].sentAt
  }

  ghost predicate OldestFirst(order: seq<nat>, rows: seq<Message>) {
    && (forall k | 0 <= k < |order| :: order[k] < |rows|)
    && forall j, k | 0 <= j < k < |order| :: rows[order[j]].sentAt <= rows[order[k]].sentAt
  }

  /** The other end of a message of `user`. */
  function Partner(m: Message, user: UserId): UserId {
    if m.sender == user then m.receiver else m.sender
  }

  /** Those with another user are the messages the two exchanged. */
  lemma PartnerExactly(m: Message, user: UserId, other: UserId)
    ensures Involves(m, user) && Partner(m, user) == other
       <==> (m.sender == user && m.receiver == other) || (m.sender == other && m.receiver == user)
    ensures Between(m, user, other)
       <==> (m.sender == user && m.receiver == other) || (m.sender == other && m.receiver == user)
  {
  }

  predicate UnreadFrom(m: Message, user: UserId, other: UserId) {
    m.receiver == user && m.sender == other && !m.isRead
  }

  /** The rows with unread messages to `user` from `other`. */
  ghost function UnreadRows(rows: seq<Message>, user: UserId, other: UserId): set<nat> {
    set i: nat | i < |rows| && UnreadFrom(rows[i], user, other)
  }

  /** All rows with unread messages to `user`. */
  ghost function AllUnreadRows(rows: seq<Message>, user: UserId): set<nat> {
    set i: nat | i < |rows| && rows[i].receiver == user && !rows[i].isRead
  }

  // Grouping, as a specification

  /** One group: `c` summarises the messages of `user` with `c.other`. */
  ghost predicate Summarises(c: Conversation, rows: seq<Message>, user: UserId) {
    && (exists i: nat :: NewestOf(i, rows, user, c))
    && c.unread == |UnreadRows(rows, user, c.other)|
  }

  ghost predicate NewestOf(i: nat, rows: seq<Message>, user: UserId, c: Conversation) {
    && i < |rows| && Involves(rows[i], user) && Partner(rows[i], user) == c.other
    && rows[i].content == c.lastMessage && rows[i].sentAt == c.lastMessageAt
    && forall j: nat | j < |rows| && Involves(rows[j], user) && Partner(rows[j], user) == c.other ::
         rows[j].sentAt <= c.lastMessageAt
  }

  predicate HasGroup(cs: seq<Conversation>, other: UserId) {
    exists k | 0 <= k < |cs| :: cs[k].other == other
  }

  predicate DistinctPartners(cs: seq<Conversation>) {
    forall j, k | 0 <= j < k < |cs| :: cs[j].other != cs[k].other
  }

  predicate MostRecentFirst(cs: seq<Conversation>) {
    forall j, k | 0 <= j < k < |cs| :: cs[j].lastMessageAt >= cs[k].lastMessageAt
  }

  /** The group-by: one group per interlocutor, ordered by most recent message. */
  ghost predicate GroupsByPartner(cs: seq<Conversation>, rows: seq<Message>, user: UserId) {
    && DistinctPartners(cs) && MostRecentFirst(cs)
    && (forall k | 0 <= k < |cs| :: Summarises(cs[k], rows, user))
    && (forall i: nat | i < |rows| && Involves(rows[i], user) :: HasGroup(cs, Partner(rows[i], user)))
  }

  // The one pass

  /** The unread rows met in the first `n` messages of the listing. */
  ghost function UnreadSeen(order: seq<nat>, n: nat, rows: seq<Message>, user: UserId, other: UserId): set<nat>
    requires InRange(order, rows) && n <= |order|
  {
    if n == 0 then {}
    else
      UnreadSeen(order, n - 1, rows, user, other)
      + if UnreadFrom(rows[order[n - 1]], user, other) then {order[n - 1]} else {}
  }

  lemma {:induction false} InUnreadSeen(order: seq<nat>, n: nat, rows: seq<Message>, user: UserId,
                                        other: UserId, i: nat)
    requires InRange(order, rows) && n <= |order|
    ensures i in UnreadSeen(order, n, rows, user, other)
            <==> exists k :: 0 <= k < n && order[k] == i && UnreadFrom(rows[i], user, other)
  {
    if n > 0 {
      InUnreadSeen(order, n - 1, rows, user, other, i);
    }
  }

  /** How many of the first `n` messages of the listing are unread messages from `other`. */
  function UnreadCount(order: seq<nat>, n: nat, rows: seq<Message>, user: UserId, other: UserId): nat
    requires InRange(order, rows) && n <= |order|
  {
    if n == 0 then 0
    else
      UnreadCount(order, n - 1, rows, user, other)
      + if UnreadFrom(rows[order[n - 1]], user, other) then 1 else 0
  }

  lemma NotYetSeen(order: seq<nat>, n: nat, rows: seq<Message>, user: UserId, other: UserId)
    requires InRange(order, rows) && Distinct(order) && n < |order|
    ensures order[n] !in UnreadSeen(order, n, rows, user, other)
  {
    hide UnreadFrom, UnreadSeen;
    InUnreadSeen(order, n, rows, user, other, order[n]);
  }

  /** The count over the first `n` messages is the number of rows seen in them. */
  ghost predicate CountsSeen(order: seq<nat>, n: nat, rows: seq<Message>, user: UserId, other: UserId)
    requires InRange(order, rows) && n <= |order|
  {
    UnreadCount(order, n, rows, user, other) == |UnreadSeen(order, n, rows, user, other)|
  }

  lemma CountStep(order: seq<nat>, n: nat, rows: seq<Message>, user: UserId, other: UserId)
    requires InRange(order, rows) && Distinct(order) && n < |order| && CountsSeen(order, n, rows, user, other)
    ensures CountsSeen(order, n + 1, rows, user, other)
  {
    hide UnreadFrom;
    NotYetSeen(order, n, rows, user, other);
  }

  lemma {:induction false} CountIsSize(order: seq<nat>, n: nat, rows: seq<Message>, user: UserId, other: UserId)
    requires InRange(order, rows) && Distinct(order) && n <= |order|
    ensures CountsSeen(order, n, rows, user, other)
  {
    if n > 0 {
      hide CountsSeen;
      CountIsSize(order, n - 1, rows, user, other);
      CountStep(order, n - 1, rows, user, other);
    }
  }

  /** A value of the dictionary; the dictionary keeps its keys in insertion order. */
  datatype Group = Group(last: Message, unread: nat)
  datatype Dictionary = Dictionary(keys: seq<UserId>, groups: map<UserId, Group>)

  /** What one message does to the dictionary. */
  function Visit(d: Dictionary, msg: Message, user: UserId): Dictionary {
    var other := Partner(msg, user);
    var g := if other in d.groups then d.groups[other] else Group(msg, 0);
    Dictionary(if other in d.groups then d.keys else d.keys + [other],
               d.groups[other := if msg.receiver == user && !msg.isRead then g.(unread := g.unread + 1) else g])
  }

  /** The dictionary after the first `n` messages of the listing. */
  function Collect(order: seq<nat>, n: nat, rows: seq<Message>, user: UserId): Dictionary
    requires n <= |order| && InRange(order, rows)
  {
    if n == 0 then Dictionary([], map[])
    else Visit(Collect(order, n - 1, rows, user), rows[order[n - 1]], user)
  }

  function Answer(d: Dictionary): seq<Conversation>
    requires forall k | 0 <= k < |d.keys| :: d.keys[k] in d.groups
  {
    seq(|d.keys|, k requires 0 <= k < |d.keys| =>
      var g := d.groups[d.keys[k]];
      Conversation(d.keys[k], g.last.content, g.last.sentAt, g.unread))
  }

  ghost function Elements(keys: seq<UserId>): set<UserId> {
    if keys == [] then {} else Elements(keys[..|keys| - 1]) + {keys[|keys| - 1]}
  }

  lemma {:induction false} PositionOf(keys: seq<UserId>, o: UserId) returns (k: nat)
    requires o in Elements(keys)
    ensures k < |keys| && keys[k] == o
  {
    if keys[|keys| - 1] == o {
      k := |keys| - 1;
    } else {
      k := PositionOf(keys[..|keys| - 1], o);
    }
  }

  /** The dictionary after `n` messages; `first` says for each key where in the listing it was
      first met. */
  ghost predicate Grouping(d: Dictionary, first: seq<nat>, order: seq<nat>, n: nat,
                           rows: seq<Message>, user: UserId)
    requires InRange(order, rows) && n <= |order|
  {
    && |first| == |d.keys|
    && d.groups.Keys == Elements(d.keys)
    && (forall j, k | 0 <= j < k < |first| :: first[j] < first[k])
    && (forall i | 0 <= i < n :: Partner(rows[order[i]], user) in d.groups)
    && (forall k | 0 <= k < |d.keys| ::
          d.keys[k] in d.groups && GroupOf(d.keys[k], d.groups[d.keys[k]], first[k], order, n, rows, user))
  }

  ghost predicate GroupOf(o: UserId, g: Group, first: nat, order: seq<nat>, n: nat,
                          rows: seq<Message>, user: UserId)
    requires InRange(order, rows) && n <= |order|
  {
    && first < n && g.last == rows[order[first]] && Partner(g.last, user) == o
    && (forall i | 0 <= i < first :: Partner(rows[order[i]], user) != o)
    && g.unread == UnreadCount(order, n, rows, user, o)
  }

  /** A key that has not been met has no unread rows so far. */
  lemma {:induction false} NotMet(order: seq<nat>, n: nat, rows: seq<Message>, user: UserId, o: UserId)
    requires InRange(order, rows) && n <= |order|
    requires forall i | 0 <= i < n :: Partner(rows[order[i]], user) != o
    ensures UnreadCount(order, n, rows, user, o) == 0
  {
    if n > 0 {
      NotMet(order, n - 1, rows, user, o);
    }
  }

  /** One message updates its own group and leaves the others as they are. */
  lemma GroupStep(o: UserId, g: Group, first: nat, order: seq<nat>, n: nat, rows: seq<Message>, user: UserId)
    requires InRange(order, rows) && n < |order|
    requires GroupOf(o, g, first, order, n, rows, user)
    ensures var unread := g.unread + if UnreadFrom(rows[order[n]], user, o) then 1 else 0;
            GroupOf(o, Group(g.last, unread), first, order, n + 1, rows, user)
  {
  }

  /** The first message of an interlocutor opens a group. */
  lemma GroupOpens(order: seq<nat>, n: nat, rows: seq<Message>, user: UserId, o: UserId)
    requires InRange(order, rows) && n < |order|
    requires Partner(rows[order[n]], user) == o
    requires forall i | 0 <= i < n :: Partner(rows[order[i]], user) != o
    ensures var unread := if UnreadFrom(rows[order[n]], user, o) then 1 else 0;
            GroupOf(o, Group(rows[order[n]], unread), n, order, n + 1, rows, user)
  {
    NotMet(order, n, rows, user, o);
  }

  lemma SeenAll(order: seq<nat>, rows: seq<Message>, user: UserId, o: UserId)
    requires ListsMessagesOf(order, rows, user)
    ensures UnreadCount(order, |order|, rows, user, o) == |UnreadRows(rows, user, o)|
  {
    CountIsSize(order, |order|, rows, user, o);
    forall i: nat
      ensures i in UnreadSeen(order, |order|, rows, user, o) <==> i in UnreadRows(rows, user, o)
    {
      InUnreadSeen(order, |order|, rows, user, o, i);
      if i < |rows| && UnreadFrom(rows[i], user, o) {
        assert Involves(rows[i], user);
        assert i in order;
      }
    }
    assert UnreadSeen(order, |order|, rows, user, o) == UnreadRows(rows, user, o);
  }

  /** A finished group summarises its thread. */
  lemma GroupSummarises(o: UserId, g: Group, first: nat, order: seq<nat>, rows: seq<Message>, user: UserId)
    requires ListsMessagesOf(order, rows, user) && NewestFirst(order, rows)
    requires GroupOf(o, g, first, order, |order|, rows, user)
    ensures Summarises(Conversation(o, g.last.content, g.last.sentAt, g.unread), rows, user)
  {
    SeenAll(order, rows, user, o);
    forall j: nat | j < |rows| && Involves(rows[j], user) && Partner(rows[j], user) == o
      ensures rows[j].sentAt <= g.last.sentAt
    {
      assert j in order;
      var k :| 0 <= k < |order| && order[k] == j;
      assert first <= k;
    }
    assert NewestOf(order[first], rows, user, Conversation(o, g.last.content, g.last.sentAt, g.unread));
  }

  /** A group that is already there stays a group, whoever the message is from. */
  lemma OldGroupStep(d: Dictionary, first: seq<nat>, order: seq<nat>, n: nat, rows: seq<Message>,
                     user: UserId, k: nat)
    requires InRange(order, rows) && n < |order|
    requires Grouping(d, first, order, n, rows, user) && k < |d.keys|
    ensures GroupOf(d.keys[k], Visit(d, rows[order[n]], user).groups[d.keys[k]], first[k], order, n + 1, rows, user)
  {
    GroupStep(d.keys[k], d.groups[d.keys[k]], first[k], order, n, rows, user);
  }

  /** A message of a known interlocutor. */
  lemma KnownStep(d: Dictionary, first: seq<nat>, order: seq<nat>, n: nat, rows: seq<Message>, user: UserId)
    requires InRange(order, rows) && n < |order|
    requires Grouping(d, first, order, n, rows, user)
    requires Partner(rows[order[n]], user) in d.groups
    ensures Grouping(Visit(d, rows[order[n]], user), first, order, n + 1, rows, user)
  {
    var d' := Visit(d, rows[order[n]], user);
    assert d'.groups.Keys == d.groups.Keys;
    forall k | 0 <= k < |d.keys|
      ensures GroupOf(d.keys[k], d'.groups[d.keys[k]], first[k], order, n + 1, rows, user)
    {
      OldGroupStep(d, first, order, n, rows, user, k);
    }
  }

  /** The first message of a new interlocutor. */
  lemma NewStep(d: Dictionary, first: seq<nat>, order: seq<nat>, n: nat, rows: seq<Message>, user: UserId)
    requires InRange(order, rows) && n < |order|
    requires Grouping(d, first, order, n, rows, user)
    requires Partner(rows[order[n]], user) !in d.groups
    ensures Grouping(Visit(d, rows[order[n]], user), first + [n], order, n + 1, rows, user)
  {
    var d' := Visit(d, rows[order[n]], user);
    var other := Partner(rows[order[n]], user);
    GroupOpens(order, n, rows, user, other);
    assert (d.keys + [other])[..|d.keys|] == d.keys;
    assert d'.groups.Keys == d.groups.Keys + {other};
    forall k | 0 <= k < |d.keys|
      ensures d.keys[k] != other
      ensures GroupOf(d.keys[k], d'.groups[d.keys[k]], first[k], order, n + 1, rows, user)
    {
      OldGroupStep(d, first, order, n, rows, user, k);
    }
  }

  lemma VisitStep(d: Dictionary, first: seq<nat>, order: seq<nat>, n: nat, rows: seq<Message>, user: UserId)
    returns (first': seq<nat>)
    requires InRange(order, rows) && n < |order|
    requires Grouping(d, first, order, n, rows, user)
    ensures Grouping(Visit(d, rows[order[n]], user), first', order, n + 1, rows, user)
  {
    if Partner(rows[order[n]], user) in d.groups {
      KnownStep(d, first, order, n, rows, user);
      first' := first;
    } else {
      NewStep(d, first, order, n, rows, user);
      first' := first + [n];
    }
  }

  lemma GroupingStarts(order: seq<nat>, rows: seq<Message>, user: UserId)
    requires InRange(order, rows)
    ensures Grouping(Dictionary([], map[]), [], order, 0, rows, user)
  {
  }

  lemma CollectStep(order: seq<nat>, n: nat, rows: seq<Message>, user: UserId, first: seq<nat>)
    returns (first': seq<nat>)
    requires InRange(order, rows) && n < |order|
    requires Grouping(Collect(order, n, rows, user), first, order, n, rows, user)
    ensures Grouping(Collect(order, n + 1, rows, user), first', order, n + 1, rows, user)
  {
    hide Grouping, Visit;
    first' := VisitStep(Collect(order, n, rows, user), first, order, n, rows, user);
    assert Collect(order, n + 1, rows, user) == Visit(Collect(order, n, rows, user), rows[order[n]], user);
  }

  lemma {:induction false} CollectGroups(order: seq<nat>, n: nat, rows: seq<Message>, user: UserId)
    returns (first: seq<nat>)
    requires InRange(order, rows) && n <= |order|
    ensures Grouping(Collect(order, n, rows, user), first, order, n, rows, user)
  {
    hide Grouping, Visit, InRange;
    if n == 0 {
      GroupingStarts(order, rows, user);
      first := [];
    } else {
      hide Collect;
      var before := CollectGroups(order, n - 1, rows, user);
      first := CollectStep(order, n - 1, rows, user, before);
    }
  }

  /** One pass over a user's messages, newest first, is a group-by on the interlocutor. */
  method ListConversations(rows: seq<Message>, order: seq<nat>, user: UserId) returns (cs: seq<Conversation>)
    requires ListsMessagesOf(order, rows, user) && NewestFirst(order, rows)
    ensures GroupsByPartner(cs, rows, user)
  {
    ghost var first := CollectGroups(order, |order|, rows, user);
    cs := GroupMessages(rows, order, user);
    AnswerGroups(order, rows, user);
  }

  /** The pass itself: fill the dictionary, then turn its values into the answer. */
  method GroupMessages(rows: seq<Message>, order: seq<nat>, user: UserId) returns (cs: seq<Conversation>)
    requires forall k | 0 <= k < |order| :: order[k] < |rows|
    requires var d := Collect(order, |order|, rows, user); forall k | 0 <= k < |d.keys| :: d.keys[k] in d.groups
    ensures cs == Answer(Collect(order, |order|, rows, user))
  {
    var keys: seq<UserId>, groups: map<UserId, Group> := [], map[];
    for n := 0 to |order|
      invariant Dictionary(keys, groups) == Collect(order, n, rows, user)
    {
      var msg := rows[order[n]];
      var other := if msg.sender == user then msg.receiver else msg.sender;
      if other !in groups {
        keys := keys + [other];
        groups := groups[other := Group(msg, 0)];
      }
      if msg.receiver == user && !msg.isRead {
        groups := groups[other := groups[other].(unread := groups[other].unread + 1)];
      }
      assert groups == Visit(Collect(order, n, rows, user), msg, user).groups;
    }
    cs := [];
    for k := 0 to |keys|
      invariant |cs| == k
      invariant forall j | 0 <= j < k :: cs[j] == Answer(Dictionary(keys, groups))[j]
    {
      var g := groups[keys[k]];
      cs := cs + [Conversation(keys[k], g.last.content, g.last.sentAt, g.unread)];
    }
  }

  lemma AnswerGroups(order: seq<nat>, rows: seq<Message>, user: UserId)
    requires ListsMessagesOf(order, rows, user) && NewestFirst(order, rows)
    requires var d := Collect(order, |order|, rows, user); forall k | 0 <= k < |d.keys| :: d.keys[k] in d.groups
    ensures GroupsByPartner(Answer(Collect(order, |order|, rows, user)), rows, user)
  {
    var d := Collect(order, |order|, rows, user);
    var first := CollectGroups(order, |order|, rows, user);
    var cs := Answer(d);
    forall k | 0 <= k < |cs|
      ensures Summarises(cs[k], rows, user)
    {
      GroupSummarises(d.keys[k], d.groups[d.keys[k]], first[k], order, rows, user);
    }
    forall i: nat | i < |rows| && Involves(rows[i], user)
      ensures HasGroup(cs, Partner(rows[i], user))
    {
      assert i in order;
      var n :| 0 <= n < |order| && order[n] == i;
      var k := PositionOf(d.keys, Partner(rows[order[n]], user));
      assert cs[k].other == Partner(rows[i], user);
    }
    forall j, k | 0 <= j < k < |cs|
      ensures cs[j].lastMessageAt >= cs[k].lastMessageAt && cs[j].other != cs[k].other
    {
      assert GroupOf(d.keys[j], d.groups[d.keys[j]], first[j], order, |order|, rows, user);
      assert GroupOf(d.keys[k], d.groups[d.keys[k]], first[k], order, |order|, rows, user);
      assert first[j] < first[k];
    }
  }

  // Totals

  function TotalUnread(cs: seq<Conversation>): nat {
    if cs == [] then 0 else TotalUnread(cs[..|cs| - 1]) + cs[|cs| - 1].unread
  }

  ghost function UnreadIn(cs: seq<Conversation>, rows: seq<Message>, user: UserId): set<nat> {
    set i: nat | i < |rows| && rows[i].receiver == user && !rows[i].isRead
                 && HasGroup(cs, rows[i].sender)
  }

  lemma {:induction false} TotalOfPrefix(cs: seq<Conversation>, rows: seq<Message>, user: UserId)
    requires forall k | 0 <= k < |cs| :: cs[k].unread == |UnreadRows(rows, user, cs[k].other)|
    requires forall j, k | 0 <= j < k < |cs| :: cs[j].other != cs[k].other
    ensures TotalUnread(cs) == |UnreadIn(cs, rows, user)|
  {
    if cs == [] {
      assert UnreadIn(cs, rows, user) == {};
    } else {
      var init, last := cs[..|cs| - 1], cs[|cs| - 1];
      TotalOfPrefix(init, rows, user);
      var own := UnreadRows(rows, user, last.other);
      assert UnreadIn(init, rows, user) !! own;
      forall i: nat | i in UnreadIn(cs, rows, user)
        ensures i in UnreadIn(init, rows, user) || i in own
      {
        var k :| 0 <= k < |cs| && cs[k].other == rows[i].sender;
        assert k < |init| ==> init[k].other == rows[i].sender;
      }
      forall i: nat | i in UnreadIn(init, rows, user)
        ensures i in UnreadIn(cs, rows, user)
      {
        var k :| 0 <= k < |init| && init[k].other == rows[i].sender;
        assert cs[k].other == rows[i].sender;
      }
      assert cs[|cs| - 1].other == last.other;
      assert UnreadIn(cs, rows, user) == UnreadIn(init, rows, user) + own;
    }
  }

  /** The unread counts of the list add up to all unread messages addressed to the user. */
  lemma UnreadCountsAddUp(cs: seq<Conversation>, rows: seq<Message>, user: UserId)
    requires GroupsByPartner(cs, rows, user)
    ensures TotalUnread(cs) == |AllUnreadRows(rows, user)|
  {
    TotalOfPrefix(cs, rows, user);
    forall i: nat | i < |rows| && rows[i].receiver == user
      ensures HasGroup(cs, rows[i].sender)
    {
      assert Involves(rows[i], user) && Partner(rows[i], user) == rows[i].sender;
    }
    assert UnreadIn(cs, rows, user) == AllUnreadRows(rows, user);
  }

  // The table

  /** The rows after `reader` opened the thread with `other`. */
  function MarkedRead(rows: seq<Message>, reader: UserId, other: UserId): (r: seq<Message>)
    ensures |r| == |rows|
  {
    seq(|rows|, i requires 0 <= i < |rows| =>
      if UnreadFrom(rows[i], reader, other) then rows[i].(isRead := true) else rows[i])
  }

  class MessageTable {
    var rows: seq<Message>

    constructor ()
      ensures rows == []
    {
      rows := [];
    }

    /** A new message; nobody writes to themselves. The time is the database clock's. */
    method SendMessage(sender: UserId, receiver: UserId, content: string, now: int) returns (sent: bool)
      modifies this
      ensures sent <==> sender != receiver
      ensures rows == if sent then old(rows) + [Message(sender, receiver, content, now, false)] else old(rows)
    {
      if receiver == sender {
        return false;
      }
      rows := rows + [Message(sender, receiver, content, now, false)];
      sent := true;
    }

    /** Marks what `reader` received from `other` as read, row by row. */
    method MarkRead(reader: UserId, other: UserId, thread: seq<nat>) returns (count: nat)
      requires ListsThread(thread, rows, reader, other) && OldestFirst(thread, rows)
      modifies this
      ensures rows == old(MarkedRead(rows, reader, other))
      ensures count == old(|UnreadRows(rows, reader, other)|)
    {
      count := 0;
      ghost var was := rows;
      for n := 0 to |thread|
        invariant rows == MarkedUpTo(was, thread, n, reader)
        invariant count == UnreadCount(thread, n, was, reader, other)
      {
        var i := thread[n];
        MarkedUpToAt(was, thread, n, reader, i);
        if rows[i].receiver == reader && !rows[i].isRead {
          rows := rows[i := rows[i].(isRead := true)];
          count := count + 1;
        }
      }
      MarkedAll(was, thread, reader, other);
    }
  }

  /** The rows after the first `n` messages of a thread have been marked. */
  function MarkedUpTo(rows: seq<Message>, thread: seq<nat>, n: nat, reader: UserId): (r: seq<Message>)
    requires InRange(thread, rows) && n <= |thread|
    ensures |r| == |rows|
  {
    if n == 0 then rows
    else
      var before, i := MarkedUpTo(rows, thread, n - 1, reader), thread[n - 1];
      if before[i].receiver == reader && !before[i].isRead then before[i := before[i].(isRead := true)] else before
  }

  lemma {:induction false} MarkedUpToAt(rows: seq<Message>, thread: seq<nat>, n: nat, reader: UserId, i: nat)
    requires InRange(thread, rows) && n <= |thread| && i < |rows|
    ensures MarkedUpTo(rows, thread, n, reader)[i]
         == if (exists k :: 0 <= k < n && thread[k] == i) && rows[i].receiver == reader
            then rows[i].(isRead := true) else rows[i]
  {
    if n > 0 {
      MarkedUpToAt(rows, thread, n - 1, reader, i);
    }
  }

  lemma MarkedAll(rows: seq<Message>, thread: seq<nat>, reader: UserId, other: UserId)
    requires ListsThread(thread, rows, reader, other)
    ensures MarkedUpTo(rows, thread, |thread|, reader) == MarkedRead(rows, reader, other)
    ensures UnreadCount(thread, |thread|, rows, reader, other) == |UnreadRows(rows, reader, other)|
  {
    CountIsSize(thread, |thread|, rows, reader, other);
    forall i: nat | i < |rows|
      ensures MarkedUpTo(rows, thread, |thread|, reader)[i] == MarkedRead(rows, reader, other)[i]
      ensures i in UnreadSeen(thread, |thread|, rows, reader, other) <==> i in UnreadRows(rows, reader, other)
    {
      MarkedUpToAt(rows, thread, |thread|, reader, i);
      InUnreadSeen(thread, |thread|, rows, reader, other, i);
      assert UnreadFrom(rows[i], reader, other) ==> Between(rows[i], reader, other);
      assert Between(rows[i], reader, other) ==> i in thread;
    }
    forall i: nat
      ensures i in UnreadSeen(thread, |thread|, rows, reader, other) ==> i < |rows|
    {
      InUnreadSeen(thread, |thread|, rows, reader, other, i);
    }
    assert UnreadSeen(thread, |thread|, rows, reader, other) == UnreadRows(rows, reader, other);
  }

  // Opening a thread

  /** Opening a thread clears its unread count and leaves every other count of every user alone. */
  lemma OpeningClearsOneCount(rows: seq<Message>, reader: UserId, other: UserId, user: UserId, from: UserId)
    ensures UnreadRows(MarkedRead(rows, reader, other), user, from)
         == if user == reader && from == other then {} else UnreadRows(rows, user, from)
  {
    var after := MarkedRead(rows, reader, other);
    if user == reader && from == other {
      assert forall i: nat | i < |rows| :: !UnreadFrom(after[i], user, from);
    } else {
      assert forall i: nat | i < |rows| :: UnreadFrom(after[i], user, from) == UnreadFrom(rows[i], user, from);
    }
  }

  lemma HasGroupMeans(cs: seq<Conversation>, rows: seq<Message>, user: UserId, o: UserId)
    requires GroupsByPartner(cs, rows, user)
    ensures HasGroup(cs, o) <==> exists i: nat :: i < |rows| && Involves(rows[i], user) && Partner(rows[i], user) == o
  {
    if k :| 0 <= k < |cs| && cs[k].other == o {
      var i: nat :| NewestOf(i, rows, user, cs[k]);
    }
  }

  /** Opening a thread leaves every user the same interlocutors. */
  lemma SameInterlocutors(before: seq<Conversation>, after: seq<Conversation>, rows: seq<Message>,
                          reader: UserId, other: UserId, user: UserId, o: UserId)
    requires GroupsByPartner(before, rows, user)
    requires GroupsByPartner(after, MarkedRead(rows, reader, other), user)
    ensures HasGroup(before, o) <==> HasGroup(after, o)
  {
    var marked := MarkedRead(rows, reader, other);
    HasGroupMeans(before, rows, user, o);
    HasGroupMeans(after, marked, user, o);
    forall i: nat | i < |rows|
      ensures Involves(marked[i], user) == Involves(rows[i], user) && Partner(marked[i], user) == Partner(rows[i], user)
    {
    }
  }

  /** In the lists of one user before and after `reader` opened the thread with `other`, the entries of
      one interlocutor have the same last time, and only the opened thread loses its count. */
  lemma ListAfterOpening(before: seq<Conversation>, after: seq<Conversation>, rows: seq<Message>,
                         reader: UserId, other: UserId, user: UserId, j: nat, k: nat)
    requires GroupsByPartner(before, rows, user)
    requires GroupsByPartner(after, MarkedRead(rows, reader, other), user)
    requires j < |before| && k < |after| && before[j].other == after[k].other
    ensures after[k].lastMessageAt == before[j].lastMessageAt
    ensures after[k].unread == if user == reader && after[k].other == other then 0 else before[j].unread
  {
    OpeningClearsOneCount(rows, reader, other, user, after[k].other);
    SameNewest(rows, MarkedRead(rows, reader, other), user, before[j], after[k]);
  }

  lemma SameNewest(rows: seq<Message>, marked: seq<Message>, user: UserId, c: Conversation, d: Conversation)
    requires |marked| == |rows|
    requires forall i | 0 <= i < |rows| :: marked[i] == rows[i].(isRead := marked[i].isRead)
    requires Summarises(c, rows, user) && Summarises(d, marked, user) && c.other == d.other
    ensures d.lastMessageAt == c.lastMessageAt
  {
    var i: nat :| NewestOf(i, rows, user, c);
    var j: nat :| NewestOf(j, marked, user, d);
    assert Involves(marked[i], user) && Partner(marked[i], user) == d.other;
    assert Involves(rows[j], user) && Partner(rows[j], user) == c.other;
  }
}
