/** The messaging part of the BookLoop server: the `messages` documents, the
    `array-contains` query that fetches a user's messages, the chat thread
    between two users and the dashboard inbox (one row per counterpart). */
module Messaging {
  import opened Text
  import opened Collections

  /** A document of the `messages` collection. */
  datatype Message = Message(
    sender: string,
    receiver: string,
    message: string,
    participants: seq<string>,
    timestamp: int)

  /** `participants` holds exactly the two endpoints, whatever their order. */
  predicate WellFormed(m: Message) {
    multiset(m.participants) == multiset{m.sender, m.receiver}
  }

  /** The document the socket `sendMessage` handler and the `/send-message`
      route store: `participants` is always `[sender, receiver]`; `now` is the
      server clock. */
  function NewMessage(sender: string, receiver: string, message: string, now: int): (m: Message)
    ensures WellFormed(m)
    ensures m.sender == sender && m.receiver == receiver && m.message == message && m.timestamp == now
  {
    Message(sender, receiver, message, [sender, receiver], now)
  }

  /** `where("participants", "array-contains", user)`: an exact string match. */
  predicate Touches(m: Message, user: string) {
    user in m.participants
  }

  function TouchesUser(user: string): Message -> bool {
    m => Touches(m, user)
  }

  /** The store query both message routes run, with the store's own order
      (ascending or descending `timestamp`) already applied to `store`. */
  function MessagesTouching(store: seq<Message>, user: string): seq<Message> {
    Filter(store, TouchesUser(user))
  }

  /** The store holds a user's message exactly when the user is one of its two
      endpoints, compared exactly. */
  lemma TouchesEndpoint(m: Message, user: string)
    requires WellFormed(m)
    ensures Touches(m, user) <==> user == m.sender || user == m.receiver
  {
    assert user in m.participants <==> user in multiset(m.participants);
  }

  /** A new message is found by the query of either endpoint and by nobody
      else's, and it belongs to the conversation of its two endpoints. */
  lemma NewMessageReachesBoth(sender: string, receiver: string, message: string, now: int, user: string)
    ensures Touches(NewMessage(sender, receiver, message, now), user) <==> user == sender || user == receiver
    ensures InThread(NewMessage(sender, receiver, message, now), sender, receiver)
    ensures InThread(NewMessage(sender, receiver, message, now), receiver, sender)
    ensures Counterpart(NewMessage(sender, receiver, message, now), sender) == receiver
    ensures Counterpart(NewMessage(sender, receiver, message, now), receiver) == sender
  {
  }

  // ---------------------------------------------------------------- threads

  /** The chat filter: the message goes from `currentUser` to `receiver` or the
      other way, every name compared after `toLowerCase()`. */
  predicate InThread(m: Message, currentUser: string, receiver: string) {
    (Lower(m.sender) == Lower(currentUser) && Lower(m.receiver) == Lower(receiver)) ||
    (Lower(m.sender) == Lower(receiver) && Lower(m.receiver) == Lower(currentUser))
  }

  function ThreadFilter(currentUser: string, receiver: string): Message -> bool {
    m => InThread(m, currentUser, receiver)
  }

  /** The messages a chat between `currentUser` and `receiver` shows, from the
      messages the store returned for `currentUser`. */
  function Thread(msgs: seq<Message>, currentUser: string, receiver: string): seq<Message> {
    Filter(msgs, ThreadFilter(currentUser, receiver))
  }

  /** The canonical, order-independent and case-insensitive identity of the
      conversation between two users. */
  function ConversationKey(a: string, b: string): multiset<string> {
    multiset{Lower(a), Lower(b)}
  }

  lemma PairsEqual(x: string, y: string, u: string, v: string)
    ensures multiset{x, y} == multiset{u, v} <==> (x == u && y == v) || (x == v && y == u)
  {
    if multiset{x, y} == multiset{u, v} {
      assert x in multiset{u, v};
      if x == u {
        assert multiset{y} == multiset{x, y} - multiset{x} == multiset{u, v} - multiset{u} == multiset{v};
        assert y in multiset{v};
      } else {
        assert x == v;
        assert multiset{y} == multiset{x, y} - multiset{x} == multiset{u, v} - multiset{v} == multiset{u};
        assert y in multiset{u};
      }
    }
  }

  /** The two-way test of the chat filter is exactly "same conversation key". */
  lemma InThreadIsSameConversation(m: Message, currentUser: string, receiver: string)
    ensures InThread(m, currentUser, receiver) <==>
      ConversationKey(m.sender, m.receiver) == ConversationKey(currentUser, receiver)
  {
    PairsEqual(Lower(m.sender), Lower(m.receiver), Lower(currentUser), Lower(receiver));
  }

  /** A thread is the sub-sequence of the fetched messages that belong to the
      conversation: every such message with all its copies, no other message,
      and the fetched order kept. */
  lemma ThreadIsConversation(msgs: seq<Message>, more: seq<Message>, currentUser: string, receiver: string, m: Message)
    ensures multiset(Thread(msgs, currentUser, receiver))[m] ==
      if ConversationKey(m.sender, m.receiver) == ConversationKey(currentUser, receiver)
      then multiset(msgs)[m] else 0
    ensures Thread(msgs + more, currentUser, receiver) ==
      Thread(msgs, currentUser, receiver) + Thread(more, currentUser, receiver)
  {
    InThreadIsSameConversation(m, currentUser, receiver);
    FilterCount(msgs, ThreadFilter(currentUser, receiver), m);
    FilterAppend(msgs, more, ThreadFilter(currentUser, receiver));
  }

  /** The chat filter does not care which side asks. */
  lemma ThreadSymmetric(msgs: seq<Message>, a: string, b: string)
    ensures Thread(msgs, a, b) == Thread(msgs, b, a)
  {
    FilterAgree(msgs, ThreadFilter(a, b), ThreadFilter(b, a));
  }

  /** Over the same fetched messages, names that are equal after lower-casing
      give the same filter result. (Which messages are fetched still depends on
      the exact spelling: see `ChatDropsOtherCase`.) */
  lemma ThreadCaseInsensitive(msgs: seq<Message>, a: string, b: string, a': string, b': string)
    requires Lower(a) == Lower(a') && Lower(b) == Lower(b')
    ensures Thread(msgs, a, b) == Thread(msgs, a', b')
  {
    FilterAgree(msgs, ThreadFilter(a, b), ThreadFilter(a', b'));
  }

  function Timestamp(m: Message): int {
    m.timestamp
  }

  /** Timestamps never decrease along `msgs` (`orderBy("timestamp")`). */
  predicate Ascending(msgs: seq<Message>) {
    NonDecreasing(msgs, Timestamp)
  }

  /** Timestamps never increase along `msgs` (`orderBy("timestamp", "desc")`). */
  predicate Descending(msgs: seq<Message>) {
    forall i, j :: 0 <= i < j < |msgs| ==> msgs[i].timestamp >= msgs[j].timestamp
  }

  /** The chat is in time order whenever the store's answer is: the filter
      never re-sorts and needs no sort of its own. */
  lemma ThreadKeepsTimeOrder(msgs: seq<Message>, currentUser: string, receiver: string)
    requires Ascending(msgs)
    ensures Ascending(Thread(msgs, currentUser, receiver))
  {
    FilterKeepsOrder(msgs, ThreadFilter(currentUser, receiver), Timestamp);
  }

  /** A user who mixes letter case in their own e-mail address still sees the
      message in the in-memory filter... */
  lemma ThreadMatchesAnyCase()
    ensures InThread(NewMessage("Ann", "bob", "hi", 1), "ann", "bob")
  {
    assert Lower("Ann") == "ann";
    assert Lower("ann") == "ann";
  }

  /** ...but not in the chat the route returns, because the store query that
      feeds the filter compares the address exactly. */
  lemma ChatDropsOtherCase()
    ensures Thread(MessagesTouching([NewMessage("Ann", "bob", "hi", 1)], "ann"),
                   "ann", "bob") == []
  {
    var m := NewMessage("Ann", "bob", "hi", 1);
    assert !Touches(m, "ann") by {
      assert "ann" != "Ann";
      assert "ann" != "bob";
    }
  }

  /** A message sent with `/send-message` and stored last shows up as the last
      line of the sender's chat with the receiver, after everything already
      there. */
  lemma SentMessageEndsChat(store: seq<Message>, sender: string, receiver: string, message: string, now: int)
    ensures Thread(MessagesTouching(store + [NewMessage(sender, receiver, message, now)], sender), sender, receiver) ==
      Thread(MessagesTouching(store, sender), sender, receiver) + [NewMessage(sender, receiver, message, now)]
  {
    var m := NewMessage(sender, receiver, message, now);
    FilterAppend(store, [m], TouchesUser(sender));
    assert MessagesTouching([m], sender) == [m];
    FilterAppend(MessagesTouching(store, sender), [m], ThreadFilter(sender, receiver));
    NewMessageReachesBoth(sender, receiver, message, now, sender);
    assert Thread([m], sender, receiver) == [m];
  }

  // ------------------------------------------------------------------ inbox

  /** One inbox row: the other user, the text and time of the message kept. */
  datatype InboxEntry = InboxEntry(user: string, lastMessage: string, time: int)

  /** `data.sender === email ? data.receiver : data.sender`: an exact comparison. */
  function Counterpart(m: Message, user: string): string {
    if m.sender == user then m.receiver else m.sender
  }

  function CounterpartOf(user: string): Message -> string {
    m => Counterpart(m, user)
  }

  function EntryFor(m: Message, user: string): InboxEntry {
    InboxEntry(Counterpart(m, user), m.message, m.timestamp)
  }

  /** The counterparts `user` has messages with among `msgs`. */
  function Counterparts(msgs: seq<Message>, user: string): set<string> {
    Keys(msgs, CounterpartOf(user))
  }

  /** The position of the first message in `msgs` exchanged with counterpart `c`. */
  function FirstWith(msgs: seq<Message>, user: string, c: string): nat
    requires c in Counterparts(msgs, user)
  {
    FirstIndexOf(msgs, CounterpartOf(user), c)
  }

  /** The dashboard inbox built from the messages the store returned for `user`:
      for each counterpart, in the order they first occur, the row of the first
      message exchanged with them. */
  function Inbox(msgs: seq<Message>, user: string): seq<InboxEntry> {
    var firsts := KeepFirst(msgs, CounterpartOf(user));
    seq(|firsts|, k requires 0 <= k < |firsts| => EntryFor(firsts[k], user))
  }

  /** One step of the inbox fold: the next message adds a row exactly when its
      counterpart has none yet. */
  lemma InboxSnoc(msgs: seq<Message>, m: Message, user: string)
    ensures Counterparts(msgs + [m], user) == Counterparts(msgs, user) + {Counterpart(m, user)}
    ensures Inbox(msgs + [m], user) ==
      if Counterpart(m, user) in Counterparts(msgs, user) then Inbox(msgs, user)
      else Inbox(msgs, user) + [EntryFor(m, user)]
  {
    KeysSnoc(msgs, m, CounterpartOf(user));
    KeepFirstSnoc(msgs, m, CounterpartOf(user));
  }

  /** A pass of the dashboard loop body that sets a new counterpart: the map
      then holds that counterpart's row as well. */
  lemma InboxAdded(msgs: seq<Message>, user: string, i: nat, inboxMap: map<string, InboxEntry>, order: seq<string>)
    requires i < |msgs| && Counterpart(msgs[i], user) !in inboxMap
    requires inboxMap.Keys == Counterparts(msgs[..i], user)
    requires ReadsBackAs(inboxMap, order, Inbox(msgs[..i], user))
    ensures inboxMap[Counterpart(msgs[i], user) := EntryFor(msgs[i], user)].Keys == Counterparts(msgs[..i + 1], user)
    ensures ReadsBackAs(inboxMap[Counterpart(msgs[i], user) := EntryFor(msgs[i], user)],
      order + [Counterpart(msgs[i], user)], Inbox(msgs[..i + 1], user))
  {
    assert msgs[..i + 1] == msgs[..i] + [msgs[i]];
    InboxSnoc(msgs[..i], msgs[i], user);
    ReadsBackInsert(inboxMap, order, Inbox(msgs[..i], user), Counterpart(msgs[i], user), EntryFor(msgs[i], user));
  }

  /** A pass of the dashboard loop body for a counterpart the map already holds:
      nothing changes. */
  lemma InboxSkipped(msgs: seq<Message>, user: string, i: nat, inboxMap: map<string, InboxEntry>, order: seq<string>)
    requires i < |msgs| && Counterpart(msgs[i], user) in inboxMap
    requires inboxMap.Keys == Counterparts(msgs[..i], user)
    requires ReadsBackAs(inboxMap, order, Inbox(msgs[..i], user))
    ensures inboxMap.Keys == Counterparts(msgs[..i + 1], user)
    ensures ReadsBackAs(inboxMap, order, Inbox(msgs[..i + 1], user))
  {
    assert msgs[..i + 1] == msgs[..i] + [msgs[i]];
    InboxSnoc(msgs[..i], msgs[i], user);
  }

  /** The inbox as the dashboard route computes it: a `Map` from counterpart to
      row, filled while walking the messages and set only for a counterpart it
      does not hold yet, then read back in insertion order. */
  method AggregateInbox(msgs: seq<Message>, user: string) returns (inbox: seq<InboxEntry>)
    ensures inbox == Inbox(msgs, user)
  {
    var inboxMap: map<string, InboxEntry> := map[];
    var order: seq<string> := [];  // the keys of inboxMap in insertion order
    var i := 0;
    while i < |msgs|
      invariant 0 <= i <= |msgs|
      invariant inboxMap.Keys == Counterparts(msgs[..i], user)
      invariant ReadsBackAs(inboxMap, order, Inbox(msgs[..i], user))
    {
      var data := msgs[i];
      var otherUser := if data.sender == user then data.receiver else data.sender;
      if otherUser !in inboxMap {
        InboxAdded(msgs, user, i, inboxMap, order);
        inboxMap := inboxMap[otherUser := InboxEntry(otherUser, data.message, data.timestamp)];
        order := order + [otherUser];
      } else {
        InboxSkipped(msgs, user, i, inboxMap, order);
      }
      i := i + 1;
    }
    assert msgs[..i] == msgs;
    inbox := seq(|order|, k requires 0 <= k < |order| => inboxMap[order[k]]);
  }

  /** The inbox has exactly one row per distinct counterpart string, compared
      exactly, and no row for anybody else. */
  lemma InboxOnePerCounterpart(msgs: seq<Message>, user: string)
    ensures forall a, b :: 0 <= a < b < |Inbox(msgs, user)| ==> Inbox(msgs, user)[a].user != Inbox(msgs, user)[b].user
    ensures (set e | e in Inbox(msgs, user) :: e.user) == Counterparts(msgs, user)
  {
    var key := CounterpartOf(user);
    var firsts, inbox := KeepFirst(msgs, key), Inbox(msgs, user);
    KeepFirstSpec(msgs, key);
    assert forall k :: 0 <= k < |inbox| ==> inbox[k].user == key(firsts[k]);
    forall c | c in Counterparts(msgs, user) ensures c in (set e | e in inbox :: e.user) {
      assert c in Keys(firsts, key);
      var x :| x in firsts && key(x) == c;
      var k :| 0 <= k < |firsts| && firsts[k] == x;
      assert inbox[k] in inbox;
    }
  }

  /** Each row carries the text and time of the first fetched message exchanged
      with its counterpart, and the rows come in the order those first messages
      were fetched. */
  lemma InboxKeepsFirstMessage(msgs: seq<Message>, user: string)
    ensures forall k :: 0 <= k < |Inbox(msgs, user)| ==>
      Inbox(msgs, user)[k].user in Counterparts(msgs, user) &&
      Inbox(msgs, user)[k] == EntryFor(msgs[FirstWith(msgs, user, Inbox(msgs, user)[k].user)], user)
    ensures forall a, b :: 0 <= a < b < |Inbox(msgs, user)| ==>
      Inbox(msgs, user)[a].user in Counterparts(msgs, user) &&
      Inbox(msgs, user)[b].user in Counterparts(msgs, user) &&
      FirstWith(msgs, user, Inbox(msgs, user)[a].user) < FirstWith(msgs, user, Inbox(msgs, user)[b].user)
  {
    var key := CounterpartOf(user);
    var firsts, inbox := KeepFirst(msgs, key), Inbox(msgs, user);
    KeepFirstSpec(msgs, key);
    assert forall k :: 0 <= k < |inbox| ==> inbox[k].user == key(firsts[k]);
  }

  /** When the store returns the messages newest first, every row holds the
      newest message exchanged with its counterpart, and the rows run from the
      most recently contacted counterpart to the least. */
  lemma InboxNewestFirst(msgs: seq<Message>, user: string)
    requires Descending(msgs)
    ensures forall k, i ::
      (0 <= k < |Inbox(msgs, user)| && 0 <= i < |msgs| && Counterpart(msgs[i], user) == Inbox(msgs, user)[k].user)
      ==> msgs[i].timestamp <= Inbox(msgs, user)[k].time
    ensures forall a, b :: 0 <= a < b < |Inbox(msgs, user)| ==> Inbox(msgs, user)[a].time >= Inbox(msgs, user)[b].time
  {
    var inbox := Inbox(msgs, user);
    InboxKeepsFirstMessage(msgs, user);
    forall k, i | 0 <= k < |inbox| && 0 <= i < |msgs| && Counterpart(msgs[i], user) == inbox[k].user
      ensures msgs[i].timestamp <= inbox[k].time
    {
      var j := FirstWith(msgs, user, inbox[k].user);
      assert CounterpartOf(user)(msgs[i]) == inbox[k].user;
      assert j <= i;
    }
  }

  /** The newest message a user sends or receives puts its counterpart at the
      top of that user's inbox, showing that message. */
  lemma SentMessageTopsInbox(msgs: seq<Message>, sender: string, receiver: string, message: string, now: int)
    ensures |Inbox([NewMessage(sender, receiver, message, now)] + msgs, sender)| > 0
    ensures Inbox([NewMessage(sender, receiver, message, now)] + msgs, sender)[0] == InboxEntry(receiver, message, now)
    ensures |Inbox([NewMessage(sender, receiver, message, now)] + msgs, receiver)| > 0
    ensures Inbox([NewMessage(sender, receiver, message, now)] + msgs, receiver)[0] == InboxEntry(sender, message, now)
  {
    var m := NewMessage(sender, receiver, message, now);
    NewestOnTop([m] + msgs, sender);
    NewestOnTop([m] + msgs, receiver);
  }

  /** The first fetched message always gives the first inbox row. */
  lemma NewestOnTop(msgs: seq<Message>, user: string)
    requires msgs != []
    ensures |Inbox(msgs, user)| > 0 && Inbox(msgs, user)[0] == EntryFor(msgs[0], user)
  {
    KeepFirstHead(msgs, CounterpartOf(user));
  }

  /** Two messages with different counterparts give two rows, in their order. */
  lemma InboxOfTwo(m1: Message, m2: Message, user: string)
    requires Counterpart(m1, user) != Counterpart(m2, user)
    ensures Inbox([m1, m2], user) == [EntryFor(m1, user), EntryFor(m2, user)]
    ensures Counterparts([m1, m2], user) == {Counterpart(m1, user), Counterpart(m2, user)}
  {
    assert Inbox([m1], user) == [EntryFor(m1, user)] && Counterparts([m1], user) == {Counterpart(m1, user)} by {
      assert [] + [m1] == [m1];
      InboxSnoc([], m1, user);
    }
    assert [m1] + [m2] == [m1, m2];
    InboxSnoc([m1], m2, user);
  }

  /** A third message with a counterpart already seen adds no row. */
  lemma InboxOfThree(m1: Message, m2: Message, m3: Message, user: string)
    requires Counterpart(m1, user) != Counterpart(m2, user)
    requires Counterpart(m3, user) in {Counterpart(m1, user), Counterpart(m2, user)}
    ensures Inbox([m1, m2, m3], user) == [EntryFor(m1, user), EntryFor(m2, user)]
  {
    InboxOfTwo(m1, m2, user);
    assert [m1, m2] + [m3] == [m1, m2, m3];
    InboxSnoc([m1, m2], m3, user);
  }

  /** A counterpart spelled in two letter cases gets two rows: the inbox compares
      names exactly, unlike the chat filter. */
  lemma InboxSeparatesCase()
    ensures Inbox([NewMessage("Bob", "alice", "hi", 2), NewMessage("bob", "alice", "yo", 1)], "alice") ==
      [InboxEntry("Bob", "hi", 2), InboxEntry("bob", "yo", 1)]
  {
    InboxOfTwo(NewMessage("Bob", "alice", "hi", 2), NewMessage("bob", "alice", "yo", 1), "alice");
  }

  /** Messages A to B at time 1, C at time 2 and B to A at time 3, fetched
      newest first, give A the rows B (time 3) and C (time 2), in that order. */
  lemma InboxScenario()
    ensures Inbox([NewMessage("B", "A", "m3", 3), NewMessage("A", "C", "m2", 2), NewMessage("A", "B", "m1", 1)], "A") ==
      [InboxEntry("B", "m3", 3), InboxEntry("C", "m2", 2)]
  {
    InboxOfThree(NewMessage("B", "A", "m3", 3), NewMessage("A", "C", "m2", 2), NewMessage("A", "B", "m1", 1), "A");
  }
}
