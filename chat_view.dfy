/** The state of the chat view and its event handlers. Each handler is one atomic step; the
    results of network calls it awaits are parameters, and `me` is the signed-in user's id. */
module ChatView {
  import opened Wrappers
  import opened Records
  import Text
  import Thread
  import Roster
  import Counters
  import Presence

  /** What `handleSendMessage` keeps across its `await`: the placeholder id and the trimmed text. */
  datatype Pending = Pending(tempId: Id, content: string)

  /** How the message insert completed: a response (`saved` row, if any, and whether `error`
      was set), or a thrown exception. */
  datatype WriteOutcome = Responded(saved: Option<Message>, failed: bool) | Threw

  /** How a conversation fetch completed: `data` (possibly null), or an error. */
  datatype FetchResult = Fetched(data: Option<seq<Message>>) | FetchFailed

  /** `isForCurrentChat`: the message runs between `me` and the open receiver, in either direction.
      With no receiver open nothing matches (`currentReceiver?.id` is undefined). */
  function IsForOpenChat(me: Id, receiver: Option<User>, m: Message): (b: bool)
    ensures b <==> receiver.Some? && multiset{m.senderId, m.receiverId} == multiset{me, receiver.value.id}
  {
    receiver.Some? &&
    ((m.senderId == me && m.receiverId == receiver.value.id) ||
     (m.senderId == receiver.value.id && m.receiverId == me))
  }

  /** The optimistic row a send appends (not yet read, no read time). */
  function Optimistic(p: Pending, me: Id, receiverId: Id, createdAt: string): (m: Message)
    ensures m.id == p.tempId && m.content == p.content && m.createdAt == createdAt
    ensures m.senderId == me && m.receiverId == receiverId
    ensures !m.isRead && m.readAt.None?
  {
    Message(p.tempId, p.content, me, receiverId, createdAt, false, None)
  }

  class ChatView {
    var messages: seq<Message>
    var users: seq<User>
    var receiver: Option<User>
    var newMessage: string
    var unreadCounts: map<Id, int>
    var onlineUsers: map<Id, bool>

    /** Presence only ever records "online" (offline users are absent), and no unread counter is negative. */
    ghost predicate Valid()
      reads this
    {
      && (forall k :: k in onlineUsers ==> onlineUsers[k])
      && (forall k :: k in unreadCounts ==> unreadCounts[k] >= 0)
    }

    /** The initial `useState` values. */
    constructor ()
      ensures Valid()
      ensures messages == [] && users == [] && receiver == None && newMessage == ""
      ensures unreadCounts == map[] && onlineUsers == map[]
    {
      messages, users, receiver, newMessage := [], [], None, "";
      unreadCounts, onlineUsers := map[], map[];
    }

    /** The composer's `onChange`. */
    method SetNewMessage(text: string)
      modifies this`newMessage
      ensures newMessage == text
      ensures old(Valid()) ==> Valid()
    {
      newMessage := text;
    }

    /** Clicking a roster entry opens the conversation with it. */
    method SelectReceiver(u: User)
      modifies this`receiver
      ensures receiver == Some(u)
      ensures old(Valid()) ==> Valid()
    {
      receiver := Some(u);
    }

    /** The synchronous part of `handleSendMessage`. With blank text or no receiver nothing
        changes and nothing is pending. Otherwise exactly one optimistic row, whose id is
        `temp-` + `token` and whose content is the trimmed text, is appended after the existing
        entries, and the composer is cleared. */
    method Send(me: Id, token: string, createdAt: string) returns (pending: Option<Pending>)
      modifies this`messages, this`newMessage
      ensures old(Valid()) ==> Valid()
      ensures Text.Trim(old(newMessage)) == [] || old(receiver).None? ==>
        pending == None && messages == old(messages) && newMessage == old(newMessage)
      ensures Text.Trim(old(newMessage)) != [] && old(receiver).Some? ==>
        && pending == Some(Pending("temp-" + token, Text.Trim(old(newMessage))))
        && messages == old(messages) + [Optimistic(pending.value, me, old(receiver).value.id, createdAt)]
        && newMessage == ""
    {
      var content := Text.Trim(newMessage);
      if content == [] || receiver.None? {
        return None;
      }
      var p := Pending("temp-" + token, content);
      messages := messages + [Optimistic(p, me, receiver.value.id, createdAt)];
      newMessage := "";
      pending := Some(p);
    }

    /** The completion of the insert started by `Send`. A response without error that carries
        a row replaces the placeholder entries by it, in place; a response with error removes
        them and puts the text back into the composer; anything else (no row, or a throw)
        changes nothing. */
    method Reconcile(p: Pending, outcome: WriteOutcome)
      modifies this`messages, this`newMessage
      ensures old(Valid()) ==> Valid()
      ensures outcome.Threw? || (!outcome.failed && outcome.saved.None?) ==>
        messages == old(messages) && newMessage == old(newMessage)
      ensures outcome.Responded? && !outcome.failed && outcome.saved.Some? ==>
        messages == Thread.ReplaceId(old(messages), p.tempId, outcome.saved.value)
        && newMessage == old(newMessage)
      ensures outcome.Responded? && outcome.failed ==>
        messages == Thread.RemoveId(old(messages), p.tempId) && newMessage == p.content
    {
      if outcome.Threw? {
        return;
      }
      if !outcome.failed && outcome.saved.Some? {
        messages := Thread.ReplaceId(messages, p.tempId, outcome.saved.value);
      }
      if outcome.failed {
        messages := Thread.RemoveId(messages, p.tempId);
        newMessage := p.content;
      }
    }

    /** `fetchConversation` / `loadMessages` completing: on success the thread becomes the
        fetched rows (none when the data is null); on error it is left as it was. */
    method ConversationLoaded(result: FetchResult)
      modifies this`messages
      ensures old(Valid()) ==> Valid()
      ensures result.FetchFailed? ==> messages == old(messages)
      ensures result.Fetched? ==> messages == result.data.GetOr([])
    {
      if result.Fetched? {
        messages := result.data.GetOr([]);
      }
    }

    /** The roster select of `fetchInitialData` completing (null data reads as no users). */
    method UsersLoaded(data: Option<seq<User>>)
      modifies this`users
      ensures old(Valid()) ==> Valid()
      ensures users == data.GetOr([])
    {
      users := data.GetOr([]);
    }

    /** The unread aggregate completing: the counters become exactly the folded rows (null data
        reads as no rows), replacing whatever was there. */
    method UnreadCountsLoaded(data: Option<seq<UnreadRow>>)
      modifies this`unreadCounts
      ensures unreadCounts == Counters.FoldCounts(data.GetOr([]))
      ensures unreadCounts.Keys == set i | 0 <= i < |data.GetOr([])| :: data.GetOr([])[i].senderId
      ensures old(Valid()) && (forall i :: 0 <= i < |data.GetOr([])| ==> data.GetOr([])[i].unreadCount >= 0)
        ==> Valid()
    {
      var rows := data.GetOr([]);
      unreadCounts := Counters.CountsFromRows(rows);
      Counters.FoldCountsKeys(rows);
      forall k | k in unreadCounts
        ensures (forall i :: 0 <= i < |rows| ==> rows[i].unreadCount >= 0) ==> unreadCounts[k] >= 0
      {
        var i :| 0 <= i < |rows| && rows[i].senderId == k;
        var last := Counters.LastRowOf(rows, i);
        Counters.FoldCountsLastWins(rows, last);
      }
    }

    /** `markConversationAsRead` completing for the receiver it was started for: that counter is 0. */
    method MarkConversationAsRead(receiverId: Id)
      modifies this`unreadCounts
      ensures old(Valid()) ==> Valid()
      ensures unreadCounts == Counters.ClearUnread(old(unreadCounts), receiverId)
    {
      unreadCounts := Counters.ClearUnread(unreadCounts, receiverId);
    }

    /** A `users` INSERT: appended at the end unless it is the session's own row (no duplicate check). */
    method OnUserInsert(me: Id, u: User)
      modifies this`users
      ensures old(Valid()) ==> Valid()
      ensures u.id != me ==> users == old(users) + [u]
      ensures u.id == me ==> users == old(users)
    {
      if u.id != me {
        users := users + [u];
      }
    }

    /** A `users` UPDATE: the roster entries with its id are replaced, and the open receiver is
        refreshed when it is that user. */
    method OnUserUpdate(u: User)
      modifies this`users, this`receiver
      ensures old(Valid()) ==> Valid()
      ensures users == Roster.ReplaceUser(old(users), u)
      ensures receiver == Roster.RefreshReceiver(old(receiver), u)
      ensures old(receiver).Some? && old(receiver).value in old(users) ==> receiver.value in users
    {
      users := Roster.ReplaceUser(users, u);
      if receiver.Some? && receiver.value in old(users) {
        Roster.RefreshReceiverStaysInRoster(old(users), receiver, u);
      }
      receiver := Roster.RefreshReceiver(receiver, u);
    }

    /** A `messages` INSERT. For the open conversation it is dedup-appended to the thread; other
        threads' messages never enter it. The unread counters follow `UnreadAfterInsert`. */
    method OnMessageInsert(me: Id, m: Message)
      modifies this`messages, this`unreadCounts
      ensures old(Valid()) ==> Valid()
      ensures IsForOpenChat(me, old(receiver), m) ==> messages == Thread.AppendUnlessPresent(old(messages), m)
      ensures !IsForOpenChat(me, old(receiver), m) ==> messages == old(messages)
      ensures unreadCounts == Counters.UnreadAfterInsert(old(unreadCounts), me, IsForOpenChat(me, old(receiver), m), m)
    {
      var open := IsForOpenChat(me, receiver, m);
      if open {
        messages := Thread.AppendUnlessPresent(messages, m);
      }
      unreadCounts := Counters.UnreadAfterInsert(unreadCounts, me, open, m);
    }

    /** A `messages` UPDATE: merged into the thread entries with its id, without any
        conversation check. */
    method OnMessageUpdate(p: MessagePatch)
      modifies this`messages
      ensures old(Valid()) ==> Valid()
      ensures messages == Thread.MergeById(old(messages), p)
    {
      messages := Thread.MergeById(messages, p);
    }

    /** A presence sync: the online map is rebuilt from the keys of the presence state alone. */
    method OnPresenceSync(keys: seq<Id>)
      modifies this`onlineUsers
      ensures old(Valid()) ==> Valid()
      ensures onlineUsers.Keys == set i | 0 <= i < |keys| :: keys[i]
      ensures forall k :: k in onlineUsers ==> onlineUsers[k]
    {
      onlineUsers := Presence.OnlineMapOf(keys);
    }

    /** A presence join: `key` is online; the other keys are untouched. */
    method OnPresenceJoin(key: Id)
      modifies this`onlineUsers
      ensures old(Valid()) ==> Valid()
      ensures onlineUsers == old(onlineUsers)[key := true]
    {
      onlineUsers := onlineUsers[key := true];
    }

    /** A presence leave: `key` is dropped; the other keys are untouched. */
    method OnPresenceLeave(key: Id)
      modifies this`onlineUsers
      ensures old(Valid()) ==> Valid()
      ensures onlineUsers == old(onlineUsers) - {key}
    {
      onlineUsers := onlineUsers - {key};
    }
  }

  /** A send whose write fails (offline): the thread is back to exactly what it was, and the
      composer holds the trimmed text again when a send was made. */
  method SendThenFail(v: ChatView, me: Id, token: string, createdAt: string)
    requires !Thread.HasId(v.messages, "temp-" + token)
    modifies v`messages, v`newMessage
    ensures v.messages == old(v.messages)
    ensures v.newMessage == (if Text.Trim(old(v.newMessage)) != [] && old(v.receiver).Some?
                             then Text.Trim(old(v.newMessage)) else old(v.newMessage))
    ensures old(v.Valid()) ==> v.Valid()
  {
    ghost var before := v.messages;
    var p := v.Send(me, token, createdAt);
    if p.Some? {
      ghost var opt := Optimistic(p.value, me, old(v.receiver).value.id, createdAt);
      v.Reconcile(p.value, Responded(None, true));
      Thread.RollbackRestoresThread(before, opt);
    }
  }

  /** A send whose write succeeds with nothing arriving in between: the thread is the old one
      plus the saved row. */
  method SendThenSave(v: ChatView, me: Id, token: string, createdAt: string, saved: Message)
    requires !Thread.HasId(v.messages, "temp-" + token)
    requires Text.Trim(v.newMessage) != [] && v.receiver.Some?
    modifies v`messages, v`newMessage
    ensures v.messages == old(v.messages) + [saved]
    ensures v.newMessage == ""
    ensures old(v.Valid()) ==> v.Valid()
  {
    ghost var before := v.messages;
    var p := v.Send(me, token, createdAt);
    ghost var opt := Optimistic(p.value, me, old(v.receiver).value.id, createdAt);
    v.Reconcile(p.value, Responded(Some(saved), false));
    Thread.ReconcileAfterSend(before, opt, saved);
  }

  /** The same message insert delivered twice leaves the view as one delivery does, thread
      and counters alike, when the chat is open. */
  method InsertDeliveredTwice(v: ChatView, me: Id, m: Message)
    requires IsForOpenChat(me, v.receiver, m)
    modifies v`messages, v`unreadCounts
    ensures v.messages == Thread.AppendUnlessPresent(old(v.messages), m)
    ensures v.unreadCounts == Counters.UnreadAfterInsert(old(v.unreadCounts), me, true, m)
  {
    v.OnMessageInsert(me, m);
    v.OnMessageInsert(me, m);
    Thread.AppendUnlessPresentIdempotent(old(v.messages), m);
  }

  /** A message to `me` from a user whose chat is not open bumps that sender's counter by
      exactly one; opening the chat with the sender afterwards resets it to 0. */
  method UnreadThenOpen(v: ChatView, me: Id, m: Message, sender: User) returns (bumped: int)
    requires m.receiverId == me && sender.id == m.senderId
    requires !IsForOpenChat(me, v.receiver, m)
    modifies v`messages, v`unreadCounts, v`receiver
    ensures v.messages == old(v.messages)
    ensures bumped == Counters.CountOf(old(v.unreadCounts), m.senderId) + 1
    ensures v.receiver == Some(sender)
    ensures m.senderId in v.unreadCounts && v.unreadCounts[m.senderId] == 0
    ensures forall k :: k in old(v.unreadCounts) && k != m.senderId ==>
      k in v.unreadCounts && v.unreadCounts[k] == old(v.unreadCounts)[k]
  {
    v.OnMessageInsert(me, m);
    bumped := v.unreadCounts[m.senderId];
    v.SelectReceiver(sender);
    v.MarkConversationAsRead(sender.id);
  }
}
