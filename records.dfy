/** The rows the chat client holds in memory, as the backend's tables deliver them. */
module Records {
  import opened Wrappers

  /** Row identifiers: server UUIDs, or the client's `temp-` placeholders. */
  type Id = string

  /** A roster entry (table `users`). */
  datatype User = User(id: Id, email: string, lastSeen: Option<string>)

  /** A chat message (table `messages`); `readAt` is null until the recipient reads it. */
  datatype Message = Message(
    id: Id,
    content: string,
    senderId: Id,
    receiverId: Id,
    createdAt: string,
    isRead: bool,
    readAt: Option<string>)

  /** The `new` row of a realtime UPDATE on `messages`: the id it is matched by, and each other
      column only when the payload carries it (`None` = key absent from the pushed object). */
  datatype MessagePatch = MessagePatch(
    id: Id,
    content: Option<string>,
    senderId: Option<Id>,
    receiverId: Option<Id>,
    createdAt: Option<string>,
    isRead: Option<bool>,
    readAt: Option<Option<string>>)

  /** One row of the `get_unread_counts` aggregate. */
  datatype UnreadRow = UnreadRow(senderId: Id, unreadCount: int)
}
