/** The unread counters of the chat view, one per sender, and the aggregate rows they are loaded from. */
module Counters {
  import opened Records

  /** `prev[id] || 0`: a missing counter reads as 0. */
  function CountOf(counts: map<Id, int>, id: Id): (c: int)
    ensures id in counts ==> c == counts[id]
    ensures id !in counts ==> c == 0
  {
    if id in counts then counts[id] else 0
  }

  /** `{ ...prev, [id]: 0 }`: the counter for `id` is reset; every other key keeps its value. */
  function ClearUnread(counts: map<Id, int>, id: Id): (r: map<Id, int>)
    ensures r.Keys == counts.Keys + {id}
    ensures r[id] == 0
    ensures forall k :: k in counts && k != id ==> r[k] == counts[k]
  {
    counts[id := 0]
  }

  /** `{ ...prev, [id]: (prev[id] || 0) + 1 }`: one more unread message from `id`, starting from
      0 when no counter exists yet; every other key keeps its value. */
  function IncrementUnread(counts: map<Id, int>, id: Id): (r: map<Id, int>)
    ensures r.Keys == counts.Keys + {id}
    ensures r[id] == CountOf(counts, id) + 1
    ensures forall k :: k in counts && k != id ==> r[k] == counts[k]
  {
    counts[id := CountOf(counts, id) + 1]
  }

  /** The unread bookkeeping of a realtime message insert, given whether it belongs to the open
      conversation. Only the sender's counter can change, and only when `me` is the recipient:
      it is cleared when the chat is open and bumped by one otherwise. */
  function UnreadAfterInsert(counts: map<Id, int>, me: Id, openChat: bool, m: Message): (r: map<Id, int>)
    ensures m.receiverId == me && openChat ==> m.senderId in r && r[m.senderId] == 0
    ensures m.receiverId == me && !openChat ==>
      m.senderId in r && r[m.senderId] == CountOf(counts, m.senderId) + 1
    ensures m.receiverId != me ==> r == counts
    ensures r.Keys == counts.Keys || r.Keys == counts.Keys + {m.senderId}
    ensures forall k :: k in counts && k != m.senderId ==> r[k] == counts[k]
  {
    if openChat then
      if m.receiverId == me then ClearUnread(counts, m.senderId) else counts
    else if m.receiverId == me then IncrementUnread(counts, m.senderId)
    else counts
  }

  /** The `reduce` that folds the aggregate's rows into a map, row by row, each row setting its
      sender's entry. */
  function FoldCounts(rows: seq<UnreadRow>): (r: map<Id, int>)
    ensures rows != [] ==> rows[|rows| - 1].senderId in r && r[rows[|rows| - 1].senderId] == rows[|rows| - 1].unreadCount
  {
    if rows == [] then map[]
    else FoldCounts(rows[..|rows| - 1])[rows[|rows| - 1].senderId := rows[|rows| - 1].unreadCount]
  }

  /** The folded map has exactly the senders of the rows as keys. */
  lemma {:induction false} FoldCountsKeys(rows: seq<UnreadRow>)
    ensures FoldCounts(rows).Keys == set i | 0 <= i < |rows| :: rows[i].senderId
  {
    if rows != [] {
      var n := |rows| - 1;
      FoldCountsKeys(rows[..n]);
      assert forall i :: 0 <= i < n ==> rows[..n][i] == rows[i];
      assert (set i | 0 <= i < |rows| :: rows[i].senderId)
          == (set i | 0 <= i < n :: rows[..n][i].senderId) + {rows[n].senderId};
    }
  }

  /** Later rows win: a sender's entry is the count of the last row naming that sender. */
  lemma {:induction false} FoldCountsLastWins(rows: seq<UnreadRow>, i: nat)
    requires i < |rows|
    requires forall j :: i < j < |rows| ==> rows[j].senderId != rows[i].senderId
    ensures rows[i].senderId in FoldCounts(rows)
    ensures FoldCounts(rows)[rows[i].senderId] == rows[i].unreadCount
  {
    var n := |rows| - 1;
    if i < n {
      assert forall j :: i < j < n ==> rows[..n][j] == rows[j];
      FoldCountsLastWins(rows[..n], i);
    }
  }

  /** The last row naming the same sender as `rows[i]`. */
  ghost function LastRowOf(rows: seq<UnreadRow>, i: nat): (j: nat)
    requires i < |rows|
    ensures i <= j < |rows| && rows[j].senderId == rows[i].senderId
    ensures forall k :: j < k < |rows| ==> rows[k].senderId != rows[i].senderId
    decreases |rows| - i
  {
    if forall k :: i < k < |rows| ==> rows[k].senderId != rows[i].senderId then i
    else
      var k :| i < k < |rows| && rows[k].senderId == rows[i].senderId;
      LastRowOf(rows, k)
  }

  /** The accumulator loop of the `reduce` over the aggregate rows. */
  method CountsFromRows(rows: seq<UnreadRow>) returns (acc: map<Id, int>)
    ensures acc == FoldCounts(rows)
  {
    acc := map[];
    var i := 0;
    while i < |rows|
      invariant 0 <= i <= |rows|
      invariant acc == FoldCounts(rows[..i])
    {
      assert rows[..i + 1][..i] == rows[..i];
      acc := acc[rows[i].senderId := rows[i].unreadCount];
      i := i + 1;
    }
    assert rows[..|rows|] == rows;
  }
}
