/** The list operations the chat view applies to the open thread (`messages`): the `some`, `map`
    and `filter` bodies of its state updaters, written as recursive functions over sequences. */
module Thread {
  import opened Wrappers
  import opened Records

  /** `prev.some(m => m.id === id)`. */
  function HasId(s: seq<Message>, id: Id): (b: bool)
    ensures b <==> exists i :: 0 <= i < |s| && s[i].id == id
  {
    if s == [] then false
    else if s[0].id == id then true
    else
      var b := HasId(s[1..], id);
      assert forall i :: 1 <= i < |s| ==> s[i] == s[1..][i - 1];
      b
  }

  /** Dedup-append of a realtime insert: the thread grows by `m` at the end only when no entry
      already carries `m.id`; the existing entries stay in place either way. */
  function AppendUnlessPresent(s: seq<Message>, m: Message): (r: seq<Message>)
    ensures HasId(r, m.id)
    ensures |s| <= |r| <= |s| + 1 && r[..|s|] == s
    ensures |r| == |s| + 1 <==> !HasId(s, m.id)
    ensures |r| == |s| + 1 ==> r[|s|] == m
  {
    if HasId(s, m.id) then s
    else
      assert (s + [m])[|s|].id == m.id;
      s + [m]
  }

  /** Delivering the same insert twice leaves the thread as delivering it once. */
  lemma AppendUnlessPresentIdempotent(s: seq<Message>, m: Message)
    ensures AppendUnlessPresent(AppendUnlessPresent(s, m), m) == AppendUnlessPresent(s, m)
  {
  }

  /** `prev.map(msg => msg.id === id ? row : msg)`: every entry carrying `id` is replaced by `row`
      at its own position; every other entry, and the length, are kept. */
  function ReplaceId(s: seq<Message>, id: Id, row: Message): (r: seq<Message>)
    ensures |r| == |s|
    ensures forall i :: 0 <= i < |s| ==> r[i] == (if s[i].id == id then row else s[i])
  {
    if s == [] then []
    else [if s[0].id == id then row else s[0]] + ReplaceId(s[1..], id, row)
  }

  /** `prev.filter(msg => msg.id !== id)`: the entries that do not carry `id`, and only those. */
  function RemoveId(s: seq<Message>, id: Id): (r: seq<Message>)
    ensures |r| <= |s|
    ensures forall x :: x in r <==> x in s && x.id != id
    ensures !HasId(r, id)
  {
    if s == [] then []
    else if s[0].id == id then RemoveId(s[1..], id)
    else [s[0]] + RemoveId(s[1..], id)
  }

  /** Filtering keeps relative order: it distributes over concatenation. */
  lemma {:induction false} RemoveIdConcat(a: seq<Message>, b: seq<Message>, id: Id)
    ensures RemoveId(a + b, id) == RemoveId(a, id) + RemoveId(b, id)
  {
    if a != [] {
      assert (a + b)[0] == a[0] && (a + b)[1..] == a[1..] + b;
      RemoveIdConcat(a[1..], b, id);
      if a[0].id != id {
        assert RemoveId(a + b, id) == [a[0]] + RemoveId(a[1..] + b, id);
        assert [a[0]] + (RemoveId(a[1..], id) + RemoveId(b, id))
            == ([a[0]] + RemoveId(a[1..], id)) + RemoveId(b, id);
      }
    } else {
      assert a + b == b;
    }
  }

  /** Filtering out an id no entry carries changes nothing. */
  lemma {:induction false} RemoveIdAbsent(s: seq<Message>, id: Id)
    requires !HasId(s, id)
    ensures RemoveId(s, id) == s
  {
    if s != [] {
      assert !HasId(s[1..], id) by {
        forall i | 0 <= i < |s| - 1 ensures s[1..][i].id != id { assert s[1..][i] == s[i + 1]; }
      }
      RemoveIdAbsent(s[1..], id);
    }
  }

  /** Rollback throws away exactly the optimistic entry: when the placeholder id was fresh,
      removing it after the append restores the thread the send started from. */
  lemma RollbackRestoresThread(s: seq<Message>, optimistic: Message)
    requires !HasId(s, optimistic.id)
    ensures RemoveId(s + [optimistic], optimistic.id) == s
  {
    RemoveIdConcat(s, [optimistic], optimistic.id);
    RemoveIdAbsent(s, optimistic.id);
    assert [optimistic][1..] == [];
  }

  /** Reconciling right after the optimistic append puts the saved row in the placeholder's slot:
      the thread is the one the send started from plus the saved row. */
  lemma ReconcileAfterSend(s: seq<Message>, optimistic: Message, saved: Message)
    requires !HasId(s, optimistic.id)
    ensures ReplaceId(s + [optimistic], optimistic.id, saved) == s + [saved]
  {
    var r := ReplaceId(s + [optimistic], optimistic.id, saved);
    forall i | 0 <= i < |s| ensures r[i] == s[i] {
      assert (s + [optimistic])[i] == s[i];
    }
  }

  /** After a reconcile whose saved row has a different id, no placeholder entry is left. */
  lemma ReplaceIdClearsPlaceholder(s: seq<Message>, id: Id, saved: Message)
    requires saved.id != id
    ensures !HasId(ReplaceId(s, id, saved), id)
  {
  }

  /** When the realtime echo of one's own message arrives before the write's response, the
      dedup check sees only the placeholder id, so the saved row is appended; the reconcile then
      turns the placeholder into a second copy of the same row. */
  lemma EchoBeforeResponseDuplicates(s: seq<Message>, optimistic: Message, saved: Message)
    requires !HasId(s, optimistic.id) && !HasId(s, saved.id) && saved.id != optimistic.id
    ensures ReplaceId(AppendUnlessPresent(s + [optimistic], saved), optimistic.id, saved)
         == s + [saved, saved]
  {
    var t := s + [optimistic];
    assert !HasId(t, saved.id) by {
      forall i | 0 <= i < |t| ensures t[i].id != saved.id {
        if i < |s| { assert t[i] == s[i]; }
      }
    }
    assert AppendUnlessPresent(t, saved) == s + [optimistic, saved];
    var r := ReplaceId(s + [optimistic, saved], optimistic.id, saved);
    forall i | 0 <= i < |s| ensures r[i] == s[i] {
      assert (s + [optimistic, saved])[i] == s[i];
    }
  }

  /** `{ ...msg, ...patch }`: each column the patch carries overrides the entry's, the rest are kept. */
  function Merge(m: Message, p: MessagePatch): (r: Message)
    ensures r.id == p.id
    ensures p.content.Some? ==> r.content == p.content.value
    ensures p.content.None? ==> r.content == m.content
    ensures p.senderId.Some? ==> r.senderId == p.senderId.value
    ensures p.senderId.None? ==> r.senderId == m.senderId
    ensures p.receiverId.Some? ==> r.receiverId == p.receiverId.value
    ensures p.receiverId.None? ==> r.receiverId == m.receiverId
    ensures p.createdAt.Some? ==> r.createdAt == p.createdAt.value
    ensures p.createdAt.None? ==> r.createdAt == m.createdAt
    ensures p.isRead.Some? ==> r.isRead == p.isRead.value
    ensures p.isRead.None? ==> r.isRead == m.isRead
    ensures p.readAt.Some? ==> r.readAt == p.readAt.value
    ensures p.readAt.None? ==> r.readAt == m.readAt
  {
    Message(
      p.id,
      p.content.GetOr(m.content),
      p.senderId.GetOr(m.senderId),
      p.receiverId.GetOr(m.receiverId),
      p.createdAt.GetOr(m.createdAt),
      p.isRead.GetOr(m.isRead),
      p.readAt.GetOr(m.readAt))
  }

  /** The patch that carries every column of `m` (the usual full-row UPDATE payload). */
  function FullPatch(m: Message): MessagePatch {
    MessagePatch(m.id, Some(m.content), Some(m.senderId), Some(m.receiverId),
                 Some(m.createdAt), Some(m.isRead), Some(m.readAt))
  }

  /** A full-row payload overwrites the entry completely, whatever it held before; merging the
      same patch twice is merging it once. */
  lemma MergeProperties(x: Message, m: Message, p: MessagePatch)
    ensures Merge(x, FullPatch(m)) == m
    ensures Merge(Merge(x, p), p) == Merge(x, p)
  {
  }

  /** `prev.map(msg => msg.id === p.id ? { ...msg, ...p } : msg)` over the open thread (no check
      that the row belongs to the open conversation): matching entries are merged in place, the
      others kept, the length and every entry's id preserved. */
  function MergeById(s: seq<Message>, p: MessagePatch): (r: seq<Message>)
    ensures |r| == |s|
    ensures forall i :: 0 <= i < |s| ==> r[i] == (if s[i].id == p.id then Merge(s[i], p) else s[i])
    ensures forall i :: 0 <= i < |s| ==> r[i].id == s[i].id
  {
    if s == [] then []
    else [if s[0].id == p.id then Merge(s[0], p) else s[0]] + MergeById(s[1..], p)
  }

  /** Replaying a message update changes nothing more. */
  lemma MergeByIdIdempotent(s: seq<Message>, p: MessagePatch)
    ensures MergeById(MergeById(s, p), p) == MergeById(s, p)
  {
    var r := MergeById(s, p);
    forall i | 0 <= i < |s| ensures MergeById(r, p)[i] == r[i] {
      MergeProperties(s[i], s[i], p);
    }
  }
}
