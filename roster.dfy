/** The roster (`users`) updaters of the realtime `users` channel. */
module Roster {
  import opened Wrappers
  import opened Records

  /** `prev.map(user => user.id === u.id ? u : user)`: every entry with `u`'s id becomes `u`, in
      place; the others and the length are kept. */
  function ReplaceUser(s: seq<User>, u: User): (r: seq<User>)
    ensures |r| == |s|
    ensures forall i :: 0 <= i < |s| ==> r[i] == (if s[i].id == u.id then u else s[i])
  {
    if s == [] then []
    else [if s[0].id == u.id then u else s[0]] + ReplaceUser(s[1..], u)
  }

  /** Replaying a roster update changes nothing more, and every entry with that id now is `u`. */
  lemma ReplaceUserIdempotent(s: seq<User>, u: User)
    ensures ReplaceUser(ReplaceUser(s, u), u) == ReplaceUser(s, u)
    ensures forall i :: 0 <= i < |s| && s[i].id == u.id ==> ReplaceUser(s, u)[i] == u
  {
    var r := ReplaceUser(s, u);
    forall i | 0 <= i < |s| ensures ReplaceUser(r, u)[i] == r[i] { }
  }

  /** The open receiver after a roster update: refreshed to `u` only when it is the same user. */
  function RefreshReceiver(receiver: Option<User>, u: User): (r: Option<User>)
    ensures receiver.Some? && receiver.value.id == u.id ==> r == Some(u)
    ensures !(receiver.Some? && receiver.value.id == u.id) ==> r == receiver
    ensures r.Some? <==> receiver.Some?
  {
    if receiver.Some? && receiver.value.id == u.id then Some(u) else receiver
  }

  /** The receiver refresh goes with the roster update: an open receiver taken from the roster
      is, once refreshed, still an entry of the updated roster, the one at its old position. */
  lemma RefreshReceiverStaysInRoster(users: seq<User>, receiver: Option<User>, u: User)
    requires receiver.Some? && receiver.value in users
    ensures RefreshReceiver(receiver, u).value in ReplaceUser(users, u)
  {
    var i :| 0 <= i < |users| && users[i] == receiver.value;
    assert ReplaceUser(users, u)[i] == RefreshReceiver(receiver, u).value;
  }
}
