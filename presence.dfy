/** The presence flags of the chat view: who is online, keyed by user id. */
module Presence {
  import opened Records

  /** The `for...in` loop of a presence sync: every key of the presence state mapped to true,
      and nothing else. */
  method OnlineMapOf(keys: seq<Id>) returns (online: map<Id, bool>)
    ensures online.Keys == set i | 0 <= i < |keys| :: keys[i]
    ensures forall k :: k in online ==> online[k]
  {
    online := map[];
    var i := 0;
    while i < |keys|
      invariant 0 <= i <= |keys|
      invariant online.Keys == set j | 0 <= j < i :: keys[j]
      invariant forall k :: k in online ==> online[k]
    {
      assert (set j | 0 <= j < i + 1 :: keys[j]) == (set j | 0 <= j < i :: keys[j]) + {keys[i]};
      online := online[keys[i] := true];
      i := i + 1;
    }
  }
}
