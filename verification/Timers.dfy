/** Timers as values, shared by the heap and the sorted list. */
module Timers {

  /** A timer: who it belongs to and when it expires. */
  datatype Timer = Timer(id: nat, expire: int)

  ghost predicate Ascending(s: seq<Timer>) {
    forall i, j :: 0 <= i < j < |s| ==> s[i].expire <= s[j].expire
  }

  /** What a tick at time `now` does to the pending timers: `fired` leave, in order of expiry;
      they are all the expired ones, and `pending` is the rest. */
  ghost predicate TickOf(before: multiset<Timer>, now: int, fired: seq<Timer>, pending: multiset<Timer>) {
    multiset(fired) + pending == before
    && Ascending(fired)
    && (forall t :: t in fired ==> t.expire <= now)
    && (forall t :: t in pending ==> t.expire > now)
  }

  function Expiries(s: seq<Timer>): (r: seq<int>)
    ensures |r| == |s| && forall i :: 0 <= i < |s| ==> r[i] == s[i].expire
  {
    seq(|s|, i requires 0 <= i < |s| => s[i].expire)
  }
}
