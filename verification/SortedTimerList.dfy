/** The sorted doubly linked timer list `sort_timer_lst`. */
module SortedTimerList {
  import opened Seqs
  import opened Timers

  /** `util_timer`. */
  class UtilTimer {
    const id: nat
    var expire: int
    var prev: UtilTimer?
    var next: UtilTimer?

    constructor (id: nat, expire: int)
      ensures this.id == id && this.expire == expire && prev == null && next == null
    {
      this.id := id;
      this.expire := expire;
      prev, next := null, null;
    }

    function Value(): Timer
      reads this`expire
    {
      Timer(id, expire)
    }
  }

  // ---------- chains of nodes ----------

  ghost function NodeAt(s: seq<UtilTimer>, i: int): UtilTimer? {
    if 0 <= i < |s| then s[i] else null
  }

  ghost function OneOrNone(t: UtilTimer?): set<UtilTimer> {
    if t == null then {} else {t}
  }

  /** The nodes of `s` are linked in this order in both directions, and to nothing else. */
  ghost predicate Chain(s: seq<UtilTimer>)
    reads s`next, s`prev
  {
    NoRepeats(s)
    && (forall i {:trigger s[i].next} :: 0 <= i < |s| ==> s[i].next == NodeAt(s, i + 1))
    && (forall i {:trigger s[i].prev} :: 0 <= i < |s| ==> s[i].prev == NodeAt(s, i - 1))
  }

  ghost predicate Sorted(s: seq<UtilTimer>)
    reads s`expire
  {
    forall i, j :: 0 <= i < j < |s| ==> s[i].expire <= s[j].expire
  }

  /** `t` put into `s` as element `k`. */
  ghost function Insert(s: seq<UtilTimer>, k: nat, t: UtilTimer): (r: seq<UtilTimer>)
    requires k <= |s|
    ensures |r| == |s| + 1
  {
    s[..k] + [t] + s[k..]
  }

  lemma InsertAt(s: seq<UtilTimer>, k: nat, t: UtilTimer)
    requires k <= |s|
    ensures var r := Insert(s, k, t);
            forall i :: 0 <= i < |r| ==> r[i] == if i < k then s[i] else if i == k then t else s[i - 1]
  {
  }

  lemma InsertEnds(s: seq<UtilTimer>, k: nat, t: UtilTimer)
    requires k <= |s|
    ensures var r := Insert(s, k, t);
            r[0] == (if k == 0 then t else s[0]) && r[|s|] == if k == |s| then t else s[|s| - 1]
  {
    InsertAt(s, k, t);
  }

  lemma RemoveEnds(s: seq<UtilTimer>, k: nat)
    requires k < |s|
    ensures var r := Remove(s, k);
            NodeAt(r, 0) == (if k == 0 then NodeAt(s, 1) else s[0])
            && (r != [] ==> r[|r| - 1] == if k == |s| - 1 then s[|s| - 2] else s[|s| - 1])
  {
    RemoveAt(s, k);
  }

  /** The four assignments that link `t` between `p` and what follows it. */
  method Link(ghost s: seq<UtilTimer>, ghost k: nat, p: UtilTimer, t: UtilTimer)
    requires Chain(s) && t !in s && 0 < k <= |s| && p == s[k - 1]
    modifies s`next, s`prev, t`next, t`prev
    ensures Chain(Insert(s, k, t))
  {
    InsertAt(s, k, t);
    hide Insert;
    var q := p.next;
    assert q == NodeAt(s, k);
    p.next := t;
    t.next := q;
    if q != null {
      q.prev := t;
    }
    t.prev := p;
    ghost var r := Insert(s, k, t);
    assert forall i {:trigger r[i].next} :: 0 <= i < |r| ==> r[i].next == NodeAt(r, i + 1);
    assert forall i {:trigger r[i].prev} :: 0 <= i < |r| ==> r[i].prev == NodeAt(r, i - 1);
  }

  /** A new first node. */
  method LinkFirst(ghost s: seq<UtilTimer>, head: UtilTimer, t: UtilTimer)
    requires Chain(s) && s != [] && head == s[0] && t !in s && t.prev == null
    modifies s`next, s`prev, t`next, t`prev
    ensures Chain(Insert(s, 0, t))
  {
    InsertAt(s, 0, t);
    hide Insert;
    t.next := head;
    head.prev := t;
  }

  /** The first node is taken out. */
  method UnlinkFirst(ghost s: seq<UtilTimer>, t: UtilTimer)
    requires Chain(s) && s != [] && t == s[0]
    modifies s`next, s`prev
    ensures Chain(Remove(s, 0)) && t.next == old(t.next)
  {
    RemoveAt(s, 0);
    hide Remove;
    assert t.next == NodeAt(s, 1);
    if t.next != null {
      t.next.prev := null;
    }
  }

  /** An inner or last node is taken out. */
  method UnlinkInner(ghost s: seq<UtilTimer>, ghost k: nat, t: UtilTimer)
    requires Chain(s) && 0 < k < |s| && t == s[k]
    modifies s`next, s`prev
    ensures Chain(Remove(s, k)) && t.next == old(t.next)
  {
    RemoveAt(s, k);
    hide Remove;
    assert t.prev == s[k - 1] && t.next == NodeAt(s, k + 1);
    assert forall i :: 0 <= i < |s| && i != k ==> s[i] != t;
    t.prev.next := t.next;
    if t.next != null {
      t.next.prev := t.prev;
    }
    ghost var r := Remove(s, k);
    assert forall i {:trigger r[i].next} :: 0 <= i < |r| ==> r[i].next == NodeAt(r, i + 1);
    assert forall i {:trigger r[i].prev} :: 0 <= i < |r| ==> r[i].prev == NodeAt(r, i - 1);
  }

  /** The node `t` is taken out; its own pointers keep what they held. */
  method Unlink(ghost s: seq<UtilTimer>, ghost k: nat, t: UtilTimer)
    requires Chain(s) && k < |s| && t == s[k]
    modifies s`next, s`prev
    ensures Chain(Remove(s, k))
    ensures t.next == old(t.next)
  {
    ChainLinks(s, k);
    hide Chain, Remove;
    if t.prev == null {
      UnlinkFirst(s, t);
    } else {
      UnlinkInner(s, k, t);
    }
  }

  /** The timers of a chain, in its order. */
  ghost function Values(s: seq<UtilTimer>): (r: seq<Timer>)
    reads s`expire
    ensures |r| == |s| && forall i :: 0 <= i < |s| ==> r[i] == s[i].Value()
  {
    if s == [] then [] else Values(s[..|s| - 1]) + [s[|s| - 1].Value()]
  }

  class SortTimerLst {
    var head: UtilTimer?
    var tail: UtilTimer?
    ghost var nodes: seq<UtilTimer>

    /** Well formed: `tail` is the last node, but may be stale while the list is empty. */
    ghost predicate Linked()
      reads this, nodes
    {
      Chain(nodes) && head == NodeAt(nodes, 0) && (nodes != [] ==> tail == nodes[|nodes| - 1])
    }

    ghost predicate Valid()
      reads this, nodes
    {
      Linked() && Sorted(nodes)
    }

    ghost function Pending(): multiset<Timer>
      reads this, nodes
    {
      multiset(Values(nodes))
    }

    constructor ()
      ensures Valid() && nodes == []
    {
      head, tail, nodes := null, null, [];
    }

    /** The search of `add_timer(timer, lst_head)`: the last node not later than the timer. */
    method FindPlace(timer: UtilTimer, lstHead: UtilTimer, ghost p: nat)
      returns (prev: UtilTimer, tmp: UtilTimer?, ghost k: nat)
      requires Valid() && p < |nodes| && lstHead == nodes[p] && lstHead.expire <= timer.expire
      ensures p < k <= |nodes| && prev == nodes[k - 1] && tmp == NodeAt(nodes, k) && Fits(nodes, k, timer)
    {
      hide Chain, Sorted;
      prev := lstHead;
      ChainLinks(nodes, p);
      tmp := prev.next;
      k := p + 1;
      while tmp != null && timer.expire >= tmp.expire
        invariant p < k <= |nodes| && prev == nodes[k - 1] && tmp == NodeAt(nodes, k)
        invariant prev.expire <= timer.expire
        decreases |nodes| - k
      {
        ChainLinks(nodes, k);
        prev := tmp;
        tmp := tmp.next;
        k := k + 1;
      }
      SortedSplits(nodes, k, timer);
    }

    /** The overload `add_timer(timer, lst_head)`: inserts behind `lstHead`, before the first later timer. */
    method AddAfter(timer: UtilTimer, lstHead: UtilTimer, ghost p: nat) returns (ghost k: nat)
      requires Valid() && timer !in nodes && p < |nodes| && lstHead == nodes[p] && lstHead.expire <= timer.expire
      modifies this`nodes, this`tail, nodes`next, nodes`prev, timer`next, timer`prev
      ensures Valid() && p < k <= |old(nodes)| && nodes == Insert(old(nodes), k, timer)
      ensures Fits(old(nodes), k, timer)
    {
      hide Chain, Sorted, Insert, Fits;
      var prev, tmp;
      prev, tmp, k := FindPlace(timer, lstHead, p);
      ghost var s := nodes;
      if tmp == null {
        tail := timer;
      }
      nodes := Insert(s, k, timer);
      InsertEnds(s, k, timer);
      Link(s, k, prev, timer);
      SortedInsert(s, k, timer);
    }

    /** `add_timer`. A NULL timer is ignored. */
    method AddTimer(timer: UtilTimer?) returns (ghost k: nat)
      requires Valid() && (timer != null ==> timer !in nodes && timer.prev == null && timer.next == null)
      modifies this, nodes`next, nodes`prev, OneOrNone(timer)`next, OneOrNone(timer)`prev
      ensures Valid() && k <= |old(nodes)|
      ensures timer == null ==> nodes == old(nodes)
      ensures timer != null ==> nodes == Insert(old(nodes), k, timer) && Fits(old(nodes), k, timer)
    {
      hide Chain, Sorted, Insert, Fits;
      k := 0;
      if timer == null {
        return;
      }
      if head == null {
        Single(timer);
        head, tail := timer, timer;
        nodes := [timer];
        return;
      }
      if timer.expire < head.expire {
        ghost var s := nodes;
        var first := head;
        SortedSplits(s, 0, timer);
        head := timer;
        nodes := Insert(s, 0, timer);
        InsertEnds(s, 0, timer);
        LinkFirst(s, first, timer);
        SortedInsert(s, 0, timer);
        return;
      }
      k := AddAfter(timer, head, 0);
    }

    /** `del_timer` on a timer of the list. A NULL timer is ignored. */
    method DelTimer(timer: UtilTimer?, ghost k: nat)
      requires Valid() && (timer != null ==> k < |nodes| && timer == nodes[k])
      modifies this, nodes`next, nodes`prev
      ensures Valid() && nodes == if timer == null then old(nodes) else Remove(old(nodes), k)
    {
      hide Chain, Sorted, Remove;
      if timer == null {
        return;
      }
      ghost var s := nodes;
      PlaceOf(s, k);
      ChainLinks(s, k);
      RemoveEnds(s, k);
      nodes := Remove(s, k);
      if timer == head && timer == tail {
        NoNodes();
        head, tail := null, null;
        return;
      }
      if timer == head {
        head := timer.next;
      } else if timer == tail {
        tail := timer.prev;
      }
      Unlink(s, k, timer);
      SortedRemove(s, k);
    }

    /** `adjust_timer` after the timer's expiry has changed, the other timers being in order.
        The list is in order afterwards exactly when the timer does not expire before its predecessor. */
    method AdjustTimer(timer: UtilTimer?, ghost k: nat) returns (ghost k': nat)
      requires Linked() && (timer != null ==> k < |nodes| && timer == nodes[k] && Sorted(Remove(nodes, k)))
      modifies this, nodes`next, nodes`prev
      ensures Linked() && (timer == null ==> nodes == old(nodes))
      ensures timer != null ==>
                k' < |nodes| && nodes[k'] == timer && Remove(nodes, k') == Remove(old(nodes), k)
                && (Valid() <==> k == 0 || old(nodes)[k - 1].expire <= timer.expire)
    {
      hide Chain, Sorted, Insert, Remove, Fits;
      k' := 0;
      if timer == null {
        return;
      }
      ghost var s := nodes;
      ChainLinks(s, k);
      var tmp := timer.next;
      k' := k;
      if tmp == null || timer.expire < tmp.expire {
        SortedStays(s, k);
        return;
      }
      SortedMoves(s, k);
      PlaceOf(s, k);
      RemoveEnds(s, k);
      RemoveNext(s, k);
      nodes := Remove(s, k);
      if timer == head {
        head := head.next;
      }
      Unlink(s, k, timer);
      ghost var r := nodes;
      k' := AddAfter(timer, tmp, k);
      InsertRemove(r, k', timer);
    }

    /** What callers do with `adjust_timer`: the timer gets a later expiry and is then moved.
        A list in order stays in order, with the same timers. */
    method Prolong(timer: UtilTimer, expire: int, ghost k: nat) returns (ghost k': nat)
      requires Valid() && k < |nodes| && timer == nodes[k] && timer.expire <= expire
      modifies this, nodes`next, nodes`prev, timer`expire
      ensures Valid() && timer.expire == expire
      ensures k' < |nodes| && nodes[k'] == timer && Remove(nodes, k') == Remove(old(nodes), k)
    {
      ChainNoRepeats(nodes);
      hide Chain, Sorted, Remove;
      timer.expire := expire;
      Prolonged(nodes, k);
      k' := AdjustTimer(timer, k);
    }

    /** The head of the list is taken out and destroyed. */
    method DropHead()
      requires Valid() && nodes != []
      modifies this`head, this`nodes, nodes`next, nodes`prev
      ensures Valid() && nodes == old(nodes)[1..]
    {
      hide Chain, Sorted, Remove;
      ghost var s := nodes;
      var tmp := head;
      ChainLinks(s, 0);
      DropFirst(s);
      nodes := s[1..];
      head := tmp.next;
      Unlink(s, 0, tmp);
      SortedRemove(s, 0);
    }

    /** `tick`: returns the timers whose callbacks ran, in order. */
    method Tick(now: int) returns (fired: seq<Timer>)
      requires Valid()
      modifies this, nodes`next, nodes`prev
      ensures Valid() && TickOf(old(Pending()), now, fired, Pending())
      ensures |fired| <= |old(nodes)| && nodes == old(nodes)[|fired|..]
    {
      hide Chain, Sorted, Values, Ticking;
      ghost var all := nodes;
      ghost var n := 0;
      fired := [];
      TickingStart(all, now);
      var tmp := head;
      while tmp != null
        invariant Valid() && tmp == head && n == |fired| <= |all| && nodes == all[n..]
        invariant Ticking(all, n, fired, now) && Sorted(all)
        decreases |all| - n
      {
        if now < tmp.expire {
          break;
        }
        TickingStep(all, n, fired, now);
        fired := fired + [tmp.Value()];
        DropHead();
        n := n + 1;
        tmp := head;
      }
      TickingEnd(all, n, fired, now);
    }
  }

  /** An expiry that is made earlier than that of the predecessor is not repaired by `adjust_timer`. */
  method EarlierExpiry(first: int, second: int, changed: int) returns (list: SortTimerLst)
    requires changed < first <= second
    ensures fresh(list) && list.Linked() && !list.Valid()
  {
    hide Chain, Sorted, Remove, Insert;
    list := new SortTimerLst();
    var a := new UtilTimer(0, first);
    ghost var _ := list.AddTimer(a);
    Alone(a);
    var b := new UtilTimer(1, second);
    ghost var k := list.AddTimer(b);
    Behind(a, b, k);
    b.expire := changed;
    ghost var _ := list.AdjustTimer(b, 1);
  }

  lemma Alone(a: UtilTimer)
    ensures Insert([], 0, a) == [a]
  {
  }

  /** A timer that is not earlier goes behind, and is the only one left to be out of order. */
  lemma Behind(a: UtilTimer, b: UtilTimer, k: nat)
    requires k <= 1 && a.expire <= b.expire && Fits([a], k, b)
    ensures k == 1 && Insert([a], 1, b) == [a, b] && Remove([a, b], 1) == [a]
  {
    assert [a][0] == a;
  }

  // ---------- facts about chains and order ----------

  lemma ChainLinks(s: seq<UtilTimer>, i: nat)
    requires Chain(s) && i < |s|
    ensures s[i].next == NodeAt(s, i + 1) && s[i].prev == NodeAt(s, i - 1)
  {
  }

  lemma Single(t: UtilTimer)
    requires t.prev == null && t.next == null
    ensures Chain([t]) && Sorted([t]) && Insert([], 0, t) == [t] && Fits([], 0, t)
  {
  }

  lemma NoNodes()
    ensures Chain([]) && Sorted([])
  {
  }

  /** A node is first or last exactly when it stands there. */
  lemma PlaceOf(s: seq<UtilTimer>, k: nat)
    requires Chain(s) && k < |s|
    ensures s[k] == s[0] <==> k == 0
    ensures s[k] == s[|s| - 1] <==> k == |s| - 1
  {
  }

  /** `t` expires not before the first `k` nodes and before all the others. */
  ghost predicate Fits(s: seq<UtilTimer>, k: nat, t: UtilTimer)
    requires k <= |s|
    reads s`expire, t`expire
  {
    (forall i :: 0 <= i < k ==> s[i].expire <= t.expire) && (forall i :: k <= i < |s| ==> t.expire < s[i].expire)
  }

  lemma SortedSplits(s: seq<UtilTimer>, k: nat, t: UtilTimer)
    requires Sorted(s) && k <= |s|
    requires k > 0 ==> s[k - 1].expire <= t.expire
    requires k < |s| ==> t.expire < s[k].expire
    ensures Fits(s, k, t)
  {
  }

  lemma SortedInsert(s: seq<UtilTimer>, k: nat, t: UtilTimer)
    requires Sorted(s) && k <= |s| && Fits(s, k, t)
    ensures Sorted(Insert(s, k, t))
  {
    InsertAt(s, k, t);
  }

  lemma SortedRemove(s: seq<UtilTimer>, k: nat)
    requires Sorted(s) && k < |s|
    ensures Sorted(Remove(s, k))
  {
    RemoveAt(s, k);
  }

  /** Taking a timer out and putting it back elsewhere leaves the others as they were. */
  lemma InsertRemove(s: seq<UtilTimer>, k: nat, t: UtilTimer)
    requires k <= |s|
    ensures Insert(s, k, t)[k] == t && Remove(Insert(s, k, t), k) == s
  {
    var r := Insert(s, k, t);
    assert r[..k] == s[..k] && r[k + 1..] == s[k..];
  }

  lemma RemoveNext(s: seq<UtilTimer>, k: nat)
    requires Chain(s) && k + 1 < |s|
    ensures Remove(s, k)[k] == s[k + 1] && s[k] !in Remove(s, k)
    ensures forall i :: 0 <= i < |s| - 1 ==> exists j :: 0 <= j < |s| && Remove(s, k)[i] == s[j]
  {
    RemoveAt(s, k);
    var r := Remove(s, k);
    forall i | 0 <= i < |r|
      ensures exists j :: 0 <= j < |s| && r[i] == s[j]
    {
      assert r[i] == s[if i < k then i else i + 1];
    }
  }

  /** When the timer is not moved, only its predecessor can be out of order with it. */
  lemma SortedStays(s: seq<UtilTimer>, k: nat)
    requires k < |s| && Sorted(Remove(s, k)) && (k + 1 < |s| ==> s[k].expire < s[k + 1].expire)
    ensures Sorted(s) <==> k == 0 || s[k - 1].expire <= s[k].expire
  {
    if k == 0 || s[k - 1].expire <= s[k].expire {
      forall i, j | 0 <= i < j < |s|
        ensures s[i].expire <= s[j].expire
      {
        OthersSorted(s, k);
        if j == k {
          assert s[i].expire <= s[k - 1].expire;
        } else if i == k {
          assert s[k + 1].expire <= s[j].expire;
        }
      }
    }
  }

  lemma ChainNoRepeats(s: seq<UtilTimer>)
    requires Chain(s)
    ensures NoRepeats(s)
  {
  }

  /** After the expiry of one timer has grown, the others are in order and it is not before its predecessor. */
  twostate lemma Prolonged(s: seq<UtilTimer>, new k: nat)
    requires old(Sorted(s)) && k < |s| && s[k].expire >= old(s[k].expire)
    requires forall i :: 0 <= i < |s| && i != k ==> s[i].expire == old(s[i].expire)
    ensures Sorted(Remove(s, k)) && (k == 0 || s[k - 1].expire <= s[k].expire)
  {
    RemoveAt(s, k);
    hide Remove;
  }

  lemma OthersSorted(s: seq<UtilTimer>, k: nat)
    requires k < |s| && Sorted(Remove(s, k))
    ensures forall i, j :: 0 <= i <= j < |s| && i != k && j != k ==> s[i].expire <= s[j].expire
  {
    var r := Remove(s, k);
    RemoveAt(s, k);
    hide Remove;
    forall i, j | 0 <= i < j < |s| && i != k && j != k
      ensures s[i].expire <= s[j].expire
    {
      assert s[i] == r[if i < k then i else i - 1] && s[j] == r[if j < k then j else j - 1];
    }
  }

  /** When it is moved, it was not out of order with its predecessor. */
  lemma SortedMoves(s: seq<UtilTimer>, k: nat)
    requires k + 1 < |s| && Sorted(Remove(s, k)) && s[k + 1].expire <= s[k].expire
    ensures k == 0 || s[k - 1].expire <= s[k].expire
  {
    var r := Remove(s, k);
    RemoveAt(s, k);
    if k > 0 {
      assert r[k - 1].expire <= r[k].expire;
    }
  }

  /** The first `n` timers of `all` have fired, all of them expired. */
  ghost predicate Ticking(all: seq<UtilTimer>, n: nat, fired: seq<Timer>, now: int)
    reads all`expire
  {
    n <= |all| && fired == Values(all[..n]) && forall i :: 0 <= i < n ==> all[i].expire <= now
  }

  lemma TickingStart(all: seq<UtilTimer>, now: int)
    ensures Ticking(all, 0, [], now)
  {
  }

  lemma TickingStep(all: seq<UtilTimer>, n: nat, fired: seq<Timer>, now: int)
    requires Ticking(all, n, fired, now) && n < |all| && all[n].expire <= now
    ensures Ticking(all, n + 1, fired + [all[n].Value()], now)
  {
    assert all[..n + 1][..n] == all[..n];
  }

  /** Whatever is not among the first `n` expires later. */
  lemma LaterStay(all: seq<UtilTimer>, n: nat, now: int)
    requires n <= |all| && Sorted(all) && (n < |all| ==> now < all[n].expire)
    ensures forall t: Timer :: t in Values(all[n..]) ==> t.expire > now
  {
    hide Values;
    var rest := Values(all[n..]);
    forall t: Timer | t in rest
      ensures t.expire > now
    {
      var i :| 0 <= i < |rest| && rest[i] == t;
      assert t == all[n..][i].Value() == all[n + i].Value();
      assert i > 0 ==> all[n].expire <= all[n + i].expire;
    }
  }

  lemma ValuesCut(all: seq<UtilTimer>, n: nat)
    requires n <= |all|
    ensures Values(all) == Values(all[..n]) + Values(all[n..])
  {
    hide Values;
  }

  lemma TickingEnd(all: seq<UtilTimer>, n: nat, fired: seq<Timer>, now: int)
    requires Ticking(all, n, fired, now) && Sorted(all) && (n < |all| ==> now < all[n].expire)
    ensures TickOf(multiset(Values(all)), now, fired, multiset(Values(all[n..])))
  {
    hide Values;
    ValuesCut(all, n);
    LaterStay(all, n, now);
    assert forall i :: 0 <= i < n ==> fired[i] == all[i].Value();
  }

  lemma DropFirst(s: seq<UtilTimer>)
    requires s != []
    ensures Remove(s, 0) == s[1..]
  {
    assert s[..0] == [];
  }
}
