/** The sorted list and the lazily deleting heap serve the same operations in the same way. */
module TimerRuns {
  import opened Seqs
  import opened Timers
  import opened SortedTimerList
  import opened TimeHeap
  import opened TimerEquivalence

  // ---------- the list serves the operations ----------

  twostate lemma ValuesKept(s: seq<UtilTimer>)
    requires forall i :: 0 <= i < |s| ==> s[i].expire == old(s[i].expire)
    ensures Values(s) == old(Values(s))
  {
    hide Values;
  }

  lemma ValuesConcat(a: seq<UtilTimer>, b: seq<UtilTimer>)
    ensures Values(a + b) == Values(a) + Values(b)
  {
    hide Values;
    assert forall i :: 0 <= i < |a| + |b| ==> (a + b)[i].Value() == (Values(a) + Values(b))[i];
  }

  lemma ValuesWithout(s: seq<UtilTimer>, k: nat)
    requires k < |s|
    ensures Values(Remove(s, k)) == Remove(Values(s), k)
  {
    hide Values;
    assert Values(s[..k]) == Values(s)[..k];
    assert Values(s[k + 1..]) == Values(s)[k + 1..];
    ValuesConcat(s[..k], s[k + 1..]);
  }

  lemma ValuesRemove(s: seq<UtilTimer>, k: nat)
    requires k < |s|
    ensures multiset(Values(s)) == multiset(Values(Remove(s, k))) + multiset{s[k].Value()}
    ensures multiset(Values(Remove(s, k))) == multiset(Values(s)) - multiset{s[k].Value()}
  {
    hide Values, Remove;
    ValuesWithout(s, k);
    WithoutMultiset(Values(s), k);
  }

  lemma ValuesInsert(s: seq<UtilTimer>, k: nat, t: UtilTimer)
    requires k <= |s|
    ensures multiset(Values(Insert(s, k, t))) == multiset(Values(s)) + multiset{t.Value()}
  {
    hide Values, Remove, Insert;
    InsertRemove(s, k, t);
    ValuesRemove(Insert(s, k, t), k);
  }

  /** The caller's handles lead to the nodes of the list. */
  ghost predicate ListTracked(nodes: seq<UtilTimer>, handles: map<nat, UtilTimer>) {
    forall t :: t in nodes ==> t.id in handles && handles[t.id] == t
  }

  /** The handle of a pending timer is a node of the list. */
  lemma NodeOf(nodes: seq<UtilTimer>, handles: map<nat, UtilTimer>, a: Agenda, id: nat) returns (k: nat)
    requires ListTracked(nodes, handles) && Holds(multiset(Values(nodes)), a) && id in a
    ensures k < |nodes| && id in handles && handles[id] == nodes[k] && nodes[k].Value() == Timer(id, a[id])
  {
    var s := Values(nodes);
    hide Values;
    assert Timer(id, a[id]) in multiset(s);
    k :| 0 <= k < |s| && s[k] == Timer(id, a[id]);
    assert nodes[k].Value() == s[k];
  }

  /** A node of the list is on the agenda. */
  lemma NodeOnAgenda(nodes: seq<UtilTimer>, a: Agenda, t: UtilTimer)
    requires Holds(multiset(Values(nodes)), a) && t in nodes
    ensures t.id in a
  {
    var s := Values(nodes);
    hide Values;
    var k :| 0 <= k < |nodes| && nodes[k] == t;
    assert s[k] == t.Value() && s[k] in multiset(s);
  }

  /** The list and the caller's handles agree with the agenda. */
  ghost predicate ListServes(list: SortTimerLst, handles: map<nat, UtilTimer>, a: Agenda)
    reads list, list.nodes
  {
    list.Valid() && ListTracked(list.nodes, handles) && Holds(list.Pending(), a)
  }

  method ListAdd(list: SortTimerLst, handles: map<nat, UtilTimer>, timer: Timer, ghost a: Agenda)
    returns (t: UtilTimer)
    requires ListServes(list, handles, a) && timer.id !in a
    modifies list, handles.Values`next, handles.Values`prev
    ensures fresh(t) && ListServes(list, handles[timer.id := t], Apply(a, Add(timer)))
  {
    hide Chain, Sorted, Insert, Values, Holds;
    ghost var s, m := list.nodes, list.Pending();
    TrackedIn(s, handles);
    t := new UtilTimer(timer.id, timer.expire);
    ghost var k := list.AddTimer(t);
    ValuesKept(s);
    ValuesInsert(s, k, t);
    HoldsAdd(m, a, timer);
    TrackedInsert(s, k, t, handles, a);
  }

  method ListDel(list: SortTimerLst, handles: map<nat, UtilTimer>, id: nat, ghost a: Agenda)
    requires ListServes(list, handles, a) && id in a
    modifies list, handles.Values`next, handles.Values`prev
    ensures ListServes(list, handles, Apply(a, Del(id)))
  {
    hide Chain, Sorted, Remove, Values, Holds;
    ghost var s, m := list.nodes, list.Pending();
    TrackedIn(s, handles);
    ghost var k := NodeOf(s, handles, a, id);
    list.DelTimer(handles[id], k);
    ValuesKept(s);
    ValuesRemove(s, k);
    HoldsDel(m, a, id);
    TrackedRemove(s, k, handles);
  }

  /** The nodes other than `k` are other nodes of the list. */
  lemma OthersThan(s: seq<UtilTimer>, k: nat)
    requires Chain(s) && k < |s|
    ensures s[k] !in Remove(s, k) && forall t :: t in Remove(s, k) ==> t in s
  {
    RemoveAt(s, k);
  }

  /** `adjust_timer` after a later expiry was set, as the server does it. */
  method ListProlong(list: SortTimerLst, handles: map<nat, UtilTimer>, id: nat, expire: int, ghost a: Agenda)
    requires ListServes(list, handles, a) && id in a && a[id] <= expire
    modifies list, handles.Values`next, handles.Values`prev, handles.Values`expire
    ensures ListServes(list, handles, Apply(a, Prolong(id, expire)))
  {
    hide Chain, Sorted, Remove, Values, Holds, Apply;
    ghost var s, m := list.nodes, list.Pending();
    TrackedIn(s, handles);
    ghost var k := NodeOf(s, handles, a, id);
    ghost var r := Remove(s, k);
    ValuesRemove(s, k);
    OthersThan(s, k);
    HoldsProlong(m, a, id, expire);
    ghost var k' := list.Prolong(handles[id], expire, k);
    ValuesKept(r);
    ValuesRemove(list.nodes, k');
    TrackedMoved(s, k, list.nodes, k', handles);
  }

  method ListTick(list: SortTimerLst, handles: map<nat, UtilTimer>, now: int, ghost a: Agenda)
    returns (fired: seq<Timer>)
    requires ListServes(list, handles, a)
    modifies list, handles.Values`next, handles.Values`prev
    ensures ListServes(list, handles, Apply(a, TickAt(now))) && FiredBy(a, TickAt(now), fired)
  {
    hide Chain, Sorted, TickOf, Values, Holds, FiredBy, Apply;
    ghost var s, m := list.nodes, list.Pending();
    TrackedIn(s, handles);
    fired := list.Tick(now);
    HoldsTick(m, a, now, fired, list.Pending());
    TrackedSuffix(s, |fired|, handles);
  }

  /** One operation on the list. */
  method ListStep(list: SortTimerLst, handles: map<nat, UtilTimer>, op: Op, ghost a: Agenda)
    returns (fired: seq<Timer>, handles': map<nat, UtilTimer>)
    requires ListServes(list, handles, a) && Proper(a, op)
    modifies list, handles.Values`next, handles.Values`prev, handles.Values`expire
    ensures ListServes(list, handles', Apply(a, op)) && FiredBy(a, op, fired)
    ensures fresh(handles'.Values - handles.Values)
  {
    hide ListServes, Apply;
    fired, handles' := [], handles;
    match op
    case Add(timer) =>
      var t := ListAdd(list, handles, timer, a);
      handles' := handles[timer.id := t];
    case Del(id) =>
      ListDel(list, handles, id, a);
    case Prolong(id, expire) =>
      ListProlong(list, handles, id, expire, a);
    case TickAt(now) =>
      fired := ListTick(list, handles, now, a);
  }

  lemma TrackedIn(s: seq<UtilTimer>, handles: map<nat, UtilTimer>)
    requires ListTracked(s, handles)
    ensures forall t :: t in s ==> t in handles.Values
  {
  }

  lemma TrackedRemove(s: seq<UtilTimer>, k: nat, handles: map<nat, UtilTimer>)
    requires ListTracked(s, handles) && k < |s|
    ensures ListTracked(Remove(s, k), handles)
  {
  }

  /** A timer that has moved is still the same node. */
  lemma TrackedMoved(s: seq<UtilTimer>, k: nat, s': seq<UtilTimer>, k': nat, handles: map<nat, UtilTimer>)
    requires ListTracked(s, handles) && k < |s| && k' < |s'| && s'[k'] == s[k] && Remove(s', k') == Remove(s, k)
    ensures ListTracked(s', handles)
  {
    TrackedRemove(s, k, handles);
    RemoveAt(s', k');
    hide Remove;
    var r := Remove(s', k');
    forall t | t in s'
      ensures t == s[k] || t in r
    {
      var i :| 0 <= i < |s'| && s'[i] == t;
      if i != k' {
        assert t == r[if i < k' then i else i - 1];
      }
    }
  }

  lemma TrackedSuffix(s: seq<UtilTimer>, n: nat, handles: map<nat, UtilTimer>)
    requires ListTracked(s, handles) && n <= |s|
    ensures ListTracked(s[n..], handles)
  {
  }

  lemma InsertMembers(s: seq<UtilTimer>, k: nat, t: UtilTimer)
    requires k <= |s|
    ensures forall u :: u in Insert(s, k, t) ==> u == t || u in s
  {
    InsertAt(s, k, t);
  }

  /** A new timer of a new identity displaces no handle. */
  lemma TrackedInsert(s: seq<UtilTimer>, k: nat, t: UtilTimer, handles: map<nat, UtilTimer>, a: Agenda)
    requires ListTracked(s, handles) && Holds(multiset(Values(s)), a) && t.id !in a && k <= |s|
    ensures ListTracked(Insert(s, k, t), handles[t.id := t])
  {
    hide Values, Holds;
    forall u | u in s
      ensures u.id != t.id
    {
      NodeOnAgenda(s, a, u);
    }
    hide Insert;
    InsertMembers(s, k, t);
  }

  lemma ListServesAtStart(list: SortTimerLst)
    requires list.Valid() && list.nodes == []
    ensures ListServes(list, map[], map[])
  {
    hide Chain, Sorted;
  }

  lemma ListServed(list: SortTimerLst, handles: map<nat, UtilTimer>, a: Agenda)
    requires ListServes(list, handles, a)
    ensures list.Valid() && Holds(list.Pending(), a)
  {
  }

  /** Any operations on a new list: its ticks run exactly the callbacks they should. */
  method RunList(ops: seq<Op>) returns (list: SortTimerLst, log: seq<seq<Timer>>)
    requires ProperRun(map[], ops)
    ensures fresh(list) && list.Valid() && Holds(list.Pending(), AgendaAt(map[], ops, |ops|))
    ensures LogOf(map[], ops, log)
  {
    hide ListServes, LogUpTo, FiredBy, Holds, Chain, Sorted, Values, Apply, Proper;
    list := new SortTimerLst();
    ListServesAtStart(list);
    var handles: map<nat, UtilTimer> := map[];
    log := [];
    LogStart(map[], ops);
    for i := 0 to |ops|
      invariant fresh(list) && fresh(handles.Values) && ListServes(list, handles, AgendaAt(map[], ops, i))
      invariant LogUpTo(map[], ops, i, log)
    {
      var fired;
      fired, handles := ListStep(list, handles, ops[i], AgendaAt(map[], ops, i));
      LogStep(map[], ops, i, log, fired);
      log := log + [fired];
    }
    ListServed(list, handles, AgendaAt(map[], ops, |ops|));
  }

  // ---------- the lazily deleting heap serves them too ----------

  /** The caller's handles lead to the timers of the heap that were not deleted. */
  ghost predicate HeapTracked(live: set<HeapTimer>, handles: map<nat, HeapTimer>) {
    forall t :: t in live ==> t.id in handles && handles[t.id] == t
  }

  lemma {:induction false} ArmedHas(s: seq<HeapTimer?>, t: HeapTimer)
    requires t in s && t.callback
    ensures t.Value() in multiset(Armed(s))
    decreases |s|
  {
    var n := |s| - 1;
    if s[n] != t {
      ArmedHas(s[..n], t);
    }
  }

  /** The handle of a pending timer is in the heap, with its callback set. */
  lemma EntryOf(s: seq<HeapTimer?>, handles: map<nat, HeapTimer>, a: Agenda, id: nat)
    requires HeapTracked(Live(s), handles) && Holds(multiset(Armed(s)), a) && id in a
    ensures id in handles && handles[id] in s && handles[id].callback && handles[id].id == id
  {
    var r := Armed(s);
    hide Armed;
    assert Timer(id, a[id]) in multiset(r);
    var i :| 0 <= i < |r| && r[i] == Timer(id, a[id]);
    var k := ArmedFrom(s, i);
    assert s[k] in Live(s);
  }

  /** `t` is deleted, and no other timer has its identity. */
  twostate predicate Disarms(s: seq<HeapTimer?>, new t: HeapTimer)
    reads t, s
  {
    !t.callback
    && (forall u :: u in s && u != null && old(u.callback) && u.id == t.id ==> u == t)
    && forall u :: u in s && u != null && u != t ==> u.callback == old(u.callback)
  }

  /** A lazily deleted timer is gone from the pending ones, and no other is. */
  twostate lemma {:induction false} Disarmed(s: seq<HeapTimer?>, new t: HeapTimer, new v: Timer)
    requires Disarms(s, t)
    ensures multiset(Armed(s))[v] == if v.id == t.id then 0 else old(multiset(Armed(s)))[v]
    decreases |s|
  {
    if s != [] {
      var n := |s| - 1;
      Disarmed(s[..n], t, v);
      ghost var last: seq<Timer> := if s[n] != null && s[n].callback then [s[n].Value()] else [];
      assert multiset(Armed(s)) == multiset(Armed(s[..n])) + multiset(last);
    }
  }

  twostate lemma HoldsDisarmed(s: seq<HeapTimer?>, new t: HeapTimer, new m: multiset<Timer>, new a: Agenda)
    requires Disarms(s, t) && m == old(multiset(Armed(s))) && Holds(m, a)
    ensures Holds(multiset(Armed(s)), Apply(a, Del(t.id)))
  {
    forall v: Timer
      ensures multiset(Armed(s))[v] == if v.id == t.id then 0 else m[v]
    {
      Disarmed(s, t, v);
    }
    hide Armed;
  }

  /** A new timer with a new identity. */
  lemma HoldsArmed(s: seq<HeapTimer?>, s': seq<HeapTimer?>, t: HeapTimer, a: Agenda)
    requires Holds(multiset(Armed(s)), a) && t.callback && t.id !in a
    requires multiset(s') == multiset(s + [t])
    ensures Holds(multiset(Armed(s')), Apply(a, Add(t.Value())))
  {
    hide Armed, Holds;
    ArmedOfSame(s', s + [t]);
    ArmedStep(s, t);
    HoldsAdd(multiset(Armed(s)), a, t.Value());
  }

  lemma TrackedArmed(s: seq<HeapTimer?>, s': seq<HeapTimer?>, t: HeapTimer, handles: map<nat, HeapTimer>, a: Agenda)
    requires HeapTracked(Live(s), handles) && Holds(multiset(Armed(s)), a) && t.callback && t.id !in a
    requires multiset(s') == multiset(s + [t])
    ensures HeapTracked(Live(s'), handles[t.id := t])
  {
    hide Armed;
    forall u | u in Live(s')
      ensures u == t || (u in Live(s) && u.id != t.id)
    {
      assert u in multiset(s') && u in multiset(s + [t]);
      if u in s {
        ArmedHas(s, u);
      }
    }
  }

  lemma TrackedLess(s: seq<HeapTimer?>, s': seq<HeapTimer?>, handles: map<nat, HeapTimer>)
    requires HeapTracked(Live(s), handles) && multiset(s') <= multiset(s)
    ensures HeapTracked(Live(s'), handles)
  {
    forall u | u in Live(s')
      ensures u in Live(s)
    {
      assert u in multiset(s');
    }
  }

  /** The heap and the caller's handles agree with the agenda. */
  ghost predicate HeapServes(heap: TimeHeap, handles: map<nat, HeapTimer>, a: Agenda)
    reads heap, heap.arr, heap.arr[..]`callback
  {
    heap.Valid() && heap.arr.Length > 0 && HeapTracked(Live(heap.arr[..heap.size]), handles) && Holds(heap.Pending(), a)
  }

  method HeapAdd(heap: TimeHeap, handles: map<nat, HeapTimer>, timer: Timer, ghost a: Agenda)
    returns (t: HeapTimer)
    requires HeapServes(heap, handles, a) && timer.id !in a
    modifies heap`arr, heap`size, heap.arr
    ensures fresh(t) && HeapServes(heap, handles[timer.id := t], Apply(a, Add(timer)))
    ensures heap.arr == old(heap.arr) || fresh(heap.arr)
  {
    hide HeapOrdered, NoNulls, Armed, Holds, Apply, HeapTracked;
    ghost var s := heap.arr[..heap.size];
    t := new HeapTimer(timer.id, timer.expire, true);
    heap.AddTimer(t);
    ArmedKept(s);
    ghost var s' := heap.arr[..heap.size];
    assert multiset(s') == multiset(s + [t]);
    HoldsArmed(s, s', t, a);
    TrackedArmed(s, s', t, handles, a);
  }

  method HeapDel(heap: TimeHeap, handles: map<nat, HeapTimer>, id: nat, ghost a: Agenda)
    requires HeapServes(heap, handles, a) && id in a
    modifies handles.Values`callback
    ensures HeapServes(heap, handles, Apply(a, Del(id)))
  {
    hide HeapOrdered, NoNulls, Armed, Holds, Apply;
    ghost var s, m := heap.arr[..heap.size], heap.Pending();
    EntryOf(s, handles, a, id);
    var t := handles[id];
    heap.DelTimer(t);
    HoldsDisarmed(s, t, m, a);
  }

  /** The heap has no `adjust_timer`: a caller deletes the timer and adds a new one. */
  method HeapProlong(heap: TimeHeap, handles: map<nat, HeapTimer>, id: nat, expire: int, ghost a: Agenda)
    returns (t: HeapTimer)
    requires HeapServes(heap, handles, a) && id in a
    modifies heap`arr, heap`size, heap.arr, handles.Values`callback
    ensures fresh(t) && HeapServes(heap, handles[id := t], Apply(a, Prolong(id, expire)))
    ensures heap.arr == old(heap.arr) || fresh(heap.arr)
  {
    hide HeapServes, Apply;
    HeapDel(heap, handles, id, a);
    ProlongedAgenda(a, id, expire);
    DeletedIsGone(a, id);
    t := HeapAdd(heap, handles, Timer(id, expire), Apply(a, Del(id)));
  }

  lemma DeletedIsGone(a: Agenda, id: nat)
    ensures id !in Apply(a, Del(id))
  {
  }

  method HeapTick(heap: TimeHeap, handles: map<nat, HeapTimer>, now: int, ghost a: Agenda)
    returns (ran: seq<Timer>)
    requires HeapServes(heap, handles, a)
    modifies heap`size, heap.arr
    ensures HeapServes(heap, handles, Apply(a, TickAt(now))) && FiredBy(a, TickAt(now), ran)
  {
    hide HeapOrdered, NoNulls, Armed, Holds, Apply, TickOf, FiredBy, HeapTracked;
    ghost var s, m := heap.arr[..heap.size], heap.Pending();
    ghost var popped;
    popped, ran := heap.Tick(now);
    HoldsTick(m, a, now, ran, heap.Pending());
    ArmedKept(s);
    TrackedLess(s, heap.arr[..heap.size], handles);
  }

  /** One operation on the heap. */
  method HeapStep(heap: TimeHeap, handles: map<nat, HeapTimer>, op: Op, ghost a: Agenda)
    returns (ran: seq<Timer>, handles': map<nat, HeapTimer>)
    requires HeapServes(heap, handles, a) && Proper(a, op)
    modifies heap`arr, heap`size, heap.arr, handles.Values`callback
    ensures HeapServes(heap, handles', Apply(a, op)) && FiredBy(a, op, ran)
    ensures fresh(handles'.Values - handles.Values) && (heap.arr == old(heap.arr) || fresh(heap.arr))
  {
    hide HeapServes, Apply;
    ran, handles' := [], handles;
    match op
    case Add(timer) =>
      var t := HeapAdd(heap, handles, timer, a);
      handles' := handles[timer.id := t];
    case Del(id) =>
      HeapDel(heap, handles, id, a);
    case Prolong(id, expire) =>
      var t := HeapProlong(heap, handles, id, expire, a);
      handles' := handles[id := t];
    case TickAt(now) =>
      ran := HeapTick(heap, handles, now, a);
  }

  /** The first `n` timers as objects, with handles to them. */
  ghost predicate Entered(init: seq<Timer>, n: nat, entries: seq<HeapTimer>, handles: map<nat, HeapTimer>)
    reads entries`callback
  {
    |entries| == n <= |init|
    && (forall i :: 0 <= i < n ==> entries[i].callback && entries[i].Value() == init[i])
    && (forall i :: 0 <= i < n ==> init[i].id in handles && handles[init[i].id] == entries[i])
  }

  /** New timer objects for given timers. */
  method NewEntries(init: seq<Timer>) returns (entries: seq<HeapTimer>, handles: map<nat, HeapTimer>)
    requires DistinctIds(init)
    ensures Entered(init, |init|, entries, handles) && fresh(handles.Values)
  {
    entries, handles := [], map[];
    for n := 0 to |init|
      invariant Entered(init, n, entries, handles) && fresh(handles.Values)
    {
      var t := new HeapTimer(init[n].id, init[n].expire, true);
      assert forall i :: 0 <= i < n ==> handles[init[i].id] in handles.Values;
      ghost var before := handles.Values;
      entries, handles := entries + [t], handles[t.id := t];
      assert forall u :: u in handles.Values ==> u == t || u in before;
    }
  }

  lemma {:induction false} EnteredArmed(init: seq<Timer>, n: nat, entries: seq<HeapTimer>, handles: map<nat, HeapTimer>)
    requires Entered(init, n, entries, handles)
    ensures Armed(entries) == init[..n]
    decreases n
  {
    if n > 0 {
      EnteredArmed(init, n - 1, entries[..n - 1], handles);
      assert init[..n] == init[..n - 1] + [init[n - 1]];
    }
  }

  /** A heap built from timers with distinct identities serves the agenda of these timers. */
  lemma HeapServesAtStart(heap: TimeHeap, init: seq<Timer>, entries: seq<HeapTimer>, handles: map<nat, HeapTimer>)
    requires heap.Valid() && heap.arr.Length > 0 && heap.Contents() == multiset(entries)
    requires DistinctIds(init) && Entered(init, |init|, entries, handles)
    ensures HeapServes(heap, handles, AgendaOf(init))
  {
    hide HeapOrdered, NoNulls, Armed, Holds, AgendaOf;
    var s := heap.arr[..heap.size];
    ArmedOfSame(s, entries);
    EnteredArmed(init, |init|, entries, handles);
    assert init[..|init|] == init;
    HoldsAll(init);
    EnteredTracked(init, entries, handles);
    TrackedLess(entries, s, handles);
  }

  lemma EnteredTracked(init: seq<Timer>, entries: seq<HeapTimer>, handles: map<nat, HeapTimer>)
    requires Entered(init, |init|, entries, handles)
    ensures HeapTracked(Live(entries), handles)
  {
    forall t | t in Live(entries)
      ensures t.id in handles && handles[t.id] == t
    {
      var i :| 0 <= i < |entries| && entries[i] == t;
      assert t.Value() == init[i];
    }
  }

  lemma HeapServed(heap: TimeHeap, handles: map<nat, HeapTimer>, a: Agenda)
    requires HeapServes(heap, handles, a)
    ensures heap.Valid() && Holds(heap.Pending(), a)
  {
  }

  /** Any operations on a heap built from any timers with distinct identities, none of them included:
      the callbacks it runs are those that should, deletions included. */
  method RunHeap(init: seq<Timer>, capacity: nat, ops: seq<Op>) returns (heap: TimeHeap, log: seq<seq<Timer>>)
    requires DistinctIds(init) && |init| <= capacity && capacity > 0 && ProperRun(AgendaOf(init), ops)
    ensures fresh(heap) && heap.Valid() && Holds(heap.Pending(), AgendaAt(AgendaOf(init), ops, |ops|))
    ensures LogOf(AgendaOf(init), ops, log)
  {
    hide HeapServes, LogUpTo, FiredBy, Holds, HeapOrdered, NoNulls, Armed, Live, Apply, Proper, AgendaOf, Entered;
    var entries, handles := NewEntries(init);
    EnteredSize(init, entries, handles);
    heap := new TimeHeap.FromArray(entries, capacity);
    ghost var a := AgendaOf(init);
    HeapServesAtStart(heap, init, entries, handles);
    log := [];
    LogStart(a, ops);
    for i := 0 to |ops|
      invariant fresh(heap) && fresh(heap.arr) && fresh(handles.Values)
      invariant HeapServes(heap, handles, AgendaAt(a, ops, i)) && LogUpTo(a, ops, i, log)
    {
      var ran;
      ran, handles := HeapStep(heap, handles, ops[i], AgendaAt(a, ops, i));
      LogStep(a, ops, i, log, ran);
      log := log + [ran];
    }
    HeapServed(heap, handles, AgendaAt(a, ops, |ops|));
  }

  lemma EnteredSize(init: seq<Timer>, entries: seq<HeapTimer>, handles: map<nat, HeapTimer>)
    requires Entered(init, |init|, entries, handles)
    ensures |entries| == |init|
  {
  }

  /** A heap built from an array of timers and a list to which the same timers were added, on the same
      operations: the same callbacks run at each tick, in the same order of expiries, and the same timers
      stay pending. */
  method RunBoth(init: seq<Timer>, capacity: nat, ops: seq<Op>)
    returns (list: SortTimerLst, heap: TimeHeap, fired: seq<seq<Timer>>, ran: seq<seq<Timer>>)
    requires DistinctIds(init) && |init| <= capacity && capacity > 0 && ProperRun(AgendaOf(init), ops)
    ensures list.Valid() && heap.Valid() && list.Pending() == heap.Pending()
    ensures |fired| == |ops| && SameFirings(fired, ran)
  {
    hide Holds, Chain, Sorted, Values, HeapOrdered, NoNulls, Armed, Live, LogUpTo, ProperRun, AgendaAt, SameFirings;
    hide AgendaOf, DistinctIds;
    ProperBehind(init, ops);
    var log;
    list, log := RunList(Adds(init) + ops);
    LogBehind(init, ops, log);
    fired := log[|init|..];
    heap, ran := RunHeap(init, capacity, ops);
    AgendaBehind(init, ops, |ops|);
    HoldsOnly(list.Pending(), heap.Pending(), AgendaAt(AgendaOf(init), ops, |ops|));
    LogsAgree(AgendaOf(init), ops, fired, ran);
  }
}
