/** The hashed timing wheel `time_wheel`: sixty slots, each a doubly linked list of timers. */
module TimeWheel {
  import opened Seqs
  import opened WheelRuns

  const N := 60
  const TI := 1

  /** `tw_timer`. */
  class TwTimer {
    const slot: nat
    var rotation: int
    var prev: TwTimer?
    var next: TwTimer?

    constructor (rot: int, ts: nat)
      ensures rotation == rot && slot == ts && prev == null && next == null
    {
      rotation := rot;
      slot := ts;
      prev, next := null, null;
    }
  }

  // ---------- chains of nodes ----------

  ghost function NodeAt(s: seq<TwTimer>, i: int): TwTimer? {
    if 0 <= i < |s| then s[i] else null
  }

  ghost predicate Chain(s: seq<TwTimer>)
    reads s`next, s`prev
  {
    NoRepeats(s)
    && (forall i {:trigger s[i].next} :: 0 <= i < |s| ==> s[i].next == NodeAt(s, i + 1))
    && (forall i {:trigger s[i].prev} :: 0 <= i < |s| ==> s[i].prev == NodeAt(s, i - 1))
  }

  lemma ChainLinks(s: seq<TwTimer>, i: nat)
    requires Chain(s) && i < |s|
    ensures s[i].next == NodeAt(s, i + 1) && s[i].prev == NodeAt(s, i - 1)
    ensures s[i] == s[0] <==> i == 0
  {
  }

  /** `timer` becomes the first node of the list that starts at `head`. */
  method LinkFirst(ghost s: seq<TwTimer>, head: TwTimer?, timer: TwTimer)
    requires Chain(s) && head == NodeAt(s, 0) && timer !in s && timer.prev == null && timer.next == null
    modifies s`next, s`prev, timer`next, timer`prev
    ensures Chain([timer] + s)
  {
    if head != null {
      timer.next := head;
      head.prev := timer;
    }
  }

  /** Every node of `s` belongs to `nodes`. */
  ghost predicate Among(s: seq<TwTimer>, nodes: set<TwTimer>) {
    forall i :: 0 <= i < |s| ==> s[i] in nodes
  }

  /** The first node is taken out; returns the new first node. */
  method UnlinkFirst(ghost nodes: set<TwTimer>, ghost s: seq<TwTimer>, timer: TwTimer) returns (head: TwTimer?)
    requires Among(s, nodes) && Chain(s) && s != [] && timer == s[0]
    modifies nodes`next, nodes`prev
    ensures Chain(Remove(s, 0)) && head == NodeAt(Remove(s, 0), 0)
  {
    RemoveAt(s, 0);
    hide Remove;
    assert timer.next == NodeAt(s, 1);
    head := timer.next;
    if head != null {
      head.prev := null;
    }
  }

  /** An inner or last node is taken out. */
  method UnlinkInner(ghost nodes: set<TwTimer>, ghost s: seq<TwTimer>, ghost k: nat, timer: TwTimer)
    requires Among(s, nodes) && Chain(s) && 0 < k < |s| && timer == s[k]
    modifies nodes`next, nodes`prev
    ensures Chain(Remove(s, k))
  {
    RemoveAt(s, k);
    hide Remove;
    assert timer.prev == NodeAt(s, k - 1) && timer.next == NodeAt(s, k + 1);
    assert s[k - 1].next == timer;
    timer.prev.next := timer.next;
    if timer.next != null {
      timer.next.prev := timer.prev;
    }
    ghost var r := Remove(s, k);
    assert forall i {:trigger r[i].next} :: 0 <= i < |r| ==> r[i].next == NodeAt(r, i + 1);
    assert forall i {:trigger r[i].prev} :: 0 <= i < |r| ==> r[i].prev == NodeAt(r, i - 1);
  }

  /** Node `k` of the list is taken out; returns the new first node. */
  method Unlink(ghost nodes: set<TwTimer>, ghost s: seq<TwTimer>, ghost k: nat, head: TwTimer, timer: TwTimer)
    returns (head': TwTimer?)
    requires Among(s, nodes) && Chain(s) && k < |s| && timer == s[k] && head == s[0]
    modifies nodes`next, nodes`prev
    ensures Chain(Remove(s, k)) && head' == NodeAt(Remove(s, k), 0)
  {
    ChainLinks(s, k);
    RemoveAt(s, k);
    hide Chain, Remove;
    if timer == head {
      head' := UnlinkFirst(nodes, s, timer);
    } else {
      head' := head;
      UnlinkInner(nodes, s, k, timer);
    }
  }

  // ---------- what a tick does to one list ----------

  /** Of the first `i` timers of the list, `kept` stay and `fired` have gone. */
  ghost predicate Sifted(s: seq<TwTimer>, due: set<TwTimer>, i: nat, kept: seq<TwTimer>, fired: seq<TwTimer>) {
    i <= |s|
    && (forall t :: t in kept ==> t in s[..i] && t !in due)
    && (forall t :: t in fired ==> t in s[..i] && t in due)
    && (forall t :: t in s[..i] ==> if t in due then t in fired else t in kept)
    && NoRepeats(fired)
  }

  lemma SiftedStart(s: seq<TwTimer>, due: set<TwTimer>)
    ensures Sifted(s, due, 0, [], [])
  {
  }

  lemma SiftedKeep(s: seq<TwTimer>, due: set<TwTimer>, i: nat, kept: seq<TwTimer>, fired: seq<TwTimer>)
    requires NoRepeats(s) && Sifted(s, due, i, kept, fired) && i < |s| && s[i] !in due
    ensures Sifted(s, due, i + 1, kept + [s[i]], fired)
  {
    assert s[..i + 1] == s[..i] + [s[i]];
  }

  lemma SiftedFire(s: seq<TwTimer>, due: set<TwTimer>, i: nat, kept: seq<TwTimer>, fired: seq<TwTimer>)
    requires NoRepeats(s) && Sifted(s, due, i, kept, fired) && i < |s| && s[i] in due
    ensures Sifted(s, due, i + 1, kept, fired + [s[i]])
  {
    assert s[..i + 1] == s[..i] + [s[i]];
    assert s[i] !in s[..i];
  }

  lemma SiftedEnd(s: seq<TwTimer>, due: set<TwTimer>, kept: seq<TwTimer>, fired: seq<TwTimer>)
    requires Sifted(s, due, |s|, kept, fired)
    ensures forall t :: t in kept <==> t in s && t !in due
    ensures forall t :: t in fired <==> t in s && t in due
    ensures NoRepeats(fired)
  {
    assert s[..|s|] == s;
  }

  /** The rotation that a tick leaves on a timer of the current slot. */
  function Turned(rotation: int): int {
    if rotation > 0 then rotation - 1 else rotation
  }

  ghost function Rotations(s: seq<TwTimer>): (r: seq<int>)
    reads s`rotation
    ensures |r| == |s| && forall k :: 0 <= k < |s| ==> r[k] == s[k].rotation
  {
    if s == [] then [] else Rotations(s[..|s| - 1]) + [s[|s| - 1].rotation]
  }

  /** The loop has turned the first `i` timers and not yet touched the others. */
  ghost predicate TurnedUpTo(s: seq<TwTimer>, rots: seq<int>, i: nat)
    reads s`rotation
  {
    |rots| == |s| && i <= |s|
    && forall k :: 0 <= k < |s| ==> s[k].rotation == if k < i then Turned(rots[k]) else rots[k]
  }

  lemma CutNode(kept: seq<TwTimer>, s: seq<TwTimer>, i: nat)
    requires i < |s|
    ensures (kept + s[i..])[|kept|] == s[i]
    ensures Remove(kept + s[i..], |kept|) == kept + s[i + 1..]
    ensures kept + [s[i]] + s[i + 1..] == kept + s[i..]
    ensures NodeAt(kept + s[i..], |kept| + 1) == NodeAt(s, i + 1)
  {
  }

  /** One turn of the loop of `tick`: node `k` of the list stays with one rotation less, or fires and leaves. */
  method TickNode(ghost nodes: set<TwTimer>, ghost list: seq<TwTimer>, ghost k: nat, head: TwTimer, tmp: TwTimer)
    returns (head': TwTimer?, next: TwTimer?, fires: bool)
    requires Among(list, nodes) && Chain(list) && k < |list| && tmp == list[k] && head == list[0]
    modifies nodes`next, nodes`prev, tmp`rotation
    ensures fires == (old(tmp.rotation) <= 0) && next == NodeAt(list, k + 1)
    ensures tmp.rotation == Turned(old(tmp.rotation))
    ensures !fires ==> Chain(list) && head' == head
    ensures fires ==> Chain(Remove(list, k)) && head' == NodeAt(Remove(list, k), 0)
  {
    hide Chain, Remove;
    ChainLinks(list, k);
    if tmp.rotation > 0 {
      tmp.rotation := tmp.rotation - 1;
      head', next, fires := head, tmp.next, false;
    } else {
      next := tmp.next;
      head' := Unlink(nodes, list, k, head, tmp);
      fires := true;
    }
  }

  lemma TurnedStep(s: seq<TwTimer>, rots: seq<int>, before: seq<int>, i: nat)
    requires |before| == |s| == |rots| && i < |s| && NoRepeats(s)
    requires forall k :: 0 <= k < |s| ==> before[k] == if k < i then Turned(rots[k]) else rots[k]
    requires forall k :: 0 <= k < |s| ==> s[k].rotation == if k == i then Turned(before[k]) else before[k]
    ensures TurnedUpTo(s, rots, i + 1)
  {
  }

  /** The state of the loop: the list is now `kept` followed by the timers from `i` on. */
  ghost predicate Looping(nodes: set<TwTimer>, s: seq<TwTimer>, rots: seq<int>, due: set<TwTimer>,
                          i: nat, kept: seq<TwTimer>, fired: seq<TwTimer>, head: TwTimer?)
    reads nodes`rotation, nodes`next, nodes`prev
  {
    Among(s, nodes) && NoRepeats(s) && Sifted(s, due, i, kept, fired) && TurnedUpTo(s, rots, i)
    && Among(kept, nodes) && Chain(kept + s[i..]) && head == NodeAt(kept + s[i..], 0)
    && forall k :: 0 <= k < |s| ==> (s[k] in due <==> rots[k] <= 0)
  }

  lemma LoopingStart(nodes: set<TwTimer>, s: seq<TwTimer>, rots: seq<int>, due: set<TwTimer>)
    requires Among(s, nodes) && Chain(s) && rots == Rotations(s)
    requires forall k :: 0 <= k < |s| ==> (s[k] in due <==> rots[k] <= 0)
    ensures Looping(nodes, s, rots, due, 0, [], [], NodeAt(s, 0))
  {
    SiftedStart(s, due);
    assert [] + s[0..] == s;
  }

  /** One turn of the loop, with its bookkeeping. */
  method TickTurn(ghost nodes: set<TwTimer>, ghost s: seq<TwTimer>, ghost rots: seq<int>, ghost due: set<TwTimer>,
                  ghost i: nat, ghost kept: seq<TwTimer>, fired: seq<TwTimer>, head: TwTimer, tmp: TwTimer)
    returns (head': TwTimer?, next: TwTimer?, fired': seq<TwTimer>, ghost kept': seq<TwTimer>)
    requires i < |s| && tmp == s[i] && Looping(nodes, s, rots, due, i, kept, fired, head)
    modifies nodes`next, nodes`prev, nodes`rotation
    ensures Looping(nodes, s, rots, due, i + 1, kept', fired', head') && next == NodeAt(s, i + 1)
    ensures next != null ==> head' != null
  {
    hide Chain, Sifted, Remove, Rotations;
    CutNode(kept, s, i);
    ghost var before := Rotations(s);
    var fires;
    head', next, fires := TickNode(nodes, kept + s[i..], |kept|, head, tmp);
    TurnedStep(s, rots, before, i);
    if fires {
      SiftedFire(s, due, i, kept, fired);
      fired', kept' := fired + [tmp], kept;
    } else {
      SiftedKeep(s, due, i, kept, fired);
      fired', kept' := fired, kept + [tmp];
    }
  }

  lemma LoopingEnd(nodes: set<TwTimer>, s: seq<TwTimer>, rots: seq<int>, due: set<TwTimer>,
                   kept: seq<TwTimer>, fired: seq<TwTimer>, head: TwTimer?)
    requires Looping(nodes, s, rots, due, |s|, kept, fired, head)
    ensures Chain(kept) && head == NodeAt(kept, 0) && NoRepeats(fired)
    ensures forall t :: t in kept ==> t in s && t !in due
    ensures forall t :: t in fired ==> t in s && t in due
    ensures forall t :: t in s ==> if t in due then t in fired else t in kept
    ensures forall k :: 0 <= k < |s| ==> s[k].rotation == Turned(rots[k])
  {
    assert kept + s[|s|..] == kept;
    SiftedEnd(s, due, kept, fired);
  }

  /** The loop of `tick` over the list of the current slot. Callbacks are recorded in `fired`. */
  method TickList(ghost nodes: set<TwTimer>, ghost s: seq<TwTimer>, head0: TwTimer?)
    returns (head: TwTimer?, fired: seq<TwTimer>, ghost kept: seq<TwTimer>)
    requires Among(s, nodes) && Chain(s) && head0 == NodeAt(s, 0)
    modifies nodes`next, nodes`prev, nodes`rotation
    ensures Chain(kept) && head == NodeAt(kept, 0) && NoRepeats(fired)
    ensures forall t :: t in kept ==> t in s && old(t.rotation) > 0
    ensures forall t :: t in fired ==> t in s && old(t.rotation) <= 0
    ensures forall t :: t in s ==> t in kept || t in fired
    ensures forall k :: 0 <= k < |s| ==> s[k].rotation == Turned(old(s[k].rotation))
  {
    hide Chain, Looping, Rotations;
    ghost var due := set t | t in s && t.rotation <= 0;
    ghost var rots := Rotations(s);
    LoopingStart(nodes, s, rots, due);
    head, fired, kept := head0, [], [];
    var tmp := head;
    ghost var i := 0;
    while tmp != null
      invariant i <= |s| && tmp == NodeAt(s, i) && (tmp != null ==> head != null)
      invariant Looping(nodes, s, rots, due, i, kept, fired, head)
      decreases |s| - i
    {
      head, tmp, fired, kept := TickTurn(nodes, s, rots, due, i, kept, fired, head, tmp);
      i := i + 1;
    }
    LoopingEnd(nodes, s, rots, due, kept, fired, head);
  }

  // ---------- the wheel ----------

  /** Slots that the wheel has still to turn before it stands at `slot`. */
  function Distance(cur: nat, slot: nat): (d: int)
    requires cur < N && slot < N
    ensures 0 <= d < N && (d == 0 <==> slot == cur)
  {
    if slot >= cur then slot - cur else slot - cur + N
  }

  /** A timeout shorter than one interval counts as one interval, any other as the whole intervals in it. */
  ghost predicate TicksFor(timeout: int, ticks: int) {
    if timeout < TI then ticks == 1 else ticks * TI <= timeout < (ticks + 1) * TI
  }

  /** How many ticks `add_timer` makes of a timeout. */
  function TickCount(timeout: nat): (ticks: nat)
    ensures TicksFor(timeout, ticks)
  {
    if timeout < TI then 1 else timeout / TI
  }

  lemma TicksUnique(timeout: nat, t: int, u: int)
    requires TicksFor(timeout, t) && TicksFor(timeout, u)
    ensures t == u
  {
  }

  /** The slot and rotation chosen for `ticks` put the timer `ticks` turns ahead. */
  lemma Placed(cur: nat, ticks: nat)
    requires cur < N
    ensures var ts := (cur + ticks % N) % N; ts < N && Distance(cur, ts) + N * (ticks / N) == ticks
  {
  }

  /** One turn brings every other slot nearer, and the slot just left to the far end. */
  lemma Turns(cur: nat, slot: nat)
    requires cur < N && slot < N
    ensures var cur' := (cur + 1) % N;
            cur' < N && Distance(cur', slot) == if slot == cur then N - 1 else Distance(cur, slot) - 1
  {
  }

  class TimeWheel {
    var slots: array<TwTimer?>
    var curSlot: nat
    /** The nodes of each slot, in list order. */
    ghost var lists: seq<seq<TwTimer>>
    ghost var timers: set<TwTimer>
    /** Ticks made so far. */
    ghost var now: nat

    ghost predicate SlotOk(j: nat)
      reads this`slots, this`lists, this`timers, slots, timers`next, timers`prev
      requires j < slots.Length && j < |lists|
    {
      Among(lists[j], timers)
      && (forall i :: 0 <= i < |lists[j]| ==> lists[j][i].slot == j)
      && Chain(lists[j]) && slots[j] == NodeAt(lists[j], 0)
    }

    ghost predicate Valid()
      reads this, slots, timers`next, timers`prev, timers`rotation
    {
      slots.Length == N && |lists| == N && curSlot < N
      && (forall j :: 0 <= j < N ==> SlotOk(j))
      && (forall t :: t in timers ==> t.slot < N && t.rotation >= 0 && t in lists[t.slot])
    }

    /** The number of the tick that will fire `t`. */
    ghost function Deadline(t: TwTimer): (d: nat)
      reads this`now, this`curSlot, t`rotation
      requires curSlot < N && t.slot < N && t.rotation >= 0
      ensures d >= now && (d == now <==> t.slot == curSlot && t.rotation == 0)
    {
      now + Distance(curSlot, t.slot) + N * t.rotation
    }

    /** The wheel as a clock with deadlines. */
    ghost function View(): Clock<TwTimer>
      reads this, slots, timers`next, timers`prev, timers`rotation
      requires Valid()
    {
      Clock(now, map t | t in timers :: Deadline(t))
    }

    constructor ()
      ensures Valid() && View() == Clock(0, map[]) && fresh(slots) && timers == {}
    {
      slots := new TwTimer?[N](_ => null);
      curSlot := 0;
      lists := seq(N, _ => []);
      timers := {};
      now := 0;
    }

    /** `add_timer`. */
    method AddTimer(timeout: int) returns (timer: TwTimer?)
      requires Valid()
      modifies this`lists, this`timers, slots, timers`next, timers`prev
      ensures Valid()
      ensures timeout < 0 ==> timer == null && View() == old(View()) && timers == old(timers)
      ensures timeout >= 0 ==> timer != null && fresh(timer)
                               && View() == Apply(old(View()), Add(timer, TickCount(timeout)))
                               && TicksFor(timeout, TickCount(timeout))
    {
      if timeout < 0 {
        return null;
      }
      var ticks := 0;
      if timeout < TI {
        ticks := 1;
      } else {
        ticks := timeout / TI;
      }
      var rotation := ticks / N;
      var ts := (curSlot + ticks % N) % N;
      Placed(curSlot, ticks);
      hide Chain, SlotOk, Valid;
      var t := new TwTimer(rotation, ts);
      AddNode(t);
      ViewAdds(t, ticks);
      return t;
    }

    lemma ViewKeys()
      requires Valid()
      ensures View().pending.Keys == timers
    {
    }

    /** A new timer with the right deadline is what the clock calls an addition. */
    twostate lemma ViewAdds(new t: TwTimer, ticks: nat)
      requires old(Valid()) && Valid() && t !in old(timers) && timers == old(timers) + {t}
      requires now == old(now) && curSlot == old(curSlot)
      requires Distance(curSlot, t.slot) + N * t.rotation == ticks
      requires forall u :: u in old(timers) ==> u.rotation == old(u.rotation)
      ensures View() == Apply(old(View()), Add(t, ticks))
    {
      assert View().pending.Keys == old(View()).pending.Keys + {t};
    }

    /** The list part of `add_timer`: the node goes to the front of its slot. */
    method AddNode(t: TwTimer)
      requires Valid() && t !in timers && t.slot < N && t.rotation >= 0 && t.prev == null && t.next == null
      modifies this`lists, this`timers, slots, timers`next, timers`prev, t`next, t`prev
      ensures Valid() && timers == old(timers) + {t}
    {
      hide Chain;
      var ts := t.slot;
      ghost var s := lists[ts];
      var head := slots[ts];
      assert SlotOk(ts);
      slots[ts] := t;
      lists := lists[ts := [t] + s];
      timers := timers + {t};
      LinkFirst(s, head, t);
      OtherSlots(ts);
    }

    /** The slots other than `ts` are not touched by work on the nodes of `ts`. */
    twostate lemma OtherSlots(ts: nat)
      requires old(Valid()) && slots == old(slots) && |lists| == N
      requires forall u :: u in old(timers) && u.slot != ts ==> u in timers
      requires forall j :: 0 <= j < N && j != ts ==> lists[j] == old(lists)[j] && slots[j] == old(slots[j])
      requires forall u :: u in old(timers) && u.slot != ts ==> u.next == old(u.next) && u.prev == old(u.prev)
      ensures forall j :: 0 <= j < N && j != ts ==> SlotOk(j)
    {
      forall j | 0 <= j < N && j != ts
        ensures SlotOk(j)
      {
        assert old(SlotOk(j));
      }
    }

    /** The timers of one slot. */
    ghost function InSlot(ts: nat): set<TwTimer>
      reads this`timers
    {
      set u | u in timers && u.slot == ts
    }

    /** `del_timer` on a pending timer. */
    method DelTimer(timer: TwTimer?)
      requires Valid() && (timer != null ==> timer in timers)
      modifies this`lists, this`timers, slots, timers`next, timers`prev
      ensures Valid()
      ensures timer == null ==> View() == old(View()) && timers == old(timers)
      ensures timer != null ==> View() == Apply(old(View()), Del(timer))
    {
      if timer == null {
        return;
      }
      DelNode(timer);
      hide Chain, SlotOk, Valid;
      ViewDeletes(timer);
    }

    method DelNode(t: TwTimer)
      requires Valid() && t in timers
      modifies this`lists, this`timers, slots, timers`next, timers`prev
      ensures Valid() && timers == old(timers) - {t}
    {
      hide Chain, Remove;
      var ts := t.slot;
      ghost var s, nodes := lists[ts], InSlot(ts);
      assert SlotOk(ts);
      ghost var k :| 0 <= k < |s| && s[k] == t;
      Removed(s, k);
      lists := lists[ts := Remove(s, k)];
      timers := timers - {t};
      slots[ts] := Unlink(nodes, s, k, slots[ts], t);
      OtherSlots(ts);
      assert SlotOk(ts);
      hide SlotOk;
    }

    twostate lemma ViewDeletes(t: TwTimer)
      requires old(Valid()) && Valid() && timers == old(timers) - {t}
      requires now == old(now) && curSlot == old(curSlot)
      requires forall u :: u in old(timers) ==> u.rotation == old(u.rotation)
      ensures View() == Apply(old(View()), Del(t))
    {
    }

    /** `tick`: fires the timers that are due, each once, and turns the wheel. */
    method Tick() returns (fired: seq<TwTimer>)
      requires Valid()
      modifies this, slots, timers`next, timers`prev, timers`rotation
      ensures Valid() && slots == old(slots) && View() == Apply(old(View()), Op.Tick)
      ensures NoRepeats(fired) && forall t :: t in fired <==> t in Due(old(View()))
    {
      fired := TickCurrent();
      hide Chain, SlotOk;
      curSlot := (curSlot + 1) % N;
      now := now + 1;
      ViewTicks(fired);
    }

    /** One rotation less in the current slot, one slot nearer elsewhere: no deadline moves. */
    twostate lemma ViewTicks(new fired: seq<TwTimer>)
      requires old(Valid()) && Valid() && now == old(now) + 1 && curSlot == (old(curSlot) + 1) % N
      requires forall t :: t in fired <==> t in old(timers) && t.slot == old(curSlot) && old(t.rotation) == 0
      requires timers == old(timers) - (set t | t in fired)
      requires forall t :: t in timers ==> t.rotation == old(t.rotation) - if t.slot == old(curSlot) then 1 else 0
      ensures View() == Apply(old(View()), Op.Tick)
      ensures forall t :: t in fired <==> t in Due(old(View()))
    {
      hide SlotOk;
      forall t | t in timers
        ensures Deadline(t) == old(Deadline(t)) && old(Deadline(t)) != old(now)
      {
        DeadlineStays(t);
      }
      hide Distance, Deadline;
      assert Due(old(View())) == set t | t in fired;
    }

    /** A timer that the tick leaves keeps its deadline. */
    twostate lemma DeadlineStays(t: TwTimer)
      requires old(curSlot) < N && t.slot < N && t.rotation >= 0
      requires now == old(now) + 1 && curSlot == (old(curSlot) + 1) % N
      requires t.rotation == old(t.rotation) - if t.slot == old(curSlot) then 1 else 0
      ensures Deadline(t) == old(Deadline(t)) && old(Deadline(t)) != old(now)
    {
      Turns(old(curSlot), t.slot);
    }

    /** The loop over the current slot. */
    method TickCurrent() returns (fired: seq<TwTimer>)
      requires Valid()
      modifies this`lists, this`timers, slots, timers`next, timers`prev, timers`rotation
      ensures Valid() && NoRepeats(fired)
      ensures forall t :: t in fired <==> t in old(timers) && t.slot == curSlot && old(t.rotation) == 0
      ensures timers == old(timers) - (set t | t in fired)
      ensures forall t :: t in timers ==> t.rotation == old(t.rotation) - if t.slot == curSlot then 1 else 0
    {
      hide Chain;
      ghost var s, nodes := lists[curSlot], InSlot(curSlot);
      assert SlotOk(curSlot);
      var head;
      ghost var kept;
      head, fired, kept := TickList(nodes, s, slots[curSlot]);
      slots[curSlot] := head;
      lists := lists[curSlot := kept];
      timers := timers - set t | t in fired;
      OtherSlots(curSlot);
      hide SlotOk;
      ThisSlot(curSlot, kept);
    }

    /** A linked list of timers of slot `j` makes the slot well formed. */
    lemma ThisSlot(j: nat, list: seq<TwTimer>)
      requires j < slots.Length && j < |lists| && lists[j] == list && slots[j] == NodeAt(list, 0) && Chain(list)
      requires forall t :: t in list ==> t in timers && t.slot == j
      ensures SlotOk(j)
    {
      assert forall i :: 0 <= i < |list| ==> list[i] in list;
    }
  }

  lemma Removed(s: seq<TwTimer>, k: nat)
    requires Chain(s) && k < |s|
    ensures forall i :: 0 <= i < |s| - 1 ==> Remove(s, k)[i] in s && Remove(s, k)[i] != s[k]
    ensures forall t :: t in s && t != s[k] ==> t in Remove(s, k)
  {
    RemoveAt(s, k);
    forall t | t in s && t != s[k]
      ensures t in Remove(s, k)
    {
      var i :| 0 <= i < |s| && s[i] == t;
      assert Remove(s, k)[if i < k then i else i - 1] == t;
    }
  }
}
