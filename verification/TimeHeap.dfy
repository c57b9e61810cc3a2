/** The binary-heap timer container `time_heap`. */
module TimeHeap {
  import opened Seqs
  import opened Timers

  /** `heap_timer`. `callback` tells whether its callback pointer is set. */
  class HeapTimer {
    const id: nat
    const expire: int
    var callback: bool

    constructor (id: nat, expire: int, callback: bool)
      ensures this.id == id && this.expire == expire && this.callback == callback
    {
      this.id, this.expire, this.callback := id, expire, callback;
    }

    function Value(): Timer {
      Timer(id, expire)
    }
  }

  /** The expiry of an array entry; what stands for NULL does not matter. */
  function When(t: HeapTimer?): int {
    if t == null then 0 else t.expire
  }

  ghost predicate NoNulls(b: seq<HeapTimer?>) {
    forall i :: 0 <= i < |b| ==> b[i] != null
  }

  lemma NoNullsSame(a: seq<HeapTimer?>, b: seq<HeapTimer?>)
    requires NoNulls(a) && multiset(b) <= multiset(a)
    ensures NoNulls(b)
  {
    forall i | 0 <= i < |b|
      ensures b[i] != null
    {
      assert b[i] in multiset(b);
    }
  }

  function Parent(i: int): int {
    (i - 1) / 2
  }

  // ---------- order and permutation on sequences ----------

  /** The heap order on every edge whose upper end is at `lo` or later, but for the edges below `hole`. */
  ghost predicate OrderedBelow(b: seq<HeapTimer?>, lo: int, hole: int) {
    forall i :: 0 < i < |b| && lo <= Parent(i) && Parent(i) != hole ==> When(b[Parent(i)]) <= When(b[i])
  }

  /** The heap order on every edge but the one above `hole`. */
  ghost predicate OrderedAbove(b: seq<HeapTimer?>, hole: int) {
    forall i :: 0 < i < |b| && i != hole ==> When(b[Parent(i)]) <= When(b[i])
  }

  /** The entry above `hole` may stand over the entries below it. */
  ghost predicate Bridged(b: seq<HeapTimer?>, hole: int) {
    forall i :: 0 < i < |b| && Parent(i) == hole && 0 < hole < |b| ==> When(b[Parent(hole)]) <= When(b[i])
  }

  ghost predicate InOrder(s: seq<HeapTimer?>) {
    forall i, j :: 0 <= i < j < |s| ==> When(s[i]) <= When(s[j])
  }

  ghost predicate HeapOrdered(b: seq<HeapTimer?>) {
    OrderedBelow(b, 0, -1)
  }

  function Swap<T>(b: seq<T>, i: nat, j: nat): (r: seq<T>)
    requires i < |b| && j < |b|
    ensures |r| == |b|
  {
    b[i := b[j]][j := b[i]]
  }

  lemma SwapMultiset<T>(b: seq<T>, i: nat, j: nat)
    requires i < |b| && j < |b|
    ensures multiset(Swap(b, i, j)) == multiset(b)
  {
  }

  /** The array while an entry `t` is carried: moving entry `p` into hole `h` swaps them in the carried view. */
  lemma HoleMoves<T>(a: seq<T>, h: nat, p: nat, t: T)
    requires h < |a| && p < |a| && h != p
    ensures Swap(a[h := t], h, p) == a[h := a[p]][p := t]
  {
  }

  /** The root of a heap is a minimum. */
  lemma {:induction false} RootIsMin(b: seq<HeapTimer?>, i: nat)
    requires HeapOrdered(b) && i < |b|
    ensures When(b[0]) <= When(b[i])
  {
    if i > 0 {
      RootIsMin(b, Parent(i));
    }
  }

  /** The child of `h` that expires first; the left one on a tie. */
  function SmallChild(b: seq<HeapTimer?>, h: nat): (c: nat)
    requires 2 * h + 1 < |b|
    ensures h < c < |b| && Parent(c) == h
  {
    if 2 * h + 2 < |b| && When(b[2 * h + 2]) < When(b[2 * h + 1]) then 2 * h + 2 else 2 * h + 1
  }

  lemma SmallChildIsMin(b: seq<HeapTimer?>, h: nat)
    requires 2 * h + 1 < |b|
    ensures forall i :: 0 < i < |b| && Parent(i) == h ==> When(b[SmallChild(b, h)]) <= When(b[i])
  {
    assert forall i :: 0 < i < |b| && Parent(i) == h ==> i == 2 * h + 1 || i == 2 * h + 2;
  }

  /** Moving the smaller child up into the hole. */
  lemma SinkStep(b: seq<HeapTimer?>, lo: nat, h: nat)
    requires lo <= h && 2 * h + 1 < |b| && OrderedBelow(b, lo, h) && (h > lo ==> Bridged(b, h))
    requires When(b[SmallChild(b, h)]) < When(b[h])
    ensures var c := SmallChild(b, h);
            OrderedBelow(Swap(b, h, c), lo, c) && Bridged(Swap(b, h, c), c)
  {
    SmallChildIsMin(b, h);
    var c := SmallChild(b, h);
    var b' := Swap(b, h, c);
    forall i | 0 < i < |b'| && lo <= Parent(i) && Parent(i) != c
      ensures When(b'[Parent(i)]) <= When(b'[i])
    {
      if i == h {
        assert When(b[Parent(h)]) <= When(b[c]);
      } else if Parent(i) == h {
        assert b'[h] == b[c];
      }
    }
    forall i | 0 < i < |b'| && Parent(i) == c
      ensures When(b'[Parent(c)]) <= When(b'[i])
    {
      assert When(b[c]) <= When(b[i]);
    }
  }

  /** Nothing below the hole is smaller: the order is complete. */
  lemma SinkEnd(b: seq<HeapTimer?>, lo: nat, h: nat)
    requires lo <= h < |b| && OrderedBelow(b, lo, h)
    requires 2 * h + 1 < |b| ==> When(b[h]) <= When(b[SmallChild(b, h)])
    ensures OrderedBelow(b, lo, -1)
  {
    if 2 * h + 1 < |b| {
      SmallChildIsMin(b, h);
    }
  }

  /** The state of `percolate_down`: with `temp` put into the hole, `a` is the timers `all`,
      in order but for the edges below the hole. */
  ghost predicate Sinking(a: seq<HeapTimer?>, temp: HeapTimer?, hole: nat, lo: nat, all: multiset<HeapTimer?>) {
    lo <= hole < |a|
    && multiset(a[hole := temp]) == all && NoNulls(a[hole := temp])
    && OrderedBelow(a[hole := temp], lo, hole)
    && (hole > lo ==> Bridged(a[hole := temp], hole))
  }

  lemma SinkingStart(a: seq<HeapTimer?>, temp: HeapTimer?, lo: nat)
    requires lo < |a| && a[lo] == temp && NoNulls(a) && OrderedBelow(a, lo + 1, -1)
    ensures Sinking(a, temp, lo, lo, multiset(a))
  {
    assert a[lo := temp] == a;
  }

  lemma SinkingStep(a: seq<HeapTimer?>, temp: HeapTimer?, hole: nat, lo: nat, all: multiset<HeapTimer?>)
    requires Sinking(a, temp, hole, lo, all) && 2 * hole + 1 < |a| && When(a[SmallChild(a, hole)]) < When(temp)
    ensures Sinking(a[hole := a[SmallChild(a, hole)]], temp, SmallChild(a, hole), lo, all)
  {
    hide OrderedBelow, Bridged, NoNulls;
    var b := a[hole := temp];
    var c := SmallChild(a, hole);
    assert c == SmallChild(b, hole);
    SinkStep(b, lo, hole);
    SwapMultiset(b, hole, c);
    NoNullsSame(b, Swap(b, hole, c));
    HoleMoves(a, hole, c, temp);
  }

  lemma SinkingEntry(a: seq<HeapTimer?>, temp: HeapTimer?, hole: nat, lo: nat, all: multiset<HeapTimer?>, i: nat)
    requires Sinking(a, temp, hole, lo, all) && i < |a| && i != hole
    ensures a[i] != null
  {
    assert a[i] == a[hole := temp][i];
  }

  lemma SinkingEnd(a: seq<HeapTimer?>, temp: HeapTimer?, hole: nat, lo: nat, all: multiset<HeapTimer?>)
    requires Sinking(a, temp, hole, lo, all)
    requires 2 * hole + 1 < |a| ==> When(temp) <= When(a[SmallChild(a, hole)])
    ensures multiset(a[hole := temp]) == all && NoNulls(a[hole := temp]) && OrderedBelow(a[hole := temp], lo, -1)
  {
    hide OrderedBelow, Bridged;
    var b := a[hole := temp];
    assert 2 * hole + 1 < |a| ==> SmallChild(b, hole) == SmallChild(a, hole);
    SinkEnd(b, lo, hole);
  }

  /** Moving the parent down into the hole. */
  lemma RiseStep(b: seq<HeapTimer?>, h: nat)
    requires 0 < h < |b| && OrderedAbove(b, h) && Bridged(b, h)
    requires When(b[h]) < When(b[Parent(h)])
    ensures OrderedAbove(Swap(b, h, Parent(h)), Parent(h)) && Bridged(Swap(b, h, Parent(h)), Parent(h))
  {
    var p := Parent(h);
    var b' := Swap(b, h, p);
    forall i | 0 < i < |b'| && i != p
      ensures When(b'[Parent(i)]) <= When(b'[i])
    {
      if Parent(i) == h {
        assert When(b[p]) <= When(b[i]);
      } else if Parent(i) == p && i != h {
        assert When(b[p]) <= When(b[i]);
      }
    }
    forall i | 0 < i < |b'| && Parent(i) == p && 0 < p
      ensures When(b'[Parent(p)]) <= When(b'[i])
    {
      assert When(b[Parent(p)]) <= When(b[p]);
      if i != h {
        assert When(b[p]) <= When(b[i]);
      }
    }
  }

  /** The state of `add_timer`: with the timer put into the hole, `a` is the timers `all`,
      in order but for the edge above the hole. */
  ghost predicate Rising(a: seq<HeapTimer?>, t: HeapTimer?, hole: nat, all: multiset<HeapTimer?>) {
    hole < |a|
    && multiset(a[hole := t]) == all && NoNulls(a[hole := t])
    && OrderedAbove(a[hole := t], hole) && Bridged(a[hole := t], hole)
  }

  lemma RisingStart(a: seq<HeapTimer?>, t: HeapTimer?)
    requires |a| > 0 && NoNulls(a[..|a| - 1]) && HeapOrdered(a[..|a| - 1]) && t != null
    ensures Rising(a, t, |a| - 1, multiset(a[..|a| - 1]) + multiset{t})
  {
    var n := |a| - 1;
    var b := a[n := t];
    assert b == a[..n] + [t];
    assert forall i :: 0 <= i < n ==> b[i] == a[..n][i];
  }

  lemma RisingStep(a: seq<HeapTimer?>, timer: HeapTimer?, hole: nat, all: multiset<HeapTimer?>)
    requires Rising(a, timer, hole, all) && hole > 0 && When(timer) < When(a[Parent(hole)])
    ensures Rising(a[hole := a[Parent(hole)]], timer, Parent(hole), all)
  {
    hide OrderedAbove, Bridged, NoNulls;
    var b := a[hole := timer];
    RiseStep(b, hole);
    SwapMultiset(b, hole, Parent(hole));
    NoNullsSame(b, Swap(b, hole, Parent(hole)));
    HoleMoves(a, hole, Parent(hole), timer);
  }

  lemma RisingEntry(a: seq<HeapTimer?>, t: HeapTimer?, hole: nat, all: multiset<HeapTimer?>, i: nat)
    requires Rising(a, t, hole, all) && i < |a| && i != hole
    ensures a[i] != null
  {
    assert a[i] == a[hole := t][i];
  }

  lemma RisingEnd(a: seq<HeapTimer?>, t: HeapTimer?, hole: nat, all: multiset<HeapTimer?>)
    requires Rising(a, t, hole, all) && (hole > 0 ==> When(a[Parent(hole)]) <= When(t))
    ensures multiset(a[hole := t]) == all && NoNulls(a[hole := t]) && HeapOrdered(a[hole := t])
  {
    var b := a[hole := t];
    assert forall i :: 0 < i < |b| ==> When(b[Parent(i)]) <= When(b[i]);
  }

  class TimeHeap {
    /** Slots from `size` on are free; what they hold is never looked at. */
    var arr: array<HeapTimer?>
    var size: nat

    ghost predicate Shape()
      reads this
    {
      size <= arr.Length
    }

    ghost predicate Valid()
      reads this, arr
    {
      Shape() && NoNulls(arr[..size]) && HeapOrdered(arr[..size])
    }

    /** The timers in the heap, lazily deleted ones included. */
    ghost function Contents(): multiset<HeapTimer?>
      reads this, arr
      requires Shape()
    {
      multiset(arr[..size])
    }

    /** The timers in the heap whose callbacks are still set. */
    ghost function Pending(): multiset<Timer>
      reads this, arr, arr[..]`callback
      requires Shape()
    {
      multiset(Armed(arr[..size]))
    }

    /** One assignment to the array, as its timers see it. */
    method Put(i: nat, t: HeapTimer?)
      requires i < size <= arr.Length
      modifies arr
      ensures arr[..size] == old(arr[..size])[i := t]
    {
      arr[i] := t;
    }

    /** The choice of the child that expires first, while `temp` is carried and `hole` is empty. */
    method PickChild(hole: nat, ghost temp: HeapTimer, ghost lo: nat, ghost all: multiset<HeapTimer?>)
      returns (child: nat)
      requires size <= arr.Length && Sinking(arr[..size], temp, hole, lo, all) && hole * 2 + 1 < size
      ensures child == SmallChild(arr[..size], hole) && arr[child] != null
    {
      hide Sinking;
      ghost var a := arr[..size];
      child := hole * 2 + 1;
      SinkingEntry(a, temp, hole, lo, all, child);
      if child < size - 1 {
        SinkingEntry(a, temp, hole, lo, all, child + 1);
        if arr[child + 1].expire < arr[child].expire {
          child := child + 1;
        }
      }
    }

    /** `percolate_down`. With the heap just emptied it rewrites slot 0 with what it holds. */
    method PercolateDown(hole0: nat)
      requires Shape() && hole0 < arr.Length && (hole0 < size || (size == 0 && hole0 == 0))
      requires NoNulls(arr[..size]) && OrderedBelow(arr[..size], hole0 + 1, -1)
      modifies arr
      ensures NoNulls(arr[..size]) && OrderedBelow(arr[..size], hole0, -1)
      ensures multiset(arr[..size]) == old(multiset(arr[..size]))
    {
      var hole := hole0;
      if size == 0 {
        arr[hole] := arr[hole];
        return;
      }
      ghost var a := arr[..size];
      assert a[hole] != null;
      var temp: HeapTimer := arr[hole];
      hide OrderedBelow, Sinking, NoNulls, SmallChild;
      ghost var all := multiset(a);
      SinkingStart(a, temp, hole);
      while hole * 2 + 1 <= size - 1
        invariant hole0 <= hole < size && a == arr[..size]
        invariant Sinking(a, temp, hole, hole0, all)
        decreases size - hole
      {
        var child := PickChild(hole, temp, hole0, all);
        if arr[child].expire < temp.expire {
          SinkingStep(a, temp, hole, hole0, all);
          Put(hole, arr[child]);
          a := a[hole := a[child]];
        } else {
          break;
        }
        hole := child;
      }
      SinkingEnd(a, temp, hole, hole0, all);
      Put(hole, temp);
    }

    /** The array constructor: copy, then percolate down from the last inner node to the root. */
    constructor FromArray(init: seq<HeapTimer>, capacity: nat)
      requires |init| <= capacity
      ensures Valid() && fresh(arr) && arr.Length == capacity && size == |init|
      ensures Contents() == multiset(init)
    {
      arr := new HeapTimer?[capacity](_ => null);
      size := |init|;
      new;
      forall i | 0 <= i < |init| {
        arr[i] := init[i];
      }
      assert arr[..size] == init;
      if |init| != 0 {
        var i := (size - 1) / 2;
        while i >= 0
          invariant -1 <= i < size && size == |init| && fresh(arr) && arr.Length == capacity
          invariant NoNulls(arr[..size]) && OrderedBelow(arr[..size], i + 1, -1)
          invariant multiset(arr[..size]) == multiset(init)
        {
          PercolateDown(i);
          i := i - 1;
        }
      }
    }

    /** `resize`: twice the capacity, the same timers in the same places. */
    method Resize()
      requires Shape()
      modifies this`arr
      ensures fresh(arr) && arr.Length == 2 * old(arr.Length)
      ensures arr[..size] == old(arr[..size])
    {
      var temp := new HeapTimer?[2 * arr.Length](_ => null);
      forall i | 0 <= i < size {
        temp[i] := arr[i];
      }
      arr := temp;
      assert arr[..size] == old(arr[..size]);
    }

    /** `add_timer`: the hole rises until its parent is not later than the timer. A NULL timer is ignored;
        a heap of capacity 0 cannot be doubled. */
    method AddTimer(timer: HeapTimer?)
      requires Valid() && (timer != null ==> arr.Length > 0)
      modifies this`arr, this`size, arr
      ensures Valid() && (arr == old(arr) || fresh(arr)) && arr.Length >= old(arr.Length)
      ensures Contents() == if timer == null then old(Contents()) else old(Contents()) + multiset{timer}
    {
      if timer == null {
        return;
      }
      ghost var before := arr[..size];
      if size >= arr.Length {
        Resize();
      }
      hide HeapOrdered;
      size := size + 1;
      assert arr[..size - 1] == before;
      Rise(timer);
    }

    /** The loop of `add_timer`: the last slot is the hole. */
    method Rise(timer: HeapTimer?)
      requires timer != null && 0 < size <= arr.Length && NoNulls(arr[..size - 1]) && HeapOrdered(arr[..size - 1])
      modifies arr
      ensures NoNulls(arr[..size]) && HeapOrdered(arr[..size])
      ensures multiset(arr[..size]) == old(multiset(arr[..size - 1])) + multiset{timer}
    {
      hide HeapOrdered, Rising, NoNulls;
      var hole := size - 1;
      ghost var a := arr[..size];
      assert a[..hole] == arr[..hole];
      ghost var all := multiset(a[..hole]) + multiset{timer};
      RisingStart(a, timer);
      while hole > 0
        invariant 0 <= hole < size && a == arr[..size]
        invariant Rising(a, timer, hole, all)
      {
        var parent := (hole - 1) / 2;
        RisingEntry(a, timer, hole, all, parent);
        if arr[parent].expire <= timer.expire {
          break;
        }
        RisingStep(a, timer, hole, all);
        Put(hole, arr[parent]);
        a := a[hole := a[parent]];
        hole := parent;
      }
      RisingEnd(a, timer, hole, all);
      Put(hole, timer);
    }

    /** The last timer moves into the place of the root. */
    method ReplaceRoot()
      requires Valid() && size > 0
      modifies this`size, arr
      ensures size == old(size) - 1 && NoNulls(arr[..size]) && OrderedBelow(arr[..size], 1, -1)
      ensures multiset(arr[..size]) == old(multiset(arr[..size])) - multiset{old(arr[0])}
    {
      hide OrderedBelow;
      ghost var b := arr[..size];
      Put(0, arr[size - 1]);
      ghost var c := arr[..size];
      size := size - 1;
      assert arr[..size] == c[..size];
      RootReplaced(b, arr[..size]);
      NoNullsSame(b, arr[..size]);
    }

    /** `pop_timer`: the last timer takes the place of the root and sinks. */
    method PopTimer()
      requires Valid()
      modifies this`size, arr
      ensures Valid() && size == if old(size) == 0 then 0 else old(size) - 1
      ensures old(size) > 0 ==> Contents() == old(Contents()) - multiset{old(arr[0])}
    {
      if size == 0 {
        return;
      }
      assert arr[..size][0] != null;
      if arr[0] != null {
        ReplaceRoot();
        PercolateDown(0);
      }
    }

    /** `del_timer`: the timer stays in the heap, its callback is gone. */
    method DelTimer(timer: HeapTimer?)
      modifies OneOrNone(timer)`callback
      ensures timer != null ==> !timer.callback
    {
      if timer != null {
        timer.callback := false;
      }
    }

    /** A turn of the loop of `tick`: the root has expired, its callback runs if it is set, and it is popped. */
    method RunTop(now: int, ghost all: multiset<HeapTimer?>, ghost popped: seq<HeapTimer?>, ran: seq<Timer>)
      returns (ghost popped': seq<HeapTimer?>, ran': seq<Timer>)
      requires Valid() && size > 0 && arr[0] != null && arr[0].expire <= now
      requires Ticking(popped, Contents(), all, now) && ran == Armed(popped)
      modifies this`size, arr
      ensures Valid() && size == old(size) - 1
      ensures Ticking(popped', Contents(), all, now) && ran' == Armed(popped')
    {
      hide HeapOrdered, Ticking, Armed;
      var top := arr[0];
      RootMin(arr[..size]);
      TickingStep(popped, Contents(), all, now, top);
      ran' := if top.callback then ran + [top.Value()] else ran;
      label Popping:
      PopTimer();
      ArmedKept@Popping(popped);
      ArmedStep(popped, top);
      popped' := popped + [top];
    }

    /** `tick`: returns the timers taken out, in order, and the ones whose callback ran. */
    method Tick(now: int) returns (ghost popped: seq<HeapTimer?>, ran: seq<Timer>)
      requires Valid() && arr.Length > 0
      modifies this`size, arr
      ensures Valid()
      ensures Ticked(old(Contents()), now, popped, Contents()) && ran == Armed(popped)
      ensures TickOf(old(Pending()), now, ran, Pending())
    {
      hide HeapOrdered, Ticking, Armed, TickOf;
      ghost var s0 := arr[..size];
      ghost var all := Contents();
      popped, ran := [], [];
      var tmp := arr[0];
      TickingStart(all, now);
      ArmedNone();
      while size != 0
        invariant Valid() && arr.Length > 0 && (size > 0 ==> tmp == arr[0])
        invariant Ticking(popped, Contents(), all, now) && ran == Armed(popped)
        decreases size
      {
        RootMin(arr[..size]);
        assert tmp == arr[..size][0];
        if tmp == null || tmp.expire > now {
          break;
        }
        popped, ran := RunTop(now, all, popped, ran);
        tmp := arr[0];
      }
      TickingEnd(popped, Contents(), all, now);
      ArmedKept(s0);
      ArmedTick(s0, now, popped, arr[..size]);
    }
  }

  ghost function OneOrNone(t: HeapTimer?): set<HeapTimer> {
    if t == null then {} else {t}
  }

  /** The array constructor, with its exception for an array that is too long as a NULL result. */
  method NewHeap(init: seq<HeapTimer>, capacity: nat) returns (heap: TimeHeap?)
    ensures heap == null <==> capacity < |init|
    ensures heap != null ==> fresh(heap) && fresh(heap.arr) && heap.Valid() && heap.arr.Length == capacity
                             && heap.Contents() == multiset(init)
  {
    if capacity < |init| {
      return null;
    }
    heap := new TimeHeap.FromArray(init, capacity);
  }

  /** `popped` left the heap in order, `rest` is still in it, and they make up `all`. */
  ghost predicate Ticking(popped: seq<HeapTimer?>, rest: multiset<HeapTimer?>, all: multiset<HeapTimer?>, now: int) {
    multiset(popped) + rest == all && InOrder(popped)
    && (forall t :: t in popped ==> When(t) <= now)
    && (forall t, u :: t in popped && u in rest ==> When(t) <= When(u))
  }

  lemma TickingStart(all: multiset<HeapTimer?>, now: int)
    ensures Ticking([], all, all, now)
  {
  }

  lemma TickingStep(popped: seq<HeapTimer?>, rest: multiset<HeapTimer?>, all: multiset<HeapTimer?>, now: int,
                    top: HeapTimer?)
    requires Ticking(popped, rest, all, now) && top in rest && When(top) <= now
    requires forall u :: u in rest ==> When(top) <= When(u)
    ensures Ticking(popped + [top], rest - multiset{top}, all, now)
  {
  }

  /** What a tick at time `now` does to the heap: exactly the expired timers leave it, in order. */
  ghost predicate Ticked(before: multiset<HeapTimer?>, now: int, popped: seq<HeapTimer?>, rest: multiset<HeapTimer?>) {
    multiset(popped) + rest == before && InOrder(popped)
    && (forall t :: t in popped ==> When(t) <= now)
    && (forall t :: t in rest ==> When(t) > now)
  }

  lemma TickingEnd(popped: seq<HeapTimer?>, rest: multiset<HeapTimer?>, all: multiset<HeapTimer?>, now: int)
    requires Ticking(popped, rest, all, now) && forall t :: t in rest ==> When(t) > now
    ensures Ticked(all, now, popped, rest)
  {
  }

  // ---------- lazily deleted timers ----------

  /** The timers of `s` that were not lazily deleted, in the same order. */
  ghost function Armed(s: seq<HeapTimer?>): (r: seq<Timer>)
    reads s`callback
  {
    if s == [] then []
    else
      var n := |s| - 1;
      Armed(s[..n]) + if s[n] != null && s[n].callback then [s[n].Value()] else []
  }

  /** The entries of `s` that were not lazily deleted. */
  ghost function Live(s: seq<HeapTimer?>): set<HeapTimer>
    reads s`callback
  {
    set t: HeapTimer | t in s && t.callback
  }

  lemma ArmedNone()
    ensures Armed([]) == []
  {
  }

  lemma ArmedStep(s: seq<HeapTimer?>, t: HeapTimer)
    ensures Armed(s + [t]) == Armed(s) + if t.callback then [t.Value()] else []
  {
    assert (s + [t])[..|s|] == s;
  }

  twostate lemma {:induction false} ArmedKept(s: seq<HeapTimer?>)
    requires forall t :: t in s && t != null ==> t.callback == old(t.callback)
    ensures Armed(s) == old(Armed(s)) && Live(s) == old(Live(s))
    decreases |s|
  {
    if s != [] {
      ArmedKept(s[..|s| - 1]);
    }
  }

  lemma {:induction false} ArmedConcat(a: seq<HeapTimer?>, b: seq<HeapTimer?>)
    ensures Armed(a + b) == Armed(a) + Armed(b)
    decreases |b|
  {
    if b == [] {
      assert a + b == a;
    } else {
      var n := |b| - 1;
      assert (a + b)[..|a| + n] == a + b[..n];
      ArmedConcat(a, b[..n]);
    }
  }

  /** Every timer that runs was in the heap, with its callback set. */
  lemma {:induction false} ArmedFrom(s: seq<HeapTimer?>, i: nat) returns (k: nat)
    requires i < |Armed(s)|
    ensures k < |s| && s[k] != null && s[k].callback && Armed(s)[i] == s[k].Value()
    decreases |s|
  {
    var n := |s| - 1;
    if i < |Armed(s[..n])| {
      k := ArmedFrom(s[..n], i);
    } else {
      k := n;
    }
  }

  lemma ArmedRemove(s: seq<HeapTimer?>, i: nat)
    requires i < |s|
    ensures multiset(Armed(s)) == multiset(Armed(Remove(s, i))) + multiset(Armed([s[i]]))
  {
    hide Armed;
    CutAt(s, i);
    ArmedConcat(s[..i] + [s[i]], s[i + 1..]);
    ArmedConcat(s[..i], [s[i]]);
    ArmedConcat(s[..i], s[i + 1..]);
  }

  /** The same entries in another order hold the same timers. */
  lemma {:induction false} ArmedOfSame(a: seq<HeapTimer?>, b: seq<HeapTimer?>)
    requires multiset(a) == multiset(b)
    ensures multiset(Armed(a)) == multiset(Armed(b))
    decreases |a|
  {
    hide Remove, Armed;
    SameLength(a, b);
    if a == [] {
      assert b == [];
    } else {
      var x := a[0];
      assert x in multiset(b);
      var i :| 0 <= i < |b| && b[i] == x;
      WithoutMultiset(a, 0);
      WithoutMultiset(b, i);
      Cancel(multiset(Remove(a, 0)), multiset(Remove(b, i)), x);
      ArmedOfSame(Remove(a, 0), Remove(b, i));
      ArmedRemove(a, 0);
      ArmedRemove(b, i);
    }
  }

  lemma ArmedAscending(s: seq<HeapTimer?>)
    requires InOrder(s)
    ensures Ascending(Armed(s))
    decreases |s|
  {
    if s != [] {
      var n := |s| - 1;
      ArmedAscending(s[..n]);
      forall i | 0 <= i < |Armed(s[..n])|
        ensures Armed(s[..n])[i].expire <= When(s[n])
      {
        var k := ArmedFrom(s[..n], i);
      }
    }
  }

  /** A tick of the heap is a tick of the timers that were not deleted. */
  lemma ArmedTick(before: seq<HeapTimer?>, now: int, popped: seq<HeapTimer?>, rest: seq<HeapTimer?>)
    requires Ticked(multiset(before), now, popped, multiset(rest))
    ensures TickOf(multiset(Armed(before)), now, Armed(popped), multiset(Armed(rest)))
  {
    assert multiset(popped + rest) == multiset(before);
    ArmedOfSame(popped + rest, before);
    ArmedConcat(popped, rest);
    ArmedAscending(popped);
    hide Armed;
    forall t | t in Armed(popped)
      ensures t.expire <= now
    {
      var i :| 0 <= i < |Armed(popped)| && Armed(popped)[i] == t;
      var k := ArmedFrom(popped, i);
      assert popped[k] in popped;
    }
    forall t | t in multiset(Armed(rest))
      ensures t.expire > now
    {
      var i :| 0 <= i < |Armed(rest)| && Armed(rest)[i] == t;
      var k := ArmedFrom(rest, i);
      assert rest[k] in multiset(rest);
    }
  }

  lemma RootMin(b: seq<HeapTimer?>)
    requires HeapOrdered(b)
    ensures b != [] ==> b[0] in multiset(b) && forall t :: t in multiset(b) ==> When(b[0]) <= When(t)
  {
    forall t | t in multiset(b)
      ensures When(b[0]) <= When(t)
    {
      var i :| 0 <= i < |b| && b[i] == t;
      RootIsMin(b, i);
    }
  }

  /** The last entry in the place of the root: one timer less, and all edges but the root's are in order. */
  lemma RootReplaced(b: seq<HeapTimer?>, r: seq<HeapTimer?>)
    requires b != [] && HeapOrdered(b) && r == b[0 := b[|b| - 1]][..|b| - 1]
    ensures multiset(r) == multiset(b) - multiset{b[0]} && OrderedBelow(r, 1, -1)
  {
    RootRemoved(b);
    forall i | 0 < i < |r| && 1 <= Parent(i)
      ensures When(r[Parent(i)]) <= When(r[i])
    {
      assert r[i] == b[i] && r[Parent(i)] == b[Parent(i)];
    }
  }

  lemma RootRemoved(b: seq<HeapTimer?>)
    requires b != []
    ensures multiset(b[0 := b[|b| - 1]][..|b| - 1]) == multiset(b) - multiset{b[0]}
  {
    var n := |b| - 1;
    if n == 0 {
      assert b == [b[0]];
    } else {
      RootCut(b);
      LastForFirst(b[0], b[1..n], b[n]);
    }
  }

  lemma RootCut(b: seq<HeapTimer?>)
    requires |b| > 1
    ensures var n := |b| - 1; b == [b[0]] + b[1..n] + [b[n]] && b[0 := b[n]][..n] == [b[n]] + b[1..n]
  {
  }

  lemma LastForFirst(x: HeapTimer?, inner: seq<HeapTimer?>, y: HeapTimer?)
    ensures multiset([y] + inner) == multiset([x] + inner + [y]) - multiset{x}
  {
  }
}
