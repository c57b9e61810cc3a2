/** What a caller of the wheel sees: every sequence of requests, served by the code. */
module WheelRequests {
  import opened Seqs
  import opened WheelRuns
  import opened TimeWheel

  /** A timer is started with a timeout, the timer that request `k` returned is cancelled, or the wheel turns. */
  datatype Request = Start(timeout: int) | Cancel(k: nat) | Turn

  /** How request `i` is served when the clock stands at `c`. A timer that is no longer pending
      is cancelled by passing NULL. */
  ghost predicate ServedAt(request: Request, i: nat, handles: seq<TwTimer?>, op: Op<TwTimer>, c: Clock<TwTimer>,
                           fired: seq<TwTimer>)
    requires i < |handles|
  {
    match request
    case Start(timeout) =>
      fired == []
      && if timeout < 0 then handles[i] == null && op.Idle?
         else op.Add? && handles[i] == op.timer && op.ticks == TickCount(timeout)
    case Cancel(k) =>
      fired == [] && handles[i] == null
      && if k < i && handles[k] != null && handles[k] in c.pending then op.Del? && handles[k] == op.timer
         else op.Idle?
    case Turn =>
      handles[i] == null && op.Tick? && NoRepeats(fired) && (set t | t in fired) == Due(c)
  }

  ghost predicate DistinctHandles(handles: seq<TwTimer?>) {
    forall i, j :: 0 <= i < j < |handles| && handles[i] != null ==> handles[i] != handles[j]
  }

  /** The first `n` requests, what each returned, the operations and clocks of the wheel, and what fired. */
  datatype Service = Service(handles: seq<TwTimer?>, ops: seq<Op<TwTimer>>, clocks: seq<Clock<TwTimer>>,
                             log: seq<seq<TwTimer>>)

  ghost predicate Served(requests: seq<Request>, n: nat, v: Service) {
    |v.handles| == |v.ops| == |v.log| == n <= |requests|
    && RunOf(v.ops, v.clocks) && v.clocks[0] == Clock(0, map[])
    && DistinctHandles(v.handles)
    && forall i :: 0 <= i < n ==> ServedAt(requests[i], i, v.handles, v.ops[i], v.clocks[i], v.log[i])
  }

  function Extended(v: Service, handle: TwTimer?, op: Op<TwTimer>, c: Clock<TwTimer>, fired: seq<TwTimer>): Service {
    Service(v.handles + [handle], v.ops + [op], v.clocks + [c], v.log + [fired])
  }

  lemma RunStep(ops: seq<Op<TwTimer>>, clocks: seq<Clock<TwTimer>>, op: Op<TwTimer>, c: Clock<TwTimer>)
    requires RunOf(ops, clocks) && Proper(clocks[|ops|], op) && c == Apply(clocks[|ops|], op)
    ensures RunOf(ops + [op], clocks + [c])
  {
    hide Proper, Apply;
  }

  lemma DistinctStep(handles: seq<TwTimer?>, handle: TwTimer?)
    requires DistinctHandles(handles) && (handle == null || handle !in handles)
    ensures DistinctHandles(handles + [handle])
  {
  }

  lemma ServedStep(requests: seq<Request>, n: nat, v: Service, handle: TwTimer?, op: Op<TwTimer>, c: Clock<TwTimer>,
                   fired: seq<TwTimer>)
    requires Served(requests, n, v) && n < |requests| && (handle == null || handle !in v.handles)
    requires Proper(v.clocks[n], op) && c == Apply(v.clocks[n], op)
    requires ServedAt(requests[n], n, v.handles + [handle], op, v.clocks[n], fired)
    ensures Served(requests, n + 1, Extended(v, handle, op, c, fired))
  {
    hide Proper, Apply, Due;
    var w := Extended(v, handle, op, c, fired);
    RunStep(v.ops, v.clocks, op, c);
    DistinctStep(v.handles, handle);
    hide RunOf, DistinctHandles;
    forall i | 0 <= i < n + 1
      ensures ServedAt(requests[i], i, w.handles, w.ops[i], w.clocks[i], w.log[i])
    {
      if i < n {
        assert ServedAt(requests[i], i, v.handles, v.ops[i], v.clocks[i], v.log[i]);
      }
    }
  }

  /** One request on the wheel. `live` is the set of timers that the caller knows to be pending. */
  method Serve(wheel: TimeWheel, request: Request, handles: seq<TwTimer?>, live: set<TwTimer>)
    returns (handle: TwTimer?, live': set<TwTimer>, ghost op: Op<TwTimer>, fired: seq<TwTimer>)
    requires wheel.Valid() && live == wheel.timers
    modifies wheel, wheel.slots, wheel.timers`next, wheel.timers`prev, wheel.timers`rotation
    ensures wheel.Valid() && live' == wheel.timers && wheel.slots == old(wheel.slots)
    ensures handle == null || fresh(handle)
    ensures fresh(wheel.timers - old(wheel.timers))
    ensures Proper(old(wheel.View()), op) && wheel.View() == Apply(old(wheel.View()), op)
    ensures ServedAt(request, |handles|, handles + [handle], op, old(wheel.View()), fired)
  {
    hide wheel.Valid;
    wheel.ViewKeys();
    handle, live', fired, op := null, live, [], Idle;
    match request {
    case Start(timeout) =>
      handle := wheel.AddTimer(timeout);
      if handle != null {
        op := Add(handle, TickCount(timeout));
        live' := live + {handle};
      }
    case Cancel(k) =>
      var t := if k < |handles| && handles[k] in live then handles[k] else null;
      wheel.DelTimer(t);
      if t != null {
        var gone: TwTimer := t;
        op := Del(gone);
        live' := live - {gone};
      }
    case Turn =>
      fired := wheel.Tick();
      op := Tick;
      live' := live - set t | t in fired;
    }
    wheel.ViewKeys();
  }

  /** Every sequence of requests on a new wheel. */
  method ServeAll(requests: seq<Request>)
    returns (wheel: TimeWheel, handles: seq<TwTimer?>, log: seq<seq<TwTimer>>, ghost v: Service)
    ensures wheel.Valid() && Served(requests, |requests|, v) && handles == v.handles && log == v.log
    ensures wheel.View() == v.clocks[|requests|]
  {
    hide Served, ServedAt;
    wheel := new TimeWheel();
    handles, log := [], [];
    var live: set<TwTimer> := {};
    v := Service([], [], [wheel.View()], []);
    ServedStart(requests, v);
    for i := 0 to |requests|
      invariant fresh(wheel) && fresh(wheel.slots) && fresh(wheel.timers) && wheel.Valid() && live == wheel.timers
      invariant Served(requests, i, v) && handles == v.handles && log == v.log
      invariant |v.clocks| == i + 1 && |handles| == i && wheel.View() == v.clocks[i]
    {
      ghost var op;
      var handle, fired;
      handle, live, op, fired := Serve(wheel, requests[i], handles, live);
      ServedStep(requests, i, v, handle, op, wheel.View(), fired);
      v := Extended(v, handle, op, wheel.View(), fired);
      handles := handles + [handle];
      log := log + [fired];
    }
  }

  lemma ServedStart(requests: seq<Request>, v: Service)
    requires v == Service([], [], [Clock(0, map[])], [])
    ensures Served(requests, 0, v)
  {
  }

  // ---------- what it means for the caller ----------

  /** How many of the requests from `i` up to `j` turn the wheel. */
  function Turns(requests: seq<Request>, i: nat, j: nat): nat
    requires i <= j <= |requests|
    decreases j
  {
    if i == j then 0 else Turns(requests, i, j - 1) + if requests[j - 1].Turn? then 1 else 0
  }

  lemma {:induction false} TurnsAreTicks(requests: seq<Request>, n: nat, v: Service, i: nat, j: nat)
    requires Served(requests, n, v) && i <= j <= n
    ensures Ticks(v.ops, i, j) == Turns(requests, i, j)
    decreases j
  {
    if i < j {
      TurnsAreTicks(requests, n, v, i, j - 1);
      assert ServedAt(requests[j - 1], j - 1, v.handles, v.ops[j - 1], v.clocks[j - 1], v.log[j - 1]);
    }
  }

  /** No request from `i` up to `j` cancels what request `a` started. */
  predicate NotCancelled(requests: seq<Request>, a: nat, i: nat, j: nat)
    requires i <= j <= |requests|
  {
    forall m :: i <= m < j ==> requests[m] != Cancel(a)
  }

  /** Only request `a` adds the timer it returned, and only a cancellation of `a` deletes it. */
  lemma OpOnTimer(requests: seq<Request>, n: nat, v: Service, a: nat, m: nat)
    requires Served(requests, n, v) && a < n && m < n && v.handles[a] != null && m != a
    ensures v.ops[m].Add? ==> v.ops[m].timer != v.handles[a]
    ensures v.ops[m].Del? && v.ops[m].timer == v.handles[a] ==> requests[m] == Cancel(a)
  {
    assert ServedAt(requests[m], m, v.handles, v.ops[m], v.clocks[m], v.log[m]);
  }

  lemma Untouched(requests: seq<Request>, n: nat, v: Service, a: nat, j: nat)
    requires Served(requests, n, v) && a < j <= n && v.handles[a] != null && NotCancelled(requests, a, a + 1, j)
    ensures LeftAlone(v.ops, v.handles[a], a + 1, j)
  {
    hide RunOf;
    var t: TwTimer := v.handles[a];
    forall m | a + 1 <= m < j
      ensures v.ops[m] != Del(t) && (v.ops[m].Add? ==> v.ops[m].timer != t)
    {
      OpOnTimer(requests, n, v, a, m);
    }
  }

  /** What is no longer pending never comes back. */
  lemma {:induction false} GoneStays(requests: seq<Request>, n: nat, v: Service, a: nat, i: nat, j: nat)
    requires Served(requests, n, v) && a < i <= j <= n && v.handles[a] != null && v.handles[a] !in v.clocks[i].pending
    ensures v.handles[a] !in v.clocks[j].pending
    decreases j
  {
    if i < j {
      GoneStays(requests, n, v, a, i, j - 1);
      OpOnTimer(requests, n, v, a, j - 1);
      assert v.clocks[j] == Apply(v.clocks[j - 1], v.ops[j - 1]);
    }
  }

  /** A cancelled timer is not pending afterwards, whether it had fired or not. */
  lemma CancelledIsGone(requests: seq<Request>, n: nat, v: Service, a: nat, d: nat)
    requires Served(requests, n, v) && a < d < n && v.handles[a] != null && requests[d] == Cancel(a)
    ensures v.handles[a] !in v.clocks[d + 1].pending
  {
    assert ServedAt(requests[d], d, v.handles, v.ops[d], v.clocks[d], v.log[d]);
    assert v.clocks[d + 1] == Apply(v.clocks[d], v.ops[d]);
  }

  /** The timer that request `a` started fires at request `j` if and only if `j` turns the wheel, it was not
      cancelled before, and the turns in between are as many as there are whole intervals in the timeout,
      but one for a timeout shorter than an interval. */
  lemma FiresExactly(requests: seq<Request>, n: nat, v: Service, a: nat, j: nat)
    requires Served(requests, n, v) && a < j < n && requests[a].Start? && requests[a].timeout >= 0
    ensures v.handles[a] != null
    ensures v.handles[a] in v.log[j] <==>
              requests[j].Turn? && NotCancelled(requests, a, a + 1, j)
              && var timeout, t := requests[a].timeout, Turns(requests, a + 1, j);
                 if timeout < TI then t == 1 else t * TI <= timeout < (t + 1) * TI
  {
    var timeout, turns := requests[a].timeout, Turns(requests, a + 1, j);
    assert turns == TickCount(timeout) <==> TicksFor(timeout, turns) by {
      if TicksFor(timeout, turns) {
        TicksUnique(timeout, turns, TickCount(timeout));
      }
    }
    assert ServedAt(requests[a], a, v.handles, v.ops[a], v.clocks[a], v.log[a]);
    assert ServedAt(requests[j], j, v.handles, v.ops[j], v.clocks[j], v.log[j]);
    var t: TwTimer := v.handles[a];
    var fired := v.log[j];
    assert t in fired <==> t in set u | u in fired;
    if NotCancelled(requests, a, a + 1, j) {
      Untouched(requests, n, v, a, j);
      FiresOnTime(v.ops, v.clocks, a, t, TickCount(requests[a].timeout), j);
      TurnsAreTicks(requests, n, v, a + 1, j);
    } else {
      var d :| a + 1 <= d < j && requests[d] == Cancel(a);
      CancelledIsGone(requests, n, v, a, d);
      GoneStays(requests, n, v, a, d + 1, j);
      assert t !in Due(v.clocks[j]);
    }
  }
}
