/** The request queue of the web server's thread pool: a list, a lock and a semaphore. */
module WorkQueue {
  import opened Counting

  /** A request pointer; proactor clients may also append NULL. */
  datatype Request = NullRequest | Request(id: nat)

  /** Clients between push and post; workers between wait and pop, and at work. */
  datatype Pc = ClientIdle | Posting | WorkerWait | Popping | Working(request: Request)

  predicate IsPosting(pc: Pc) { pc.Posting? }
  predicate IsPopping(pc: Pc) { pc.Popping? }

  datatype State = State(queue: seq<Request>, sem: nat, max: nat, pcs: map<nat, Pc>,
                         accepted: seq<Request>, taken: seq<Request>)

  /** The locked body of `append` or `append_p`, the `post` behind it, the `wait` of a worker,
      the locked body of `run`, and the end of the work on a request. */
  datatype Action =
    | Append(tid: nat, request: Request) | Post(tid: nat)
    | Wait(tid: nat) | Pop(tid: nat) | Finish(tid: nat)

  predicate Enabled(s: State, a: Action) {
    a.tid in s.pcs
    && match a
       case Append(t, _) => s.pcs[t].ClientIdle?
       case Post(t) => s.pcs[t].Posting?
       case Wait(t) => s.pcs[t].WorkerWait? && s.sem > 0
       case Pop(t) => s.pcs[t].Popping?
       case Finish(t) => s.pcs[t].Working?
  }

  function At(s: State, t: nat, pc: Pc): State {
    s.(pcs := s.pcs[t := pc])
  }

  function Do(s: State, a: Action): State
    requires Enabled(s, a)
  {
    match a
    case Append(t, r) =>
      if |s.queue| >= s.max then s
      else At(s.(queue := s.queue + [r], accepted := s.accepted + [r]), t, Posting)
    case Post(t) => At(s.(sem := s.sem + 1), t, ClientIdle)
    case Wait(t) => At(s.(sem := s.sem - 1), t, Popping)
    case Pop(t) =>
      if s.queue == [] then At(s, t, WorkerWait)
      else if s.queue[0].NullRequest? then At(s.(queue := s.queue[1..], taken := s.taken + [s.queue[0]]), t, WorkerWait)
      else At(s.(queue := s.queue[1..], taken := s.taken + [s.queue[0]]), t, Working(s.queue[0]))
    case Finish(t) => At(s, t, WorkerWait)
  }

  /** The constructor refuses a queue of length 0; all threads are at the start of their loops. */
  predicate Init(s: State) {
    s.queue == [] && s.sem == 0 && s.max > 0 && s.accepted == [] && s.taken == []
    && forall t :: t in s.pcs ==> s.pcs[t].ClientIdle? || s.pcs[t].WorkerWait?
  }

  /** Each queued request is matched by a unit of the semaphore, or by one on its way in or out. */
  ghost predicate Balanced(s: State) {
    |s.queue| == s.sem + Count(s.pcs, IsPopping) + Count(s.pcs, IsPosting)
  }

  ghost predicate Inv(s: State) {
    Balanced(s) && |s.queue| <= s.max && s.taken + s.queue == s.accepted
  }

  lemma InitInv(s: State)
    requires Init(s)
    ensures Inv(s)
  {
    CountNone(s.pcs, IsPopping);
    CountNone(s.pcs, IsPosting);
  }

  lemma InvKept(s: State, a: Action)
    requires Inv(s) && Enabled(s, a)
    ensures Inv(Do(s, a)) && Do(s, a).max == s.max
  {
    hide Count;
    var s' := Do(s, a);
    CountMove(s.pcs, a.tid, s'.pcs[a.tid], IsPopping);
    CountMove(s.pcs, a.tid, s'.pcs[a.tid], IsPosting);
    if a.Pop? {
      CountSome(s.pcs, a.tid, IsPopping);
      assert s.queue == [s.queue[0]] + s.queue[1..];
    } else if a.Append? && |s.queue| >= s.max {
      assert s.pcs[a.tid := s.pcs[a.tid]] == s.pcs;
    }
  }

  ghost predicate RunOf(acts: seq<Action>, states: seq<State>) {
    |states| == |acts| + 1 && Init(states[0])
    && forall i :: 0 <= i < |acts| ==> Enabled(states[i], acts[i]) && states[i + 1] == Do(states[i], acts[i])
  }

  lemma {:induction false} RunInv(acts: seq<Action>, states: seq<State>, i: nat)
    requires RunOf(acts, states) && i <= |acts|
    ensures Inv(states[i]) && states[i].max == states[0].max
    decreases i
  {
    hide Inv, Do, Enabled, Init;
    if i == 0 {
      InitInv(states[0]);
    } else {
      RunInv(acts, states, i - 1);
      InvKept(states[i - 1], acts[i - 1]);
    }
  }

  /** In every run: the limit holds, requests are taken in the order in which they were accepted,
      no worker finds the queue empty after its wait, and no request is left with everybody asleep. */
  lemma QueueAlways(acts: seq<Action>, states: seq<State>, i: nat)
    requires RunOf(acts, states) && i <= |acts|
    ensures |states[i].queue| <= states[0].max
    ensures states[i].taken <= states[i].accepted && states[i].taken + states[i].queue == states[i].accepted
    ensures forall t :: t in states[i].pcs && states[i].pcs[t].Popping? ==> states[i].queue != []
    ensures states[i].queue != [] ==>
              states[i].sem > 0
              || exists t :: t in states[i].pcs && (states[i].pcs[t].Popping? || states[i].pcs[t].Posting?)
  {
    RunInv(acts, states, i);
    hide Count, RunOf;
    var s := states[i];
    forall t | t in s.pcs && s.pcs[t].Popping?
      ensures s.queue != []
    {
      CountSome(s.pcs, t, IsPopping);
    }
    if s.queue != [] && s.sem == 0 {
      if Count(s.pcs, IsPopping) > 0 {
        var t := CountWitness(s.pcs, IsPopping);
      } else {
        var t := CountWitness(s.pcs, IsPosting);
      }
    }
  }

  // ---------- the same, told by the actions ----------

  /** The requests that were appended by the first `i` actions while the queue was below its limit. */
  function Accepted(acts: seq<Action>, states: seq<State>, i: nat): seq<Request>
    requires i <= |acts| < |states|
  {
    if i == 0 then []
    else
      var a, s := acts[i - 1], states[i - 1];
      Accepted(acts, states, i - 1) + if a.Append? && |s.queue| < s.max then [a.request] else []
  }

  /** How many of the first `i` actions take a request from the queue. */
  function Pops(acts: seq<Action>, i: nat): nat
    requires i <= |acts|
  {
    if i == 0 then 0 else Pops(acts, i - 1) + if acts[i - 1].Pop? then 1 else 0
  }

  lemma StepRecords(s: State, a: Action)
    requires Inv(s) && Enabled(s, a)
    ensures a.Pop? ==> s.queue != []
    ensures var s' := Do(s, a);
            s'.accepted == s.accepted + (if a.Append? && |s.queue| < s.max then [a.request] else [])
            && |s'.taken| == |s.taken| + if a.Pop? then 1 else 0
  {
    hide Count;
    if a.Pop? {
      CountSome(s.pcs, a.tid, IsPopping);
    }
  }

  lemma {:induction false} Recorded(acts: seq<Action>, states: seq<State>, i: nat)
    requires RunOf(acts, states) && i <= |acts|
    ensures states[i].accepted == Accepted(acts, states, i) && |states[i].taken| == Pops(acts, i)
    decreases i
  {
    hide Inv, Do, Enabled;
    if i > 0 {
      Recorded(acts, states, i - 1);
      RunInv(acts, states, i - 1);
      StepRecords(states[i - 1], acts[i - 1]);
    }
  }

  /** In every run the queue holds the accepted requests behind the ones taken out, in their order. */
  lemma QueueHistory(acts: seq<Action>, states: seq<State>, i: nat)
    requires RunOf(acts, states) && i <= |acts|
    ensures Pops(acts, i) <= |Accepted(acts, states, i)|
    ensures states[i].queue == Accepted(acts, states, i)[Pops(acts, i)..]
  {
    Recorded(acts, states, i);
    QueueAlways(acts, states, i);
    hide RunOf, Accepted, Pops;
    var s := states[i];
    assert s.accepted[|s.taken|..] == s.queue;
  }

  /** An append is refused if and only if the limit is reached; otherwise the request is in the queue
      and the client goes on to post. */
  lemma AppendOutcome(acts: seq<Action>, states: seq<State>, i: nat, t: nat, r: Request)
    requires RunOf(acts, states) && i < |acts| && acts[i] == Append(t, r)
    ensures t in states[i + 1].pcs
    ensures if |Accepted(acts, states, i)| - Pops(acts, i) < states[0].max
            then states[i + 1].pcs[t].Posting? && states[i + 1].queue == states[i].queue + [r]
            else states[i + 1].pcs[t].ClientIdle? && states[i + 1].queue == states[i].queue
  {
    QueueHistory(acts, states, i);
    RunInv(acts, states, i);
    hide Accepted, Pops, Inv;
    assert Enabled(states[i], acts[i]) && states[i + 1] == Do(states[i], acts[i]);
  }

  /** Each pop serves the next accepted request: the worker works on it, or goes back to wait if it is NULL. */
  lemma PopOutcome(acts: seq<Action>, states: seq<State>, i: nat, t: nat)
    requires RunOf(acts, states) && i < |acts| && acts[i] == Pop(t)
    ensures Pops(acts, i) < |Accepted(acts, states, i)| && t in states[i + 1].pcs
    ensures var r := Accepted(acts, states, i)[Pops(acts, i)];
            states[i + 1].pcs[t] == if r.NullRequest? then WorkerWait else Working(r)
  {
    QueueHistory(acts, states, i);
    RunInv(acts, states, i);
    StepRecords(states[i], acts[i]);
    hide Accepted, Pops, Inv;
    assert Enabled(states[i], acts[i]) && states[i + 1] == Do(states[i], acts[i]);
  }
}
