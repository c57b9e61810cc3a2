/** The thread pool with a spinlock-guarded task queue, as a transition system over its threads. */
module SpinPool {
  import opened Seqs

  // ---------- the task queue ----------

  datatype Ptr = Null | To(task: nat)

  /** Where `tail` points: at the cell `head` itself, or at the `next` cell of a task. */
  datatype Tail = HeadCell | NextOf(task: nat)

  /** The queue as memory: `next` has a cell for every task that is linked in. */
  datatype Queue = Queue(head: Ptr, tail: Tail, next: map<nat, Ptr>)

  const EmptyQueue := Queue(Null, HeadCell, map[])

  /** The locked part of `__add_task`: `*tail = link; tail = link`. */
  function AddTask(q: Queue, t: nat): Queue {
    var cells := q.next[t := Null];
    match q.tail
    case HeadCell => Queue(To(t), NextOf(t), cells)
    case NextOf(u) => Queue(q.head, NextOf(t), cells[u := To(t)])
  }

  /** The locked part of `__pop_task`; in every run the cell of the head task is there (`FifoAlways`). */
  function PopTask(q: Queue): Queue {
    if q.head.Null? || q.head.task !in q.next then q
    else
      var t := q.head.task;
      var rest := q.next[t];
      Queue(rest, if rest.Null? then HeadCell else q.tail, q.next - {t})
  }

  /** Following `next` from `from` visits exactly `chain`. */
  ghost predicate Path(next: map<nat, Ptr>, from: Ptr, chain: seq<nat>)
    decreases |chain|
  {
    if chain == [] then from == Null
    else from == To(chain[0]) && chain[0] in next && Path(next, next[chain[0]], chain[1..])
  }

  lemma TailMembers(chain: seq<nat>)
    requires NoRepeats(chain) && chain != []
    ensures NoRepeats(chain[1..])
    ensures forall t :: t in chain[1..] <==> t in chain && t != chain[0]
  {
    assert chain == [chain[0]] + chain[1..];
  }

  /** The memory holds exactly this chain; `tail` points at the head cell just when it is empty. */
  ghost predicate Linked(q: Queue, chain: seq<nat>) {
    Path(q.next, q.head, chain)
    && NoRepeats(chain)
    && (forall t :: t in q.next <==> t in chain)
    && q.tail == if chain == [] then HeadCell else NextOf(chain[|chain| - 1])
  }

  /** A cell that is not on the path does not matter to it. */
  lemma {:induction false} PathElsewhere(next: map<nat, Ptr>, next': map<nat, Ptr>, from: Ptr, chain: seq<nat>)
    requires Path(next, from, chain)
    requires forall t :: t in chain && t in next ==> t in next' && next'[t] == next[t]
    ensures Path(next', from, chain)
    decreases |chain|
  {
    if chain != [] {
      assert chain[0] in chain;
      assert forall t :: t in chain[1..] ==> t in chain;
      PathElsewhere(next, next', next[chain[0]], chain[1..]);
    }
  }

  /** Storing a link to a new last cell in the cell that was last. */
  lemma {:induction false} PathExtend(next: map<nat, Ptr>, from: Ptr, chain: seq<nat>, t: nat)
    requires Path(next, from, chain) && chain != [] && t !in chain && t in next && next[t] == Null
    requires NoRepeats(chain)
    ensures Path(next[chain[|chain| - 1] := To(t)], from, chain + [t])
    decreases |chain|
  {
    var u := chain[|chain| - 1];
    var next' := next[u := To(t)];
    assert (chain + [t])[1..] == chain[1..] + [t];
    if |chain| == 1 {
      assert chain[1..] == [];
      assert Path(next', next'[t], []) && Path(next', To(t), [t]);
    } else {
      PathExtend(next, next[chain[0]], chain[1..], t);
    }
  }

  lemma AddLinks(q: Queue, chain: seq<nat>, t: nat)
    requires Linked(q, chain) && t !in q.next
    ensures Linked(AddTask(q, t), chain + [t])
  {
    var cells := q.next[t := Null];
    if chain == [] {
      assert chain + [t] == [t];
      assert Path(cells, cells[t], []);
    } else {
      PathElsewhere(q.next, cells, q.head, chain);
      PathExtend(cells, q.head, chain, t);
    }
  }

  lemma PathNull(next: map<nat, Ptr>, from: Ptr, chain: seq<nat>)
    requires Path(next, from, chain)
    ensures from.Null? <==> chain == []
    ensures from.To? ==> chain[0] == from.task && from.task in next && Path(next, next[from.task], chain[1..])
  {
  }

  lemma PopLinks(q: Queue, chain: seq<nat>)
    requires Linked(q, chain) && q.head.To?
    ensures chain != [] && chain[0] == q.head.task && q.head.task in q.next
    ensures Linked(PopTask(q), chain[1..])
  {
    hide Path, NoRepeats;
    PathNull(q.next, q.head, chain);
    var t, c := chain[0], chain[1..];
    TailMembers(chain);
    PathNull(q.next, q.next[t], c);
    PathElsewhere(q.next, q.next - {t}, q.next[t], c);
  }

  // ---------- threads ----------

  /** Program counters. Workers cycle through the first group, clients of the pool through the second. */
  datatype Pc =
    | CheckQuit | Popping | Locking | Checking | AboutToWait | Leaving | Waiting | Waking | Woken
    | Running(task: nat) | Exited
    | Idle | PostCheck | Linking | Signalling
    | TermStore | TermLock | TermSet | TermUnlock | TermBroadcast

  predicate HoldsMutex(pc: Pc) {
    pc.Checking? || pc.AboutToWait? || pc.Leaving? || pc.Woken? || pc.TermSet? || pc.TermUnlock?
  }

  datatype Owner = Free | Held(holder: nat)

  /** `popped` and `added` record the history of the queue, `broadcast` that a terminate has finished. */
  datatype State = State(quit: bool, block: bool, mutex: Owner, queue: Queue, pcs: map<nat, Pc>,
                         added: seq<nat>, popped: seq<nat>, broadcast: bool)

  /** One step of thread `tid`; `task` is the cell that `malloc` returns, `woken` the threads a signal wakes. */
  datatype Action =
    | Step(tid: nat)
    | StartPost(tid: nat)
    | StartTerminate(tid: nat)
    | Link(tid: nat, task: nat)
    | Signal(tid: nat, woken: set<nat>)
    | Spurious(tid: nat)

  predicate Enabled(s: State, a: Action) {
    a.tid in s.pcs
    && var pc := s.pcs[a.tid];
       match a
       case Step(_) =>
         (pc.CheckQuit? || pc.Popping? || pc.Checking? || pc.AboutToWait? || pc.Leaving? || pc.Woken? || pc.Running?
          || pc.PostCheck? || pc.TermStore? || pc.TermSet? || pc.TermUnlock? || pc.TermBroadcast?)
         || ((pc.Locking? || pc.Waking? || pc.TermLock?) && s.mutex.Free?)
       case StartPost(_) => pc.Idle?
       case StartTerminate(_) => pc.Idle?
       case Link(_, t) => pc.Linking? && t !in s.queue.next
       case Signal(_, woken) => pc.Signalling? && woken <= set t | t in s.pcs && s.pcs[t].Waiting?
       case Spurious(_) => pc.Waiting?
  }

  /** The waiting threads in `woken` go on to compete for the mutex. */
  function Wake(pcs: map<nat, Pc>, woken: set<nat>): map<nat, Pc> {
    map t | t in pcs :: if t in woken && pcs[t].Waiting? then Waking else pcs[t]
  }

  function At(s: State, tid: nat, pc: Pc): State {
    s.(pcs := s.pcs[tid := pc])
  }

  /** Where a plain step leads from each program counter. */
  function NextPc(s: State, pc: Pc): Pc {
    match pc
    case CheckQuit => if s.quit then Exited else Popping
    case Popping => if s.queue.head.Null? then Locking else Running(s.queue.head.task)
    case Locking => Checking
    case Checking => if s.block then AboutToWait else Leaving
    case AboutToWait => Waiting
    case Leaving => Exited
    case Waking => Woken
    case Woken => Popping
    case Running(_) => CheckQuit
    case PostCheck => if s.quit then Idle else Linking
    case TermStore => TermLock
    case TermLock => TermSet
    case TermSet => TermUnlock
    case TermUnlock => TermBroadcast
    case TermBroadcast => Idle
    case _ => pc
  }

  /** `pthread_cond_wait` gives the mutex back as it goes to sleep. */
  function NextMutex(s: State, w: nat, pc: Pc): Owner {
    if pc.Locking? || pc.Waking? || pc.TermLock? then Held(w)
    else if pc.AboutToWait? || pc.Leaving? || pc.Woken? || pc.TermUnlock? then Free
    else s.mutex
  }

  /** A plain step of thread `w`. */
  function DoStep(s: State, w: nat): State
    requires w in s.pcs
  {
    var pc := s.pcs[w];
    var pops := pc.Popping? && s.queue.head.To?;
    State(s.quit || pc.TermStore?,
          s.block && !pc.TermSet?,
          NextMutex(s, w, pc),
          if pops then PopTask(s.queue) else s.queue,
          (if pc.TermBroadcast? then Wake(s.pcs, s.pcs.Keys) else s.pcs)[w := NextPc(s, pc)],
          s.added,
          if pops then s.popped + [s.queue.head.task] else s.popped,
          s.broadcast || pc.TermBroadcast?)
  }

  function Do(s: State, a: Action): State
    requires Enabled(s, a)
  {
    match a
    case Step(w) => DoStep(s, w)
    case StartPost(p) => At(s, p, PostCheck)
    case StartTerminate(p) => At(s, p, TermStore)
    case Link(p, t) => At(s.(queue := AddTask(s.queue, t), added := s.added + [t]), p, Signalling)
    case Signal(p, woken) => At(s.(pcs := Wake(s.pcs, woken)), p, Idle)
    case Spurious(w) => At(s, w, Waking)
  }

  /** Workers about to enter their loop, clients idle, an empty blocking queue. */
  predicate Init(s: State) {
    !s.quit && s.block && s.mutex.Free? && s.queue == EmptyQueue && s.added == [] && s.popped == [] && !s.broadcast
    && forall t :: t in s.pcs ==> s.pcs[t].CheckQuit? || s.pcs[t].Idle?
  }

  // ---------- the invariant ----------

  /** Tasks popped so far, followed by the linked chain, are the tasks added. */
  ghost predicate Fifo(s: State) {
    |s.popped| <= |s.added| && s.popped == s.added[..|s.popped|] && Linked(s.queue, s.added[|s.popped|..])
  }

  predicate MutexOk(s: State) {
    forall t :: t in s.pcs ==> (HoldsMutex(s.pcs[t]) <==> s.mutex == Held(t))
  }

  predicate MutexOwned(s: State) {
    s.mutex.Held? ==> s.mutex.holder in s.pcs
  }

  /** How far a terminate has got, and what that means for everybody else. */
  predicate TermOk(s: State) {
    (forall t :: t in s.pcs ==>
       (s.pcs[t].TermLock? || s.pcs[t].TermSet? ==> s.quit)
       && (s.pcs[t].TermUnlock? || s.pcs[t].TermBroadcast? ==> s.quit && !s.block)
       && (s.pcs[t].AboutToWait? ==> s.block)
       && (s.pcs[t].Waiting? ==> !s.broadcast)
       && (s.pcs[t].Leaving? ==> !s.block))
    && (s.broadcast ==> s.quit && !s.block)
    && (!s.block ==> s.quit)
  }

  ghost predicate Inv(s: State) {
    Fifo(s) && MutexOk(s) && MutexOwned(s) && TermOk(s)
  }

  lemma InitInv(s: State)
    requires Init(s)
    ensures Inv(s)
  {
  }

  /** Does the action take a task out of the queue? */
  predicate Pops(s: State, a: Action)
    requires Enabled(s, a)
  {
    a.Step? && s.pcs[a.tid].Popping? && s.queue.head.To?
  }

  lemma FifoLink(s: State, t: nat)
    requires Fifo(s) && t !in s.queue.next
    ensures Fifo(s.(queue := AddTask(s.queue, t), added := s.added + [t]))
  {
    hide Linked, AddTask;
    var chain := s.added[|s.popped|..];
    AddLinks(s.queue, chain, t);
    assert (s.added + [t])[|s.popped|..] == chain + [t];
  }

  lemma FifoPop(s: State)
    requires Fifo(s) && s.queue.head.To?
    ensures s.queue.head.task in s.queue.next
    ensures Fifo(s.(queue := PopTask(s.queue), popped := s.popped + [s.queue.head.task]))
  {
    hide Linked, PopTask;
    var chain := s.added[|s.popped|..];
    PopLinks(s.queue, chain);
    assert s.added[|s.popped| + 1..] == chain[1..];
    assert s.popped + [chain[0]] == s.added[..|s.popped| + 1];
  }

  lemma FifoSame(s: State, s': State)
    requires Fifo(s) && s'.queue == s.queue && s'.added == s.added && s'.popped == s.popped
    ensures Fifo(s')
  {
  }

  lemma FifoKept(s: State, a: Action)
    requires Fifo(s) && Enabled(s, a)
    ensures Fifo(Do(s, a))
  {
    hide Fifo, AddTask, PopTask, Wake, NextPc, NextMutex;
    var s' := Do(s, a);
    if a.Link? {
      FifoLink(s, a.task);
      FifoSame(s.(queue := AddTask(s.queue, a.task), added := s.added + [a.task]), s');
    } else if Pops(s, a) {
      FifoPop(s);
      FifoSame(s.(queue := PopTask(s.queue), popped := s.popped + [s.queue.head.task]), s');
    } else {
      FifoSame(s, s');
    }
  }

  /** A thread moves, keeping, taking or giving back the mutex. */
  lemma MutexMove(s: State, s': State, w: nat, pc: Pc)
    requires MutexOk(s) && MutexOwned(s) && w in s.pcs && s'.pcs == s.pcs[w := pc]
    requires (s'.mutex == s.mutex && HoldsMutex(pc) == HoldsMutex(s.pcs[w]))
             || (s.mutex == Free && s'.mutex == Held(w) && HoldsMutex(pc))
             || (s.mutex == Held(w) && s'.mutex == Free && !HoldsMutex(pc))
    ensures MutexOk(s') && MutexOwned(s')
  {
  }

  /** The holders of the mutex are exactly the program counters between taking it and giving it back. */
  lemma StepMutex(s: State, w: nat)
    requires w in s.pcs && Enabled(s, Step(w))
    ensures var pc, pc' := s.pcs[w], NextPc(s, s.pcs[w]);
            match NextMutex(s, w, pc)
            case Held(h) => (h == w && !HoldsMutex(pc) && HoldsMutex(pc') && s.mutex == Free)
                            || (NextMutex(s, w, pc) == s.mutex && HoldsMutex(pc) == HoldsMutex(pc'))
            case Free => (HoldsMutex(pc) && !HoldsMutex(pc'))
                         || (s.mutex == Free && HoldsMutex(pc) == HoldsMutex(pc'))
  {
  }

  lemma MutexWake(s: State, woken: set<nat>)
    requires MutexOk(s) && MutexOwned(s)
    ensures MutexOk(s.(pcs := Wake(s.pcs, woken))) && MutexOwned(s.(pcs := Wake(s.pcs, woken)))
  {
  }

  lemma MutexKept(s: State, a: Action)
    requires MutexOk(s) && MutexOwned(s) && Enabled(s, a)
    ensures MutexOk(Do(s, a)) && MutexOwned(Do(s, a))
  {
    var s', w := Do(s, a), a.tid;
    assert HoldsMutex(s.pcs[w]) <==> s.mutex == Held(w);
    hide AddTask, PopTask, MutexOk, MutexOwned, Wake;
    if a.Step? {
      StepMutex(s, w);
    }
    if a.Signal? {
      MutexWake(s, a.woken);
      MutexMove(s.(pcs := Wake(s.pcs, a.woken)), s', w, Idle);
    } else if a.Step? && s.pcs[w].TermBroadcast? {
      MutexWake(s, s.pcs.Keys);
      MutexMove(s.(pcs := Wake(s.pcs, s.pcs.Keys)), s', w, Idle);
    } else {
      MutexMove(s, s', w, s'.pcs[w]);
    }
  }

  lemma TermKept(s: State, a: Action)
    requires Inv(s) && Enabled(s, a)
    ensures TermOk(Do(s, a))
  {
    hide Fifo, AddTask, PopTask;
  }

  /** Every step of every thread keeps the invariant. */
  lemma InvKept(s: State, a: Action)
    requires Inv(s) && Enabled(s, a)
    ensures Inv(Do(s, a))
  {
    hide Fifo, MutexOk, MutexOwned, TermOk;
    FifoKept(s, a);
    MutexKept(s, a);
    TermKept(s, a);
  }

  // ---------- runs ----------

  /** Any interleaving of the threads: each action is enabled where it happens. */
  ghost predicate RunOf(acts: seq<Action>, states: seq<State>) {
    |states| == |acts| + 1 && Init(states[0])
    && forall i :: 0 <= i < |acts| ==> Enabled(states[i], acts[i]) && states[i + 1] == Do(states[i], acts[i])
  }

  lemma {:induction false} RunInv(acts: seq<Action>, states: seq<State>, i: nat)
    requires RunOf(acts, states) && i <= |acts|
    ensures Inv(states[i])
    decreases i
  {
    hide Inv, Do, Enabled, Init;
    if i == 0 {
      InitInv(states[0]);
    } else {
      RunInv(acts, states, i - 1);
      InvKept(states[i - 1], acts[i - 1]);
    }
  }

  /** In every run, tasks are taken in the order in which they were added, none twice and none skipped;
      what is still linked is the rest, and `tail` points at the head cell exactly when there is no rest.
      A removal never meets a head task without its cell. */
  lemma FifoAlways(acts: seq<Action>, states: seq<State>, i: nat)
    requires RunOf(acts, states) && i <= |acts|
    ensures var s := states[i];
            s.popped <= s.added && Linked(s.queue, s.added[|s.popped|..])
            && (s.queue.tail == HeadCell <==> s.popped == s.added)
            && (s.queue.head.To? ==> s.queue.head.task in s.queue.next)
  {
    RunInv(acts, states, i);
    hide Linked;
    var s := states[i];
    QueueEnds(s.queue, s.added[|s.popped|..]);
    assert s.added == s.popped + s.added[|s.popped|..];
  }

  lemma QueueEnds(q: Queue, chain: seq<nat>)
    requires Linked(q, chain)
    ensures q.tail == HeadCell <==> chain == []
    ensures q.head.To? ==> q.head.task in q.next
  {
    PathNull(q.next, q.head, chain);
  }

  // ---------- termination ----------

  predicate IsWorker(pc: Pc) {
    pc.CheckQuit? || pc.Popping? || pc.Locking? || pc.Checking? || pc.AboutToWait? || pc.Leaving?
    || pc.Waiting? || pc.Waking? || pc.Woken? || pc.Running? || pc.Exited?
  }

  /** Own steps that a worker can still make once the pool has been shut down. */
  function Rank(pc: Pc): nat {
    match pc
    case Exited => 0
    case CheckQuit => 1
    case Leaving => 1
    case Running(_) => 2
    case Checking => 2
    case Locking => 3
    case Popping => 4
    case Woken => 5
    case Waking => 6
    case _ => 7
  }

  /** Handlers that a worker can still run once the pool has been shut down. */
  function Credit(pc: Pc): nat {
    if pc.Running? || pc.Popping? || pc.Woken? || pc.Waking? || pc.AboutToWait? || pc.Waiting? then 1 else 0
  }

  function OwnStep(a: Action, w: nat): nat {
    if a.tid == w then 1 else 0
  }

  /** Is this action the return of a handler in thread `w`? */
  function HandlerRun(s: State, a: Action, w: nat): nat {
    if a == Step(w) && w in s.pcs && s.pcs[w].Running? then 1 else 0
  }

  /** After the broadcast, a worker's own steps use up its rank and its handlers its credit;
      the steps of other threads leave both alone. */
  lemma ShutdownStep(s: State, a: Action, w: nat)
    requires Inv(s) && Enabled(s, a) && s.broadcast && w in s.pcs && IsWorker(s.pcs[w])
    ensures var s' := Do(s, a);
            s'.broadcast && w in s'.pcs && IsWorker(s'.pcs[w])
            && Rank(s'.pcs[w]) + OwnStep(a, w) <= Rank(s.pcs[w])
            && Credit(s'.pcs[w]) + HandlerRun(s, a, w) <= Credit(s.pcs[w])
  {
    hide Fifo, MutexOk, MutexOwned, AddTask, PopTask, NextMutex;
    assert !s.pcs[w].Waiting? && !s.pcs[w].AboutToWait?;
  }

  function OwnSteps(acts: seq<Action>, w: nat, i: nat, j: nat): nat
    requires i <= j <= |acts|
    decreases j
  {
    if i == j then 0 else OwnSteps(acts, w, i, j - 1) + OwnStep(acts[j - 1], w)
  }

  function HandlersRun(acts: seq<Action>, states: seq<State>, w: nat, i: nat, j: nat): nat
    requires i <= j <= |acts| < |states|
    decreases j
  {
    if i == j then 0 else HandlersRun(acts, states, w, i, j - 1) + HandlerRun(states[j - 1], acts[j - 1], w)
  }

  lemma {:induction false} ShutdownRun(acts: seq<Action>, states: seq<State>, w: nat, i: nat, j: nat)
    requires RunOf(acts, states) && i <= j <= |acts|
    requires states[i].broadcast && w in states[i].pcs && IsWorker(states[i].pcs[w])
    ensures states[j].broadcast && w in states[j].pcs && IsWorker(states[j].pcs[w])
    ensures Rank(states[j].pcs[w]) + OwnSteps(acts, w, i, j) <= Rank(states[i].pcs[w])
    ensures Credit(states[j].pcs[w]) + HandlersRun(acts, states, w, i, j) <= Credit(states[i].pcs[w])
    decreases j
  {
    hide Inv, Do, Enabled, Init, Rank, Credit, OwnStep, HandlerRun;
    if i < j {
      ShutdownRun(acts, states, w, i, j - 1);
      RunInv(acts, states, j - 1);
      ShutdownStep(states[j - 1], acts[j - 1], w);
    }
  }

  /** Once a terminate has broadcast, in every continuation of every run: no thread waits on the condition
      variable, each worker makes at most six more steps and runs at most one more handler,
      and a worker that has used up its steps has exited. */
  lemma Shutdown(acts: seq<Action>, states: seq<State>, w: nat, i: nat, j: nat)
    requires RunOf(acts, states) && i <= j <= |acts|
    requires states[i].broadcast && w in states[i].pcs && IsWorker(states[i].pcs[w])
    ensures w in states[j].pcs && !states[j].pcs[w].Waiting?
    ensures OwnSteps(acts, w, i, j) <= Rank(states[i].pcs[w]) <= 6
    ensures HandlersRun(acts, states, w, i, j) <= 1
    ensures OwnSteps(acts, w, i, j) == Rank(states[i].pcs[w]) ==> states[j].pcs[w] == Exited
  {
    ShutdownRun(acts, states, w, i, j);
    RunInv(acts, states, i);
    RunInv(acts, states, j);
    hide Fifo, MutexOk, MutexOwned, RunOf;
    assert !states[i].pcs[w].Waiting? && !states[i].pcs[w].AboutToWait?;
  }

  /** A worker that is neither asleep nor gone can step, or waits for a mutex whose holder can. */
  lemma Progress(s: State, w: nat)
    requires Inv(s) && w in s.pcs && IsWorker(s.pcs[w]) && !s.pcs[w].Waiting? && !s.pcs[w].Exited?
    ensures Enabled(s, Step(w))
            || (s.mutex.Held? && s.mutex.holder in s.pcs && Enabled(s, Step(s.mutex.holder)))
  {
    hide Fifo, TermOk;
    if s.mutex.Held? {
      assert HoldsMutex(s.pcs[s.mutex.holder]);
    }
  }
}
