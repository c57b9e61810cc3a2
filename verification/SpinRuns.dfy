/** What runs of the thread pool do with the tasks, told by the actions of its threads alone. */
module SpinRuns {
  import opened Seqs
  import opened SpinPool

  // ---------- tasks posted and tasks taken ----------

  /** The tasks of the additions among the first `i` actions, in their order. */
  function Posted(acts: seq<Action>, i: nat): seq<nat>
    requires i <= |acts|
  {
    if i == 0 then []
    else Posted(acts, i - 1) + if acts[i - 1].Link? then [acts[i - 1].task] else []
  }

  /** Action `a` takes its thread from looking for a task to the handler of one. */
  predicate StartsHandler(s: State, a: Action, s': State) {
    a.tid in s.pcs && a.tid in s'.pcs && s.pcs[a.tid].Popping? && s'.pcs[a.tid].Running?
  }

  /** The tasks whose handlers were started by the first `i` actions, in their order. */
  function Started(acts: seq<Action>, states: seq<State>, i: nat): seq<nat>
    requires i <= |acts| < |states|
  {
    if i == 0 then []
    else
      var a, s, s' := acts[i - 1], states[i - 1], states[i];
      Started(acts, states, i - 1) + if StartsHandler(s, a, s') then [s'.pcs[a.tid].task] else []
  }

  lemma StepRecords(s: State, a: Action)
    requires Enabled(s, a)
    ensures var s' := Do(s, a);
            s'.added == s.added + (if a.Link? then [a.task] else [])
            && s'.popped == s.popped + if StartsHandler(s, a, s') then [s'.pcs[a.tid].task] else []
  {
    hide AddTask, PopTask, NextMutex;
  }

  /** The pool's records are the posted and the started tasks. */
  lemma {:induction false} Recorded(acts: seq<Action>, states: seq<State>, i: nat)
    requires RunOf(acts, states) && i <= |acts|
    ensures states[i].added == Posted(acts, i) && states[i].popped == Started(acts, states, i)
    decreases i
  {
    hide Do, Enabled, StartsHandler;
    if i == 0 {
      assert states[0].added == [] && states[0].popped == [];
    } else {
      Recorded(acts, states, i - 1);
      StepRecords(states[i - 1], acts[i - 1]);
    }
  }

  /** In every run, handlers are started for the posted tasks in the order of posting, each once and none skipped;
      the posted tasks that are not started yet are linked in the queue, in this order. */
  lemma TasksInOrder(acts: seq<Action>, states: seq<State>, i: nat)
    requires RunOf(acts, states) && i <= |acts|
    ensures Started(acts, states, i) <= Posted(acts, i)
    ensures Linked(states[i].queue, Posted(acts, i)[|Started(acts, states, i)|..])
  {
    hide RunOf, Linked;
    Recorded(acts, states, i);
    FifoAlways(acts, states, i);
  }

  lemma PopStep(s: State, w: nat)
    requires w in s.pcs && s.pcs[w].Popping?
    ensures Enabled(s, Step(w))
    ensures var s' := Do(s, Step(w));
            s'.pcs[w] == if s.queue.head.Null? then Locking else Running(s.queue.head.task)
  {
    hide AddTask, PopTask, NextMutex;
  }

  /** A worker that looks for a task starts the first posted task that was not started yet,
      and goes on to sleep or leave only when there is none. */
  lemma NextTask(acts: seq<Action>, states: seq<State>, i: nat, w: nat)
    requires RunOf(acts, states) && i < |acts| && acts[i] == Step(w)
    requires w in states[i].pcs && states[i].pcs[w].Popping?
    ensures w in states[i + 1].pcs
    ensures var n := |Started(acts, states, i)|;
            states[i + 1].pcs[w] == if n < |Posted(acts, i)| then Running(Posted(acts, i)[n]) else Locking
  {
    TasksInOrder(acts, states, i);
    var s, chain := states[i], Posted(acts, i)[|Started(acts, states, i)|..];
    PathNull(s.queue.next, s.queue.head, chain);
    PopStep(s, w);
    hide Do, Enabled, Linked, Posted, Started;
  }

  lemma LockingFrom(s: State, a: Action, w: nat)
    requires Enabled(s, a) && w in s.pcs && !s.pcs[w].Locking?
    ensures w in Do(s, a).pcs && (Do(s, a).pcs[w].Locking? ==> a == Step(w) && s.pcs[w].Popping?)
  {
    hide AddTask, PopTask, NextMutex;
  }

  /** A worker takes the way to sleep only where every posted task has been started. */
  lemma SleepsOnlyWithoutTask(acts: seq<Action>, states: seq<State>, i: nat, w: nat)
    requires RunOf(acts, states) && i < |acts| && w in states[i].pcs && w in states[i + 1].pcs
    requires !states[i].pcs[w].Locking? && states[i + 1].pcs[w].Locking?
    ensures Started(acts, states, i) == Posted(acts, i)
  {
    LockingFrom(states[i], acts[i], w);
    hide Do, Enabled, Posted, Started;
    NextTask(acts, states, i, w);
    TasksInOrder(acts, states, i);
  }

  // ---------- posting ----------

  lemma {:induction false} Unused(used: set<nat>) returns (t: nat)
    ensures t !in used && forall u :: u in used ==> u < t
    decreases |used|
  {
    if used == {} {
      t := 0;
    } else {
      var u :| u in used;
      t := Unused(used - {u});
      assert forall v :: v in used ==> v == u || v in used - {u};
      if t <= u {
        t := u + 1;
      }
    }
  }

  /** A post that has passed its check of `quit` can link its task whatever the other threads do. */
  lemma PostCanLink(s: State, p: nat)
    requires p in s.pcs && s.pcs[p].Linking?
    ensures exists t :: Enabled(s, Link(p, t))
  {
    var t := Unused(s.queue.next.Keys);
    assert Enabled(s, Link(p, t));
  }

  lemma LeavesLinking(s: State, a: Action, p: nat)
    requires Enabled(s, a) && p in s.pcs && s.pcs[p].Linking?
    ensures p in Do(s, a).pcs && (Do(s, a).pcs[p].Linking? || (a.Link? && a.tid == p))
  {
    hide AddTask, PopTask, NextMutex;
  }

  /** Such a post does not get any further without its task being linked. */
  lemma {:induction false} PostLinks(acts: seq<Action>, states: seq<State>, p: nat, i: nat, j: nat)
    requires RunOf(acts, states) && i <= j <= |acts| && p in states[i].pcs && states[i].pcs[p].Linking?
    ensures p in states[j].pcs
    ensures states[j].pcs[p].Linking? || exists k :: i <= k < j && acts[k].Link? && acts[k].tid == p
    decreases j
  {
    if i < j {
      PostLinks(acts, states, p, i, j - 1);
      if states[j - 1].pcs[p].Linking? {
        LeavesLinking(states[j - 1], acts[j - 1], p);
      } else {
        ThreadStays(states[j - 1], acts[j - 1], p);
      }
    }
  }

  lemma ThreadStays(s: State, a: Action, p: nat)
    requires Enabled(s, a) && p in s.pcs
    ensures p in Do(s, a).pcs
  {
    hide AddTask, PopTask, NextMutex, NextPc;
  }

  /** Some `thread_pool_terminate` has set `quit` by one of the first `i` actions. */
  predicate Terminated(acts: seq<Action>, states: seq<State>, i: nat)
    requires i <= |acts| < |states|
  {
    exists k :: 0 <= k < i && acts[k].Step? && acts[k].tid in states[k].pcs && states[k].pcs[acts[k].tid].TermStore?
  }

  lemma QuitStep(s: State, a: Action)
    requires Enabled(s, a)
    ensures Do(s, a).quit <==> s.quit || (a.Step? && s.pcs[a.tid].TermStore?)
  {
    hide AddTask, PopTask, NextMutex, NextPc;
  }

  lemma {:induction false} QuitIff(acts: seq<Action>, states: seq<State>, i: nat)
    requires RunOf(acts, states) && i <= |acts|
    ensures states[i].quit <==> Terminated(acts, states, i)
    decreases i
  {
    hide Do, Inv;
    if i > 0 {
      QuitIff(acts, states, i - 1);
      QuitStep(states[i - 1], acts[i - 1]);
      if Terminated(acts, states, i) && !Terminated(acts, states, i - 1) {
        var k :| 0 <= k < i && acts[k].Step? && acts[k].tid in states[k].pcs
                 && states[k].pcs[acts[k].tid].TermStore?;
        assert k == i - 1;
      }
    }
  }

  lemma CheckStep(s: State, p: nat)
    requires p in s.pcs && s.pcs[p].PostCheck? && Enabled(s, Step(p))
    ensures Do(s, Step(p)).pcs[p] == if s.quit then Idle else Linking
  {
    hide AddTask, PopTask, NextMutex;
  }

  /** A post is refused if and only if a terminate has set `quit` before; otherwise it goes on to link its task. */
  lemma PostRefusedIff(acts: seq<Action>, states: seq<State>, i: nat, p: nat)
    requires RunOf(acts, states) && i < |acts| && acts[i] == Step(p)
    requires p in states[i].pcs && states[i].pcs[p].PostCheck?
    ensures p in states[i + 1].pcs
    ensures states[i + 1].pcs[p] == if Terminated(acts, states, i) then Idle else Linking
  {
    QuitIff(acts, states, i);
    CheckStep(states[i], p);
    ThreadStays(states[i], acts[i], p);
    hide Do, Terminated;
  }

  // ---------- workers stay ----------

  /** Nobody has left, or is about to, unless the pool is being shut down. */
  predicate StayOk(s: State) {
    forall t :: t in s.pcs && s.pcs[t].Exited? ==> s.quit
  }

  lemma StayKept(s: State, a: Action)
    requires TermOk(s) && StayOk(s) && Enabled(s, a)
    ensures StayOk(Do(s, a))
  {
    hide AddTask, PopTask, NextMutex;
  }

  /** No worker exits before a terminate has set `quit`. */
  lemma {:induction false} NoEarlyExit(acts: seq<Action>, states: seq<State>, i: nat)
    requires RunOf(acts, states) && i <= |acts|
    ensures forall w :: w in states[i].pcs && states[i].pcs[w].Exited? ==> Terminated(acts, states, i)
  {
    StayAlways(acts, states, i);
    QuitIff(acts, states, i);
    hide RunOf, Terminated;
  }

  lemma {:induction false} StayAlways(acts: seq<Action>, states: seq<State>, i: nat)
    requires RunOf(acts, states) && i <= |acts|
    ensures StayOk(states[i])
    decreases i
  {
    if i > 0 {
      StayAlways(acts, states, i - 1);
      RunInv(acts, states, i - 1);
      hide Do, Enabled, StayOk, TermOk;
      StayKept(states[i - 1], acts[i - 1]);
    }
  }
}
