/** The database connection pool: a list of free connections, a lock and a semaphore. */
module ConnPool {
  import opened Counting
  import opened Seqs

  /** Inside `GetConnection` before and after the wait; inside `ReleaseConnection` before the post. */
  datatype Pc = Idle | WantConn | Popping | Posting

  predicate IsPopping(pc: Pc) { pc.Popping? }
  predicate IsPosting(pc: Pc) { pc.Posting? }

  /** `held` says which thread has got each connection that is out of the pool. */
  datatype State = State(connList: seq<nat>, sem: nat, freeConn: int, curConn: int, maxConn: int,
                         pcs: map<nat, Pc>, held: map<nat, nat>)

  /** The unlocked size test of `GetConnection`, its `wait`, its locked body; `ReleaseConnection` of NULL
      and of a connection that the thread holds, and its `post`. */
  datatype Action =
    | Test(tid: nat) | Wait(tid: nat) | Take(tid: nat)
    | ReleaseNull(tid: nat) | Give(tid: nat, conn: nat) | Post(tid: nat)

  predicate Enabled(s: State, a: Action) {
    a.tid in s.pcs
    && match a
       case Test(t) => s.pcs[t].Idle?
       case Wait(t) => s.pcs[t].WantConn? && s.sem > 0
       case Take(t) => s.pcs[t].Popping? && s.connList != []
       case ReleaseNull(t) => s.pcs[t].Idle?
       case Give(t, c) => s.pcs[t].Idle? && c in s.held && s.held[c] == t
       case Post(t) => s.pcs[t].Posting?
  }

  function At(s: State, t: nat, pc: Pc): State {
    s.(pcs := s.pcs[t := pc])
  }

  function Do(s: State, a: Action): State
    requires Enabled(s, a)
  {
    match a
    case Test(t) => At(s, t, if s.connList == [] then Idle else WantConn)
    case Wait(t) => At(s.(sem := s.sem - 1), t, Popping)
    case Take(t) =>
      At(s.(connList := s.connList[1..], freeConn := s.freeConn - 1, curConn := s.curConn + 1,
            held := s.held[s.connList[0] := t]), t, Idle)
    case ReleaseNull(t) => At(s, t, Idle)
    case Give(t, c) =>
      At(s.(connList := s.connList + [c], freeConn := s.freeConn + 1, curConn := s.curConn - 1,
            held := s.held - {c}), t, Posting)
    case Post(t) => At(s.(sem := s.sem + 1), t, Idle)
  }

  /** After `init`: all connections free, the semaphore at their number, nobody inside. */
  ghost predicate Init(s: State) {
    NoRepeats(s.connList) && s.sem == |s.connList| && s.freeConn == |s.connList| == s.maxConn && s.curConn == 0
    && s.held == map[] && forall t :: t in s.pcs ==> s.pcs[t].Idle?
  }

  /** Each free connection is matched by a unit of the semaphore, or by one on its way in or out. */
  ghost predicate Balanced(s: State) {
    |s.connList| == s.sem + Count(s.pcs, IsPopping) + Count(s.pcs, IsPosting)
  }

  /** Every connection is in the pool or with one thread, never both and never twice. */
  ghost predicate Owned(s: State, conns: set<nat>) {
    NoRepeats(s.connList)
    && (forall c :: c in s.connList ==> c in conns && c !in s.held)
    && (forall c :: c in s.held ==> c in conns)
    && (forall c :: c in conns ==> c in s.connList || c in s.held)
  }

  ghost predicate Counters(s: State) {
    s.freeConn == |s.connList| && s.curConn == |s.held| && s.freeConn + s.curConn == s.maxConn
  }

  ghost predicate Inv(s: State, conns: set<nat>) {
    Balanced(s) && Owned(s, conns) && Counters(s)
  }

  /** The connections that `init` has opened. */
  function Conns(s: State): set<nat> {
    set c | c in s.connList
  }

  lemma InitInv(s: State)
    requires Init(s)
    ensures Inv(s, Conns(s))
  {
    CountNone(s.pcs, IsPopping);
    CountNone(s.pcs, IsPosting);
  }

  lemma BalanceKept(s: State, a: Action)
    requires Balanced(s) && Enabled(s, a)
    ensures Balanced(Do(s, a))
  {
    hide Count;
    var pc := Do(s, a).pcs[a.tid];
    CountMove(s.pcs, a.tid, pc, IsPopping);
    CountMove(s.pcs, a.tid, pc, IsPosting);
  }

  lemma OwnedKept(s: State, a: Action, conns: set<nat>)
    requires Owned(s, conns) && Enabled(s, a)
    ensures Owned(Do(s, a), conns)
  {
    if a.Take? {
      var c, rest := s.connList[0], s.connList[1..];
      assert s.connList == [c] + rest;
      assert c !in rest;
    }
  }

  lemma CountersKept(s: State, a: Action, conns: set<nat>)
    requires Owned(s, conns) && Counters(s) && Enabled(s, a)
    ensures Counters(Do(s, a)) && Do(s, a).maxConn == s.maxConn
  {
    if a.Take? {
      var c := s.connList[0];
      assert c in s.connList && c !in s.held;
      assert s.held[c := a.tid].Keys == s.held.Keys + {c};
    } else if a.Give? {
      assert (s.held - {a.conn}).Keys == s.held.Keys - {a.conn};
    }
  }

  lemma InvKept(s: State, a: Action, conns: set<nat>)
    requires Inv(s, conns) && Enabled(s, a)
    ensures Inv(Do(s, a), conns) && Do(s, a).maxConn == s.maxConn
  {
    hide Balanced, Owned, Counters;
    BalanceKept(s, a);
    OwnedKept(s, a, conns);
    CountersKept(s, a, conns);
  }

  ghost predicate RunOf(acts: seq<Action>, states: seq<State>) {
    |states| == |acts| + 1 && Init(states[0])
    && forall i :: 0 <= i < |acts| ==> Enabled(states[i], acts[i]) && states[i + 1] == Do(states[i], acts[i])
  }

  lemma {:induction false} RunInv(acts: seq<Action>, states: seq<State>, i: nat)
    requires RunOf(acts, states) && i <= |acts|
    ensures Inv(states[i], Conns(states[0])) && states[i].maxConn == states[0].maxConn
    decreases i
  {
    hide Inv, Do, Enabled, Init, Conns;
    if i == 0 {
      InitInv(states[0]);
    } else {
      RunInv(acts, states, i - 1);
      InvKept(states[i - 1], acts[i - 1], Conns(states[0]));
    }
  }

  /** A thread that has passed its wait always finds a connection: the pop never meets an empty list. */
  lemma TakeNeverBlocks(acts: seq<Action>, states: seq<State>, i: nat, t: nat)
    requires RunOf(acts, states) && i <= |acts| && t in states[i].pcs && states[i].pcs[t].Popping?
    ensures states[i].connList != [] && Enabled(states[i], Take(t))
  {
    RunInv(acts, states, i);
    hide Owned, Counters, Count, RunOf;
    CountSome(states[i].pcs, t, IsPopping);
  }

  /** In every run: each connection is free or held by one thread, the counters say how many,
      and once nobody is inside the pool's code the semaphore is the number of free connections. */
  lemma PoolAlways(acts: seq<Action>, states: seq<State>, i: nat)
    requires RunOf(acts, states) && i <= |acts|
    ensures var s := states[i];
            Owned(s, Conns(states[0]))
            && s.freeConn == |s.connList| && s.curConn == |s.held| && s.freeConn + s.curConn == states[0].maxConn
            && ((forall t :: t in s.pcs ==> s.pcs[t].Idle? || s.pcs[t].WantConn?) ==> s.sem == |s.connList|)
  {
    RunInv(acts, states, i);
    hide Owned, Count, RunOf;
    var s := states[i];
    if forall t :: t in s.pcs ==> s.pcs[t].Idle? || s.pcs[t].WantConn? {
      CountNone(s.pcs, IsPopping);
      CountNone(s.pcs, IsPosting);
    }
  }

  // ---------- the same, told by the actions ----------

  /** The connections that the first `i` actions gave back, in their order. */
  function Given(acts: seq<Action>, i: nat): seq<nat>
    requires i <= |acts|
  {
    if i == 0 then [] else Given(acts, i - 1) + if acts[i - 1].Give? then [acts[i - 1].conn] else []
  }

  /** How many of the first `i` actions take a connection. */
  function Takes(acts: seq<Action>, i: nat): nat
    requires i <= |acts|
  {
    if i == 0 then 0 else Takes(acts, i - 1) + if acts[i - 1].Take? then 1 else 0
  }

  /** All connections in the order in which they come to the front: the opened ones, then the ones given back. */
  function Line(acts: seq<Action>, states: seq<State>, i: nat): seq<nat>
    requires i <= |acts| && states != []
  {
    states[0].connList + Given(acts, i)
  }

  lemma StepList(s: State, a: Action)
    requires Enabled(s, a)
    ensures Do(s, a).connList == if a.Take? then s.connList[1..]
                                 else s.connList + if a.Give? then [a.conn] else []
    ensures a.Take? ==> s.connList != []
  {
  }

  /** In every run the free connections are those that came behind the ones taken. */
  lemma {:induction false} PoolHistory(acts: seq<Action>, states: seq<State>, i: nat)
    requires RunOf(acts, states) && i <= |acts|
    ensures Takes(acts, i) <= |Line(acts, states, i)|
    ensures states[i].connList == Line(acts, states, i)[Takes(acts, i)..]
    decreases i
  {
    hide Do, Init;
    if i == 0 {
      assert states[0].connList + [] == states[0].connList;
    } else {
      var a, s := acts[i - 1], states[i - 1];
      assert Enabled(s, a) && states[i] == Do(s, a);
      PoolHistory(acts, states, i - 1);
      StepList(s, a);
      LineGrows(acts, states, i);
      hide Line, Given;
      ListMoves(Line(acts, states, i - 1), Takes(acts, i - 1), a.Take?, if a.Give? then [a.conn] else []);
    }
  }

  lemma LineGrows(acts: seq<Action>, states: seq<State>, i: nat)
    requires 0 < i <= |acts| && states != []
    ensures Line(acts, states, i) == Line(acts, states, i - 1) + if acts[i - 1].Give? then [acts[i - 1].conn] else []
  {
  }

  lemma ListMoves(line: seq<nat>, n: nat, take: bool, more: seq<nat>)
    requires n <= |line|
    ensures (line + more)[n..] == line[n..] + more
    ensures take && n < |line| ==> line[n..][1..] == line[n + 1..]
    ensures line + [] == line
  {
  }

  /** `GetConnection` answers NULL if and only if every connection is out at its test. */
  lemma TestOutcome(acts: seq<Action>, states: seq<State>, i: nat, t: nat)
    requires RunOf(acts, states) && i < |acts| && acts[i] == Test(t)
    ensures t in states[i + 1].pcs
    ensures states[i + 1].pcs[t] == if Takes(acts, i) == |Line(acts, states, i)| then Idle else WantConn
  {
    PoolHistory(acts, states, i);
    hide Line, Takes, Init;
    assert Enabled(states[i], acts[i]) && states[i + 1] == Do(states[i], acts[i]);
  }

  /** A thread gets the connection at the front of the line, and no other thread loses or gains one. */
  lemma TakeOutcome(acts: seq<Action>, states: seq<State>, i: nat, t: nat)
    requires RunOf(acts, states) && i < |acts| && acts[i] == Take(t)
    ensures Takes(acts, i) < |Line(acts, states, i)|
    ensures states[i + 1].held == states[i].held[Line(acts, states, i)[Takes(acts, i)] := t]
  {
    PoolHistory(acts, states, i);
    hide Line, Takes, Init;
    assert Enabled(states[i], acts[i]) && states[i + 1] == Do(states[i], acts[i]);
  }

  /** A connection that is given back is held by nobody, and everybody else keeps theirs. */
  lemma GiveOutcome(acts: seq<Action>, states: seq<State>, i: nat, t: nat, c: nat)
    requires RunOf(acts, states) && i < |acts| && acts[i] == Give(t, c)
    ensures c in states[i].held && states[i].held[c] == t && states[i + 1].held == states[i].held - {c}
    ensures c in states[i + 1].connList
  {
    hide Init;
    assert Enabled(states[i], acts[i]) && states[i + 1] == Do(states[i], acts[i]);
    StepList(states[i], acts[i]);
    assert states[i + 1].connList[|states[i].connList|] == c;
  }
}
