/** What a timer container does, whatever its structure: ticks, and runs of additions, deletions and ticks. */
module TimerEquivalence {
  import opened Seqs
  import opened Timers

  ghost predicate AscendingInts(s: seq<int>) {
    forall i, j :: 0 <= i < j < |s| ==> s[i] <= s[j]
  }

  lemma ExpiriesWithout(f: seq<Timer>, i: nat)
    requires i < |f|
    ensures multiset(Expiries(f)) == multiset(Expiries(Remove(f, i))) + multiset{f[i].expire}
  {
    assert Remove(Expiries(f), i) == Expiries(Remove(f, i));
    WithoutMultiset(Expiries(f), i);
  }

  /** The expiries of the same timers in another order are the same expiries. */
  lemma {:induction false} ExpiriesOfSame(f: seq<Timer>, g: seq<Timer>)
    requires multiset(f) == multiset(g)
    ensures multiset(Expiries(f)) == multiset(Expiries(g))
    decreases |f|
  {
    hide Remove, Expiries;
    SameLength(f, g);
    if f == [] {
      assert g == [];
    } else {
      var x := f[0];
      assert x in multiset(g);
      var i :| 0 <= i < |g| && g[i] == x;
      WithoutMultiset(f, 0);
      WithoutMultiset(g, i);
      Cancel(multiset(Remove(f, 0)), multiset(Remove(g, i)), x);
      ExpiriesOfSame(Remove(f, 0), Remove(g, i));
      ExpiriesWithout(f, 0);
      ExpiriesWithout(g, i);
    }
  }

  lemma FirstIsLeast(a: seq<int>, x: int)
    requires AscendingInts(a) && x in multiset(a)
    ensures a[0] <= x
  {
    var i :| 0 <= i < |a| && a[i] == x;
  }

  /** There is only one ascending order of given numbers. */
  lemma {:induction false} AscendingUnique(a: seq<int>, b: seq<int>)
    requires AscendingInts(a) && AscendingInts(b) && multiset(a) == multiset(b)
    ensures a == b
    decreases |a|
  {
    SameLength(a, b);
    if a != [] {
      FirstIsLeast(a, b[0]);
      FirstIsLeast(b, a[0]);
      TailsOfSame(a, b);
      AscendingUnique(a[1..], b[1..]);
      assert a == [a[0]] + a[1..] && b == [b[0]] + b[1..];
    }
  }

  lemma TailsOfSame(a: seq<int>, b: seq<int>)
    requires a != [] && b != [] && a[0] == b[0] && multiset(a) == multiset(b)
    ensures multiset(a[1..]) == multiset(b[1..])
  {
    assert a == [a[0]] + a[1..] && b == [b[0]] + b[1..];
    assert multiset(a) == multiset{a[0]} + multiset(a[1..]);
    assert multiset(b) == multiset{b[0]} + multiset(b[1..]);
    assert multiset(a) - multiset{a[0]} == multiset(a[1..]);
    assert multiset(b) - multiset{b[0]} == multiset(b[1..]);
  }

  /** A tick is determined up to the order of timers that expire together. */
  lemma TickDetermined(before: multiset<Timer>, now: int,
                       f: seq<Timer>, p: multiset<Timer>, g: seq<Timer>, q: multiset<Timer>)
    requires TickOf(before, now, f, p) && TickOf(before, now, g, q)
    ensures multiset(f) == multiset(g) && Expiries(f) == Expiries(g) && p == q
  {
    TickCounts(before, now, f, p);
    TickCounts(before, now, g, q);
    assert multiset(f) == multiset(g) && p == q;
    SameOrder(f, g);
  }

  lemma SameOrder(f: seq<Timer>, g: seq<Timer>)
    requires multiset(f) == multiset(g) && Ascending(f) && Ascending(g)
    ensures Expiries(f) == Expiries(g)
  {
    ExpiriesOfSame(f, g);
    AscendingUnique(Expiries(f), Expiries(g));
  }

  /** Exactly the expired timers leave, each as often as it was pending. */
  lemma TickCounts(before: multiset<Timer>, now: int, f: seq<Timer>, p: multiset<Timer>)
    requires TickOf(before, now, f, p)
    ensures forall t :: multiset(f)[t] == if t.expire <= now then before[t] else 0
    ensures forall t :: p[t] == if t.expire <= now then 0 else before[t]
  {
    forall t: Timer
      ensures multiset(f)[t] == if t.expire <= now then before[t] else 0
      ensures p[t] == if t.expire <= now then 0 else before[t]
    {
      assert before[t] == multiset(f)[t] + p[t];
      assert t in multiset(f) ==> t in f;
    }
  }

  // ---------- whole runs ----------

  /** The pending timers as a caller knows them: the expiry of each identity. */
  type Agenda = map<nat, int>

  /** An operation on a container: a timer is added, deleted or given a later expiry, or the clock strikes. */
  datatype Op = Add(timer: Timer) | Del(id: nat) | Prolong(id: nat, expire: int) | TickAt(now: int)

  /** No two pending timers share an identity, only pending timers are deleted or prolonged,
      and a prolonged timer does not expire earlier than before. */
  predicate Proper(a: Agenda, op: Op) {
    match op
    case Add(t) => t.id !in a
    case Del(id) => id in a
    case Prolong(id, expire) => id in a && a[id] <= expire
    case TickAt(_) => true
  }

  function Apply(a: Agenda, op: Op): Agenda {
    match op
    case Add(t) => a[t.id := t.expire]
    case Del(id) => a - {id}
    case Prolong(id, expire) => a[id := expire]
    case TickAt(now) => map id | id in a && a[id] > now :: a[id]
  }

  function Expired(a: Agenda, now: int): Agenda {
    map id | id in a && a[id] <= now :: a[id]
  }

  /** What is pending after the first `i` operations, when `a` was pending before. */
  function AgendaAt(a: Agenda, ops: seq<Op>, i: nat): Agenda
    requires i <= |ops|
  {
    if i == 0 then a else Apply(AgendaAt(a, ops, i - 1), ops[i - 1])
  }

  predicate ProperRun(a: Agenda, ops: seq<Op>) {
    forall i :: 0 <= i < |ops| ==> Proper(AgendaAt(a, ops, i), ops[i])
  }

  /** The timers of the agenda, each once, and no others. */
  ghost predicate Holds(m: multiset<Timer>, a: Agenda) {
    forall t: Timer :: m[t] == if t.id in a && a[t.id] == t.expire then 1 else 0
  }

  /** A tick runs the callbacks of the expired timers, each once, in order of expiry. */
  ghost predicate FiredBy(a: Agenda, op: Op, fired: seq<Timer>) {
    match op
    case TickAt(now) => Ascending(fired) && Holds(multiset(fired), Expired(a, now))
    case _ => fired == []
  }

  /** What each of the first `n` operations fired. */
  ghost predicate LogUpTo(a: Agenda, ops: seq<Op>, n: nat, log: seq<seq<Timer>>) {
    |log| == n <= |ops| && forall i :: 0 <= i < n ==> FiredBy(AgendaAt(a, ops, i), ops[i], log[i])
  }

  ghost predicate LogOf(a: Agenda, ops: seq<Op>, log: seq<seq<Timer>>) {
    LogUpTo(a, ops, |ops|, log)
  }

  lemma LogStart(a: Agenda, ops: seq<Op>)
    ensures LogUpTo(a, ops, 0, [])
  {
  }

  lemma LogStep(a: Agenda, ops: seq<Op>, n: nat, log: seq<seq<Timer>>, fired: seq<Timer>)
    requires LogUpTo(a, ops, n, log) && n < |ops| && FiredBy(AgendaAt(a, ops, n), ops[n], fired)
    ensures LogUpTo(a, ops, n + 1, log + [fired])
  {
    hide FiredBy, AgendaAt;
  }

  lemma HoldsOnly(m: multiset<Timer>, n: multiset<Timer>, a: Agenda)
    requires Holds(m, a) && Holds(n, a)
    ensures m == n
  {
  }

  /** At each operation the same callbacks, in the same order of expiries. */
  ghost predicate SameFirings(f: seq<seq<Timer>>, g: seq<seq<Timer>>) {
    |f| == |g|
    && forall i :: 0 <= i < |f| ==> multiset(f[i]) == multiset(g[i]) && Expiries(f[i]) == Expiries(g[i])
  }

  /** Two containers that serve the same operations run the same callbacks. */
  lemma LogsAgree(a: Agenda, ops: seq<Op>, f: seq<seq<Timer>>, g: seq<seq<Timer>>)
    requires LogOf(a, ops, f) && LogOf(a, ops, g)
    ensures |f| == |ops| && SameFirings(f, g)
  {
    hide Expiries, Holds, Expired;
    forall i | 0 <= i < |ops|
      ensures multiset(f[i]) == multiset(g[i]) && Expiries(f[i]) == Expiries(g[i])
    {
      var b := AgendaAt(a, ops, i);
      assert FiredBy(b, ops[i], f[i]) && FiredBy(b, ops[i], g[i]);
      if ops[i].TickAt? {
        HoldsOnly(multiset(f[i]), multiset(g[i]), Expired(b, ops[i].now));
        SameOrder(f[i], g[i]);
      }
    }
  }

  // ---------- timers that are there from the start ----------

  ghost predicate DistinctIds(s: seq<Timer>) {
    forall i, j :: 0 <= i < j < |s| ==> s[i].id != s[j].id
  }

  function AgendaOf(s: seq<Timer>): Agenda {
    if s == [] then map[] else var t := s[|s| - 1]; AgendaOf(s[..|s| - 1])[t.id := t.expire]
  }

  lemma {:induction false} AgendaOfIds(s: seq<Timer>, id: nat)
    ensures id in AgendaOf(s) <==> exists i :: 0 <= i < |s| && s[i].id == id
    decreases |s|
  {
    if s != [] {
      var n := |s| - 1;
      AgendaOfIds(s[..n], id);
      assert s[n].id == id ==> id in AgendaOf(s);
      if exists i :: 0 <= i < |s| && s[i].id == id {
        var i :| 0 <= i < |s| && s[i].id == id;
        assert i < n ==> s[..n][i].id == id;
      }
    }
  }

  /** Timers with distinct identities make an agenda of exactly these timers. */
  lemma {:induction false} HoldsAll(s: seq<Timer>)
    requires DistinctIds(s)
    ensures Holds(multiset(s), AgendaOf(s))
    decreases |s|
  {
    if s != [] {
      var n := |s| - 1;
      HoldsAll(s[..n]);
      AgendaOfIds(s[..n], s[n].id);
      HoldsAdd(multiset(s[..n]), AgendaOf(s[..n]), s[n]);
      assert s == s[..n] + [s[n]];
    }
  }

  /** The operations that add the timers one by one. */
  function Adds(s: seq<Timer>): (r: seq<Op>)
    ensures |r| == |s| && forall i :: 0 <= i < |s| ==> r[i] == Add(s[i])
  {
    seq(|s|, i requires 0 <= i < |s| => Add(s[i]))
  }

  lemma {:induction false} AgendaOfAdds(s: seq<Timer>, ops: seq<Op>, i: nat)
    requires i <= |s|
    ensures AgendaAt(map[], Adds(s) + ops, i) == AgendaOf(s[..i])
    decreases i
  {
    if i > 0 {
      AgendaOfAdds(s, ops, i - 1);
      assert s[..i][..i - 1] == s[..i - 1];
    }
  }

  lemma {:induction false} AgendaBehind(s: seq<Timer>, ops: seq<Op>, i: nat)
    requires i <= |ops|
    ensures AgendaAt(map[], Adds(s) + ops, |s| + i) == AgendaAt(AgendaOf(s), ops, i)
    decreases i
  {
    if i == 0 {
      AgendaOfAdds(s, ops, |s|);
      assert s[..|s|] == s;
    } else {
      AgendaBehind(s, ops, i - 1);
    }
  }

  lemma ProperAdd(s: seq<Timer>, i: nat)
    requires DistinctIds(s) && i < |s|
    ensures s[i].id !in AgendaOf(s[..i])
  {
    AgendaOfIds(s[..i], s[i].id);
    hide AgendaOf;
    assert forall j :: 0 <= j < i ==> s[..i][j].id != s[i].id;
  }

  /** Adding the timers first and then operating is a proper run from nothing. */
  lemma ProperBehind(s: seq<Timer>, ops: seq<Op>)
    requires DistinctIds(s) && ProperRun(AgendaOf(s), ops)
    ensures ProperRun(map[], Adds(s) + ops)
  {
    hide AgendaAt, AgendaOf, Adds, DistinctIds;
    var all := Adds(s) + ops;
    forall i | 0 <= i < |all|
      ensures Proper(AgendaAt(map[], all, i), all[i])
    {
      if i < |s| {
        AgendaOfAdds(s, ops, i);
        ProperAdd(s, i);
        assert all[i] == Add(s[i]);
      } else {
        AgendaBehind(s, ops, i - |s|);
        assert Proper(AgendaAt(AgendaOf(s), ops, i - |s|), ops[i - |s|]);
      }
    }
  }

  lemma LoggedBehind(s: seq<Timer>, ops: seq<Op>, log: seq<seq<Timer>>, i: nat)
    requires LogOf(map[], Adds(s) + ops, log) && i < |ops|
    ensures |log| == |s| + |ops| && FiredBy(AgendaAt(AgendaOf(s), ops, i), ops[i], log[|s| + i])
  {
    hide FiredBy, AgendaAt, AgendaOf, Adds;
    var all := Adds(s) + ops;
    AgendaBehind(s, ops, i);
    assert FiredBy(AgendaAt(map[], all, |s| + i), all[|s| + i], log[|s| + i]);
  }

  lemma LogBehind(s: seq<Timer>, ops: seq<Op>, log: seq<seq<Timer>>)
    requires LogOf(map[], Adds(s) + ops, log)
    ensures |log| == |s| + |ops| && LogOf(AgendaOf(s), ops, log[|s|..])
  {
    assert |log| == |s| + |ops|;
    hide FiredBy, AgendaAt, AgendaOf, Adds, LogUpTo;
    var tail := log[|s|..];
    forall i | 0 <= i < |ops|
      ensures FiredBy(AgendaAt(AgendaOf(s), ops, i), ops[i], tail[i])
    {
      LoggedBehind(s, ops, log, i);
      assert tail[i] == log[|s| + i];
    }
    LogWhole(AgendaOf(s), ops, tail);
  }

  lemma LogWhole(a: Agenda, ops: seq<Op>, log: seq<seq<Timer>>)
    requires |log| == |ops| && forall i :: 0 <= i < |ops| ==> FiredBy(AgendaAt(a, ops, i), ops[i], log[i])
    ensures LogOf(a, ops, log)
  {
  }

  lemma HoldsAdd(m: multiset<Timer>, a: Agenda, t: Timer)
    requires Holds(m, a) && t.id !in a
    ensures Holds(m + multiset{t}, Apply(a, Add(t)))
  {
  }

  lemma HoldsDel(m: multiset<Timer>, a: Agenda, id: nat)
    requires Holds(m, a) && id in a
    ensures Holds(m - multiset{Timer(id, a[id])}, Apply(a, Del(id)))
  {
  }

  lemma HoldsProlong(m: multiset<Timer>, a: Agenda, id: nat, expire: int)
    requires Holds(m, a) && id in a
    ensures Holds(m - multiset{Timer(id, a[id])} + multiset{Timer(id, expire)}, Apply(a, Prolong(id, expire)))
  {
    HoldsDel(m, a, id);
    HoldsAdd(m - multiset{Timer(id, a[id])}, Apply(a, Del(id)), Timer(id, expire));
    ProlongedAgenda(a, id, expire);
  }

  /** A prolongation is a deletion and an addition. */
  lemma ProlongedAgenda(a: Agenda, id: nat, expire: int)
    ensures Apply(Apply(a, Del(id)), Add(Timer(id, expire))) == Apply(a, Prolong(id, expire))
  {
  }

  lemma HoldsTick(m: multiset<Timer>, a: Agenda, now: int, fired: seq<Timer>, m': multiset<Timer>)
    requires Holds(m, a) && TickOf(m, now, fired, m')
    ensures Holds(m', Apply(a, TickAt(now))) && FiredBy(a, TickAt(now), fired)
  {
    TickCounts(m, now, fired, m');
  }

  // ---------- when a timer fires, told by the operations ----------

  /** The operation gives timer `id` the expiry `e`. */
  predicate SetsExpiry(op: Op, id: nat, e: int) {
    op == Add(Timer(id, e)) || op == Prolong(id, e)
  }

  /** The operation leaves a pending timer `id` with expiry `e` alone: it is not about this timer,
      and if it is a tick then not a late enough one. */
  predicate Leaves(op: Op, id: nat, e: int) {
    match op
    case Add(t) => t.id != id
    case Del(i) => i != id
    case Prolong(i, _) => i != id
    case TickAt(now) => now < e
  }

  predicate LeftFrom(ops: seq<Op>, id: nat, e: int, i: nat, j: nat) {
    forall k :: i <= k < j && k < |ops| ==> Leaves(ops[k], id, e)
  }

  /** Before operation `j` the timer is pending with expiry `e`: it was so from the start, or some operation
      set it, and everything since has left it alone. */
  ghost predicate PendingAt(a: Agenda, ops: seq<Op>, j: nat, id: nat, e: int) {
    (id in a && a[id] == e && LeftFrom(ops, id, e, 0, j))
    || exists i :: 0 <= i < j && i < |ops| && SetsExpiry(ops[i], id, e) && LeftFrom(ops, id, e, i + 1, j)
  }

  lemma PendingStep(a: Agenda, ops: seq<Op>, j: nat, id: nat, e: int)
    requires j < |ops|
    ensures PendingAt(a, ops, j + 1, id, e) <==>
              SetsExpiry(ops[j], id, e) || (PendingAt(a, ops, j, id, e) && Leaves(ops[j], id, e))
  {
    hide SetsExpiry, Leaves;
    if SetsExpiry(ops[j], id, e) {
      assert LeftFrom(ops, id, e, j + 1, j + 1);
    }
    if Leaves(ops[j], id, e) {
      assert forall i: nat :: LeftFrom(ops, id, e, i, j) ==> LeftFrom(ops, id, e, i, j + 1);
    }
    if PendingAt(a, ops, j + 1, id, e) && !SetsExpiry(ops[j], id, e) {
      assert forall i: nat :: i <= j && LeftFrom(ops, id, e, i, j + 1) ==>
               Leaves(ops[j], id, e) && LeftFrom(ops, id, e, i, j);
    }
  }

  lemma ApplyStep(a: Agenda, op: Op, id: nat, e: int)
    ensures var b := Apply(a, op);
            (id in b && b[id] == e) <==> SetsExpiry(op, id, e) || (id in a && a[id] == e && Leaves(op, id, e))
  {
  }

  lemma {:induction false} AgendaMeans(a: Agenda, ops: seq<Op>, j: nat, id: nat, e: int)
    requires j <= |ops|
    ensures var b := AgendaAt(a, ops, j); (id in b && b[id] == e) <==> PendingAt(a, ops, j, id, e)
    decreases j
  {
    hide Apply, PendingAt, SetsExpiry, Leaves;
    if j == 0 {
      PendingFirst(a, ops, id, e);
    } else {
      AgendaMeans(a, ops, j - 1, id, e);
      ApplyStep(AgendaAt(a, ops, j - 1), ops[j - 1], id, e);
      PendingStep(a, ops, j - 1, id, e);
    }
  }

  lemma PendingFirst(a: Agenda, ops: seq<Op>, id: nat, e: int)
    ensures PendingAt(a, ops, 0, id, e) <==> id in a && a[id] == e
  {
  }

  /** In every run that is logged, operation `j` fires timer `t` once if it is a tick at or after the expiry and `t`
      is then pending, told by the operations before; otherwise it does not fire it. */
  lemma FiresIff(a: Agenda, ops: seq<Op>, log: seq<seq<Timer>>, j: nat, t: Timer)
    requires LogOf(a, ops, log) && j < |ops|
    ensures j < |log| && Ascending(log[j])
    ensures multiset(log[j])[t] ==
              if ops[j].TickAt? && t.expire <= ops[j].now && PendingAt(a, ops, j, t.id, t.expire) then 1 else 0
  {
    hide AgendaAt, PendingAt;
    AgendaMeans(a, ops, j, t.id, t.expire);
    assert FiredBy(AgendaAt(a, ops, j), ops[j], log[j]);
  }
}
