/** A timer container as deadlines counted in ticks, and what every run of it does. */
module WheelRuns {

  /** `now` ticks have been made; each pending timer has the number of the tick that will fire it. */
  datatype Clock<!T> = Clock(now: nat, pending: map<T, nat>)

  /** Operations that a caller may interleave in any way. `Idle` is a call that does nothing,
      as an addition with a negative timeout or the deletion of NULL. */
  datatype Op<T> = Add(timer: T, ticks: nat) | Del(timer: T) | Tick | Idle

  /** An addition is of a new timer, a deletion of a pending one. */
  predicate Proper<T(==)>(c: Clock<T>, op: Op<T>) {
    match op
    case Add(t, _) => t !in c.pending
    case Del(t) => t in c.pending
    case _ => true
  }

  /** The timers that the next tick fires. */
  function Due<T(==)>(c: Clock<T>): set<T> {
    set t | t in c.pending && c.pending[t] == c.now
  }

  function Apply<T(==)>(c: Clock<T>, op: Op<T>): Clock<T> {
    match op
    case Add(t, ticks) => c.(pending := c.pending[t := c.now + ticks])
    case Del(t) => c.(pending := c.pending - {t})
    case Tick => Clock(c.now + 1, c.pending - Due(c))
    case Idle => c
  }

  /** A run: the clock around each operation. */
  ghost predicate RunOf<T>(ops: seq<Op<T>>, clocks: seq<Clock<T>>) {
    |clocks| == |ops| + 1
    && forall i :: 0 <= i < |ops| ==> Proper(clocks[i], ops[i]) && clocks[i + 1] == Apply(clocks[i], ops[i])
  }

  function IsTick<T>(op: Op<T>): nat {
    if op.Tick? then 1 else 0
  }

  /** How many of the operations from `i` up to `j` are ticks. */
  function Ticks<T>(ops: seq<Op<T>>, i: nat, j: nat): nat
    requires i <= j <= |ops|
    decreases j
  {
    if i == j then 0 else Ticks(ops, i, j - 1) + IsTick(ops[j - 1])
  }

  /** Neither added again nor deleted between `i` and `j`. */
  ghost predicate LeftAlone<T>(ops: seq<Op<T>>, t: T, i: nat, j: nat)
    requires i <= j <= |ops|
  {
    forall k :: i <= k < j ==> ops[k] != Del(t) && (ops[k].Add? ==> ops[k].timer != t)
  }

  /** Does operation `k` of the run fire `t`? */
  ghost predicate FiredAt<T>(ops: seq<Op<T>>, clocks: seq<Clock<T>>, t: T, k: nat)
    requires k < |ops| && k < |clocks|
  {
    ops[k].Tick? && t in Due(clocks[k])
  }

  /** Time only moves by ticks. */
  lemma {:induction false} NowCounts<T>(ops: seq<Op<T>>, clocks: seq<Clock<T>>, i: nat, j: nat)
    requires RunOf(ops, clocks) && i <= j <= |ops|
    ensures clocks[j].now == clocks[i].now + Ticks(ops, i, j)
    decreases j
  {
    if i < j {
      NowCounts(ops, clocks, i, j - 1);
      assert clocks[j] == Apply(clocks[j - 1], ops[j - 1]);
    }
  }

  /** Added by operation `a` with `n` ticks and then left alone, a timer is pending exactly as long as
      at most `n` ticks have been made since. */
  lemma {:induction false} PendingWhile<T>(ops: seq<Op<T>>, clocks: seq<Clock<T>>, a: nat, t: T, n: nat, j: nat)
    requires RunOf(ops, clocks) && a < j <= |ops| && ops[a] == Add(t, n) && LeftAlone(ops, t, a + 1, j)
    ensures t in clocks[j].pending <==> Ticks(ops, a + 1, j) <= n
    ensures t in clocks[j].pending ==> clocks[j].pending[t] == clocks[a].now + n
    decreases j
  {
    if j == a + 1 {
      assert clocks[j] == Apply(clocks[a], ops[a]);
    } else {
      PendingWhile(ops, clocks, a, t, n, j - 1);
      NowCounts(ops, clocks, a + 1, j - 1);
      assert clocks[a + 1] == Apply(clocks[a], ops[a]);
      assert clocks[j] == Apply(clocks[j - 1], ops[j - 1]) && Proper(clocks[j - 1], ops[j - 1]);
      assert ops[j - 1] != Del(t) && (ops[j - 1].Add? ==> ops[j - 1].timer != t);
    }
  }

  /** A timer added with `n` ticks, and not deleted since, fires on exactly the (n+1)-th later tick. */
  lemma FiresOnTime<T>(ops: seq<Op<T>>, clocks: seq<Clock<T>>, a: nat, t: T, n: nat, k: nat)
    requires RunOf(ops, clocks) && a < k < |ops| && ops[a] == Add(t, n) && LeftAlone(ops, t, a + 1, k)
    ensures FiredAt(ops, clocks, t, k) <==> ops[k].Tick? && Ticks(ops, a + 1, k) == n
  {
    PendingWhile(ops, clocks, a, t, n, k);
    NowCounts(ops, clocks, a + 1, k);
    assert clocks[a + 1] == Apply(clocks[a], ops[a]);
  }

  /** And on no other: once fired it does not fire again while it is left alone. */
  lemma FiresOnce<T>(ops: seq<Op<T>>, clocks: seq<Clock<T>>, a: nat, t: T, n: nat, k: nat, m: nat)
    requires RunOf(ops, clocks) && a < k < m < |ops| && ops[a] == Add(t, n) && LeftAlone(ops, t, a + 1, m)
    requires FiredAt(ops, clocks, t, k)
    ensures !FiredAt(ops, clocks, t, m)
  {
    FiresOnTime(ops, clocks, a, t, n, k);
    FiresOnTime(ops, clocks, a, t, n, m);
    TicksGrow(ops, a + 1, k, m);
  }

  lemma {:induction false} TicksGrow<T>(ops: seq<Op<T>>, i: nat, k: nat, m: nat)
    requires i <= k < m <= |ops| && ops[k].Tick?
    ensures Ticks(ops, i, m) > Ticks(ops, i, k)
    decreases m
  {
    if m > k + 1 {
      TicksGrow(ops, i, k, m - 1);
    }
  }

  /** A deleted timer does not fire until it is added again. */
  lemma {:induction false} DeletedIsSilent<T>(ops: seq<Op<T>>, clocks: seq<Clock<T>>, d: nat, t: T, k: nat)
    requires RunOf(ops, clocks) && d < k < |ops| && ops[d] == Del(t) && LeftAlone(ops, t, d + 1, k)
    ensures t !in clocks[k].pending && !FiredAt(ops, clocks, t, k)
    decreases k
  {
    if k == d + 1 {
      assert clocks[k] == Apply(clocks[d], ops[d]);
    } else {
      DeletedIsSilent(ops, clocks, d, t, k - 1);
      assert clocks[k] == Apply(clocks[k - 1], ops[k - 1]);
      assert ops[k - 1].Add? ==> ops[k - 1].timer != t;
    }
  }
}
