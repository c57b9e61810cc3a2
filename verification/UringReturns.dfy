/** When `copy_file` returns 0 and when 1, told by the events it meets one after the other. */
module UringReturns {
  import opened Bytes
  import opened Seqs
  import opened UringCopy
  import opened UringRuns

  /** The error number with which the kernel asks for another try. */
  const TRY_AGAIN := -11

  // ---------- one event after the other ----------

  /** Everything is read and no write is awaited. */
  predicate Finishes(s: Copy) {
    s.writeLeft == 0 && s.nWrites <= 0
  }

  /** An event that makes the function return 1: a failed wait or peek, an error other than TRY_AGAIN while
      something is left to read, and any error afterwards. */
  predicate Fatal(s: Copy, e: Event) {
    e.WaitError? || (e.Complete? && Allowed(s, e.id, e.res) && e.res < 0 && (s.writeLeft == 0 || e.res != TRY_AGAIN))
  }

  /** The state after an event that is not fatal. A completion moves bytes; everything else changes nothing. */
  ghost function Next(input: seq<byte>, s: Copy, e: Event): (s': Copy)
    requires Inv(input, s) && !Finishes(s)
    ensures Inv(input, s')
  {
    if e.Complete? && Allowed(s, e.id, e.res) && e.res >= 0 then
      AllowedIn(s, e.id, e.res);
      if s.writeLeft != 0 then
        CompleteKeeps(input, s, e.id, e.res);
        OnComplete(input, s, e.id, e.res)
      else
        Drained(input, s, e.id, e.res);
        OnDrain(s, e.id, e.res)
    else s
  }

  lemma Drained(input: seq<byte>, s: Copy, id: nat, n: nat)
    requires Inv(input, s) && s.writeLeft == 0 && id in s.ring && n <= s.ring[id].len
    ensures s.ring[id].base + s.ring[id].len <= |s.ring[id].buf|
    ensures Inv(input, OnDrain(s, id, n)) && OnDrain(s, id, n).writeLeft == 0
  {
    OnlyWrites(input, s);
    RequestIn(input, s, id);
    hide Inv;
    DrainKeeps(input, s, id, n);
  }

  /** One loop over the events, from a state in which the window has been submitted. */
  ghost function Events(input: seq<byte>, s: Copy, ev: seq<Event>): (Exit, Copy)
    requires Inv(input, s)
    decreases |ev|
  {
    if Finishes(s) then (Returned(0), s)
    else if ev == [] then (Blocked, s)
    else if Fatal(s, ev[0]) then (Returned(1), s)
    else Events(input, Next(input, s, ev[0]), ev[1..])
  }

  // ---------- the two loops of the source are this one loop ----------

  /** The completion loop and then the drain loop. */
  ghost function Continue(input: seq<byte>, s: Copy, ev: seq<Event>): (Exit, Copy)
    requires Inv(input, s)
  {
    ReapInv(input, s, ev);
    var r := ReapTo(input, s, ev);
    InvSafe(input, r.s);
    if r.Ended? then (r.exit, r.s) else DrainTo(input, r.s, r.rest)
  }

  lemma {:induction false} DrainIsEvents(input: seq<byte>, s: Copy, ev: seq<Event>)
    requires Inv(input, s) && SafeRing(input, s) && s.writeLeft == 0
    ensures DrainTo(input, s, ev) == Events(input, s, ev)
    decreases |ev|
  {
    hide Inv, SafeRing, OnDrain, OnComplete, Allowed;
    if s.nWrites > 0 && ev != [] && !Fatal(s, ev[0]) {
      var s' := Next(input, s, ev[0]);
      if ev[0].Complete? && Allowed(s, ev[0].id, ev[0].res) {
        AllowedIn(s, ev[0].id, ev[0].res);
        Drained(input, s, ev[0].id, ev[0].res);
        DrainSafe(input, s, ev[0].id, ev[0].res);
      }
      DrainIsEvents(input, s', ev[1..]);
    }
  }

  /** One event met by the completion loop. */
  lemma ReapOne(input: seq<byte>, s: Copy, ev: seq<Event>)
    requires Inv(input, s) && s.writeLeft != 0 && ev != []
    ensures ReapTo(input, s, ev) == if Fatal(s, ev[0]) then Ended(Returned(1), s)
                                    else ReapTo(input, Next(input, s, ev[0]), ev[1..])
  {
    hide Inv, OnComplete, Allowed;
    if ev[0].Complete? && Allowed(s, ev[0].id, ev[0].res) && ev[0].res >= 0 {
      AllowedIn(s, ev[0].id, ev[0].res);
      CompleteKeeps(input, s, ev[0].id, ev[0].res);
    }
  }

  /** The loops of the source do exactly what the one loop does. */
  lemma {:induction false} ContinueIsEvents(input: seq<byte>, s: Copy, ev: seq<Event>)
    requires Inv(input, s)
    ensures Continue(input, s, ev) == Events(input, s, ev)
    decreases |ev|
  {
    hide Inv, SafeRing, Fatal, ReapTo, DrainTo, Next;
    if s.writeLeft == 0 {
      ReapNothing(input, s, ev);
      InvSafe(input, s);
      DrainIsEvents(input, s, ev);
    } else if ev == [] {
      ReapWaits(input, s);
    } else {
      ReapOne(input, s, ev);
      if !Fatal(s, ev[0]) {
        ContinueIsEvents(input, Next(input, s, ev[0]), ev[1..]);
      }
    }
  }

  lemma ReapWaits(input: seq<byte>, s: Copy)
    requires Inv(input, s) && s.writeLeft != 0
    ensures ReapTo(input, s, []) == Ended(Blocked, s)
  {
  }

  // ---------- what is returned ----------

  /** The state after the first `k` events, had none of them ended the function. */
  ghost function StateAt(input: seq<byte>, s: Copy, ev: seq<Event>, k: nat): (s': Copy)
    requires Inv(input, s) && k <= |ev|
    ensures Inv(input, s')
    decreases k
  {
    if k == 0 then s
    else
      var before := StateAt(input, s, ev, k - 1);
      if Finishes(before) then before else Next(input, before, ev[k - 1])
  }

  /** The function is still running when it has taken the first `k` events. */
  ghost predicate Running(input: seq<byte>, s: Copy, ev: seq<Event>, k: nat)
    requires Inv(input, s) && k <= |ev|
  {
    forall j :: 0 <= j < k ==>
      !Finishes(StateAt(input, s, ev, j)) && !Fatal(StateAt(input, s, ev, j), ev[j])
  }

  /** A run that has got through `k` events goes on from the state there. */
  lemma {:induction false} EventsFrom(input: seq<byte>, s: Copy, ev: seq<Event>, k: nat)
    requires Inv(input, s) && k <= |ev| && Running(input, s, ev, k)
    ensures Events(input, s, ev) == Events(input, StateAt(input, s, ev, k), ev[k..])
    decreases k
  {
    hide Inv, Fatal, Finishes, Next;
    if k == 0 {
      assert ev[0..] == ev;
    } else {
      EventsFrom(input, s, ev, k - 1);
      assert ev[k - 1..][0] == ev[k - 1] && ev[k - 1..][1..] == ev[k..];
    }
  }

  /** The event at `k` is taken and ends the function with 1. */
  ghost predicate FailsAt(input: seq<byte>, s: Copy, ev: seq<Event>, k: nat)
    requires Inv(input, s)
  {
    k < |ev| && Running(input, s, ev, k) && !Finishes(StateAt(input, s, ev, k))
    && Fatal(StateAt(input, s, ev, k), ev[k])
  }

  /** After `k` events everything is read and written. */
  ghost predicate EndsAt(input: seq<byte>, s: Copy, ev: seq<Event>, k: nat)
    requires Inv(input, s)
  {
    k <= |ev| && Running(input, s, ev, k) && Finishes(StateAt(input, s, ev, k))
  }

  /** Every run ends at an event, or is through with them and waits for more. */
  lemma {:induction false} HowItEnds(input: seq<byte>, s: Copy, ev: seq<Event>, k: nat) returns (n: nat)
    requires Inv(input, s) && k <= |ev| && Running(input, s, ev, k)
    ensures FailsAt(input, s, ev, n) || EndsAt(input, s, ev, n) || (n == |ev| && Running(input, s, ev, n))
    decreases |ev| - k
  {
    hide Inv, Fatal, Finishes, StateAt;
    var here := StateAt(input, s, ev, k);
    if Finishes(here) || k == |ev| || Fatal(here, ev[k]) {
      n := k;
    } else {
      n := HowItEnds(input, s, ev, k + 1);
    }
  }

  lemma FailsReturns(input: seq<byte>, s: Copy, ev: seq<Event>, k: nat)
    requires Inv(input, s) && FailsAt(input, s, ev, k)
    ensures Events(input, s, ev) == (Returned(1), StateAt(input, s, ev, k))
  {
    hide Inv, Fatal, Finishes, Next, StateAt;
    EventsFrom(input, s, ev, k);
    assert ev[k..][0] == ev[k];
  }

  lemma EndsReturns(input: seq<byte>, s: Copy, ev: seq<Event>, k: nat)
    requires Inv(input, s) && EndsAt(input, s, ev, k)
    ensures Events(input, s, ev) == (Returned(0), StateAt(input, s, ev, k))
  {
    hide Inv, Fatal, Finishes, Next, StateAt;
    EventsFrom(input, s, ev, k);
  }

  /** 1 is returned exactly if some event that is taken is fatal, 0 exactly if everything gets done before. */
  lemma EventsReturn(input: seq<byte>, s: Copy, ev: seq<Event>)
    requires Inv(input, s)
    ensures Events(input, s, ev).0 == Returned(1) <==> exists k :: FailsAt(input, s, ev, k)
    ensures Events(input, s, ev).0 == Returned(0) <==> exists k :: EndsAt(input, s, ev, k)
  {
    hide Inv, FailsAt, EndsAt, Events;
    if k :| FailsAt(input, s, ev, k) {
      FailsReturns(input, s, ev, k);
    }
    if k :| EndsAt(input, s, ev, k) {
      EndsReturns(input, s, ev, k);
    }
    var n := HowItEnds(input, s, ev, 0);
    if !FailsAt(input, s, ev, n) && !EndsAt(input, s, ev, n) {
      StillRunning(input, s, ev);
    }
  }

  lemma StillRunning(input: seq<byte>, s: Copy, ev: seq<Event>)
    requires Inv(input, s) && Running(input, s, ev, |ev|) && !EndsAt(input, s, ev, |ev|)
    ensures Events(input, s, ev).0 == Blocked
  {
    hide Inv, Fatal, Finishes, Next, StateAt;
    EventsFrom(input, s, ev, |ev|);
    assert ev[|ev|..] == [];
  }

  /** The submit of the first window fails: the next event says so, and there is something to submit. */
  ghost predicate SubmitFails(input: seq<byte>, sched: seq<Event>) {
    var (s1, rest) := Window(input, sched);
    s1.nReads != 0 && rest != [] && rest[0].SubmitError?
  }

  /** `copy_file` returns 1 if and only if the submit did not fail and it takes a fatal event; it returns 0 if and
      only if the submit failed or everything gets done. */
  lemma ReturnsIff(input: seq<byte>, sched: seq<Event>)
    ensures var (s1, rest) := Window(input, sched);
            var r := CopyTo(input, sched);
            (r.submitFailed <==> SubmitFails(input, sched))
            && (r.exit == Returned(1) <==>
                  !SubmitFails(input, sched) && exists k :: FailsAt(input, s1, rest, k))
            && (r.exit == Returned(0) <==>
                  SubmitFails(input, sched) || exists k :: EndsAt(input, s1, rest, k))
  {
    hide Inv, FailsAt, EndsAt, Events, ReapTo, DrainTo, Window;
    var (s1, rest) := Window(input, sched);
    InvSafe(input, s1);
    if SubmitFails(input, sched) {
      SubmitFailure(input, sched);
    } else {
      ContinueIsEvents(input, s1, rest);
      EventsReturn(input, s1, rest);
    }
  }

  // ---------- asking for another try is harmless ----------

  predicate AllRetries(ev: seq<Event>) {
    forall i :: 0 <= i < |ev| ==> ev[i].Complete? && ev[i].res == TRY_AGAIN
  }

  /** While something is left to read, completions with TRY_AGAIN change nothing, however many there are. */
  lemma {:induction false} RetriesHarmless(input: seq<byte>, s: Copy, retries: seq<Event>, more: seq<Event>)
    requires Inv(input, s) && s.writeLeft != 0 && AllRetries(retries)
    ensures Events(input, s, retries + more) == Events(input, s, more)
    decreases |retries|
  {
    hide Inv, Allowed;
    if retries == [] {
      assert retries + more == more;
    } else {
      assert (retries + more)[0] == retries[0] && (retries + more)[1..] == retries[1..] + more;
      RetriesHarmless(input, s, retries[1..], more);
    }
  }

  /** Wherever they come in the main loop of a run. */
  lemma RetriesAnywhere(input: seq<byte>, s: Copy, ev: seq<Event>, k: nat, retries: seq<Event>)
    requires Inv(input, s) && k <= |ev| && Running(input, s, ev, k) && StateAt(input, s, ev, k).writeLeft != 0
    requires AllRetries(retries)
    ensures Events(input, s, ev[..k] + (retries + ev[k..])) == Events(input, s, ev)
  {
    hide Inv, Fatal, Finishes, Next, Events, AllRetries;
    var with := ev[..k] + (retries + ev[k..]);
    SamePrefix(input, s, ev, with, k);
    EventsFrom(input, s, ev, k);
    EventsFrom(input, s, with, k);
    assert with[k..] == retries + ev[k..];
    RetriesHarmless(input, StateAt(input, s, ev, k), retries, ev[k..]);
  }

  lemma {:induction false} SameState(input: seq<byte>, s: Copy, a: seq<Event>, b: seq<Event>, k: nat)
    requires Inv(input, s) && k <= |a| && k <= |b| && a[..k] == b[..k]
    ensures StateAt(input, s, a, k) == StateAt(input, s, b, k)
    decreases k
  {
    hide Inv, Finishes, Next;
    if k > 0 {
      assert a[..k - 1] == a[..k][..k - 1] && b[..k - 1] == b[..k][..k - 1];
      assert a[k - 1] == a[..k][k - 1] && b[k - 1] == b[..k][k - 1];
      SameState(input, s, a, b, k - 1);
    }
  }

  lemma SamePrefix(input: seq<byte>, s: Copy, a: seq<Event>, b: seq<Event>, k: nat)
    requires Inv(input, s) && k <= |a| && k <= |b| && a[..k] == b[..k] && Running(input, s, a, k)
    ensures StateAt(input, s, a, k) == StateAt(input, s, b, k) && Running(input, s, b, k)
  {
    hide Inv, Finishes, Fatal, StateAt;
    SameState(input, s, a, b, k);
    forall j | 0 <= j < k
      ensures !Finishes(StateAt(input, s, b, j)) && !Fatal(StateAt(input, s, b, j), b[j])
    {
      assert a[..j] == a[..k][..j] && b[..j] == b[..k][..j] && a[j] == a[..k][j] && b[j] == b[..k][j];
      SameState(input, s, a, b, j);
    }
  }

  /** A file of at most one window is copied whatever number of retries comes before the full completions. */
  lemma RetriedCopy(input: seq<byte>, retries: seq<Event>) returns (sched: seq<Event>)
    requires |input| <= QD * BS && AllRetries(retries)
    ensures Succeeds(input, retries + sched)
  {
    if input == [] {
      sched := [];
      EmptyCopied(retries + sched);
    } else {
      sched := GoodSchedule(input, retries);
    }
  }

  lemma EmptyCopied(sched: seq<Event>)
    ensures Succeeds([], sched)
  {
    NothingToCopy(sched);
    InitInv([]);
    hide Inv;
    assert FileMap([]) == map[];
  }
}
