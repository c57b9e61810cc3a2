/** The loops of `copy_file`, run against every schedule of the environment. */
module UringRuns {
  import opened Bytes
  import opened UringCopy

  /** What the environment does at the next call that asks it: grant or refuse a read request, fail a submit,
      fail a wait or peek, or complete a request. Where no event says otherwise a read request is granted. */
  datatype Event = Grant | Refuse | SubmitError | WaitError | Complete(id: nat, res: int)

  datatype Exit = Returned(code: int) | Blocked

  /** The loop over completions ends with nothing left to write, or the function ends in it. */
  datatype Reaped = Done(s: Copy, rest: seq<Event>) | Ended(exit: Exit, s: Copy)

  datatype Outcome = Outcome(exit: Exit, s: Copy, submitFailed: bool)

  /** Filling the window with reads; the events not yet used are returned. */
  function IssueTo(s: Copy, sched: seq<Event>): (r: (Copy, seq<Event>))
    decreases s.insize
  {
    if s.insize == 0 || s.nReads + s.nWrites >= QD then (s, sched)
    else if sched != [] && sched[0].Refuse? then (s, sched[1..])
    else IssueTo(IssueRead(s), Granted(sched))
  }

  /** The events left after a read request that was not refused. */
  function Granted(sched: seq<Event>): seq<Event> {
    if sched != [] && sched[0].Grant? then sched[1..] else sched
  }

  /** The window is filled up, with all of the file or with QD requests, unless a request is refused. */
  lemma {:induction false} IssueFills(s: Copy, sched: seq<Event>)
    ensures var (s', rest) := IssueTo(s, sched);
            s'.insize == 0 || s'.nReads + s'.nWrites >= QD
            || exists k :: 0 <= k < |sched| && RefusedAt(sched, k) && rest == sched[k + 1..]
    decreases s.insize
  {
    if s.insize != 0 && s.nReads + s.nWrites < QD {
      if sched != [] && sched[0].Refuse? {
        assert RefusedAt(sched, 0);
      } else {
        var more := Granted(sched);
        IssueFills(IssueRead(s), more);
        var (s', rest) := IssueTo(IssueRead(s), more);
        assert IssueTo(s, sched) == (s', rest);
        hide IssueTo, IssueRead, RefusedAt;
        if k :| 0 <= k < |more| && RefusedAt(more, k) && rest == more[k + 1..] {
          RefusedBehind(sched, k);
        }
      }
    }
  }

  lemma RefusedBehind(sched: seq<Event>, k: nat)
    requires RefusedAt(Granted(sched), k)
    ensures exists j :: 0 <= j < |sched| && RefusedAt(sched, j) && sched[j + 1..] == Granted(sched)[k + 1..]
  {
    if sched[0].Grant? {
      assert RefusedAt(sched, k + 1) && sched[k + 2..] == sched[1..][k + 1..];
    }
  }

  /** The first event that is not a grant is the refusal at `k`. */
  predicate RefusedAt(sched: seq<Event>, k: nat) {
    k < |sched| && sched[k].Refuse? && forall j :: 0 <= j < k ==> sched[j].Grant?
  }

  /** A successful completion in the main loop. */
  function OnComplete(input: seq<byte>, s: Copy, id: nat, n: nat): Copy
    requires Inv(input, s) && id in s.ring && n <= s.ring[id].len
  {
    if n != s.ring[id].len then OnShort(input, s, id, n)
    else if s.ring[id].read then OnReadDone(input, s, id)
    else RequestIn(input, s, id); OnWriteDone(s, id)
  }

  lemma CompleteKeeps(input: seq<byte>, s: Copy, id: nat, n: nat)
    requires Inv(input, s) && id in s.ring && n <= s.ring[id].len
    ensures var s' := OnComplete(input, s, id, n);
            Inv(input, s') && s'.lost == s.lost && s'.offset == s.offset && s'.insize == s.insize
  {
    hide Inv;
    if n != s.ring[id].len {
      ShortKeeps(input, s, id, n);
    } else if s.ring[id].read {
      ReadDoneKeeps(input, s, id);
    } else {
      RequestIn(input, s, id);
      WriteDoneKeeps(input, s, id);
    }
  }

  /** The loop over completions. A wait or peek that fails, also for want of a completion, ends the function. */
  ghost function ReapTo(input: seq<byte>, s: Copy, sched: seq<Event>): (r: Reaped)
    requires Inv(input, s)
    decreases |sched|
  {
    if s.writeLeft == 0 then Done(s, sched)
    else if sched == [] then Ended(Blocked, s)
    else
      match sched[0]
      case WaitError => Ended(Returned(1), s)
      case Complete(id, res) =>
        if !Allowed(s, id, res) || res == -EAGAIN then ReapTo(input, s, sched[1..])
        else if res < 0 then Ended(Returned(1), s)
        else
          CompleteKeeps(input, s, id, res);
          ReapTo(input, OnComplete(input, s, id, res), sched[1..])
      case _ => ReapTo(input, s, sched[1..])
  }

  /** What holds in the drain loop even after a failed submit. */
  ghost predicate SafeRing(input: seq<byte>, s: Copy) {
    OutCorrect(input, s.out) && forall id :: id in s.ring ==> GoodRequest(input, id, s.ring[id])
  }

  lemma DrainSafe(input: seq<byte>, s: Copy, id: nat, n: nat)
    requires SafeRing(input, s) && id in s.ring && n <= s.ring[id].len
    ensures s.ring[id].base + s.ring[id].len <= |s.ring[id].buf| && SafeRing(input, OnDrain(s, id, n))
  {
    WrittenCorrect(input, s, id, n);
  }

  /** The drain loop: every completion counts as a finished write, whatever its length. */
  ghost function DrainTo(input: seq<byte>, s: Copy, sched: seq<Event>): (r: (Exit, Copy))
    requires SafeRing(input, s)
    decreases |sched|
  {
    if s.nWrites <= 0 then (Returned(0), s)
    else if sched == [] then (Blocked, s)
    else
      match sched[0]
      case WaitError => (Returned(1), s)
      case Complete(id, res) =>
        if !Allowed(s, id, res) then DrainTo(input, s, sched[1..])
        else if res < 0 then (Returned(1), s)
        else
          DrainSafe(input, s, id, res);
          DrainTo(input, OnDrain(s, id, res), sched[1..])
      case _ => DrainTo(input, s, sched[1..])
  }

  lemma InvSafe(input: seq<byte>, s: Copy)
    requires Inv(input, s)
    ensures SafeRing(input, s)
  {
  }

  lemma InitInv(input: seq<byte>)
    ensures Inv(input, Init(|input|))
  {
  }

  lemma {:induction false} IssueInv(input: seq<byte>, s: Copy, sched: seq<Event>)
    requires Inv(input, s)
    ensures var s' := IssueTo(s, sched).0;
            Inv(input, s') && s'.lost == s.lost && s'.nWrites == s.nWrites && s'.out == s.out
            && s'.nReads >= s.nReads && s'.offset - s.offset <= (s'.nReads - s.nReads) * BS
    decreases s.insize
  {
    hide Inv;
    if s.insize > 0 && s.nReads + s.nWrites < QD && !(sched != [] && sched[0].Refuse?) {
      IssueKeeps(input, s);
      IssueInv(input, IssueRead(s), Granted(sched));
    }
  }

  /** From the submit of the first window on. */
  ghost function CopyFrom(input: seq<byte>, s1: Copy, rest: seq<Event>): Outcome
    requires Inv(input, s1)
  {
    InvSafe(input, s1);
    if s1.nReads != 0 && rest != [] && rest[0].SubmitError? then
      var (exit, s) := DrainTo(input, s1, rest[1..]);
      Outcome(exit, s, true)
    else
      ReapInv(input, s1, rest);
      var r := ReapTo(input, s1, rest);
      InvSafe(input, r.s);
      if r.Ended? then Outcome(r.exit, r.s, false)
      else
        var (exit, s) := DrainTo(input, r.s, r.rest);
        Outcome(exit, s, false)
  }

  /** The state and the events left after the first window has been filled. */
  ghost function Window(input: seq<byte>, sched: seq<Event>): (r: (Copy, seq<Event>))
    ensures Inv(input, r.0) && r.0.lost == {} && r.0.offset <= QD * BS && r.0.nWrites == 0 && r.0.out == map[]
    ensures input == [] ==> r.0.nReads == 0
  {
    InitInv(input);
    IssueInv(input, Init(|input|), sched);
    var r := IssueTo(Init(|input|), sched);
    WindowFits(input, r.0);
    r
  }

  /** The whole of `copy_file`. The outer loop makes one turn at most: it is left with `write_left` at 0. */
  ghost function CopyTo(input: seq<byte>, sched: seq<Event>): Outcome {
    var (s1, rest) := Window(input, sched);
    CopyFrom(input, s1, rest)
  }

  lemma {:induction false} ReapInv(input: seq<byte>, s: Copy, sched: seq<Event>)
    requires Inv(input, s)
    ensures var r := ReapTo(input, s, sched);
            Inv(input, r.s) && r.s.lost == s.lost && r.s.offset == s.offset
            && (r.Done? ==> r.s.writeLeft == 0) && (r.Ended? ==> r.exit != Returned(0))
    decreases |sched|
  {
    hide Inv, OnComplete, Allowed;
    if s.writeLeft != 0 && sched != [] {
      match sched[0]
      case WaitError =>
      case Complete(id, res) =>
        if !Allowed(s, id, res) || res == -EAGAIN {
          ReapInv(input, s, sched[1..]);
        } else if res >= 0 {
          AllowedIn(s, id, res);
          CompleteKeeps(input, s, id, res);
          ReapInv(input, OnComplete(input, s, id, res), sched[1..]);
        }
      case _ => ReapInv(input, s, sched[1..]);
    }
  }

  lemma AllowedIn(s: Copy, id: nat, res: int)
    requires Allowed(s, id, res)
    ensures id in s.ring && res <= s.ring[id].len
  {
  }

  lemma {:induction false} DrainInv(input: seq<byte>, s: Copy, sched: seq<Event>)
    requires SafeRing(input, s)
    ensures var (exit, s') := DrainTo(input, s, sched);
            SafeRing(input, s') && (exit == Returned(0) ==> s'.nWrites <= 0)
            && (Inv(input, s) && s.writeLeft == 0 ==> Inv(input, s') && s'.writeLeft == 0 && s'.offset == s.offset)
    decreases |sched|
  {
    hide Inv, SafeRing, OnDrain, Allowed;
    if s.nWrites > 0 && sched != [] {
      match sched[0]
      case WaitError =>
      case Complete(id, res) =>
        if !Allowed(s, id, res) {
          DrainInv(input, s, sched[1..]);
        } else if res >= 0 {
          AllowedIn(s, id, res);
          DrainSafe(input, s, id, res);
          if Inv(input, s) && s.writeLeft == 0 {
            OnlyWrites(input, s);
            DrainKeeps(input, s, id, res);
            DrainFields(s, id, res);
          }
          DrainInv(input, OnDrain(s, id, res), sched[1..]);
        }
      case _ => DrainInv(input, s, sched[1..]);
    }
  }

  lemma DrainFields(s: Copy, id: nat, n: nat)
    requires id in s.ring && n <= s.ring[id].len && s.ring[id].base + s.ring[id].len <= |s.ring[id].buf|
    ensures var s' := OnDrain(s, id, n);
            s'.writeLeft == s.writeLeft && s'.offset == s.offset && s'.nWrites == s.nWrites - 1
  {
  }

  /** The window is never overfull and the counters never negative. */
  lemma WindowFits(input: seq<byte>, s: Copy)
    requires Inv(input, s)
    ensures 0 <= s.nReads && 0 <= s.nWrites && s.nReads + s.nWrites <= QD
    ensures s.insize + s.offset == |input| && s.insize <= s.writeLeft
  {
  }

  /** Every completion that the drain loop takes has the full length of its write. */
  ghost predicate FullDrain(input: seq<byte>, s: Copy, sched: seq<Event>)
    requires SafeRing(input, s)
    decreases |sched|
  {
    if s.nWrites <= 0 || sched == [] then true
    else
      match sched[0]
      case WaitError => true
      case Complete(id, res) =>
        if !Allowed(s, id, res) then FullDrain(input, s, sched[1..])
        else if res < 0 then true
        else
          DrainSafe(input, s, id, res);
          res == s.ring[id].len && FullDrain(input, OnDrain(s, id, res), sched[1..])
      case _ => FullDrain(input, s, sched[1..])
  }

  /** Bytes once lost stay lost. */
  lemma {:induction false} LostStays(input: seq<byte>, s: Copy, sched: seq<Event>)
    requires SafeRing(input, s)
    ensures s.lost <= DrainTo(input, s, sched).1.lost
    decreases |sched|
  {
    hide SafeRing, Allowed;
    if s.nWrites > 0 && sched != [] {
      match sched[0]
      case WaitError =>
      case Complete(id, res) =>
        if !Allowed(s, id, res) {
          LostStays(input, s, sched[1..]);
        } else if res >= 0 {
          AllowedIn(s, id, res);
          DrainSafe(input, s, id, res);
          LostStays(input, OnDrain(s, id, res), sched[1..]);
        }
      case _ => LostStays(input, s, sched[1..]);
    }
  }

  lemma {:induction false} LossIff(input: seq<byte>, s: Copy, sched: seq<Event>)
    requires SafeRing(input, s) && Inv(input, s) && s.writeLeft == 0 && s.lost == {}
    ensures DrainTo(input, s, sched).1.lost == {} <==> FullDrain(input, s, sched)
    decreases |sched|
  {
    hide Inv, SafeRing, OnDrain, Allowed;
    if s.nWrites > 0 && sched != [] {
      match sched[0]
      case WaitError =>
      case Complete(id, res) =>
        if !Allowed(s, id, res) {
          LossIff(input, s, sched[1..]);
        } else if res >= 0 {
          AllowedIn(s, id, res);
          DrainSafe(input, s, id, res);
          OnlyWrites(input, s);
          DrainKeeps(input, s, id, res);
          DrainFields(s, id, res);
          if res == s.ring[id].len {
            LossIff(input, OnDrain(s, id, res), sched[1..]);
          } else {
            LostStays(input, OnDrain(s, id, res), sched[1..]);
          }
        }
      case _ => LossIff(input, s, sched[1..]);
    }
  }

  lemma DrainEnds(input: seq<byte>, s: Copy, sched: seq<Event>)
    requires Inv(input, s) && s.writeLeft == 0 && s.offset <= QD * BS && SafeRing(input, s) && s.lost == {}
    ensures var (exit, s') := DrainTo(input, s, sched);
            Inv(input, s') && OutCorrect(input, s'.out)
            && (exit == Returned(0) ==>
                  |input| <= QD * BS && (s'.out == FileMap(input) <==> FullDrain(input, s, sched)))
  {
    OnlyWrites(input, s);
    hide Inv, DrainTo, FullDrain;
    DrainInv(input, s, sched);
    LossIff(input, s, sched);
    var (exit, s') := DrainTo(input, s, sched);
    if exit == Returned(0) {
      Finished(input, s');
    }
  }

  /** Every completion that the run takes in its drain loop is full. */
  ghost predicate DrainsInFull(input: seq<byte>, sched: seq<Event>) {
    var (s1, rest) := Window(input, sched);
    ReapInv(input, s1, rest);
    var r := ReapTo(input, s1, rest);
    InvSafe(input, r.s);
    r.Done? ==> FullDrain(input, r.s, r.rest)
  }

  /** The failed submit can only be the one after the first window. It leaves no write to wait for,
      so the function returns 0 at once, with nothing copied of a file that is not empty. */
  lemma SubmitFailure(input: seq<byte>, sched: seq<Event>)
    requires CopyTo(input, sched).submitFailed
    ensures var r := CopyTo(input, sched);
            r.exit == Returned(0) && r.s.out == map[] && input != [] && r.s.out != FileMap(input)
  {
    hide Inv, ReapTo, Window, FullDrain;
    var (s1, rest) := Window(input, sched);
    InvSafe(input, s1);
    assert DrainTo(input, s1, rest[1..]) == (Returned(0), s1);
    assert 0 in FileMap(input);
  }

  /** A submit can fail on every file that is not empty. */
  lemma SubmitCanFail(input: seq<byte>)
    requires input != []
    ensures CopyTo(input, [SubmitError]).submitFailed
  {
    var s, sched := Init(|input|), [SubmitError];
    InitInv(input);
    hide Inv, Window, ReapTo, DrainTo;
    IssueKeeps(input, s);
    IssueInv(input, IssueRead(s), sched);
    IssueKeepsEvents(s, sched);
    WindowIs(input, sched, IssueTo(s, sched).0, sched);
    assert IssueTo(s, sched) == IssueTo(IssueRead(s), sched);
  }

  lemma {:induction false} IssueKeepsEvents(s: Copy, sched: seq<Event>)
    requires sched != [] && !sched[0].Refuse? && !sched[0].Grant?
    ensures IssueTo(s, sched).1 == sched
    decreases s.insize
  {
    if s.insize > 0 && s.nReads + s.nWrites < QD {
      IssueKeepsEvents(IssueRead(s), sched);
    }
  }

  /** What every run of `copy_file` guarantees. Whatever happens, no wrong byte reaches the output.
      The window, the byte account and the counters hold to the end, unless a submit failed.
      When 0 is returned the output is the input exactly if no submit failed and every completion
      in the drain loop was full; and without a failed submit 0 is only returned for files that fit
      in one window of reads. */
  lemma CopyGuarantees(input: seq<byte>, sched: seq<Event>)
    ensures var r := CopyTo(input, sched);
            OutCorrect(input, r.s.out)
            && (!r.submitFailed ==> Inv(input, r.s))
            && (r.exit == Returned(0) ==>
                  (r.s.out == FileMap(input) <==> !r.submitFailed && DrainsInFull(input, sched)))
            && (r.exit == Returned(0) && !r.submitFailed ==> |input| <= QD * BS)
  {
    hide Inv, DrainTo, ReapTo, OutCorrect, Window, FullDrain;
    var (s1, rest) := Window(input, sched);
    InvSafe(input, s1);
    if s1.nReads != 0 && rest != [] && rest[0].SubmitError? {
      DrainInv(input, s1, rest[1..]);
      SubmitFailure(input, sched);
    } else {
      ReapInv(input, s1, rest);
      var r := ReapTo(input, s1, rest);
      InvSafe(input, r.s);
      if r.Done? {
        DrainEnds(input, r.s, r.rest);
      }
    }
  }

  // ---------- what can be achieved ----------

  /** With no refusal, the first window takes in a whole file of at most `QD * BS` bytes. */
  lemma {:induction false} IssueAll(s: Copy, sched: seq<Event>)
    requires s.nWrites == 0 && s.offset + s.insize <= QD * BS && (s.insize > 0 ==> s.offset == s.nReads * BS)
    requires sched != [] ==> !sched[0].Refuse? && !sched[0].Grant?
    ensures IssueTo(s, sched).0.insize == 0 && IssueTo(s, sched) == (IssueTo(s, []).0, sched)
    decreases s.insize
  {
    if s.insize > 0 {
      IssueAll(IssueRead(s), sched);
    }
  }

  lemma {:induction false} TotalWitness(ring: Ring, n: nat, w: IoData -> nat) returns (id: nat)
    requires Total(ring, n, w) > 0
    ensures id in ring && w(ring[id]) > 0
  {
    if n - 1 in ring && w(ring[n - 1]) > 0 {
      id := n - 1;
    } else {
      id := TotalWitness(ring, n - 1, w);
    }
  }

  lemma SomeRead(input: seq<byte>, s: Copy) returns (id: nat)
    requires Inv(input, s) && s.insize == 0 && s.writeLeft != 0
    ensures s.writeLeft > 0 && id in s.ring && s.ring[id].read && s.ring[id].firstLen > 0
  {
    id := TotalWitness(s.ring, s.offset, ReadLen);
  }

  lemma SomeRequest(input: seq<byte>, s: Copy) returns (id: nat)
    requires Inv(input, s) && s.nWrites > 0
    ensures id in s.ring && !s.ring[id].read
  {
    id := TotalWitness(s.ring, s.offset, IsWrite);
  }

  /** One step of the completion loop on a full read. */
  lemma ReapRead(input: seq<byte>, s: Copy, id: nat, rest: seq<Event>)
    requires Inv(input, s) && s.writeLeft != 0 && id in s.ring && s.ring[id].read
    requires Inv(input, OnReadDone(input, s, id))
    ensures ReapTo(input, s, [Complete(id, s.ring[id].len)] + rest) == ReapTo(input, OnReadDone(input, s, id), rest)
  {
    hide Inv, OnReadDone;
    var sched := [Complete(id, s.ring[id].len)] + rest;
    assert sched[0] == Complete(id, s.ring[id].len) && sched[1..] == rest;
  }

  /** If every read is completed in full, the completion loop ends with only writes in flight. */
  lemma {:induction false} ReapCan(input: seq<byte>, s: Copy) returns (events: seq<Event>, s': Copy)
    requires Inv(input, s) && s.insize == 0
    ensures Inv(input, s') && s'.writeLeft == 0 && s'.lost == s.lost
    ensures forall extra :: ReapTo(input, s, events + extra) == Done(s', extra)
    ensures events != [] ==> events[0].Complete?
    decreases s.writeLeft
  {
    hide Inv, ReapTo;
    if s.writeLeft == 0 {
      events, s' := [], s;
      forall extra: seq<Event>
        ensures ReapTo(input, s, events + extra) == Done(s', extra)
      {
        assert [] + extra == extra;
        ReapNothing(input, s, extra);
      }
    } else {
      var id := SomeRead(input, s);
      ReadDoneKeeps(input, s, id);
      var e, s1 := Complete(id, s.ring[id].len), OnReadDone(input, s, id);
      WindowFits(input, s1);
      var more;
      more, s' := ReapCan(input, s1);
      events := [e] + more;
      forall extra: seq<Event>
        ensures ReapTo(input, s, events + extra) == Done(s', extra)
      {
        ReapRead(input, s, id, more + extra);
        assert events + extra == [e] + (more + extra);
      }
    }
  }

  lemma ReapNothing(input: seq<byte>, s: Copy, sched: seq<Event>)
    requires Inv(input, s) && s.writeLeft == 0
    ensures ReapTo(input, s, sched) == Done(s, sched)
  {
  }

  /** If every write is then completed in full, the drain loop ends and the function returns 0. */
  lemma {:induction false} DrainCan(input: seq<byte>, s: Copy) returns (events: seq<Event>)
    requires Inv(input, s) && s.writeLeft == 0 && SafeRing(input, s)
    ensures DrainTo(input, s, events).0 == Returned(0) && FullDrain(input, s, events)
    ensures events != [] ==> events[0].Complete?
    decreases s.nWrites
  {
    hide Inv, SafeRing, OnDrain;
    if s.nWrites <= 0 {
      events := [];
    } else {
      var id := SomeRequest(input, s);
      var n := s.ring[id].len;
      DrainKeeps(input, s, id, n);
      DrainSafe(input, s, id, n);
      DrainFields(s, id, n);
      var more := DrainCan(input, OnDrain(s, id, n));
      events := [Complete(id, n)] + more;
      assert events[0] == Complete(id, n) && events[1..] == more;
    }
  }

  /** A run returns 0 with a faithful copy for exactly the files that fit in one window of reads. */
  lemma SuccessIffOneWindow(input: seq<byte>)
    ensures (exists sched :: Succeeds(input, sched)) <==> |input| <= QD * BS
  {
    if exists sched :: Succeeds(input, sched) {
      var sched :| Succeeds(input, sched);
      CopyGuarantees(input, sched);
    }
    if |input| <= QD * BS {
      var sched := GoodSchedule(input, []);
      assert [] + sched == sched;
    }
  }

  ghost predicate Succeeds(input: seq<byte>, sched: seq<Event>) {
    var r := CopyTo(input, sched);
    r.exit == Returned(0) && r.s.out == FileMap(input)
  }

  /** Completions that ask for another try. */
  predicate Retries(events: seq<Event>) {
    forall i :: 0 <= i < |events| ==> events[i].Complete? && events[i].res == -EAGAIN
  }

  /** Every request asked for again, as often as the kernel likes, is still awaited. */
  lemma {:induction false} ReapRetries(input: seq<byte>, s: Copy, retries: seq<Event>, more: seq<Event>)
    requires Inv(input, s) && s.writeLeft != 0 && Retries(retries)
    ensures ReapTo(input, s, retries + more) == ReapTo(input, s, more)
    decreases |retries|
  {
    hide Inv, Allowed;
    if retries == [] {
      assert retries + more == more;
    } else {
      assert (retries + more)[0] == retries[0] && (retries + more)[1..] == retries[1..] + more;
      ReapRetries(input, s, retries[1..], more);
    }
  }

  /** The events after which the window is read and written: every request completed in full. */
  lemma FullEvents(input: seq<byte>, s1: Copy) returns (events: seq<Event>, s2: Copy, drains: seq<Event>)
    requires Inv(input, s1) && s1.insize == 0
    ensures Inv(input, s2) && SafeRing(input, s2)
    ensures ReapTo(input, s1, events + drains) == Done(s2, drains)
    ensures DrainTo(input, s2, drains).0 == Returned(0) && FullDrain(input, s2, drains)
    ensures events + drains != [] ==> (events + drains)[0].Complete?
  {
    hide Inv, SafeRing, ReapTo, DrainTo, FullDrain;
    events, s2 := ReapCan(input, s1);
    InvSafe(input, s2);
    drains := DrainCan(input, s2);
  }

  /** Any retries, and then every request completed in full: 0 is returned with a faithful copy. */
  lemma GoodSchedule(input: seq<byte>, retries: seq<Event>) returns (sched: seq<Event>)
    requires |input| <= QD * BS && Retries(retries) && (input == [] ==> retries == [])
    ensures Succeeds(input, retries + sched)
  {
    hide Inv, SafeRing, IssueTo, ReapTo, DrainTo, FullDrain, Window, CopyTo, DrainsInFull;
    var s1 := FirstWindow(input);
    var events, s2, drains := FullEvents(input, s1);
    sched := events + drains;
    var all := retries + sched;
    assert all != [] ==> all[0].Complete?;
    assert Window(input, all) == (s1, all);
    if s1.writeLeft != 0 {
      ReapRetries(input, s1, retries, sched);
    } else {
      NothingLeft(input, s1);
      assert [] + sched == sched;
    }
    Reaches(input, all, s1, all, s2, drains);
    CopyGuarantees(input, all);
  }

  /** A file of at most one window is taken in whole where no event says otherwise. */
  lemma FirstWindow(input: seq<byte>) returns (s1: Copy)
    requires |input| <= QD * BS
    ensures Inv(input, s1) && s1.insize == 0 && s1.nWrites == 0 && s1.out == map[] && s1.lost == {}
    ensures forall sched: seq<Event> :: (sched != [] ==> sched[0].Complete?) ==> Window(input, sched) == (s1, sched)
  {
    hide Inv;
    InitInv(input);
    s1 := IssueTo(Init(|input|), []).0;
    IssueInv(input, Init(|input|), []);
    IssueAll(Init(|input|), []);
    hide IssueTo, Window;
    forall sched: seq<Event> | sched != [] ==> sched[0].Complete?
      ensures Window(input, sched) == (s1, sched)
    {
      IssueAll(Init(|input|), sched);
      WindowIs(input, sched, s1, sched);
    }
  }

  /** After the window has been filled something is left to write unless the file is empty. */
  lemma NothingLeft(input: seq<byte>, s: Copy)
    requires Inv(input, s) && s.writeLeft == 0 && s.nWrites == 0 && s.out == map[] && s.lost == {}
    ensures input == []
  {
    OnlyWrites(input, s);
    Finished(input, s);
    hide Inv;
    assert input != [] ==> 0 in FileMap(input);
  }

  lemma WindowIs(input: seq<byte>, sched: seq<Event>, s1: Copy, rest: seq<Event>)
    requires (s1, rest) == IssueTo(Init(|input|), sched)
    ensures Window(input, sched) == (s1, rest) && Inv(input, s1)
  {
    hide Inv, IssueTo;
  }

  /** An empty file needs no turn of the outer loop. */
  lemma NothingToCopy(sched: seq<Event>)
    ensures Window([], sched) == (Init(0), sched) && ReapTo([], Init(0), sched) == Done(Init(0), sched)
  {
    InitInv([]);
    hide Inv;
    assert IssueTo(Init(0), sched) == (Init(0), sched);
  }

  /** The only request of a two-byte file, first as a read and then as a write. */
  lemma OneRequest(input: seq<byte>) returns (s1: Copy, s2: Copy)
    requires |input| == 2
    ensures s1 == IssueRead(Init(2)) && Inv(input, s1) && s1.writeLeft == 2
    ensures 0 in s1.ring && s1.ring[0].read && s1.ring[0].len == 2
    ensures s2 == OnReadDone(input, s1, 0) && Inv(input, s2) && s2.writeLeft == 0 && s2.nWrites == 1
    ensures 0 in s2.ring && s2.ring[0].len == 2 && s2.insize == 0
  {
    hide Inv;
    InitInv(input);
    IssueKeeps(input, Init(2));
    s1 := IssueRead(Init(2));
    ReadDoneKeeps(input, s1, 0);
    s2 := OnReadDone(input, s1, 0);
  }

  lemma ShortWriteEnds(input: seq<byte>, s: Copy)
    requires SafeRing(input, s) && s.nWrites == 1 && 0 in s.ring && s.ring[0].len == 2
    ensures DrainTo(input, s, [Complete(0, 1)]).0 == Returned(0) && !FullDrain(input, s, [Complete(0, 1)])
  {
    DrainSafe(input, s, 0, 1);
    hide SafeRing;
    DrainFields(s, 0, 1);
    assert [Complete(0, 1)][1..] == [];
  }

  lemma OneWindow(input: seq<byte>, s1: Copy, sched: seq<Event>)
    requires |input| == 2 && s1 == IssueRead(Init(2)) && sched != []
    requires !sched[0].Refuse? && !sched[0].Grant?
    ensures Window(input, sched) == (s1, sched)
  {
    hide Inv, Window;
    assert IssueTo(s1, sched) == (s1, sched);
    WindowIs(input, sched, s1, sched);
  }

  /** A run whose completion loop ends with only writes in flight ends as its drain loop does. */
  lemma Reaches(input: seq<byte>, sched: seq<Event>, s1: Copy, rest: seq<Event>, s2: Copy, drains: seq<Event>)
    requires Window(input, sched) == (s1, rest) && (rest != [] ==> !rest[0].SubmitError?)
    requires Inv(input, s1) && ReapTo(input, s1, rest) == Done(s2, drains) && SafeRing(input, s2)
    ensures var r := CopyTo(input, sched);
            r.exit == DrainTo(input, s2, drains).0 && !r.submitFailed
            && (DrainsInFull(input, sched) <==> FullDrain(input, s2, drains))
  {
    hide Inv, SafeRing, ReapTo, DrainTo, Window, FullDrain;
  }

  /** A two-byte file whose only write comes back with one byte in the drain loop: 0 is returned,
      the copy is not the file. */
  lemma ShortDrainExample(input: seq<byte>)
    requires |input| == 2
    ensures var r := CopyTo(input, [Complete(0, 2), Complete(0, 1)]);
            r.exit == Returned(0) && !r.submitFailed && r.s.out != FileMap(input)
  {
    hide Inv, SafeRing, OutCorrect, FileMap, IssueTo, ReapTo, DrainTo, Window, FullDrain;
    hide IssueRead, OnReadDone, CopyTo, DrainsInFull, Init;
    var sched := [Complete(0, 2), Complete(0, 1)];
    var s1, s2 := OneRequest(input);
    OneWindow(input, s1, sched);
    assert sched == [Complete(0, 2)] + [Complete(0, 1)];
    ReapRead(input, s1, 0, [Complete(0, 1)]);
    ReapNothing(input, s2, [Complete(0, 1)]);
    InvSafe(input, s2);
    ShortWriteEnds(input, s2);
    Reaches(input, sched, s1, sched, s2, [Complete(0, 1)]);
    LossyDrain(input, sched);
  }

  lemma LossyDrain(input: seq<byte>, sched: seq<Event>)
    requires CopyTo(input, sched).exit == Returned(0) && !DrainsInFull(input, sched)
    ensures CopyTo(input, sched).s.out != FileMap(input)
  {
    hide CopyTo, DrainsInFull, FileMap, Inv, OutCorrect;
    CopyGuarantees(input, sched);
  }

  // ---------- the loops ----------

  /** The loop that fills the window with reads. */
  method IssueReads(s0: Copy, sched: seq<Event>, k0: nat) returns (s: Copy, k: nat)
    requires k0 <= |sched|
    ensures k0 <= k <= |sched| && (s, sched[k..]) == IssueTo(s0, sched[k0..])
  {
    s, k := s0, k0;
    while s.insize > 0
      invariant k0 <= k <= |sched| && IssueTo(s, sched[k..]) == IssueTo(s0, sched[k0..])
      decreases s.insize
    {
      if s.nReads + s.nWrites >= QD {
        break;
      }
      assert k < |sched| ==> sched[k..][0] == sched[k] && sched[k..][1..] == sched[k + 1..];
      if k < |sched| && sched[k].Refuse? {
        k := k + 1;
        break;
      }
      if k < |sched| && sched[k].Grant? {
        k := k + 1;
      }
      s := IssueRead(s);
    }
  }

  /** The loop that waits for one completion and then takes more. */
  method Reap(input: seq<byte>, s0: Copy, sched: seq<Event>, k0: nat) returns (done: bool, exit: Exit, s: Copy, k: nat)
    requires Inv(input, s0) && k0 <= |sched|
    ensures k0 <= k <= |sched|
    ensures ReapTo(input, s0, sched[k0..]) == if done then Done(s, sched[k..]) else Ended(exit, s)
  {
    hide Inv, Allowed, OnShort, OnReadDone, OnWriteDone;
    s, k, done, exit := s0, k0, true, Blocked;
    while s.writeLeft != 0
      invariant Inv(input, s) && k0 <= k <= |sched| && ReapTo(input, s, sched[k..]) == ReapTo(input, s0, sched[k0..])
      decreases |sched| - k
    {
      if k == |sched| {
        return false, Blocked, s, k;
      }
      var e := sched[k];
      assert sched[k..][0] == e && sched[k..][1..] == sched[k + 1..];
      k := k + 1;
      match e
      case WaitError =>
        return false, Returned(1), s, k;
      case Complete(id, res) =>
        if Allowed(s, id, res) {
          AllowedIn(s, id, res);
          if res < 0 {
            if res != -EAGAIN {
              return false, Returned(1), s, k;
            }
          } else {
            CompleteKeeps(input, s, id, res);
            if res != s.ring[id].len {
              s := OnShort(input, s, id, res);
            } else if s.ring[id].read {
              s := OnReadDone(input, s, id);
            } else {
              RequestIn(input, s, id);
              s := OnWriteDone(s, id);
            }
          }
        }
      case _ =>
    }
  }

  /** The final loop. */
  method Drain(input: seq<byte>, s0: Copy, sched: seq<Event>, k0: nat) returns (exit: Exit, s: Copy)
    requires SafeRing(input, s0) && k0 <= |sched|
    ensures (exit, s) == DrainTo(input, s0, sched[k0..])
  {
    hide SafeRing, Allowed, OnDrain;
    s := s0;
    var k := k0;
    while s.nWrites > 0
      invariant SafeRing(input, s) && k <= |sched| && DrainTo(input, s, sched[k..]) == DrainTo(input, s0, sched[k0..])
      decreases |sched| - k
    {
      if k == |sched| {
        return Blocked, s;
      }
      var e := sched[k];
      assert sched[k..][0] == e && sched[k..][1..] == sched[k + 1..];
      k := k + 1;
      match e
      case WaitError =>
        return Returned(1), s;
      case Complete(id, res) =>
        if Allowed(s, id, res) {
          AllowedIn(s, id, res);
          if res < 0 {
            return Returned(1), s;
          }
          DrainSafe(input, s, id, res);
          s := OnDrain(s, id, res);
        }
      case _ =>
    }
    exit := Returned(0);
  }

  /** `copy_file`. */
  method CopyFile(input: seq<byte>, sched: seq<Event>) returns (r: Outcome)
    ensures r == CopyTo(input, sched)
  {
    hide Inv, IssueTo, ReapTo, DrainTo;
    var s, submitFailed, k := Init(|input|), false, 0;
    InitInv(input);
    assert sched[0..] == sched;
    ghost var turned := false;
    while s.insize != 0 || s.writeLeft != 0
      invariant Inv(input, s) && k <= |sched| && !submitFailed
      invariant !turned ==> s == Init(|input|) && k == 0
      invariant turned ==> s.insize == 0 && s.writeLeft == 0 && |input| > 0
                           && var (s1, rest) := Window(input, sched);
                              !(s1.nReads != 0 && rest != [] && rest[0].SubmitError?)
                              && ReapTo(input, s1, rest) == Done(s, sched[k..])
      decreases !turned
    {
      var hadReads := s.nReads;
      s, k := IssueReads(s, sched, k);
      WindowIs(input, sched, s, sched[k..]);
      assert k < |sched| ==> sched[k..][0] == sched[k];
      if hadReads != s.nReads && k < |sched| && sched[k].SubmitError? {
        assert sched[k..][1..] == sched[k + 1..];
        k := k + 1;
        submitFailed := true;
        break;
      }
      ReapInv(input, s, sched[k..]);
      var done, exit;
      done, exit, s, k := Reap(input, s, sched, k);
      if !done {
        return Outcome(exit, s, false);
      }
      OnlyWrites(input, s);
      turned := true;
    }
    if !turned && !submitFailed {
      assert input == [];
      NothingToCopy(sched);
    }
    InvSafe(input, s);
    var exit;
    exit, s := Drain(input, s, sched, k);
    r := Outcome(exit, s, submitFailed);
  }
}
