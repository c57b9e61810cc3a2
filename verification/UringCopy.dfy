/** `copy_file` over io_uring: reads and writes in flight, completed by the kernel in any order and any amount. */
module UringCopy {
  import opened Bytes
  import opened Seqs

  const QD := 64
  const BS := 32 * 1024
  const EAGAIN := 11

  // ---------- requests ----------

  /** `struct io_data`: `base` and `len` are the iovec, `base` counted from the start of the block buffer. */
  datatype IoData = IoData(read: bool, firstOffset: nat, firstLen: nat, offset: nat, base: nat, len: nat,
                           buf: seq<byte>)

  /** The requests in flight, each known by the file offset of its block. */
  type Ring = map<nat, IoData>

  function IsRead(d: IoData): nat { if d.read then 1 else 0 }
  function IsWrite(d: IoData): nat { if d.read then 0 else 1 }
  function ReadLen(d: IoData): nat { if d.read then d.firstLen else 0 }

  /** The sum of `w` over the requests with identity below `n`. */
  function Total(ring: Ring, n: nat, w: IoData -> nat): nat {
    if n == 0 then 0
    else Total(ring, n - 1, w) + if n - 1 in ring then w(ring[n - 1]) else 0
  }

  lemma {:induction false} TotalSame(r1: Ring, r2: Ring, n: nat, w: IoData -> nat)
    requires forall i :: 0 <= i < n ==> (i in r1 <==> i in r2) && (i in r1 ==> w(r1[i]) == w(r2[i]))
    ensures Total(r1, n, w) == Total(r2, n, w)
  {
    if n > 0 {
      TotalSame(r1, r2, n - 1, w);
    }
  }

  /** A change of one request changes the sum by that request alone. */
  lemma {:induction false} TotalChange(r1: Ring, r2: Ring, id: nat, n: nat, w: IoData -> nat)
    requires id < n && r1 - {id} == r2 - {id}
    ensures Total(r1, n, w) + (if id in r2 then w(r2[id]) else 0)
            == Total(r2, n, w) + (if id in r1 then w(r1[id]) else 0)
  {
    forall i | i != id
      ensures (i in r1 <==> i in r2) && (i in r1 ==> r1[i] == r2[i])
    {
      assert (i in r1 - {id} <==> i in r2 - {id}) && (i in r1 - {id} ==> (r1 - {id})[i] == (r2 - {id})[i]);
    }
    if id == n - 1 {
      TotalSame(r1, r2, n - 1, w);
    } else {
      TotalChange(r1, r2, id, n - 1, w);
    }
  }

  /** A new request at the end adds its own weight. */
  lemma {:induction false} TotalExtend(ring: Ring, d: IoData, id: nat, n: nat, w: IoData -> nat)
    requires id < n && forall i :: i in ring ==> i < id
    ensures Total(ring[id := d], n, w) == Total(ring, id, w) + w(d)
    decreases n
  {
    if id == n - 1 {
      TotalSame(ring, ring[id := d], id, w);
    } else {
      TotalExtend(ring, d, id, n - 1, w);
    }
  }

  lemma {:induction false} TotalAtLeast(ring: Ring, id: nat, n: nat, w: IoData -> nat)
    requires id in ring && id < n
    ensures Total(ring, n, w) >= w(ring[id])
  {
    if id < n - 1 {
      TotalAtLeast(ring, id, n - 1, w);
    }
  }

  // ---------- the local state of copy_file ----------

  /** The variables of `copy_file`, the ring, and the bytes that the output file has received.
      `lost` holds the positions of writes that the drain loop gave up short. */
  datatype Copy = Copy(insize: nat, writeLeft: int, offset: nat, nReads: int, nWrites: int,
                       ring: Ring, out: map<nat, byte>, lost: set<nat>)

  function Init(size: nat): Copy {
    Copy(size, size, 0, 0, 0, map[], map[], {})
  }

  /** A request is consistent with the input file. */
  ghost predicate GoodRequest(input: seq<byte>, id: nat, d: IoData) {
    d.firstOffset == id && 0 < d.firstLen <= BS && id + d.firstLen <= |input|
    && 0 < d.len && d.base + d.len == d.firstLen && d.offset == id + d.base && |d.buf| == d.firstLen
    && (d.read ==> d.buf[..d.base] == input[id..id + d.base])
    && (!d.read ==> d.buf == input[id..id + d.firstLen])
  }

  /** The request will still bring byte `i` of the file to the output. */
  predicate Brings(d: IoData, i: nat) {
    (if d.read then d.firstOffset else d.offset) <= i < d.firstOffset + d.firstLen
  }

  /** Blocks in flight lie in the issued part of the file and apart from each other. */
  ghost predicate Blocks(input: seq<byte>, ring: Ring, offset: nat) {
    offset <= |input|
    && (forall id :: id in ring ==> GoodRequest(input, id, ring[id]) && id + ring[id].firstLen <= offset)
    && (forall a, b :: a in ring && b in ring && a < b ==> a + ring[a].firstLen <= b)
  }

  /** What has been written is right. */
  ghost predicate OutCorrect(input: seq<byte>, out: map<nat, byte>) {
    forall i :: i in out ==> i < |input| && out[i] == input[i]
  }

  ghost predicate InFlight(ring: Ring, i: nat) {
    exists id :: id in ring && Brings(ring[id], i)
  }

  /** Every issued byte is in exactly one place: written, lost, or still to be brought. */
  ghost predicate Accounted(ring: Ring, offset: nat, out: map<nat, byte>, lost: set<nat>) {
    (forall i :: 0 <= i < offset ==> i in out || i in lost || InFlight(ring, i))
    && (forall i :: i in out || i in lost ==> i < offset)
    && (forall i :: i in lost ==> i !in out)
    && (forall id, i :: id in ring && Brings(ring[id], i) ==> i !in out && i !in lost)
  }

  /** The counters agree with the ring. */
  ghost predicate Counted(s: Copy) {
    s.nReads == Total(s.ring, s.offset, IsRead)
    && s.nWrites == Total(s.ring, s.offset, IsWrite)
    && s.writeLeft == s.insize + Total(s.ring, s.offset, ReadLen)
  }

  ghost predicate Inv(input: seq<byte>, s: Copy) {
    s.insize + s.offset == |input|
    && Blocks(input, s.ring, s.offset)
    && OutCorrect(input, s.out)
    && Accounted(s.ring, s.offset, s.out, s.lost)
    && Counted(s)
    && s.nReads + s.nWrites <= QD
  }

  // ---------- the actions ----------

  function ThisSize(insize: nat): nat {
    if insize > BS then BS else insize
  }

  /** `queue_read` and the counters around it. */
  function IssueRead(s: Copy): Copy
    requires s.insize > 0
  {
    var size := ThisSize(s.insize);
    var d := IoData(true, s.offset, size, s.offset, 0, size, seq(size, _ => 0));
    s.(insize := s.insize - size, offset := s.offset + size, nReads := s.nReads + 1, ring := s.ring[s.offset := d])
  }

  /** The kernel may complete a request in flight with an error or with at most the bytes asked for. */
  predicate Allowed(s: Copy, id: nat, res: int) {
    id in s.ring && res <= s.ring[id].len
  }

  /** The buffer after the kernel has read `n` more bytes into it. */
  function Filled(input: seq<byte>, d: IoData, n: nat): seq<byte>
    requires n <= d.len && d.base + d.len <= |d.buf| && d.offset + n <= |input|
  {
    d.buf[..d.base] + input[d.offset..d.offset + n] + d.buf[d.base + n..]
  }

  /** The file positions from `lo` up to but not including `hi`. */
  function Range(lo: nat, hi: nat): (r: set<nat>)
    ensures forall i :: i in r <==> lo <= i < hi
    decreases hi
  {
    if lo >= hi then {} else Range(lo, hi - 1) + {hi - 1}
  }

  /** The output after the kernel has written `n` more bytes of the request. */
  function Written(out: map<nat, byte>, d: IoData, n: nat): map<nat, byte>
    requires n <= d.len && d.base + d.len <= |d.buf|
  {
    var span := Range(d.offset, d.offset + n);
    out + map i | i in span :: d.buf[d.base + (i - d.offset)]
  }

  /** A completion with `n` bytes, as far as the kernel acts on it: data moves, the iovec follows. */
  function Progressed(input: seq<byte>, d: IoData, n: nat): IoData
    requires n <= d.len && d.base + d.len <= |d.buf| && d.offset + n <= |input|
  {
    d.(base := d.base + n, len := d.len - n, offset := d.offset + n,
       buf := if d.read then Filled(input, d, n) else d.buf)
  }

  function OutAfter(s: Copy, id: nat, n: nat): map<nat, byte>
    requires id in s.ring && n <= s.ring[id].len && s.ring[id].base + s.ring[id].len <= |s.ring[id].buf|
  {
    if s.ring[id].read then s.out else Written(s.out, s.ring[id], n)
  }

  /** A short completion in the main loop: the rest is queued again. */
  function OnShort(input: seq<byte>, s: Copy, id: nat, n: nat): Copy
    requires Inv(input, s) && id in s.ring && n < s.ring[id].len
  {
    s.(ring := s.ring[id := Progressed(input, s.ring[id], n)], out := OutAfter(s, id, n))
  }

  /** `queue_write`: the same block goes out again as a write from its start. */
  function AsWrite(d: IoData): IoData {
    d.(read := false, offset := d.firstOffset, base := 0, len := d.firstLen)
  }

  /** A read completed in full. */
  function OnReadDone(input: seq<byte>, s: Copy, id: nat): Copy
    requires Inv(input, s) && id in s.ring && s.ring[id].read
  {
    var d := s.ring[id];
    s.(ring := s.ring[id := AsWrite(Progressed(input, d, d.len))], writeLeft := s.writeLeft - d.firstLen,
       nReads := s.nReads - 1, nWrites := s.nWrites + 1)
  }

  /** A write completed in full, in the main loop. */
  function OnWriteDone(s: Copy, id: nat): Copy
    requires id in s.ring && s.ring[id].base + s.ring[id].len <= |s.ring[id].buf|
  {
    s.(ring := s.ring - {id}, out := OutAfter(s, id, s.ring[id].len), nWrites := s.nWrites - 1)
  }

  /** Any successful completion in the drain loop, short or not: the request is dropped. */
  function OnDrain(s: Copy, id: nat, n: nat): Copy
    requires id in s.ring && n <= s.ring[id].len && s.ring[id].base + s.ring[id].len <= |s.ring[id].buf|
  {
    var d := s.ring[id];
    s.(ring := s.ring - {id}, out := OutAfter(s, id, n), nWrites := s.nWrites - 1,
       lost := s.lost + if d.read then {} else Range(d.offset + n, d.firstOffset + d.firstLen))
  }

  // ---------- every action keeps the invariant ----------

  lemma IssueAccount(s: Copy)
    requires s.insize > 0 && Accounted(s.ring, s.offset, s.out, s.lost)
    requires forall i :: i in s.ring ==> i < s.offset
    ensures var s' := IssueRead(s); Accounted(s'.ring, s'.offset, s'.out, s'.lost)
  {
    var s' := IssueRead(s);
    forall i | 0 <= i < s'.offset
      ensures i in s'.out || i in s'.lost || InFlight(s'.ring, i)
    {
      if i >= s.offset {
        assert s.offset in s'.ring && Brings(s'.ring[s.offset], i);
      } else if InFlight(s.ring, i) {
        var id :| id in s.ring && Brings(s.ring[id], i);
        assert id in s'.ring && Brings(s'.ring[id], i);
      }
    }
  }

  lemma IssueCount(s: Copy)
    requires s.insize > 0 && Counted(s) && forall i :: i in s.ring ==> i < s.offset
    ensures Counted(IssueRead(s))
  {
    hide Total;
    var s' := IssueRead(s);
    var d := s'.ring[s.offset];
    TotalExtend(s.ring, d, s.offset, s'.offset, IsRead);
    TotalExtend(s.ring, d, s.offset, s'.offset, IsWrite);
    TotalExtend(s.ring, d, s.offset, s'.offset, ReadLen);
  }

  lemma IssueBlocks(input: seq<byte>, s: Copy)
    requires s.insize > 0 && s.insize + s.offset == |input| && Blocks(input, s.ring, s.offset)
    ensures Blocks(input, IssueRead(s).ring, IssueRead(s).offset)
    ensures forall i :: i in s.ring ==> i < s.offset
  {
    var s' := IssueRead(s);
    var d := s'.ring[s.offset];
    assert d.buf[..0] == input[s.offset..s.offset + 0];
    assert GoodRequest(input, s.offset, d);
  }

  lemma IssueKeeps(input: seq<byte>, s: Copy)
    requires Inv(input, s) && s.insize > 0 && s.nReads + s.nWrites < QD
    ensures Inv(input, IssueRead(s))
  {
    hide Blocks, Accounted, OutCorrect, Counted;
    IssueBlocks(input, s);
    IssueAccount(s);
    IssueCount(s);
  }

  /** Data moved by the kernel is data of the file. */
  lemma ProgressGood(input: seq<byte>, id: nat, d: IoData, n: nat)
    requires GoodRequest(input, id, d) && n <= d.len
    ensures var d' := Progressed(input, d, n);
            |d'.buf| == d.firstLen
            && (d.read ==> d'.buf[..d'.base] == input[id..id + d'.base])
            && (!d.read ==> d'.buf == input[id..id + d.firstLen])
    ensures n < d.len ==> GoodRequest(input, id, Progressed(input, d, n))
  {
    if d.read {
      FilledGood(input, id, d, n);
      hide Filled;
    }
  }

  lemma FilledGood(input: seq<byte>, id: nat, d: IoData, n: nat)
    requires GoodRequest(input, id, d) && n <= d.len && d.read
    ensures var b := Filled(input, d, n); |b| == d.firstLen && b[..d.base + n] == input[id..id + d.base + n]
  {
    FrontOfThree(d.buf[..d.base], input[d.offset..d.offset + n], d.buf[d.base + n..]);
    SliceJoins(input, id, d.offset, d.offset + n);
  }

  lemma WrittenCorrect(input: seq<byte>, s: Copy, id: nat, n: nat)
    requires OutCorrect(input, s.out) && id in s.ring && GoodRequest(input, id, s.ring[id]) && n <= s.ring[id].len
    ensures OutCorrect(input, OutAfter(s, id, n))
  {
    var d := s.ring[id];
    if !d.read {
      assert forall i :: d.offset <= i < d.offset + n ==> d.buf[d.base + (i - d.offset)] == input[i];
    }
  }

  /** After a change of request `id` alone, the counters follow. */
  lemma CountChange(s: Copy, ring: Ring, id: nat)
    requires id < s.offset && id in s.ring && s.ring - {id} == ring - {id}
    ensures Total(s.ring, s.offset, IsRead) + (if id in ring then IsRead(ring[id]) else 0)
            == Total(ring, s.offset, IsRead) + IsRead(s.ring[id])
    ensures Total(s.ring, s.offset, IsWrite) + (if id in ring then IsWrite(ring[id]) else 0)
            == Total(ring, s.offset, IsWrite) + IsWrite(s.ring[id])
    ensures Total(s.ring, s.offset, ReadLen) + (if id in ring then ReadLen(ring[id]) else 0)
            == Total(ring, s.offset, ReadLen) + ReadLen(s.ring[id])
  {
    TotalChange(s.ring, ring, id, s.offset, IsRead);
    TotalChange(s.ring, ring, id, s.offset, IsWrite);
    TotalChange(s.ring, ring, id, s.offset, ReadLen);
  }

  /** The account after request `id` has changed: bytes it no longer brings have been written or lost. */
  lemma AccountChange(input: seq<byte>, s: Copy, s': Copy, id: nat)
    requires Inv(input, s) && id in s.ring && s.ring - {id} == s'.ring - {id} && s'.offset == s.offset
    requires forall i :: i in s'.out <==> i in s.out || (i in s'.out && Brings(s.ring[id], i))
    requires forall i :: i in s'.lost <==> i in s.lost || (i in s'.lost && Brings(s.ring[id], i))
    requires forall i :: Brings(s.ring[id], i) ==>
               i in s'.out || i in s'.lost || (id in s'.ring && Brings(s'.ring[id], i))
    requires forall i :: i in s'.lost && i !in s.lost ==> i !in s'.out
    requires forall i :: i in s'.out && i !in s.out ==> i !in s'.lost
    requires id in s'.ring ==>
               forall i :: Brings(s'.ring[id], i) ==> Brings(s.ring[id], i) && i !in s'.out && i !in s'.lost
    ensures Accounted(s'.ring, s'.offset, s'.out, s'.lost)
  {
    hide Counted, OutCorrect, GoodRequest, Blocks;
    OthersSame(s.ring, s'.ring, id);
    forall i | 0 <= i < s.offset
      ensures i in s'.out || i in s'.lost || InFlight(s'.ring, i)
    {
      if InFlight(s.ring, i) {
        var k :| k in s.ring && Brings(s.ring[k], i);
        if k != id {
          assert k in s'.ring && Brings(s'.ring[k], i);
        }
      }
    }
    forall k, i | k in s'.ring && Brings(s'.ring[k], i)
      ensures i !in s'.out && i !in s'.lost
    {
      if k != id {
        assert k in s.ring && Brings(s.ring[k], i);
        BringsOne(input, s, k, id, i);
      }
    }
    BroughtIssued(input, s, id);
  }

  /** Two requests never bring the same byte. */
  lemma BringsOne(input: seq<byte>, s: Copy, k: nat, id: nat, i: nat)
    requires Blocks(input, s.ring, s.offset) && k in s.ring && id in s.ring && k != id && Brings(s.ring[k], i)
    ensures !Brings(s.ring[id], i)
  {
    assert GoodRequest(input, k, s.ring[k]) && GoodRequest(input, id, s.ring[id]);
  }

  lemma BroughtIssued(input: seq<byte>, s: Copy, id: nat)
    requires Blocks(input, s.ring, s.offset) && id in s.ring
    ensures forall i: nat :: Brings(s.ring[id], i) ==> i < s.offset
  {
    assert GoodRequest(input, id, s.ring[id]);
  }

  lemma OthersSame(r1: Ring, r2: Ring, id: nat)
    requires r1 - {id} == r2 - {id}
    ensures forall k :: k != id ==> (k in r1 <==> k in r2) && (k in r1 ==> r1[k] == r2[k])
  {
    forall k | k != id
      ensures (k in r1 <==> k in r2) && (k in r1 ==> r1[k] == r2[k])
    {
      assert (k in r1 - {id} <==> k in r2 - {id}) && (k in r1 - {id} ==> (r1 - {id})[k] == (r2 - {id})[k]);
    }
  }

  /** The blocks after request `id` has been replaced by one for the same block, or dropped. */
  lemma BlocksChange(input: seq<byte>, s: Copy, ring: Ring, id: nat)
    requires Blocks(input, s.ring, s.offset) && id in s.ring && s.ring - {id} == ring - {id}
    requires id in ring ==> GoodRequest(input, id, ring[id]) && ring[id].firstLen == s.ring[id].firstLen
    ensures Blocks(input, ring, s.offset)
  {
    hide GoodRequest;
    OthersSame(s.ring, ring, id);
  }

  lemma RequestIn(input: seq<byte>, s: Copy, id: nat)
    requires Inv(input, s) && id in s.ring
    ensures GoodRequest(input, id, s.ring[id]) && id < s.offset
  {
  }

  /** Writing adds exactly the places that it writes. */
  lemma OutGrows(s: Copy, id: nat, n: nat)
    requires id in s.ring && n <= s.ring[id].len && s.ring[id].base + s.ring[id].len <= |s.ring[id].buf|
    ensures var d := s.ring[id];
            forall i :: i in OutAfter(s, id, n) <==> i in s.out || (!d.read && d.offset <= i < d.offset + n)
  {
  }

  /** What a short completion still has to bring: all of it for a read, the rest for a write. */
  lemma BringsShort(input: seq<byte>, id: nat, d: IoData, n: nat)
    requires GoodRequest(input, id, d) && n < d.len
    ensures var d' := Progressed(input, d, n);
            forall i :: Brings(d', i) <==> Brings(d, i) && (d.read || d.offset + n <= i)
    ensures !d.read ==> forall i :: d.offset <= i < d.offset + n ==> Brings(d, i)
  {
    hide Filled;
  }

  lemma ShortAccount(input: seq<byte>, s: Copy, id: nat, n: nat)
    requires Inv(input, s) && id in s.ring && n < s.ring[id].len
    ensures var s' := OnShort(input, s, id, n); Accounted(s'.ring, s'.offset, s'.out, s'.lost)
  {
    RequestIn(input, s, id);
    OutGrows(s, id, n);
    BringsShort(input, id, s.ring[id], n);
    hide Total, Blocks, Accounted, OutCorrect, Counted, OutAfter, Progressed, GoodRequest;
    var s' := OnShort(input, s, id, n);
    assert s.ring - {id} == s'.ring - {id};
    AccountChange(input, s, s', id);
  }

  lemma ShortKeeps(input: seq<byte>, s: Copy, id: nat, n: nat)
    requires Inv(input, s) && id in s.ring && n < s.ring[id].len
    ensures var s' := OnShort(input, s, id, n);
            Inv(input, s') && s'.ring.Keys == s.ring.Keys && s'.ring[id].len == s.ring[id].len - n
            && forall k :: k in s.ring && k != id ==> s'.ring[k] == s.ring[k]
  {
    hide Blocks, Accounted, OutCorrect, Total, GoodRequest, OutAfter;
    RequestIn(input, s, id);
    ProgressGood(input, id, s.ring[id], n);
    WrittenCorrect(input, s, id, n);
    ShortAccount(input, s, id, n);
    var s' := OnShort(input, s, id, n);
    assert s.ring - {id} == s'.ring - {id};
    BlocksChange(input, s, s'.ring, id);
    CountChange(s, s'.ring, id);
  }

  lemma ReadDoneRequest(input: seq<byte>, s: Copy, id: nat)
    requires Inv(input, s) && id in s.ring && s.ring[id].read
    ensures GoodRequest(input, id, OnReadDone(input, s, id).ring[id])
  {
    var d := s.ring[id];
    RequestIn(input, s, id);
    ProgressGood(input, id, d, d.len);
    var d' := OnReadDone(input, s, id).ring[id];
    assert d'.buf == d'.buf[..d.firstLen] == input[id..id + d.firstLen];
  }

  lemma ReadDoneAccount(input: seq<byte>, s: Copy, id: nat)
    requires Inv(input, s) && id in s.ring && s.ring[id].read
    ensures var s' := OnReadDone(input, s, id); Accounted(s'.ring, s'.offset, s'.out, s'.lost)
  {
    RequestIn(input, s, id);
    hide Total, Blocks, Accounted, OutCorrect, Counted, Filled;
    var s' := OnReadDone(input, s, id);
    assert s.ring - {id} == s'.ring - {id};
    AccountChange(input, s, s', id);
  }

  lemma ReadDoneKeeps(input: seq<byte>, s: Copy, id: nat)
    requires Inv(input, s) && id in s.ring && s.ring[id].read
    ensures Inv(input, OnReadDone(input, s, id))
  {
    hide Blocks, Accounted, OutCorrect, Total, GoodRequest;
    RequestIn(input, s, id);
    ReadDoneRequest(input, s, id);
    ReadDoneAccount(input, s, id);
    var s' := OnReadDone(input, s, id);
    assert s.ring - {id} == s'.ring - {id};
    BlocksChange(input, s, s'.ring, id);
    CountChange(s, s'.ring, id);
  }

  lemma WriteDoneKeeps(input: seq<byte>, s: Copy, id: nat)
    requires Inv(input, s) && id in s.ring && !s.ring[id].read
    ensures Inv(input, OnWriteDone(s, id))
  {
    RequestIn(input, s, id);
    DrainKeeps(input, s, id, s.ring[id].len);
    var s' := OnDrain(s, id, s.ring[id].len);
    assert s'.lost == s.lost;
  }

  lemma DrainAccount(input: seq<byte>, s: Copy, id: nat, n: nat)
    requires Inv(input, s) && id in s.ring && !s.ring[id].read && n <= s.ring[id].len
    ensures var s' := OnDrain(s, id, n); Accounted(s'.ring, s'.offset, s'.out, s'.lost)
  {
    RequestIn(input, s, id);
    OutGrows(s, id, n);
    hide Total, Blocks, Accounted, OutCorrect, Counted, OutAfter, Range;
    var s' := OnDrain(s, id, n);
    assert s.ring - {id} == s'.ring - {id};
    AccountChange(input, s, s', id);
  }

  lemma DrainLost(s: Copy, id: nat, n: nat)
    requires id in s.ring && !s.ring[id].read && n <= s.ring[id].len
    requires s.ring[id].base + s.ring[id].len == s.ring[id].firstLen == |s.ring[id].buf|
    requires s.ring[id].offset == s.ring[id].firstOffset + s.ring[id].base
    ensures OnDrain(s, id, n).lost == {} <==> s.lost == {} && n == s.ring[id].len
    ensures n == s.ring[id].len ==> OnDrain(s, id, n).lost == s.lost
  {
    var d := s.ring[id];
    if n < d.len {
      assert d.offset + n in OnDrain(s, id, n).lost;
    }
  }

  lemma DrainKeepsLost(input: seq<byte>, s: Copy, id: nat, n: nat)
    requires Inv(input, s) && id in s.ring && !s.ring[id].read && n <= s.ring[id].len
    ensures s.ring[id].base + s.ring[id].len <= |s.ring[id].buf|
    ensures OnDrain(s, id, n).lost == {} <==> s.lost == {} && n == s.ring[id].len
    ensures n == s.ring[id].len ==> OnDrain(s, id, n).lost == s.lost
  {
    RequestIn(input, s, id);
    hide Inv;
    DrainLost(s, id, n);
  }

  lemma DrainBlocksCount(input: seq<byte>, s: Copy, id: nat, n: nat)
    requires Inv(input, s) && id in s.ring && !s.ring[id].read && n <= s.ring[id].len
    requires s.ring[id].base + s.ring[id].len <= |s.ring[id].buf|
    ensures Blocks(input, OnDrain(s, id, n).ring, s.offset) && Counted(OnDrain(s, id, n))
  {
    hide Blocks, Accounted, OutCorrect, Total, GoodRequest, OutAfter, Range;
    RequestIn(input, s, id);
    var s' := OnDrain(s, id, n);
    assert s.ring - {id} == s'.ring - {id};
    BlocksChange(input, s, s'.ring, id);
    CountChange(s, s'.ring, id);
  }

  lemma DrainKeeps(input: seq<byte>, s: Copy, id: nat, n: nat)
    requires Inv(input, s) && id in s.ring && !s.ring[id].read && n <= s.ring[id].len
    ensures Inv(input, OnDrain(s, id, n))
    ensures OnDrain(s, id, n).lost == {} <==> s.lost == {} && n == s.ring[id].len
    ensures n == s.ring[id].len ==> OnDrain(s, id, n).lost == s.lost
  {
    hide Blocks, Accounted, OutCorrect, Counted, Total, GoodRequest, OutAfter, Range;
    DrainKeepsLost(input, s, id, n);
    RequestIn(input, s, id);
    WrittenCorrect(input, s, id, n);
    DrainAccount(input, s, id, n);
    DrainBlocksCount(input, s, id, n);
  }

  // ---------- what the invariant says at the end of each phase ----------

  /** Once `write_left` is 0, only writes are in flight and everything has been issued. */
  lemma OnlyWrites(input: seq<byte>, s: Copy)
    requires Inv(input, s) && s.writeLeft == 0
    ensures s.insize == 0 && s.offset == |input|
    ensures forall id :: id in s.ring ==> !s.ring[id].read
  {
    forall id | id in s.ring
      ensures !s.ring[id].read
    {
      RequestIn(input, s, id);
      TotalAtLeast(s.ring, id, s.offset, ReadLen);
    }
  }

  lemma NothingInFlight(input: seq<byte>, s: Copy)
    requires Inv(input, s) && s.writeLeft == 0 && s.nWrites <= 0
    ensures s.ring == map[]
  {
    OnlyWrites(input, s);
    forall id | id in s.ring
      ensures false
    {
      RequestIn(input, s, id);
      TotalAtLeast(s.ring, id, s.offset, IsWrite);
    }
  }

  /** The file as a map from positions to bytes. */
  function FileMap(input: seq<byte>): map<nat, byte> {
    map i | 0 <= i < |input| :: input[i]
  }

  /** At the end the output is the input, exactly when the drain loop lost nothing. */
  lemma Finished(input: seq<byte>, s: Copy)
    requires Inv(input, s) && s.writeLeft == 0 && s.nWrites <= 0
    ensures s.out == FileMap(input) <==> s.lost == {}
  {
    NothingInFlight(input, s);
    OnlyWrites(input, s);
    assert forall i :: 0 <= i < |input| ==> i in s.out || i in s.lost;
    if s.lost == {} {
      assert s.out == FileMap(input);
    } else {
      var i :| i in s.lost;
      assert i in FileMap(input) && i !in s.out;
    }
  }
}
