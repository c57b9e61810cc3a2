/** The string object behind an `sds` pointer: five header layouts, growth and in-place edits. */
module SdsBuffer {
  import opened Bytes
  import opened Seqs

  const MAX_PREALLOC := 1024 * 1024
  const SIZE_MAX := 0xFFFF_FFFF_FFFF_FFFF

  type HdrType = t: int | 0 <= t <= 4

  const TYPE_5: HdrType := 0
  const TYPE_8: HdrType := 1
  const TYPE_16: HdrType := 2
  const TYPE_32: HdrType := 3
  const TYPE_64: HdrType := 4

  /** Number of values the length field of a header can hold. */
  function FieldRange(t: HdrType): (m: nat)
    ensures m >= 32
  {
    if t == TYPE_5 then 32
    else if t == TYPE_8 then 0x100
    else if t == TYPE_16 then 0x1_0000
    else if t == TYPE_32 then 0x1_0000_0000
    else 0x1_0000_0000_0000_0000
  }

  function Pow2(n: nat): nat {
    if n == 0 then 1 else 2 * Pow2(n - 1)
  }

  /** The length fields have 5, 8, 16, 32 and 64 bits. */
  lemma FieldWidths(t: HdrType)
    ensures FieldRange(t) == Pow2([5, 8, 16, 32, 64][t])
  {
    assert Pow2(4) == 16 && Pow2(5) == 32;
    assert Pow2(8) == 0x100;
    EightBitsMore(8);
    EightBitsMore(16);
    EightBitsMore(24);
    EightBitsMore(32);
    EightBitsMore(40);
    EightBitsMore(48);
    EightBitsMore(56);
  }

  lemma EightBitsMore(n: nat)
    ensures Pow2(n + 8) == 0x100 * Pow2(n)
  {
    assert Pow2(n + 2) == 4 * Pow2(n) && Pow2(n + 4) == 4 * Pow2(n + 2);
    assert Pow2(n + 6) == 4 * Pow2(n + 4) && Pow2(n + 8) == 4 * Pow2(n + 6);
  }

  /** `sdsReqType`: the smallest header whose fields can hold `n`. */
  function ReqType(n: nat): (t: HdrType)
    requires n <= SIZE_MAX
    ensures n < FieldRange(t)
    ensures forall u: HdrType :: n < FieldRange(u) ==> t <= u
  {
    if n < 0x20 then TYPE_5
    else if n < 0x100 then TYPE_8
    else if n < 0x1_0000 then TYPE_16
    else if n < 0x1_0000_0000 then TYPE_32
    else TYPE_64
  }

  /** The growth policy of `sdsMakeRoomFor`. */
  function Grown(n: nat): nat {
    if n < MAX_PREALLOC then n * 2 else n + MAX_PREALLOC
  }

  /** A string of `n` bytes, grown, with header and terminator, can be allocated. */
  predicate Fits(n: nat) {
    n + MAX_PREALLOC + 18 <= SIZE_MAX
  }

  /** What is stored when `n` is written to a field of header type `t`. */
  function Stored(t: HdrType, n: nat): (r: nat)
    ensures r < FieldRange(t)
    ensures n < FieldRange(t) ==> r == n
  {
    n % FieldRange(t)
  }

  /** What is lost in a field are whole multiples of its range. */
  lemma StoredTruncates(t: HdrType, n: nat) returns (k: nat)
    ensures n == k * FieldRange(t) + Stored(t, n)
  {
    k := n / FieldRange(t);
  }

  method CopyBlock(src: array<byte>, n: nat, size: nat) returns (dst: array<byte>)
    requires n <= src.Length && n <= size
    ensures fresh(dst) && dst.Length == size && dst[..n] == src[..n]
  {
    dst := new byte[size];
    forall i | 0 <= i < n {
      dst[i] := src[i];
    }
  }

  /** The byte in front of the string: its low three bits hold a header type. */
  type Flags = f: byte | f % 8 <= 4

  /** The flags byte of a new header; type 5 keeps the length in the high five bits. */
  function FlagsByte(t: HdrType, len: nat): (f: Flags)
    ensures f % 8 == t && (t == TYPE_5 ==> f / 8 == Stored(TYPE_5, len))
  {
    if t == TYPE_5 then Stored(TYPE_5, len) * 8 else t
  }

  lemma ModMod(n: nat)
    ensures n % 256 % 32 == n % 32
  {
    assert n == 256 * (n / 256) + n % 256;
    assert n == 32 * (8 * (n / 256)) + n % 256;
  }

  function Nuls(n: nat): (r: seq<byte>)
    ensures |r| == n && forall i :: 0 <= i < n ==> r[i] == NUL
  {
    seq(n, _ => NUL)
  }

  class Sds {
    var flags: Flags
    /** The length field of the header; type 5 has none. */
    var lenField: nat
    /** The capacity field of the header; type 5 has none. */
    var allocField: nat
    /** The bytes from the `sds` pointer to the end of the block. */
    var buf: array<byte>

    /** `flags & SDS_TYPE_MASK`. */
    function Kind(): HdrType
      reads this
    {
      flags % 8
    }

    /** `sdslen`. */
    function Len(): nat
      reads this
    {
      if Kind() == TYPE_5 then flags / 8 else lenField
    }

    /** `sdsalloc`. */
    function Alloc(): nat
      reads this
    {
      if Kind() == TYPE_5 then flags / 8 else allocField
    }

    /** `sdsavail`. */
    function Avail(): int
      reads this
    {
      if Kind() == TYPE_5 then 0 else allocField - lenField
    }

    /** The header describes the block: both fields fit their type and stay inside it. */
    ghost predicate Shape()
      reads this
    {
      Len() <= Alloc() < FieldRange(Kind()) && Alloc() < buf.Length
    }

    /** A finished string: well shaped and terminated. */
    ghost predicate Valid()
      reads this, buf
    {
      Shape() && buf[Len()] == NUL
    }

    ghost function Contents(): (s: seq<byte>)
      reads this, buf
      requires Shape()
    {
      buf[..Len()]
    }

    /** `sdssetlen`, with the truncation of what it writes. */
    method SetLen(n: nat)
      modifies this`flags, this`lenField
      ensures Kind() == old(Kind()) && Len() == Stored(Kind(), n)
    {
      if Kind() == TYPE_5 {
        flags := FlagsByte(TYPE_5, n);
      } else {
        lenField := Stored(Kind(), n);
      }
    }

    /** `sdsinclen`, with the truncation of what it writes. */
    method IncLen(inc: nat)
      requires Len() < FieldRange(Kind())
      modifies this`flags, this`lenField
      ensures Kind() == old(Kind()) && Len() == Stored(Kind(), old(Len()) + inc)
    {
      if Kind() == TYPE_5 {
        var newlen := (flags / 8 + inc) % 256;
        ModMod(flags / 8 + inc);
        flags := FlagsByte(TYPE_5, newlen);
      } else {
        lenField := Stored(Kind(), lenField + inc);
      }
    }

    /** `sdssetalloc`: nothing to do for type 5. */
    method SetAlloc(n: nat)
      modifies this`allocField
      ensures Kind() != TYPE_5 ==> allocField == Stored(Kind(), n)
    {
      if Kind() != TYPE_5 {
        allocField := Stored(Kind(), n);
      }
    }

    /** `sdsnewlen` on given bytes. */
    constructor (init: seq<byte>)
      requires Fits(|init|)
      ensures Valid() && Contents() == init && fresh(buf)
      ensures Alloc() == |init| && buf.Length == |init| + 1
      ensures Kind() == if init == [] then TYPE_8 else ReqType(|init|)
    {
      var t := ReqType(|init|);
      if t == TYPE_5 && |init| == 0 {
        t := TYPE_8;
      }
      var b := new byte[|init| + 1];
      forall i | 0 <= i < |init| {
        b[i] := init[i];
      }
      b[|init|] := NUL;
      flags := FlagsByte(t, |init|);
      lenField := |init|;
      allocField := |init|;
      buf := b;
    }

    /** A block of another size, in place for the same header type and with a new header otherwise. */
    method Reallocate(t: HdrType, size: nat)
      requires Shape() && Len() <= size < FieldRange(t) && (t == TYPE_5 ==> size == Len())
      modifies this
      ensures Shape() && Kind() == t && Alloc() == size && fresh(buf) && buf.Length == size + 1
      ensures Len() == old(Len()) && buf[..Len() + 1] == old(buf[..Len() + 1])
    {
      hide Stored, FlagsByte;
      var len := Len();
      buf := CopyBlock(buf, len + 1, size + 1);
      if Kind() != t {
        flags := FlagsByte(t, 0);
        SetLen(len);
      }
      SetAlloc(size);
    }

    /** `sdsMakeRoomFor`: never changes the string, only the block around it. */
    method MakeRoomFor(addlen: nat)
      requires Shape() && Fits(Len() + addlen)
      modifies this
      ensures Shape() && Avail() >= addlen
      ensures Len() == old(Len()) && buf[..Len() + 1] == old(buf[..Len() + 1])
      ensures buf == old(buf) || fresh(buf)
      ensures addlen <= old(Avail()) ==> buf == old(buf) && Alloc() == old(Alloc()) && Kind() == old(Kind())
      ensures addlen > old(Avail()) ==>
                Alloc() == Grown(Len() + addlen) && buf.Length == Alloc() + 1
                && Avail() - addlen == (if Len() + addlen < 0x10_0000 then Len() + addlen else 0x10_0000)
                && Kind() == if Alloc() < 0x20 then TYPE_8 else ReqType(Alloc())
    {
      if Avail() >= addlen {
        return;
      }
      var len := Len();
      var newlen := Grown(len + addlen);
      var t := ReqType(newlen);
      if t == TYPE_5 {
        t := TYPE_8;
      }
      Reallocate(t, newlen);
    }

    /** `sdsRemoveFreeSpace`: shrinks the block to the string. */
    method RemoveFreeSpace()
      requires Shape()
      modifies this
      ensures Shape() && Avail() == 0
      ensures Len() == old(Len()) && buf[..Len() + 1] == old(buf[..Len() + 1])
      ensures buf == old(buf) || fresh(buf)
      ensures old(Avail()) > 0 ==>
                buf.Length == Len() + 1 && Kind() == if Len() < 0x100 then ReqType(Len()) else old(Kind())
    {
      var oldtype := Kind();
      var len := Len();
      if Avail() == 0 {
        return;
      }
      var t := ReqType(len);
      Reallocate(if oldtype == t || t > TYPE_8 then oldtype else t, len);
    }

    /** `memcpy(s + i, t, |t|)`. */
    method Blit(i: nat, t: seq<byte>)
      requires i + |t| <= buf.Length
      modifies buf
      ensures buf[..i] == old(buf[..i]) && buf[i..i + |t|] == t && buf[i + |t|..] == old(buf[i + |t|..])
      ensures buf[..i + |t|] == old(buf[..i]) + t
    {
      forall k | i <= k < i + |t| {
        buf[k] := t[k - i];
      }
    }

    /** The body of a `sdscatfmt` case: bytes copied to index `i`, then the length; no terminator yet. */
    method PutAt(i: nat, t: seq<byte>)
      requires Shape() && i == Len() && |t| <= Avail()
      modifies this`flags, this`lenField, buf
      ensures Shape() && Contents() == old(Contents()) + t && Alloc() == old(Alloc()) && Kind() == old(Kind())
    {
      Blit(i, t);
      IncLen(|t|);
    }

    /** `sdsMakeRoomFor`, seen from a caller that cares about the content alone. */
    method Reserve(addlen: nat)
      requires Shape() && Fits(Len() + addlen)
      modifies this
      ensures Shape() && Avail() >= addlen
      ensures Contents() == old(Contents())
      ensures buf == old(buf) || fresh(buf)
    {
      ghost var was := Contents();
      MakeRoomFor(addlen);
      assert buf[..Len()] == buf[..Len() + 1][..Len()] == was;
    }

    /** The length and the terminator of a string whose bytes are in place. */
    method Close(n: nat)
      requires Shape() && n <= Alloc()
      modifies this`flags, this`lenField, buf
      ensures Valid() && Contents() == old(buf[..n])
    {
      ghost var s := buf[..n];
      SetLen(n);
      buf[n] := NUL;
      assert buf[..n] == s;
    }

    /** `sdscatlen`: room, copy, length, terminator. */
    method CatLen(t: seq<byte>)
      requires Valid() && Fits(Len() + |t|)
      modifies this, buf
      ensures Valid() && Contents() == old(Contents()) + t
      ensures buf == old(buf) || fresh(buf)
    {
      var curlen := Len();
      Reserve(|t|);
      Blit(curlen, t);
      Close(curlen + |t|);
    }

    /** `sdscpylen`. */
    method CpyLen(t: seq<byte>)
      requires Valid() && Fits(|t|)
      modifies this, buf
      ensures Valid() && Contents() == t
      ensures buf == old(buf) || fresh(buf)
    {
      if Alloc() < |t| {
        MakeRoomFor(|t| - Len());
      }
      hide ReqType, Grown;
      Blit(0, t);
      buf[|t|] := NUL;
      SetLen(|t|);
      assert buf[..|t|] == t;
    }

    /** `sdsgrowzero`. */
    method GrowZero(n: nat)
      requires Valid() && Fits(n)
      modifies this, buf
      ensures Valid() && Contents() == old(Contents())
                                     + Nuls(if n > |old(Contents())| then n - |old(Contents())| else 0)
      ensures buf == old(buf) || fresh(buf)
    {
      var curlen := Len();
      if n <= curlen {
        return;
      }
      Reserve(n - curlen);
      ghost var was := Contents();
      Blit(curlen, Nuls(n - curlen + 1));
      assert buf[n] == buf[curlen..n + 1][n - curlen];
      SetLen(n);
      assert buf[..n] == buf[..n + 1][..n] == was + Nuls(n - curlen);
    }

    /** `sdsclear`. */
    method Clear()
      requires Valid()
      modifies this, buf
      ensures Valid() && Contents() == [] && buf == old(buf) && Alloc() <= old(Alloc())
    {
      SetLen(0);
      buf[0] := NUL;
    }

    /** `sdstrim`: the part to keep moves to the front. */
    method Trim(cset: seq<byte>)
      requires Valid() && NulFree(cset)
      modifies this, buf
      ensures Valid() && Contents() == Trimmed(old(Contents()), Found(cset)) && buf == old(buf)
    {
      hide Trimmed, Found;
      var sp, len := TrimBounds(buf[..Len()], cset);
      KeepPart(sp, len);
    }

    /** The common end of `sdstrim` and `sdsrange`: `memmove`, terminator, length. */
    method KeepPart(start: nat, len: nat)
      requires Valid() && start + len <= Len()
      modifies this`flags, this`lenField, buf
      ensures Valid() && Contents() == old(Contents()[start..start + len])
    {
      ghost var part := Contents()[start..start + len];
      if start != 0 {
        forall i | 0 <= i < len {
          buf[i] := buf[start + i];
        }
      }
      assert forall i :: 0 <= i < len ==> buf[i] == part[i];
      assert buf[..len] == part;
      buf[len] := NUL;
      SetLen(len);
      assert buf[..len] == part;
    }

    /** `sdsrange`: the bytes from `start` to `end`, negative positions counting from the back. */
    method Range(start0: int, end0: int)
      requires Valid()
      modifies this, buf
      ensures Valid() && Contents() == Slice(old(Contents()), start0, end0) && buf == old(buf)
    {
      ghost var was := Contents();
      var len := Len();
      if len == 0 {
        return;
      }
      var start, newlen := SliceBounds(len, start0, end0);
      assert |was| == len;
      if newlen == 0 {
        KeepPart(0, 0);
      } else {
        KeepPart(start, newlen);
      }
    }
  }

  /** The index arithmetic of `sdsrange`. A start beyond the string selects nothing. */
  method SliceBounds(len: nat, start0: int, end0: int) returns (start: nat, newlen: nat)
    requires len > 0
    ensures newlen == 0 || start + newlen <= len
    ensures forall s: seq<byte> :: |s| == len ==>
              Slice(s, start0, end0) == if newlen == 0 then [] else s[start..start + newlen]
  {
    ghost var hi := FromBack(end0, len);
    var lo, end := start0, end0;
    if lo < 0 {
      lo := len + lo;
      if lo < 0 {
        lo := 0;
      }
    }
    if end < 0 {
      end := len + end;
      if end < 0 {
        end := 0;
      }
    }
    assert lo == FromBack(start0, len) && end == hi;
    newlen := if lo > end then 0 else end - lo + 1;
    if newlen != 0 {
      if lo >= len {
        newlen := 0;
      } else if end >= len {
        end := len - 1;
        newlen := end - lo + 1;
      }
    }
    start := lo;
    forall s: seq<byte> | |s| == len
      ensures Slice(s, start0, end0) == if newlen == 0 then [] else s[start..start + newlen]
    {
      assert FromBack(start0, |s|) == lo && FromBack(end0, |s|) == hi;
    }
  }

  // ---------- the values that the edits compute ----------

  /** The bytes that `strchr` finds in the C string `cset`: its terminator too. */
  function Found(cset: seq<byte>): seq<byte> {
    cset + [NUL]
  }

  function TrimStart(s: seq<byte>, drop: seq<byte>): seq<byte> {
    if s != [] && s[0] in drop then TrimStart(s[1..], drop) else s
  }

  function TrimEnd(s: seq<byte>, drop: seq<byte>): seq<byte> {
    if s != [] && s[|s| - 1] in drop then TrimEnd(s[..|s| - 1], drop) else s
  }

  /** `s` without the bytes of `drop` at its two ends. */
  function Trimmed(s: seq<byte>, drop: seq<byte>): seq<byte> {
    TrimEnd(TrimStart(s, drop), drop)
  }

  /** The two pointers of `sdstrim` close in on the part to keep. */
  method TrimBounds(s: seq<byte>, cset: seq<byte>) returns (sp: nat, len: nat)
    requires NulFree(cset)
    ensures sp + len <= |s| && s[sp..sp + len] == Trimmed(s, Found(cset))
  {
    var drop := Found(cset);
    hide Found, TrimStart, TrimEnd;
    sp := 0;
    var end := |s| - 1;
    assert s[0..] == s;
    while sp <= end && s[sp] in drop
      invariant sp <= |s|
      invariant TrimStart(s[sp..], drop) == TrimStart(s, drop)
    {
      TrimStartAt(s, sp, drop);
      sp := sp + 1;
    }
    TrimStartAt(s, sp, drop);
    var ep := end;
    assert s[sp..end + 1] == s[sp..];
    while ep > sp && s[ep] in drop
      invariant sp - 1 <= ep <= end && (sp <= end ==> sp <= ep)
      invariant TrimEnd(s[sp..ep + 1], drop) == TrimEnd(s[sp..], drop)
    {
      TrimEndAt(s, sp, ep + 1, drop);
      ep := ep - 1;
    }
    TrimEndAt(s, sp, ep + 1, drop);
    len := ep - sp + 1;
  }

  lemma TrimStartAt(s: seq<byte>, i: nat, drop: seq<byte>)
    requires i <= |s|
    ensures TrimStart(s[i..], drop) == if i < |s| && s[i] in drop then TrimStart(s[i + 1..], drop) else s[i..]
  {
    if i < |s| {
      assert s[i..][0] == s[i] && s[i..][1..] == s[i + 1..];
    }
  }

  lemma TrimEndAt(s: seq<byte>, i: nat, j: nat, drop: seq<byte>)
    requires i <= j <= |s|
    ensures TrimEnd(s[i..j], drop) == if i < j && s[j - 1] in drop then TrimEnd(s[i..j - 1], drop) else s[i..j]
  {
    if i < j {
      assert s[i..j][j - 1 - i] == s[j - 1] && s[i..j][..j - 1 - i] == s[i..j - 1];
    }
  }

  function FromBack(i: int, len: nat): nat {
    if i >= 0 then i else if len + i < 0 then 0 else len + i
  }

  function Slice(s: seq<byte>, start: int, end: int): seq<byte> {
    var lo, hi := FromBack(start, |s|), FromBack(end, |s|);
    if lo > hi || lo >= |s| then []
    else if hi >= |s| then s[lo..]
    else s[lo..hi + 1]
  }

  /** Position `i` of `n` lies between `start` and `end`, negative ones counting from the back;
      an end before the front counts as the first position. */
  predicate Selected(i: nat, n: nat, start: int, end: int) {
    (if start >= 0 then start <= i else start <= i - n)
    && if end >= 0 then i <= end else i - n <= end || (i == 0 && n + end < 0)
  }

  /** A slice is one stretch of the string: exactly the selected positions. */
  lemma SliceSelects(s: seq<byte>, start: int, end: int) returns (a: nat, b: nat)
    ensures a <= b <= |s| && Slice(s, start, end) == s[a..b]
    ensures forall i :: 0 <= i < |s| ==> (a <= i < b <==> Selected(i, |s|, start, end))
  {
    var lo, hi := FromBack(start, |s|), FromBack(end, |s|);
    if lo > hi || lo >= |s| {
      a, b := 0, 0;
    } else {
      a, b := lo, if hi >= |s| then |s| else hi + 1;
    }
  }

  ghost predicate AllIn(s: seq<byte>, drop: seq<byte>) {
    forall c :: c in s ==> c in drop
  }

  /** Neither end of `r` is in `drop`. */
  predicate EndsKept(r: seq<byte>, drop: seq<byte>) {
    r == [] || (r[0] !in drop && r[|r| - 1] !in drop)
  }

  lemma {:induction false} TrimStartSplits(s: seq<byte>, drop: seq<byte>) returns (a: seq<byte>)
    ensures s == a + TrimStart(s, drop) && AllIn(a, drop)
    ensures var r := TrimStart(s, drop); r == [] || r[0] !in drop
  {
    if s != [] && s[0] in drop {
      var a' := TrimStartSplits(s[1..], drop);
      a := [s[0]] + a';
      assert s == [s[0]] + s[1..];
    } else {
      a := [];
    }
  }

  lemma {:induction false} TrimEndSplits(s: seq<byte>, drop: seq<byte>) returns (b: seq<byte>)
    ensures s == TrimEnd(s, drop) + b && AllIn(b, drop)
    ensures var r := TrimEnd(s, drop); r == [] || r[|r| - 1] !in drop
  {
    if s != [] && s[|s| - 1] in drop {
      var n := |s| - 1;
      var b' := TrimEndSplits(s[..n], drop);
      var r := TrimEnd(s, drop);
      assert r == TrimEnd(s[..n], drop);
      hide TrimEnd;
      b := b' + [s[n]];
      Assoc(r, b', [s[n]]);
      assert s == s[..n] + [s[n]];
    } else {
      b := [];
    }
  }

  /** Only bytes of the set are cut off, and the ends that remain are not in it. */
  lemma TrimmedIsMaximal(s: seq<byte>, drop: seq<byte>) returns (a: seq<byte>, b: seq<byte>)
    ensures s == a + Trimmed(s, drop) + b && AllIn(a, drop) && AllIn(b, drop)
    ensures EndsKept(Trimmed(s, drop), drop)
  {
    a := TrimStartSplits(s, drop);
    b := TrimEndSplits(TrimStart(s, drop), drop);
    var r := Trimmed(s, drop);
    assert r != [] ==> r[0] == TrimStart(s, drop)[0];
  }

  lemma {:induction false} TrimStartCuts(a: seq<byte>, t: seq<byte>, drop: seq<byte>)
    requires AllIn(a, drop) && (t == [] || t[0] !in drop)
    ensures TrimStart(a + t, drop) == t
    decreases |a|
  {
    if a == [] {
      assert a + t == t;
    } else {
      assert (a + t)[1..] == a[1..] + t;
      TrimStartCuts(a[1..], t, drop);
    }
  }

  lemma {:induction false} TrimEndCuts(t: seq<byte>, b: seq<byte>, drop: seq<byte>)
    requires AllIn(b, drop) && (t == [] || t[|t| - 1] !in drop)
    ensures TrimEnd(t + b, drop) == t
    decreases |b|
  {
    if b == [] {
      assert t + b == t;
    } else {
      var n := |b| - 1;
      assert (t + b)[..|t| + n] == t + b[..n];
      TrimEndCuts(t, b[..n], drop);
    }
  }

  /** There is only one such way to cut a string. */
  lemma TrimmedIsUnique(a: seq<byte>, r: seq<byte>, b: seq<byte>, drop: seq<byte>)
    requires AllIn(a, drop) && AllIn(b, drop) && EndsKept(r, drop)
    ensures Trimmed(a + r + b, drop) == r
  {
    if r == [] {
      assert a + r + b == (a + b) + [];
      TrimStartCuts(a + b, [], drop);
    } else {
      Assoc(a, r, b);
      TrimStartCuts(a, r + b, drop);
      TrimEndCuts(r, b, drop);
    }
  }

  /** `sdstrim` cuts by its set alone exactly when that leaves nothing, or no NUL at either end. */
  lemma TrimsBySetIff(s: seq<byte>, cset: seq<byte>)
    ensures Trimmed(s, Found(cset)) == Trimmed(s, cset) <==> EndsKept(Trimmed(s, cset), [NUL])
  {
    hide Trimmed;
    var a, b := TrimmedIsMaximal(s, cset);
    var _, _ := TrimmedIsMaximal(s, Found(cset));
    if EndsKept(Trimmed(s, cset), [NUL]) {
      TrimmedIsUnique(a, Trimmed(s, cset), b, Found(cset));
    }
  }

  /** A leading NUL is cut off although the set does not name it. */
  lemma TrimCutsNul()
    ensures Trimmed([NUL, 97], [SPACE]) == [NUL, 97] && Trimmed([NUL, 97], Found([SPACE])) == [97]
  {
    TrimmedIsUnique([], [NUL, 97], [], [SPACE]);
    TrimmedIsUnique([NUL], [97], [], Found([SPACE]));
    assert [] + [NUL, 97] + [] == [NUL, 97] && [NUL] + [97] + [] == [NUL, 97];
  }

  // ---------- every sequence of edits ----------

  datatype Edit =
    | Append(t: seq<byte>)
    | Overwrite(t: seq<byte>)
    | ZeroExtend(n: nat)
    | Reserve(n: nat)
    | Shrink
    | Empty
    | TrimSet(cset: seq<byte>)
    | KeepRange(start: int, end: int)

  function Apply(e: Edit, s: seq<byte>): seq<byte> {
    match e
    case Append(t) => s + t
    case Overwrite(t) => t
    case ZeroExtend(n) => if n <= |s| then s else s + Nuls(n - |s|)
    case Reserve(n) => s
    case Shrink => s
    case Empty => []
    case TrimSet(cset) => Trimmed(s, Found(cset))
    case KeepRange(start, end) => Slice(s, start, end)
  }

  /** The allocation that an edit asks for can be made. */
  predicate Feasible(e: Edit, s: seq<byte>) {
    match e
    case Append(t) => Fits(|s| + |t|)
    case Overwrite(t) => Fits(|t|)
    case ZeroExtend(n) => Fits(n)
    case Reserve(n) => Fits(|s| + n)
    case TrimSet(cset) => NulFree(cset)
    case _ => true
  }

  function ApplyAll(edits: seq<Edit>, s: seq<byte>): seq<byte> {
    if edits == [] then s else ApplyAll(edits[1..], Apply(edits[0], s))
  }

  predicate AllFeasible(edits: seq<Edit>, s: seq<byte>) {
    edits != [] ==> Feasible(edits[0], s) && AllFeasible(edits[1..], Apply(edits[0], s))
  }

  method Perform(x: Sds, e: Edit)
    requires x.Valid() && Feasible(e, x.Contents())
    modifies x, x.buf
    ensures x.Valid() && x.Contents() == Apply(e, old(x.Contents()))
    ensures x.buf == old(x.buf) || fresh(x.buf)
  {
    ghost var was := x.Contents();
    match e
    case Append(t) => x.CatLen(t);
    case Overwrite(t) => x.CpyLen(t);
    case ZeroExtend(n) =>
      x.GrowZero(n);
      assert n <= |was| ==> was + Nuls(0) == was;
    case Reserve(n) =>
      x.MakeRoomFor(n);
      assert x.buf[..x.Len()] == x.buf[..x.Len() + 1][..x.Len()];
    case Shrink =>
      x.RemoveFreeSpace();
      assert x.buf[..x.Len()] == x.buf[..x.Len() + 1][..x.Len()];
    case Empty => x.Clear();
    case TrimSet(cset) => x.Trim(cset);
    case KeepRange(start, end) => x.Range(start, end);
  }

  /** Whatever the edits, the object stays valid and holds the string they compute. */
  method Run(x: Sds, edits: seq<Edit>)
    requires x.Valid() && AllFeasible(edits, x.Contents())
    modifies x, x.buf
    ensures x.Valid() && x.Contents() == ApplyAll(edits, old(x.Contents()))
    ensures x.buf == old(x.buf) || fresh(x.buf)
  {
    for i := 0 to |edits|
      invariant x.Valid() && AllFeasible(edits[i..], x.Contents())
      invariant ApplyAll(edits[i..], x.Contents()) == ApplyAll(edits, old(x.Contents()))
      invariant x.buf == old(x.buf) || fresh(x.buf)
    {
      assert edits[i..][0] == edits[i] && edits[i..][1..] == edits[i + 1..];
      Perform(x, edits[i]);
    }
  }
}
