/** `get_line`: reading a socket line by line, with every line end turned into LF. */
module LineReader {
  import opened Bytes
  import opened Seqs

  /** The stream with each CRLF and each lone CR replaced by LF. */
  function Normalize(s: seq<byte>): (r: seq<byte>)
    ensures r == [] <==> s == []
  {
    if s == [] then []
    else if s[0] == CR then [LF] + Normalize(s[if |s| > 1 && s[1] == LF then 2 else 1..])
    else [s[0]] + Normalize(s[1..])
  }

  /** `t` up to and including its first LF, but at most `m` bytes of it. */
  function FirstLine(t: seq<byte>, m: nat): (r: seq<byte>)
    ensures r <= t && |r| <= m
    ensures r == [] <==> t == [] || m == 0
    decreases m
  {
    if t == [] || m == 0 then []
    else if t[0] == LF then [LF]
    else [t[0]] + FirstLine(t[1..], m - 1)
  }

  // ---------- what the two functions mean ----------

  /** A stream is made of bytes other than CR, of CR LF pairs, and of CRs that no LF follows. */
  datatype Unit = Other(c: byte) | CrLf | LoneCr

  function UnitText(u: Unit): seq<byte> {
    match u
    case Other(c) => [c]
    case CrLf => [CR, LF]
    case LoneCr => [CR]
  }

  /** Each unit is one byte of the normalised stream, and each line end is an LF. */
  function UnitValue(u: Unit): byte {
    if u.Other? then u.c else LF
  }

  function StreamText(units: seq<Unit>): seq<byte> {
    if units == [] then [] else UnitText(units[0]) + StreamText(units[1..])
  }

  function StreamValue(units: seq<Unit>): (r: seq<byte>)
    ensures |r| == |units| && forall i :: 0 <= i < |units| ==> r[i] == UnitValue(units[i])
  {
    seq(|units|, i requires 0 <= i < |units| => UnitValue(units[i]))
  }

  predicate GoodUnits(units: seq<Unit>) {
    (forall i :: 0 <= i < |units| && units[i].Other? ==> units[i].c != CR)
    && forall i :: 0 <= i < |units| - 1 && units[i].LoneCr? ==> units[i + 1] != Other(LF)
  }

  /** Normalising a stream turns each of its units into its one byte. */
  lemma {:induction false} NormalizeUnits(units: seq<Unit>)
    requires GoodUnits(units)
    ensures Normalize(StreamText(units)) == StreamValue(units)
    decreases |units|
  {
    if units != [] {
      var more, s := StreamText(units[1..]), StreamText(units);
      NormalizeUnits(units[1..]);
      var n := |UnitText(units[0])|;
      assert s[0] == UnitText(units[0])[0] && s[n..] == more;
      assert |s| > n ==> s[n] == more[0];
      if units[0].LoneCr? && |units| > 1 {
        assert units[1] != Other(LF);
        assert more[0] == UnitText(units[1])[0];
      }
      assert StreamValue(units) == [UnitValue(units[0])] + StreamValue(units[1..]);
    }
  }

  /** Every stream is made of such units. */
  lemma {:induction false} StreamUnits(s: seq<byte>) returns (units: seq<Unit>)
    ensures GoodUnits(units) && StreamText(units) == s
    decreases |s|
  {
    if s == [] {
      units := [];
    } else {
      var u := if s[0] != CR then Other(s[0]) else if |s| > 1 && s[1] == LF then CrLf else LoneCr;
      var n := |UnitText(u)|;
      assert s == UnitText(u) + s[n..];
      var more := StreamUnits(s[n..]);
      assert more != [] ==> UnitText(more[0])[0] == s[n];
      units := [u] + more;
      assert units[1..] == more;
    }
  }

  /** A line is cut short only by the limit, its LF or the end of the text. */
  lemma {:induction false} FirstLineFull(t: seq<byte>, m: nat)
    ensures var r := FirstLine(t, m); |r| == m || r == t || (r != [] && r[|r| - 1] == LF)
    decreases m
  {
    if t != [] && m != 0 && t[0] != LF {
      FirstLineFull(t[1..], m - 1);
      HeadTail(t);
    }
  }

  /** The socket: the bytes that the peer has sent and that were not received yet. */
  class Socket {
    var pending: seq<byte>

    constructor (bytes: seq<byte>)
      ensures pending == bytes
    {
      pending := bytes;
    }

    /** `recv(sock, &c, 1, 0)`; 0 stands for the end of the stream or an error. */
    method Recv() returns (n: int, c: byte)
      modifies this
      ensures old(pending) == [] ==> n == 0 && pending == []
      ensures old(pending) != [] ==> n == 1 && c == old(pending)[0] && pending == old(pending)[1..]
    {
      if pending == [] {
        n, c := 0, 0;
      } else {
        n, c := 1, pending[0];
        pending := pending[1..];
      }
    }

    /** `recv(sock, &c, 1, MSG_PEEK)`. */
    method Peek() returns (n: int, c: byte)
      ensures pending == [] ==> n == 0
      ensures pending != [] ==> n == 1 && c == pending[0]
    {
      if pending == [] {
        n, c := 0, 0;
      } else {
        n, c := 1, pending[0];
      }
    }
  }

  /** One byte of the normalised stream, if there is one. */
  method NextByte(sock: Socket) returns (n: int, c: byte)
    modifies sock
    ensures old(sock.pending) == [] ==> n == 0 && sock.pending == []
    ensures old(sock.pending) != [] ==> n > 0 && Normalize(old(sock.pending)) == [c] + Normalize(sock.pending)
                                        && |sock.pending| < |old(sock.pending)|
  {
    n, c := sock.Recv();
    if n > 0 && c == CR {
      var m, d := sock.Peek();
      if m > 0 && d == LF {
        m, c := sock.Recv();
      } else {
        c := LF;
      }
    }
  }

  /** What the loop has read, and what it has still to read of this line. */
  ghost predicate Reading(all: seq<byte>, m: nat, line: seq<byte>, ended: bool, pending: seq<byte>) {
    |line| <= m
    && line + Normalize(pending) == all
    && FirstLine(all, m) == line + if ended then [] else FirstLine(Normalize(pending), m - |line|)
  }

  lemma ReadingStep(all: seq<byte>, m: nat, line: seq<byte>, pending: seq<byte>, c: byte, pending': seq<byte>)
    requires Reading(all, m, line, false, pending) && |line| < m
    requires Normalize(pending) == [c] + Normalize(pending')
    ensures Reading(all, m, line + [c], c == LF, pending')
  {
    hide Normalize;
    var t := Normalize(pending);
    assert t[0] == c && t[1..] == Normalize(pending');
    Assoc(line, [c], Normalize(pending'));
    if c == LF {
      assert line + [c] + [] == line + [c];
    } else {
      Assoc(line, [c], FirstLine(t[1..], m - |line| - 1));
    }
  }

  lemma ReadingEnds(all: seq<byte>, m: nat, line: seq<byte>)
    requires Reading(all, m, line, false, [])
    ensures Reading(all, m, line, true, [])
  {
  }

  lemma ReadingDone(all: seq<byte>, m: nat, line: seq<byte>, ended: bool, pending: seq<byte>)
    requires Reading(all, m, line, ended, pending) && (ended || |line| == m)
    ensures line == FirstLine(all, m) && line + Normalize(pending) == all
  {
    assert line + [] == line;
  }

  /** `buf[i] = c`. */
  method PutByte(buf: array<byte>, i: nat, c: byte)
    requires i < buf.Length
    modifies buf
    ensures buf[i] == c && buf[..i + 1] == old(buf[..i]) + [c]
    ensures forall k :: i < k < buf.Length ==> buf[k] == old(buf[k])
  {
    buf[i] := c;
  }

  /** The loop of `get_line`. */
  method ReadLine(sock: Socket, buf: array<byte>, size: int) returns (i: nat)
    requires 1 <= size <= buf.Length
    modifies sock, buf
    ensures i < size
    ensures buf[..i] == FirstLine(Normalize(old(sock.pending)), size - 1)
    ensures buf[..i] + Normalize(sock.pending) == Normalize(old(sock.pending))
    ensures forall k :: size <= k < buf.Length ==> buf[k] == old(buf[k])
  {
    hide Normalize, FirstLine, Reading;
    ghost var all := Normalize(sock.pending);
    StartReading(sock.pending, size - 1);
    i := 0;
    assert buf[..0] == [];
    var c: byte := NUL;
    while i < size - 1 && c != LF
      invariant 0 <= i < size
      invariant Reading(all, size - 1, buf[..i], c == LF, sock.pending)
      invariant forall k :: size <= k < buf.Length ==> buf[k] == old(buf[k])
      decreases |sock.pending|, c != LF
    {
      ghost var before := sock.pending;
      var n, d := NextByte(sock);
      if n > 0 {
        ReadingStep(all, size - 1, buf[..i], before, d, sock.pending);
        c := d;
        PutByte(buf, i, c);
        i := i + 1;
      } else {
        ReadingEnds(all, size - 1, buf[..i]);
        c := LF;
      }
    }
    ReadingDone(all, size - 1, buf[..i], c == LF, sock.pending);
  }

  /** `get_line`: exactly the first line of the normalised stream, as far as the buffer goes. */
  method GetLine(sock: Socket, buf: array<byte>, size: int) returns (i: nat)
    requires 1 <= size <= buf.Length
    modifies sock, buf
    ensures i < size && buf[i] == NUL
    ensures buf[..i] == FirstLine(Normalize(old(sock.pending)), size - 1)
    ensures buf[..i] + Normalize(sock.pending) == Normalize(old(sock.pending))
    ensures forall k :: 0 <= k < i ==> buf[k] != CR && (buf[k] == LF ==> k == i - 1)
    ensures i == size - 1 || (i > 0 && buf[i - 1] == LF) || sock.pending == []
    ensures forall k :: size <= k < buf.Length ==> buf[k] == old(buf[k])
  {
    hide Normalize, FirstLine;
    i := ReadLine(sock, buf, size);
    ghost var line := buf[..i];
    LineShape(old(sock.pending), size - 1);
    LineEnds(old(sock.pending), size - 1, line, sock.pending);
    PutByte(buf, i, NUL);
    assert buf[..i] == buf[..i + 1][..i] == line;
  }

  lemma LineEnds(s: seq<byte>, m: nat, line: seq<byte>, pending: seq<byte>)
    requires line == FirstLine(Normalize(s), m) && line + Normalize(pending) == Normalize(s)
    ensures |line| == m || (line != [] && line[|line| - 1] == LF) || pending == []
  {
    FirstLineFull(Normalize(s), m);
    hide FirstLine, Normalize;
    if line == Normalize(s) {
      assert |Normalize(pending)| == 0;
    }
  }

  lemma StartReading(pending: seq<byte>, m: nat)
    ensures Reading(Normalize(pending), m, [], false, pending)
  {
  }

  /** Calling `get_line` until it returns 0 delivers the normalised stream, whatever the buffer size. */
  method ReadAll(sock: Socket, buf: array<byte>, size: int) returns (out: seq<byte>)
    requires 2 <= size <= buf.Length
    modifies sock, buf
    ensures out == Normalize(old(sock.pending)) && sock.pending == []
  {
    out := [];
    var i := GetLine(sock, buf, size);
    while i != 0
      invariant 0 <= i < size
      invariant i == 0 ==> sock.pending == []
      invariant out + (buf[..i] + Normalize(sock.pending)) == Normalize(old(sock.pending))
      decreases |Normalize(sock.pending)| + i
    {
      Assoc(out, buf[..i], Normalize(sock.pending));
      out := out + buf[..i];
      i := GetLine(sock, buf, size);
    }
    assert out + ([] + []) == out;
  }

  /** An LF stands only at the end of a line. */
  lemma {:induction false} FirstLineShape(t: seq<byte>, m: nat)
    ensures forall k :: 0 <= k < |FirstLine(t, m)| - 1 ==> FirstLine(t, m)[k] != LF
    decreases m
  {
    if t != [] && m != 0 && t[0] != LF {
      FirstLineShape(t[1..], m - 1);
    }
  }

  /** A line holds no CR, and an LF only at its end. */
  lemma LineShape(s: seq<byte>, m: nat)
    ensures var line := FirstLine(Normalize(s), m);
            forall k :: 0 <= k < |line| ==> line[k] != CR && (line[k] == LF ==> k == |line| - 1)
  {
    NormalizedHasNoCR(s);
    FirstLineShape(Normalize(s), m);
    hide Normalize, FirstLine;
  }

  lemma {:induction false} NormalizedHasNoCR(s: seq<byte>)
    ensures CR !in Normalize(s)
    decreases |s|
  {
    if s != [] {
      NormalizedHasNoCR(s[if s[0] == CR && |s| > 1 && s[1] == LF then 2 else 1..]);
    }
  }
}
