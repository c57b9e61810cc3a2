/** The incremental request parser: a line scanner inside a line interpreter, both resumed across reads. */
module HttpParser {
  import opened Bytes
  import opened HttpGrammar
  import opened HttpVerdict

  const BUFFER_SIZE := 4096

  datatype LineStatus = LineOk | LineBad | LineOpen

  // ---------- C strings that share a buffer ----------

  lemma {:induction false} TextShift(mem: seq<byte>, k: nat)
    requires k <= |UpToNul(mem)|
    ensures UpToNul(mem[k..]) == UpToNul(mem)[k..]
    decreases k
  {
    if k == 0 {
      assert mem[0..] == mem && UpToNul(mem)[0..] == UpToNul(mem);
    } else {
      TextShift(mem[1..], k - 1);
      assert mem[1..][k - 1..] == mem[k..];
    }
  }

  lemma {:induction false} TextCut(mem: seq<byte>, i: nat)
    requires i < |UpToNul(mem)|
    ensures UpToNul(mem[i := NUL]) == UpToNul(mem)[..i]
    decreases i
  {
    if i > 0 {
      TextCut(mem[1..], i - 1);
      assert mem[i := NUL][1..] == mem[1..][i - 1 := NUL];
    }
  }

  /** The text of a line is not affected by what stands behind its end. */
  lemma {:induction false} TextEnds(mem: seq<byte>, n: nat)
    requires n < |mem| && mem[n] == NUL
    ensures UpToNul(mem) == UpToNul(mem[..n])
    decreases n
  {
    if n > 0 && mem[0] != NUL {
      TextEnds(mem[1..], n - 1);
      assert mem[..n][1..] == mem[1..][..n - 1];
    }
  }

  class Parser {
    const buffer: array<byte>
    var checked: nat
    var readIndex: nat
    var start: nat
    var state: State

    /** `raw` are the bytes received so far; from the current line on, the buffer still has them,
        and no line end is left behind `checked`. */
    ghost predicate Holds(raw: seq<byte>)
      reads this, buffer
    {
      buffer.Length == BUFFER_SIZE && |raw| == readIndex <= BUFFER_SIZE
      && start <= checked <= readIndex
      && (forall i :: start <= i < readIndex ==> buffer[i] == raw[i])
      && NotEol(raw, start, checked)
      && (start > 0 ==> buffer[start - 1] == NUL)
    }

    constructor ()
      ensures Holds([]) && start == 0 && checked == 0 && readIndex == 0 && state == RequestLine
      ensures fresh(buffer)
    {
      buffer := new byte[BUFFER_SIZE](_ => NUL);
      checked, readIndex, start, state := 0, 0, 0, RequestLine;
    }

    function TextAt(p: nat): seq<byte>
      reads buffer
      requires p <= buffer.Length
    {
      UpToNul(buffer[p..])
    }

    /** `parse_line`. */
    method ParseLine(ghost raw: seq<byte>) returns (status: LineStatus)
      requires Holds(raw)
      modifies this`checked, buffer
      ensures var r := ScanLine(raw, old(checked));
              match status
              case LineOpen => r == Open(checked) && Holds(raw)
              case LineBad => r == Bad(checked) && Holds(raw)
              case LineOk => r.Line? && checked == r.at + 2 && buffer[r.at] == NUL && buffer[r.at + 1] == NUL
      ensures start <= checked <= readIndex
      ensures forall i :: 0 <= i < buffer.Length && !(status == LineOk && checked - 2 <= i < checked) ==>
                buffer[i] == old(buffer[i])
    {
      while checked < readIndex
        invariant Holds(raw) && ScanLine(raw, checked) == ScanLine(raw, old(checked))
        invariant forall i :: 0 <= i < buffer.Length ==> buffer[i] == old(buffer[i])
      {
        var temp := buffer[checked];
        if temp == CR {
          if checked + 1 == readIndex {
            return LineOpen;
          } else if buffer[checked + 1] == LF {
            buffer[checked] := NUL;
            checked := checked + 1;
            buffer[checked] := NUL;
            checked := checked + 1;
            return LineOk;
          }
          return LineBad;
        } else if temp == LF {
          if checked > 1 && buffer[checked - 1] == CR {
            // A CR right behind the scan position: the invariant rules this branch out.
            assert false;
          }
          return LineBad;
        }
        checked := checked + 1;
      }
      return LineOpen;
    }

    /** `strpbrk` for a blank and the NUL written over it. */
    method CutWord(p: nat, ghost end: nat) returns (found: bool, rest: nat)
      requires p <= end < buffer.Length && p + |TextAt(p)| <= end
      modifies buffer
      ensures var t := old(TextAt(p));
              var i := FirstBlank(t);
              found == (i < |t|)
              && (found ==> rest == p + i + 1 && rest + |TextAt(rest)| <= end
                            && TextAt(p) == t[..i] && TextAt(rest) == t[i + 1..])
      ensures forall i :: 0 <= i < buffer.Length && !(p <= i < end) ==> buffer[i] == old(buffer[i])
    {
      hide UpToNul, FirstBlank;
      ghost var t := TextAt(p);
      var i := FirstBlank(TextAt(p));
      if i == |TextAt(p)| {
        return false, p;
      }
      CutHere(p, i);
      ghost var mem := buffer[..];
      buffer[p + i] := NUL;
      assert buffer[..] == mem[p + i := NUL];
      assert buffer[p..] == buffer[..][p..];
      rest := p + i + 1;
      assert buffer[rest..] == buffer[..][rest..];
      return true, rest;
    }

    /** The pointer moved by `strspn`. */
    method SkipBlanks(p: nat) returns (q: nat)
      requires p <= buffer.Length
      ensures p <= q <= buffer.Length && q + |TextAt(q)| == p + |TextAt(p)|
      ensures TextAt(q) == var t := TextAt(p); t[BlankSpan(t)..]
    {
      hide UpToNul, BlankSpan;
      Advance(p, BlankSpan(TextAt(p)));
      q := p + BlankSpan(TextAt(p));
    }

    /** `parse_requestline` on the line at `p`, whose text ends before index `end`. */
    method ParseRequestLine(p: nat, ghost end: nat) returns (code: Code)
      requires p <= end < buffer.Length && p + |TextAt(p)| <= end
      modifies this`state, buffer
      ensures code == if RequestLineOk(old(TextAt(p))) then NoRequest else BadRequest
      ensures state == if code == NoRequest then Header else old(state)
      ensures forall i :: 0 <= i < buffer.Length && !(p <= i < end) ==> buffer[i] == old(buffer[i])
    {
      hide UpToNul, BlankSpan, FirstBlank, SameNoCase, UrlOk;
      var found, url := CutWord(p, end);
      if !found {
        return BadRequest;
      }
      if !SameNoCase(TextAt(p), GET) {
        return BadRequest;
      }
      url := SkipBlanks(url);
      var version;
      found, version := CutWord(url, end);
      if !found {
        return BadRequest;
      }
      version := SkipBlanks(version);
      if !SameNoCase(TextAt(version), HTTP_1_1) {
        return BadRequest;
      }
      var ok := CheckUrl(TextAt(url));
      if !ok {
        return BadRequest;
      }
      state := Header;
      return NoRequest;
    }

    /** `parse_headers`: a line that is empty as a C string ends the request, any other is accepted. */
    method ParseHeaders(p: nat) returns (code: Code)
      requires p < buffer.Length
      ensures code == if TextAt(p) == [] then GetRequest else NoRequest
    {
      if buffer[p] == NUL {
        return GetRequest;
      }
      return NoRequest;
    }

    /** The text of the finished line at `p` is that of the bytes received for it. */
    lemma LineText(raw: seq<byte>, p: nat, e: nat)
      requires p <= e < buffer.Length && e <= |raw| && buffer[e] == NUL
      requires forall i :: p <= i < e ==> buffer[i] == raw[i]
      ensures TextAt(p) == UpToNul(raw[p..e]) && p + |TextAt(p)| <= e
    {
      TextEnds(buffer[p..], e - p);
      assert buffer[p..][..e - p] == raw[p..e];
    }

    /** The `switch` of `parse_content` on the line from `p` to `e`. */
    method JudgeLine(p: nat, e: nat) returns (code: Code)
      requires p <= e < buffer.Length && p + |TextAt(p)| <= e
      modifies this`state, buffer
      ensures Judge(old(TextAt(p)), old(state)) == if code == NoRequest then GoOn(state) else Stop(code)
      ensures code != NoRequest ==> state == old(state)
      ensures forall i :: 0 <= i < buffer.Length && !(p <= i < e) ==> buffer[i] == old(buffer[i])
    {
      hide UpToNul, RequestLineOk;
      match state
      case RequestLine =>
        code := ParseRequestLine(p, e);
      case Header =>
        code := ParseHeaders(p);
      case Content =>
        code := InternalError;
    }

    /** The rest of a turn of the loop in `parse_content`, once a line is complete: the line is judged. */
    method TakeLine(ghost raw: seq<byte>) returns (code: Code)
      requires buffer.Length == BUFFER_SIZE && |raw| == readIndex <= BUFFER_SIZE
      requires start + 2 <= checked <= readIndex && buffer[checked - 2] == NUL && buffer[checked - 1] == NUL
      requires forall i :: start <= i < readIndex && !(checked - 2 <= i < checked) ==> buffer[i] == raw[i]
      modifies this`start, this`state, buffer
      ensures start == checked
      ensures Judge(UpToNul(raw[old(start)..checked - 2]), old(state))
              == if code == NoRequest then GoOn(state) else Stop(code)
      ensures code != NoRequest ==> state == old(state)
      ensures code == NoRequest ==> Holds(raw)
    {
      hide UpToNul, Judge;
      var p := start;
      start := checked;
      LineText(raw, p, checked - 2);
      code := JudgeLine(p, checked - 2);
    }

    /** `parse_content`: the reference arguments and the result are those of the parse function. */
    method ParseContent(ghost raw: seq<byte>) returns (code: Code)
      requires Holds(raw)
      modifies this`start, this`checked, this`state, buffer
      ensures ParseFrom(raw, old(start), old(checked), old(state)) == Progress(code, start, checked, state)
      ensures code == NoRequest ==> Holds(raw)
      ensures start <= checked <= readIndex
    {
      hide ScanLine, ParseFrom, UpToNul, Judge;
      ghost var goal := ParseFrom(raw, start, checked, state);
      while true
        invariant Holds(raw) && ParseFrom(raw, start, checked, state) == goal
        decreases readIndex - checked
      {
        ParseStep(raw, start, checked, state);
        var status := ParseLine(raw);
        if status == LineOpen {
          return NoRequest;
        } else if status == LineBad {
          return BadRequest;
        }
        code := TakeLine(raw);
        if code != NoRequest {
          return;
        }
      }
    }

    /** One turn of the read loop in `main`: the bytes of a `recv`, then the parse. */
    method Receive(data: seq<byte>, ghost raw: seq<byte>) returns (code: Code)
      requires Holds(raw) && |raw| + |data| <= BUFFER_SIZE
      modifies this, buffer
      ensures ParseFrom(raw + data, old(start), old(checked), old(state)) == Progress(code, start, checked, state)
      ensures code == NoRequest ==> Holds(raw + data)
    {
      hide ParseFrom;
      forall i | readIndex <= i < readIndex + |data| {
        buffer[i] := data[i - readIndex];
      }
      readIndex := readIndex + |data|;
      assert forall i :: 0 <= i < |raw| ==> (raw + data)[i] == raw[i];
      code := ParseContent(raw + data);
    }

    /** Writing a NUL at `p + i` leaves the texts before and behind it. */
    lemma CutHere(p: nat, i: nat)
      requires p <= buffer.Length && i < |TextAt(p)|
      ensures p + |TextAt(p)| <= buffer.Length
      ensures UpToNul(buffer[..][p + i := NUL][p..]) == TextAt(p)[..i]
      ensures UpToNul(buffer[..][p + i := NUL][p + i + 1..]) == TextAt(p)[i + 1..]
    {
      var mem := buffer[p..];
      TextCut(mem, i);
      TextShift(mem, i + 1);
      assert buffer[..][p + i := NUL][p..] == mem[i := NUL];
      assert buffer[..][p + i := NUL][p + i + 1..] == mem[i + 1..];
    }

    lemma Advance(p: nat, k: nat)
      requires p <= buffer.Length && k <= |TextAt(p)|
      ensures p + k <= buffer.Length && TextAt(p + k) == TextAt(p)[k..]
    {
      TextShift(buffer[p..], k);
      assert buffer[p..][k..] == buffer[p + k..];
    }
  }

  /** The scheme check at the end of `parse_requestline`. */
  method CheckUrl(url: seq<byte>) returns (ok: bool)
    ensures ok == UrlOk(url)
    ensures ok <==> IsUrl(url)
  {
    UrlOkIff(url);
    hide IsUrl;
    var u := url;
    if |u| >= 7 && SameNoCase(u[..7], HTTP_SCHEME) {
      u := u[7..];
      var k := 0;
      while k < |u| && u[k] != SLASH
        invariant k <= |u| && SLASH !in u[..k]
      {
        k := k + 1;
      }
      assert u == u[..k] + u[k..];
      return k < |u|;
    }
    return |u| > 0 && u[0] == SLASH;
  }

  /** The connection loop of `main`, over the reads that arrive before the peer closes. */
  method Serve(chunks: seq<seq<byte>>) returns (code: Code)
    requires forall i :: 0 <= i < |chunks| ==> chunks[i] != []
    requires |Flatten(chunks)| <= BUFFER_SIZE
    ensures code == Verdict(Flatten(chunks))
  {
    hide ParseFrom;
    var parser := new Parser();
    ghost var raw: seq<byte> := [];
    ChunkingIrrelevant(chunks);
    assert chunks[0..] == chunks;
    for k := 0 to |chunks|
      invariant parser.Holds(raw) && fresh(parser) && fresh(parser.buffer)
      invariant |raw| + |Flatten(chunks[k..])| <= BUFFER_SIZE
      invariant Incremental(chunks[k..], raw, Progress(NoRequest, parser.start, parser.checked, parser.state))
                == Verdict(Flatten(chunks))
    {
      assert chunks[k..][0] == chunks[k] && chunks[k..][1..] == chunks[k + 1..];
      code := parser.Receive(chunks[k], raw);
      raw := raw + chunks[k];
      if code != NoRequest {
        return;
      }
    }
    code := NoRequest;
  }
}
