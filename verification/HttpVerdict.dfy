/** The verdict on a request as a function of its bytes alone, and what it means to resume it. */
module HttpVerdict {
  import opened Bytes
  import opened Seqs
  import opened HttpGrammar

  // ---------- one line ----------

  /** A scan for a line end stops at a position: more data needed, an error, or CR LF found there. */
  datatype LineScan = Open(at: nat) | Bad(at: nat) | Line(at: nat)

  predicate NotEol(s: seq<byte>, i: nat, j: nat)
    requires i <= j <= |s|
  {
    forall k :: i <= k < j ==> s[k] != CR && s[k] != LF
  }

  function ScanLine(s: seq<byte>, i: nat): (r: LineScan)
    requires i <= |s|
    ensures i <= r.at <= |s|
    ensures r.Line? ==> r.at + 2 <= |s|
    decreases |s| - i
  {
    if i == |s| then Open(i)
    else if s[i] == CR then
      if i + 1 == |s| then Open(i) else if s[i + 1] == LF then Line(i) else Bad(i)
    else if s[i] == LF then Bad(i)
    else ScanLine(s, i + 1)
  }

  /** The scan stops at the first CR or LF, and the next byte decides. */
  lemma {:induction false} ScanStops(s: seq<byte>, i: nat)
    requires i <= |s|
    ensures var r := ScanLine(s, i);
            NotEol(s, i, r.at)
            && (r.Line? ==> s[r.at] == CR && s[r.at + 1] == LF)
            && (r.Open? ==> r.at == |s| || (r.at + 1 == |s| && s[r.at] == CR))
            && (r.Bad? ==> r.at < |s| && (s[r.at] == LF || (s[r.at] == CR && r.at + 1 < |s| && s[r.at + 1] != LF)))
    decreases |s| - i
  {
    if i < |s| && s[i] != CR && s[i] != LF {
      ScanStops(s, i + 1);
    }
  }

  lemma {:induction false} ScanLineAt(s: seq<byte>, i: nat, j: nat)
    requires i <= j <= |s| && NotEol(s, i, j)
    ensures ScanLine(s, i) == ScanLine(s, j)
    decreases j - i
  {
    if i < j {
      ScanLineAt(s, i + 1, j);
    }
  }

  // ---------- the whole parse ----------

  /** Where a call of `parse_content` leaves its reference arguments, and what it returns. */
  datatype Progress = Progress(code: Code, start: nat, checked: nat, state: State)

  /** What the main state machine makes of the text of a complete line. */
  datatype Judgement = GoOn(state: State) | Stop(code: Code)

  function Judge(text: seq<byte>, state: State): (j: Judgement)
    ensures j.Stop? ==> j.code != NoRequest
  {
    match state
    case RequestLine => if RequestLineOk(text) then GoOn(Header) else Stop(BadRequest)
    case Header => if text == [] then Stop(GetRequest) else GoOn(Header)
    case Content => Stop(InternalError)
  }

  /** The line `s[start..]` is being read and is scanned up to `from`. */
  function ParseFrom(s: seq<byte>, start: nat, from: nat, state: State): (r: Progress)
    requires start <= from <= |s|
    ensures r.start <= r.checked <= |s|
    decreases |s| - from
  {
    var r := ScanLine(s, from);
    if r.Open? then Progress(NoRequest, start, r.at, state)
    else if r.Bad? then Progress(BadRequest, start, r.at, state)
    else
      var next := r.at + 2;
      match Judge(UpToNul(s[start..r.at]), state)
      case GoOn(state') => ParseFrom(s, next, next, state')
      case Stop(code) => Progress(code, next, next, state)
  }

  /** One line of the parse, named so that proofs can unfold just this one. */
  lemma ParseStep(s: seq<byte>, start: nat, from: nat, state: State)
    requires start <= from <= |s|
    ensures ParseFrom(s, start, from, state)
            == var r := ScanLine(s, from);
               if r.Open? then Progress(NoRequest, start, r.at, state)
               else if r.Bad? then Progress(BadRequest, start, r.at, state)
               else match Judge(UpToNul(s[start..r.at]), state)
                    case GoOn(state') => ParseFrom(s, r.at + 2, r.at + 2, state')
                    case Stop(code) => Progress(code, r.at + 2, r.at + 2, state)
  {
    hide ScanLine, Judge, UpToNul;
  }

  /** The verdict of one `parse_content` call on the whole input. */
  function Verdict(s: seq<byte>): Code {
    ParseFrom(s, 0, 0, RequestLine).code
  }

  // ---------- resuming ----------

  lemma ScanExtends(s: seq<byte>, t: seq<byte>, i: nat)
    requires i <= |s|
    ensures ScanLine(s, i).Open? ==> ScanLine(s + t, i) == ScanLine(s + t, ScanLine(s, i).at)
    ensures !ScanLine(s, i).Open? ==> ScanLine(s + t, i) == ScanLine(s, i)
  {
    hide ScanLine;
    ScanStops(s, i);
    var r := ScanLine(s, i);
    assert forall k :: 0 <= k < |s| ==> (s + t)[k] == s[k];
    ScanLineAt(s + t, i, r.at);
    if !r.Open? {
      ScanHere(s, r.at);
      ScanHere(s + t, r.at);
    }
  }

  lemma ScanHere(s: seq<byte>, i: nat)
    requires i < |s| && (s[i] == CR || s[i] == LF)
    ensures ScanLine(s, i) == if s[i] == LF then Bad(i)
                              else if i + 1 == |s| then Open(i)
                              else if s[i + 1] == LF then Line(i)
                              else Bad(i)
  {
  }

  /** Stopping for want of data and going on with more is the same as having had the data at once;
      a verdict once given does not depend on what follows. */
  lemma {:induction false} Resume(s: seq<byte>, t: seq<byte>, start: nat, from: nat, state: State)
    requires start <= from <= |s|
    ensures var r := ParseFrom(s, start, from, state);
            ParseFrom(s + t, start, from, state)
            == if r.code == NoRequest then ParseFrom(s + t, r.start, r.checked, r.state) else r
    decreases |s| - from
  {
    hide ScanLine, Judge, UpToNul, ParseFrom;
    ScanExtends(s, t, from);
    ParseStep(s, start, from, state);
    ParseStep(s + t, start, from, state);
    var r := ScanLine(s, from);
    if r.Open? {
      ParseStep(s + t, start, r.at, state);
    } else if r.Line? {
      assert (s + t)[start..r.at] == s[start..r.at];
      var j := Judge(UpToNul(s[start..r.at]), state);
      if j.GoOn? {
        Resume(s, t, r.at + 2, r.at + 2, j.state);
      }
    }
  }

  /** Cutting the input into reads never changes the verdict of the reads taken together. */
  function Incremental(chunks: seq<seq<byte>>, seen: seq<byte>, p: Progress): Code
    requires p.start <= p.checked <= |seen|
    decreases |chunks|
  {
    if chunks == [] then NoRequest
    else
      var all := seen + chunks[0];
      var p' := ParseFrom(all, p.start, p.checked, p.state);
      if p'.code == NoRequest then Incremental(chunks[1..], all, p') else p'.code
  }

  function Flatten(chunks: seq<seq<byte>>): seq<byte> {
    if chunks == [] then [] else chunks[0] + Flatten(chunks[1..])
  }

  /** The reads one after the other. */
  lemma {:induction false} FlattenAppend(chunks: seq<seq<byte>>, c: seq<byte>)
    ensures Flatten(chunks + [c]) == Flatten(chunks) + c
    decreases |chunks|
  {
    if chunks == [] {
      assert chunks + [c] == [c] && [c][1..] == [];
      assert c + [] == c;
    } else {
      assert (chunks + [c])[1..] == chunks[1..] + [c];
      FlattenAppend(chunks[1..], c);
      Assoc(chunks[0], Flatten(chunks[1..]), c);
    }
  }

  lemma {:induction false} IncrementalFrom(chunks: seq<seq<byte>>, seen: seq<byte>, p: Progress)
    requires p.start <= p.checked <= |seen|
    requires ParseFrom(seen, p.start, p.checked, p.state) == p && p.code == NoRequest
    ensures Incremental(chunks, seen, p) == ParseFrom(seen + Flatten(chunks), p.start, p.checked, p.state).code
    decreases |chunks|
  {
    hide ParseFrom;
    if chunks == [] {
      assert seen + [] == seen;
    } else {
      var all, more := seen + chunks[0], Flatten(chunks[1..]);
      assert seen + Flatten(chunks) == all + more;
      var p' := ParseFrom(all, p.start, p.checked, p.state);
      Resume(all, more, p.start, p.checked, p.state);
      if p'.code == NoRequest {
        Settled(all, p.start, p.checked, p.state);
        IncrementalFrom(chunks[1..], all, p');
      }
    }
  }

  /** Parsing again without new data changes nothing. */
  lemma Settled(s: seq<byte>, start: nat, from: nat, state: State)
    requires start <= from <= |s|
    ensures var p := ParseFrom(s, start, from, state);
            p.code == NoRequest ==> ParseFrom(s, p.start, p.checked, p.state) == p
  {
    hide ParseFrom;
    Resume(s, [], start, from, state);
    assert s + [] == s;
  }

  /** However the bytes arrive, the verdict is that of a single call on all of them. */
  lemma ChunkingIrrelevant(chunks: seq<seq<byte>>)
    ensures Incremental(chunks, [], Progress(NoRequest, 0, 0, RequestLine)) == Verdict(Flatten(chunks))
  {
    IncrementalFrom(chunks, [], Progress(NoRequest, 0, 0, RequestLine));
    assert [] + Flatten(chunks) == Flatten(chunks);
  }

  // ---------- the accepted requests as a grammar ----------

  predicate IsLineText(l: seq<byte>) {
    CR !in l && LF !in l
  }

  function Lines(ls: seq<seq<byte>>): seq<byte> {
    if ls == [] then [] else ls[0] + [CR, LF] + Lines(ls[1..])
  }

  /** Header lines, closed by one that is empty as a C string. */
  predicate HeaderBlock(ls: seq<seq<byte>>) {
    ls != []
    && (forall i :: 0 <= i < |ls| ==> IsLineText(ls[i]))
    && (forall i :: 0 <= i < |ls| - 1 ==> UpToNul(ls[i]) != [])
    && UpToNul(ls[|ls| - 1]) == []
  }

  ghost predicate IsGetRequest(s: seq<byte>, request: seq<byte>, headers: seq<seq<byte>>, rest: seq<byte>) {
    s == Lines([request] + headers) + rest
    && IsLineText(request) && GoodLine(UpToNul(request)) && HeaderBlock(headers)
  }

  lemma TextOfLine(s: seq<byte>, p: nat, l: seq<byte>, more: seq<byte>)
    requires p <= |s| && s[p..] == l + [CR, LF] + more && IsLineText(l)
    ensures ScanLine(s, p) == Line(p + |l|)
    ensures p + |l| + 2 <= |s| && s[p..p + |l|] == l && s[p + |l| + 2..] == more
  {
    hide ScanLine;
    Assoc(l, [CR, LF], more);
    SuffixAfter(s, p, l, [CR, LF] + more);
    SuffixAfter(s, p + |l|, [CR, LF], more);
    assert s[p + |l| + 0] == CR && s[p + |l| + 1] == LF;
    assert s[p..p + |l|] == l;
    assert NotEol(s, p, p + |l|);
    ScanLineAt(s, p, p + |l|);
    ScanHere(s, p + |l|);
  }

  lemma LineOfScan(s: seq<byte>, p: nat)
    requires p <= |s| && ScanLine(s, p).Line?
    ensures var e := ScanLine(s, p).at;
            IsLineText(s[p..e]) && s[p..] == s[p..e] + [CR, LF] + s[e + 2..]
  {
    ScanStops(s, p);
    hide ScanLine;
    var e := ScanLine(s, p).at;
    assert s[e..e + 2] == [CR, LF];
    assert s[p..] == s[p..e] + s[e..e + 2] + s[e + 2..];
  }

  lemma HeaderBlockTail(ls: seq<seq<byte>>)
    requires HeaderBlock(ls) && |ls| > 1
    ensures HeaderBlock(ls[1..])
  {
    hide UpToNul;
    assert ls[1..][|ls| - 2] == ls[|ls| - 1];
    assert forall i :: 0 <= i < |ls| - 1 ==> ls[1..][i] == ls[i + 1];
  }

  lemma {:induction false} HeadersAccepted(s: seq<byte>, p: nat, headers: seq<seq<byte>>, rest: seq<byte>)
    requires p <= |s| && s[p..] == Lines(headers) + rest && HeaderBlock(headers)
    ensures ParseFrom(s, p, p, Header).code == GetRequest
    decreases |headers|
  {
    hide UpToNul, ScanLine, ParseFrom;
    ParseStep(s, p, p, Header);
    var l, more := headers[0], Lines(headers[1..]);
    Assoc(l + [CR, LF], more, rest);
    TextOfLine(s, p, l, more + rest);
    if |headers| > 1 {
      HeaderBlockTail(headers);
      HeadersAccepted(s, p + |l| + 2, headers[1..], rest);
    }
  }

  lemma {:induction false} HeadersFound(s: seq<byte>, p: nat) returns (headers: seq<seq<byte>>, rest: seq<byte>)
    requires p <= |s| && ParseFrom(s, p, p, Header).code == GetRequest
    ensures s[p..] == Lines(headers) + rest && HeaderBlock(headers)
    decreases |s| - p
  {
    hide UpToNul, ScanLine, ParseFrom;
    ParseStep(s, p, p, Header);
    var e := ScanLine(s, p).at;
    LineOfScan(s, p);
    var l := s[p..e];
    if UpToNul(l) == [] {
      headers, rest := [l], s[e + 2..];
      LinesOne(l);
    } else {
      var hs;
      hs, rest := HeadersFound(s, e + 2);
      headers := [l] + hs;
      LinesCons(l, hs);
      Assoc(l + [CR, LF], Lines(hs), rest);
    }
  }

  lemma LinesOne(l: seq<byte>)
    ensures Lines([l]) == l + [CR, LF]
  {
    assert Lines([l]) == l + [CR, LF] + Lines([]);
  }

  lemma LinesCons(l: seq<byte>, ls: seq<seq<byte>>)
    ensures Lines([l] + ls) == l + [CR, LF] + Lines(ls)
  {
    assert ([l] + ls)[1..] == ls;
  }

  lemma RequestAccepted(s: seq<byte>, request: seq<byte>, headers: seq<seq<byte>>, rest: seq<byte>)
    ensures IsGetRequest(s, request, headers, rest) ==> Verdict(s) == GetRequest
  {
    hide UpToNul, ScanLine, RequestLineOk, GoodLine, ParseFrom;
    if IsGetRequest(s, request, headers, rest) {
      RequestLineIffGrammar(UpToNul(request));
      ParseStep(s, 0, 0, RequestLine);
      assert s[0..] == s;
      LinesCons(request, headers);
      Assoc(request + [CR, LF], Lines(headers), rest);
      TextOfLine(s, 0, request, Lines(headers) + rest);
      HeadersAccepted(s, |request| + 2, headers, rest);
    }
  }

  lemma RequestFound(s: seq<byte>) returns (request: seq<byte>, headers: seq<seq<byte>>, rest: seq<byte>)
    ensures Verdict(s) == GetRequest ==> IsGetRequest(s, request, headers, rest)
  {
    hide UpToNul, ScanLine, RequestLineOk, GoodLine, ParseFrom;
    request, headers, rest := [], [], [];
    if Verdict(s) == GetRequest {
      ParseStep(s, 0, 0, RequestLine);
      var e := ScanLine(s, 0).at;
      LineOfScan(s, 0);
      assert s[0..] == s;
      request := s[0..e];
      RequestLineIffGrammar(UpToNul(request));
      headers, rest := HeadersFound(s, e + 2);
      LinesCons(request, headers);
      Assoc(request + [CR, LF], Lines(headers), rest);
    }
  }

  /** A correct request is one request line, header lines and an empty line, each closed by CR LF. */
  lemma GetIffGrammar(s: seq<byte>)
    ensures Verdict(s) == GetRequest <==> exists request, headers, rest :: IsGetRequest(s, request, headers, rest)
  {
    var _, _, _ := RequestFound(s);
    if exists request, headers, rest :: IsGetRequest(s, request, headers, rest) {
      var request, headers, rest :| IsGetRequest(s, request, headers, rest);
      RequestAccepted(s, request, headers, rest);
    }
  }

  // ---------- the other verdicts ----------

  /** Lines after which the parser still wants more: a good request line and header lines that are not empty. */
  ghost predicate OpenLines(ls: seq<seq<byte>>) {
    (forall i :: 0 <= i < |ls| ==> IsLineText(ls[i]))
    && (ls != [] ==> GoodLine(UpToNul(ls[0])))
    && (forall i :: 1 <= i < |ls| ==> UpToNul(ls[i]) != [])
  }

  /** No line end yet, or only its CR. */
  predicate Unfinished(rest: seq<byte>) {
    rest == [] || rest == [CR]
  }

  /** A line end that is not CR LF. */
  predicate Malformed(rest: seq<byte>) {
    rest != [] && (rest[0] == LF || (rest[0] == CR && |rest| >= 2 && rest[1] != LF))
  }

  /** Complete lines, the start `l` of the next one, and what follows it. */
  ghost predicate LinesThen(s: seq<byte>, ls: seq<seq<byte>>, l: seq<byte>, rest: seq<byte>) {
    s == Lines(ls) + (l + rest) && OpenLines(ls) && IsLineText(l)
  }

  ghost predicate IsUnfinished(s: seq<byte>) {
    exists ls, l, rest :: LinesThen(s, ls, l, rest) && Unfinished(rest)
  }

  ghost predicate BadFirstLine(s: seq<byte>, l: seq<byte>, rest: seq<byte>) {
    s == l + [CR, LF] + rest && IsLineText(l) && !GoodLine(UpToNul(l))
  }

  /** A complete first line that is not a request line, or a line end that is not CR LF
      before the request was complete. */
  ghost predicate IsBad(s: seq<byte>) {
    (exists l, rest :: BadFirstLine(s, l, rest))
    || exists ls, l, rest :: LinesThen(s, ls, l, rest) && Malformed(rest)
  }

  /** Header lines that are not empty, as C strings. */
  predicate Fields(ls: seq<seq<byte>>) {
    forall i :: 0 <= i < |ls| ==> IsLineText(ls[i]) && UpToNul(ls[i]) != []
  }

  predicate FitsEnd(code: Code, rest: seq<byte>) {
    (code == NoRequest && Unfinished(rest)) || (code == BadRequest && Malformed(rest))
  }

  /** Where no line ends, or one ends badly, that decides in every state. */
  lemma EndDecides(s: seq<byte>, p: nat, state: State, l: seq<byte>, rest: seq<byte>)
    requires p <= |s| && s[p..] == l + rest && IsLineText(l) && (Unfinished(rest) || Malformed(rest))
    ensures FitsEnd(ParseFrom(s, p, p, state).code, rest)
  {
    hide ScanLine, ParseFrom, Judge, UpToNul;
    ParseStep(s, p, p, state);
    SuffixAfter(s, p, l, rest);
    var e := p + |l|;
    assert NotEol(s, p, e);
    ScanLineAt(s, p, e);
    if rest == [] {
      ScanAtEnd(s);
    } else {
      assert s[e] == rest[0] && (|rest| >= 2 ==> s[e + 1] == rest[1]);
      ScanHere(s, e);
    }
  }

  lemma ScanAtEnd(s: seq<byte>)
    ensures ScanLine(s, |s|) == Open(|s|)
  {
  }

  lemma {:induction false} FieldsThenEnd(s: seq<byte>, p: nat, ls: seq<seq<byte>>, l: seq<byte>, rest: seq<byte>)
    requires p <= |s| && s[p..] == Lines(ls) + (l + rest) && Fields(ls) && IsLineText(l)
    requires Unfinished(rest) || Malformed(rest)
    ensures FitsEnd(ParseFrom(s, p, p, Header).code, rest)
    decreases |ls|
  {
    hide ScanLine, ParseFrom, UpToNul, IsLineText;
    if ls == [] {
      assert s[p..] == l + rest;
      EndDecides(s, p, Header, l, rest);
    } else {
      ParseStep(s, p, p, Header);
      var more := Lines(ls[1..]);
      Assoc(ls[0] + [CR, LF], more, l + rest);
      TextOfLine(s, p, ls[0], more + (l + rest));
      FieldsThenEnd(s, p + |ls[0]| + 2, ls[1..], l, rest);
    }
  }

  lemma OpenParts(ls: seq<seq<byte>>)
    requires OpenLines(ls) && ls != []
    ensures IsLineText(ls[0]) && GoodLine(UpToNul(ls[0])) && Fields(ls[1..])
  {
    hide UpToNul, IsLineText, GoodLine;
  }

  lemma LinesThenEnd(s: seq<byte>, ls: seq<seq<byte>>, l: seq<byte>, rest: seq<byte>)
    requires LinesThen(s, ls, l, rest) && (Unfinished(rest) || Malformed(rest))
    ensures FitsEnd(Verdict(s), rest)
  {
    hide ScanLine, ParseFrom, UpToNul, IsLineText, GoodLine, RequestLineOk, Fields, OpenLines, FitsEnd;
    hide Unfinished, Malformed;
    assert s[0..] == s;
    if ls == [] {
      assert s == l + rest;
      EndDecides(s, 0, RequestLine, l, rest);
    } else {
      OpenParts(ls);
      ParseStep(s, 0, 0, RequestLine);
      RequestLineIffGrammar(UpToNul(ls[0]));
      var more := Lines(ls[1..]);
      Assoc(ls[0] + [CR, LF], more, l + rest);
      TextOfLine(s, 0, ls[0], more + (l + rest));
      FieldsThenEnd(s, |ls[0]| + 2, ls[1..], l, rest);
    }
  }

  lemma BadStart(s: seq<byte>, l: seq<byte>, rest: seq<byte>)
    requires BadFirstLine(s, l, rest)
    ensures Verdict(s) == BadRequest
  {
    hide ScanLine, ParseFrom, UpToNul, GoodLine, RequestLineOk;
    ParseStep(s, 0, 0, RequestLine);
    RequestLineIffGrammar(UpToNul(l));
    assert s[0..] == s;
    TextOfLine(s, 0, l, rest);
  }

  /** Where a scan ends without a line, the line so far and what stops it. */
  lemma EndFound(s: seq<byte>, p: nat, state: State) returns (l: seq<byte>, rest: seq<byte>)
    requires p <= |s| && !ScanLine(s, p).Line?
    ensures s[p..] == l + rest && IsLineText(l) && FitsEnd(ParseFrom(s, p, p, state).code, rest)
  {
    ScanStops(s, p);
    hide ScanLine, Judge, UpToNul;
    var e := ScanLine(s, p).at;
    l, rest := s[p..e], s[e..];
    assert s[p..] == l + rest;
  }

  lemma {:induction false} FieldsFound(s: seq<byte>, p: nat)
    returns (ls: seq<seq<byte>>, l: seq<byte>, rest: seq<byte>)
    requires p <= |s| && ParseFrom(s, p, p, Header).code != GetRequest
    ensures s[p..] == Lines(ls) + (l + rest) && Fields(ls) && IsLineText(l)
    ensures FitsEnd(ParseFrom(s, p, p, Header).code, rest)
    decreases |s| - p
  {
    hide UpToNul, ScanLine, ParseFrom, IsLineText, FitsEnd;
    ParseStep(s, p, p, Header);
    var r := ScanLine(s, p);
    if r.Line? {
      LineOfScan(s, p);
      var h := s[p..r.at];
      ls, l, rest := FieldsFound(s, r.at + 2);
      LinesCons(h, ls);
      Assoc(h + [CR, LF], Lines(ls), l + rest);
      ls := [h] + ls;
    } else {
      l, rest := EndFound(s, p, Header);
      ls := [];
      assert [] + (l + rest) == l + rest;
    }
  }

  /** A verdict other than GetRequest shows in the bytes: an end that fits it, or a bad first line. */
  lemma OtherFound(s: seq<byte>)
    requires Verdict(s) != GetRequest
    ensures (Verdict(s) == NoRequest && IsUnfinished(s)) || (Verdict(s) == BadRequest && IsBad(s))
  {
    hide UpToNul, ScanLine, ParseFrom, IsLineText, GoodLine, RequestLineOk, Unfinished, Malformed;
    ParseStep(s, 0, 0, RequestLine);
    assert s[0..] == s;
    var r := ScanLine(s, 0);
    if r.Line? {
      LineOfScan(s, 0);
      var h := s[0..r.at];
      RequestLineIffGrammar(UpToNul(h));
      if RequestLineOk(UpToNul(h)) {
        var ls, l, rest := FieldsFound(s, r.at + 2);
        LinesCons(h, ls);
        Assoc(h + [CR, LF], Lines(ls), l + rest);
        assert LinesThen(s, [h] + ls, l, rest);
      } else {
        assert BadFirstLine(s, h, s[r.at + 2..]);
      }
    } else {
      var l, rest := EndFound(s, 0, RequestLine);
      assert [] + (l + rest) == l + rest;
      assert LinesThen(s, [], l, rest);
    }
  }

  /** NO_REQUEST for exactly the inputs that end inside a line, after lines that do not decide. */
  lemma NoIffUnfinished(s: seq<byte>)
    ensures Verdict(s) == NoRequest <==> IsUnfinished(s)
  {
    hide Verdict, LinesThen, IsBad;
    if Verdict(s) == NoRequest {
      OtherFound(s);
    }
    if IsUnfinished(s) {
      var ls, l, rest :| LinesThen(s, ls, l, rest) && Unfinished(rest);
      LinesThenEnd(s, ls, l, rest);
    }
  }

  /** BAD_REQUEST for exactly the inputs with a bad first line or a bad line end, and no other verdict exists. */
  lemma BadIff(s: seq<byte>)
    ensures Verdict(s) == BadRequest <==> IsBad(s)
    ensures Verdict(s) in {NoRequest, GetRequest, BadRequest}
  {
    hide Verdict, LinesThen, BadFirstLine, IsUnfinished;
    if Verdict(s) != GetRequest {
      OtherFound(s);
    }
    if exists l, rest :: BadFirstLine(s, l, rest) {
      var l, rest :| BadFirstLine(s, l, rest);
      BadStart(s, l, rest);
    }
    if exists ls, l, rest :: LinesThen(s, ls, l, rest) && Malformed(rest) {
      var ls, l, rest :| LinesThen(s, ls, l, rest) && Malformed(rest);
      LinesThenEnd(s, ls, l, rest);
    }
  }

  // ---------- what a NUL byte does ----------

  /** A good request line and anything behind a NUL: accepted, although the whole line is not a request line. */
  lemma NulHidesRest(line: seq<byte>, junk: seq<byte>)
    requires NulFree(line) && GoodLine(line)
    ensures GoodLine(UpToNul(line + [NUL] + junk)) && !GoodLine(line + [NUL] + junk)
  {
    hide UpToNul, RequestLineOk, IsRequestLine;
    TextBeforeNul(line, junk);
    var m, b1, u, b2, v :| IsRequestLine(line, m, b1, u, b2, v);
    Assoc(line, [NUL], junk);
    RequestLineIffGrammar(line + [NUL] + junk);
    LongerRefused(line, m, b1, u, b2, v, [NUL] + junk);
  }

  /** Nothing may follow the version. */
  lemma LongerRefused(line: seq<byte>, m: seq<byte>, b1: seq<byte>, u: seq<byte>, b2: seq<byte>, v: seq<byte>,
                      more: seq<byte>)
    requires IsRequestLine(line, m, b1, u, b2, v) && more != []
    ensures !RequestLineOk(line + more)
  {
    GetHasNoBlank(m);
    VersionStartsPlain(v);
    LongVersion(v, more);
    UrlNotEmpty(u);
    StartsPlain(u, b2 + (v + more));
    Regroup(m, b1, u, b2, v, more);
    hide UrlOk, IsUrl, IsGet, IsVersion, SameNoCase, FirstBlank, BlankSpan, AllBlank, NoBlank;
    VersionSeen(m, b1, u, b2, v + more);
  }

  lemma LongVersion(v: seq<byte>, more: seq<byte>)
    requires IsVersion(v) && more != []
    ensures !SameNoCase(v + more, HTTP_1_1) && (v + more)[0] == v[0]
  {
  }

  /** The parser compares exactly what stands behind the second blanks with the version. */
  lemma VersionSeen(m: seq<byte>, b1: seq<byte>, u: seq<byte>, b2: seq<byte>, v: seq<byte>)
    requires NoBlank(m) && b1 != [] && AllBlank(b1) && u != [] && NoBlank(u) && b2 != [] && AllBlank(b2)
    requires v != [] && !IsBlank(v[0]) && !IsBlank((u + (b2 + v))[0])
    ensures RequestLineOk(m + (b1 + (u + (b2 + v)))) ==> SameNoCase(v, HTTP_1_1)
  {
    hide UrlOk, SameNoCase, FirstBlank, BlankSpan, AllBlank, NoBlank;
    CutOf(m, b1, u + (b2 + v));
    CutOf(u, b2, v);
  }

  lemma StartsPlain(u: seq<byte>, more: seq<byte>)
    requires u != [] && NoBlank(u)
    ensures !IsBlank((u + more)[0])
  {
  }

  lemma Regroup(m: seq<byte>, b1: seq<byte>, u: seq<byte>, b2: seq<byte>, v: seq<byte>, more: seq<byte>)
    ensures m + b1 + u + b2 + v + more == m + (b1 + (u + (b2 + (v + more))))
  {
    Assoc(m + b1 + u + b2, v, more);
    Assoc(m + b1 + u, b2, v + more);
    Assoc(m + b1, u, b2 + (v + more));
    Assoc(m, b1, u + (b2 + (v + more)));
  }

  lemma {:induction false} TextBeforeNul(line: seq<byte>, junk: seq<byte>)
    requires NulFree(line)
    ensures UpToNul(line + [NUL] + junk) == line
  {
    var s := line + [NUL] + junk;
    if line == [] {
      assert s[0] == NUL;
    } else {
      assert s[0] == line[0] && s[1..] == line[1..] + [NUL] + junk;
      TextBeforeNul(line[1..], junk);
    }
  }

  /** Bytes behind a NUL do not spoil a request line, and a line that starts with NUL ends the request:
      correct for the parser, but not a request line, header lines and an empty line. */
  lemma NulDeviates(line: seq<byte>, junk: seq<byte>, closing: seq<byte>, rest: seq<byte>)
    requires IsLineText(line) && NulFree(line) && GoodLine(line) && IsLineText(junk) && IsLineText(closing)
    ensures var s := Lines([line + [NUL] + junk] + [[NUL] + closing]) + rest;
            Verdict(s) == GetRequest && !exists request, fields, rest' :: IsPlainRequest(s, request, fields, rest')
  {
    var l, c := line + [NUL] + junk, [NUL] + closing;
    var s := Lines([l] + [c]) + rest;
    NulHidesRest(line, junk);
    LineTextAround(line, junk);
    ClosingLine(closing);
    hide UpToNul, GoodLine, Verdict, Lines, IsLineText;
    RequestAccepted(s, l, [c], rest);
    NotPlain(s, l, [c], rest);
  }

  lemma ClosingLine(closing: seq<byte>)
    requires IsLineText(closing)
    ensures HeaderBlock([[NUL] + closing])
  {
    LineTextAround([], closing);
    assert [] + [NUL] + closing == [NUL] + closing;
  }

  /** Bytes whose first line is not a request line are no plain request. */
  lemma NotPlain(s: seq<byte>, l: seq<byte>, more: seq<seq<byte>>, rest: seq<byte>)
    requires s == Lines([l] + more) + rest && IsLineText(l) && !GoodLine(l)
    ensures !exists request, fields, rest' :: IsPlainRequest(s, request, fields, rest')
  {
    hide GoodLine, Lines, IsLineText;
    forall request, fields, rest' | IsPlainRequest(s, request, fields, rest')
      ensures false
    {
      Assoc([request], fields, [[]]);
      SameFirstLine(s, l, more, rest, request, fields + [[]], rest');
    }
  }

  lemma LineTextAround(a: seq<byte>, b: seq<byte>)
    requires IsLineText(a) && IsLineText(b)
    ensures IsLineText(a + [NUL] + b)
  {
  }

  /** Two ways to see the same bytes as lines have the same first line. */
  lemma SameFirstLine(s: seq<byte>, a: seq<byte>, more: seq<seq<byte>>, x: seq<byte>,
                      b: seq<byte>, bs: seq<seq<byte>>, y: seq<byte>)
    requires s == Lines([a] + more) + x == Lines([b] + bs) + y && IsLineText(a) && IsLineText(b)
    ensures a == b
  {
    LinesCons(a, more);
    LinesCons(b, bs);
    hide Lines, ScanLine;
    Assoc(a + [CR, LF], Lines(more), x);
    Assoc(b + [CR, LF], Lines(bs), y);
    assert s[0..] == s;
    TextOfLine(s, 0, a, Lines(more) + x);
    TextOfLine(s, 0, b, Lines(bs) + y);
  }

  /** `GET / HTTP/1.1`. */
  function RootLine(): seq<byte> {
    GET + [SPACE] + [SLASH] + [SPACE] + HTTP_1_1
  }

  lemma RootLineOk()
    ensures IsLineText(RootLine()) && NulFree(RootLine()) && GoodLine(RootLine())
  {
    var b: seq<byte> := [SPACE];
    SameSelf(GET);
    SameSelf(HTTP_1_1);
    GetSpelling(GET);
    VersionSpelling(HTTP_1_1);
    assert IsUrl([SLASH]) && NoBlank([SLASH]);
    assert AllBlank(b);
    assert IsLineText(RootLine()) && NulFree(RootLine());
    hide IsUrl, NoBlank, AllBlank, SameNoCase, IsGet, IsVersion;
    assert IsRequestLine(RootLine(), GET, b, [SLASH], b, HTTP_1_1);
  }

  lemma SameSelf(a: seq<byte>)
    ensures SameNoCase(a, a)
  {
  }

  /** A concrete input: `GET / HTTP/1.1`, NUL, `X`, CR LF, NUL, `X`, CR LF. */
  lemma NulExample()
    ensures var s := Lines([RootLine() + [NUL] + [88]] + [[NUL] + [88]]);
            Verdict(s) == GetRequest && !exists request, fields, rest :: IsPlainRequest(s, request, fields, rest)
  {
    RootLineOk();
    assert IsLineText([88]);
    hide GoodLine, Lines, Verdict, RootLine, IsPlainRequest, IsLineText;
    NulDeviates(RootLine(), [88], [88], []);
    var s := Lines([RootLine() + [NUL] + [88]] + [[NUL] + [88]]);
    assert s + [] == s;
  }

  // ---------- the same without NUL bytes ----------

  /** A good request line, header lines that are not empty, and an empty line. */
  ghost predicate IsPlainRequest(s: seq<byte>, request: seq<byte>, fields: seq<seq<byte>>, rest: seq<byte>) {
    s == Lines([request] + fields + [[]]) + rest
    && IsLineText(request) && GoodLine(request)
    && forall i :: 0 <= i < |fields| ==> IsLineText(fields[i]) && fields[i] != []
  }

  lemma {:induction false} WholeText(l: seq<byte>)
    requires NulFree(l)
    ensures UpToNul(l) == l
  {
    if l != [] {
      WholeText(l[1..]);
    }
  }

  lemma {:induction false} LinesNulFree(ls: seq<seq<byte>>, i: nat)
    requires NulFree(Lines(ls)) && i < |ls|
    ensures NulFree(ls[i]) && UpToNul(ls[i]) == ls[i]
    decreases |ls|
  {
    var all := Lines(ls);
    var n := |ls[0]| + 2;
    assert all[..n - 2] == ls[0] && all[n..] == Lines(ls[1..]);
    if i > 0 {
      LinesNulFree(ls[1..], i - 1);
    } else {
      WholeText(ls[0]);
    }
  }

  /** Without NUL bytes the two descriptions of a request agree. */
  lemma PlainIsGet(s: seq<byte>, request: seq<byte>, fields: seq<seq<byte>>, rest: seq<byte>)
    requires NulFree(s)
    ensures IsPlainRequest(s, request, fields, rest) <==> IsGetRequest(s, request, fields + [[]], rest)
  {
    hide UpToNul, GoodLine, Lines;
    var headers := fields + [[]];
    var ls := [request] + headers;
    assert [request] + fields + [[]] == ls;
    if s == Lines(ls) + rest {
      assert NulFree(Lines(ls)) by {
        assert s[..|Lines(ls)|] == Lines(ls);
      }
      LinesNulFree(ls, 0);
      forall i | 0 <= i < |headers|
        ensures UpToNul(headers[i]) == headers[i]
      {
        LinesNulFree(ls, i + 1);
        assert ls[i + 1] == headers[i];
      }
      assert forall i :: 0 <= i < |fields| ==> headers[i] == fields[i];
    }
  }

  /** For input without NUL bytes, exactly the requests closed by an empty line are correct. */
  lemma GetIffPlainGrammar(s: seq<byte>)
    requires NulFree(s)
    ensures Verdict(s) == GetRequest <==> exists request, fields, rest :: IsPlainRequest(s, request, fields, rest)
  {
    hide Verdict, IsGetRequest, IsPlainRequest;
    if Verdict(s) == GetRequest {
      var request, headers, rest := RequestFound(s);
      var fields := ClosedByEmpty(s, request, headers, rest);
      PlainIsGet(s, request, fields, rest);
    }
    if exists request, fields, rest :: IsPlainRequest(s, request, fields, rest) {
      var request, fields, rest :| IsPlainRequest(s, request, fields, rest);
      PlainIsGet(s, request, fields, rest);
      RequestAccepted(s, request, fields + [[]], rest);
    }
  }

  /** Without NUL bytes the closing line is empty. */
  lemma ClosedByEmpty(s: seq<byte>, request: seq<byte>, headers: seq<seq<byte>>, rest: seq<byte>)
    returns (fields: seq<seq<byte>>)
    requires NulFree(s) && IsGetRequest(s, request, headers, rest)
    ensures headers == fields + [[]]
  {
    hide UpToNul, GoodLine, Lines;
    var ls, n := [request] + headers, |headers| - 1;
    assert NulFree(Lines(ls)) by {
      assert s[..|Lines(ls)|] == Lines(ls);
    }
    LinesNulFree(ls, n + 1);
    fields := headers[..n];
    assert ls[n + 1] == headers[n] == [];
  }
}
