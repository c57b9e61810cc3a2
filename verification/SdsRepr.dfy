/** The quoting printer `sdscatrepr` and the argument-line parser `sdssplitargs`. */
module SdsRepr {
  import opened Bytes
  import opened Seqs

  // ---------- the printer ----------

  /** The text that stands for one byte between the quotes. */
  function ReprByte(b: byte): (r: seq<byte>)
    ensures 1 <= |r| <= 4 && NulFree(r)
  {
    if b == BACKSLASH || b == DQUOTE then [BACKSLASH, b]
    else if b == LF then [BACKSLASH, 110]
    else if b == CR then [BACKSLASH, 114]
    else if b == TAB then [BACKSLASH, 116]
    else if b == 7 then [BACKSLASH, 97]
    else if b == 8 then [BACKSLASH, 98]
    else if IsPrint(b) then [b]
    else [BACKSLASH, 120] + Hex2(b)
  }

  /** The bytes that are written as a backslash and a letter: `\n`, `\r`, `\t`, `\a`, `\b`. */
  const EscapeLetters: map<byte, byte> := map[10 := 110, 13 := 114, 9 := 116, 7 := 97, 8 := 98]

  /** Printable bytes stand for themselves, but for the quote and the backslash; five control bytes have a letter;
      every other byte is written with two lower-case hexadecimal digits. */
  lemma ReprByteIs(b: byte)
    ensures ReprByte(b) == if b == 34 || b == 92 then [92, b]
                           else if 32 <= b <= 126 then [b]
                           else if b in EscapeLetters then [92, EscapeLetters[b]]
                           else [92, 120, HexDigits[b / 16], HexDigits[b % 16]]
  {
    hide Hex2;
  }

  function ReprBody(p: seq<byte>): (r: seq<byte>)
    ensures |r| <= 4 * |p|
  {
    if p == [] then [] else ReprByte(p[0]) + ReprBody(p[1..])
  }

  function Repr(p: seq<byte>): seq<byte> {
    [DQUOTE] + ReprBody(p) + [DQUOTE]
  }

  /** The representations of `args`, one space between neighbours. */
  function ReprLine(args: seq<seq<byte>>): seq<byte> {
    if args == [] then []
    else if |args| == 1 then Repr(args[0])
    else Repr(args[0]) + [SPACE] + ReprLine(args[1..])
  }

  lemma {:induction false} ReprBodyAppend(p: seq<byte>, q: seq<byte>)
    ensures ReprBody(p + q) == ReprBody(p) + ReprBody(q)
  {
    if p == [] {
      assert p + q == q;
    } else {
      assert (p + q)[0] == p[0] && (p + q)[1..] == p[1..] + q;
      ReprBodyAppend(p[1..], q);
    }
  }

  lemma ReprBodyOne(b: byte)
    ensures ReprBody([b]) == ReprByte(b)
  {
    assert ReprBody([b]) == ReprByte(b) + ReprBody([]);
  }

  // ---------- the parser ----------

  datatype Mode = Plain | InDouble | InSingle

  /** A token scan: the token and the position after it, or unbalanced quotes. */
  datatype Scan = Unbalanced | Token(text: seq<byte>, next: nat)

  /** The parse of a line: the argument vector, or NULL. */
  datatype Parsed = Null | Args(argv: seq<seq<byte>>)

  function Unescape(c: byte): byte {
    if c == 110 then LF
    else if c == 114 then CR
    else if c == 116 then TAB
    else if c == 98 then 8
    else if c == 97 then 7
    else c
  }

  predicate IsHexEscape(line: seq<byte>, p: nat) {
    At(line, p) == BACKSLASH && At(line, p + 1) == 120
    && IsHexDigit(At(line, p + 2)) && IsHexDigit(At(line, p + 3))
  }

  /** May a closing quote be followed by this byte? */
  predicate ClosesToken(c: byte) {
    c == NUL || IsSpace(c)
  }

  predicate EndsPlain(c: byte) {
    c == SPACE || c == LF || c == CR || c == TAB || c == NUL
  }

  /** One turn of the token loop: go on from `p` in `mode`, or stop. */
  datatype Turn = Stop(result: Scan) | Go(p: nat, mode: Mode, cur: seq<byte>)

  function DoubleTurn(line: seq<byte>, p: nat, cur: seq<byte>): Turn {
    var c := At(line, p);
    if IsHexEscape(line, p) then
      Go(p + 4, InDouble, cur + [(HexValue(At(line, p + 2)) * 16 + HexValue(At(line, p + 3))) as byte])
    else if c == BACKSLASH && At(line, p + 1) != NUL then
      Go(p + 2, InDouble, cur + [Unescape(At(line, p + 1))])
    else if c == DQUOTE then
      Stop(if ClosesToken(At(line, p + 1)) then Token(cur, p + 1) else Unbalanced)
    else if c == NUL then Stop(Unbalanced)
    else Go(p + 1, InDouble, cur + [c])
  }

  function SingleTurn(line: seq<byte>, p: nat, cur: seq<byte>): Turn {
    var c := At(line, p);
    if c == BACKSLASH && At(line, p + 1) == SQUOTE then Go(p + 2, InSingle, cur + [SQUOTE])
    else if c == SQUOTE then
      Stop(if ClosesToken(At(line, p + 1)) then Token(cur, p + 1) else Unbalanced)
    else if c == NUL then Stop(Unbalanced)
    else Go(p + 1, InSingle, cur + [c])
  }

  function PlainTurn(line: seq<byte>, p: nat, cur: seq<byte>): Turn {
    var c := At(line, p);
    if c == NUL then Stop(Token(cur, p))
    else if EndsPlain(c) then Stop(Token(cur, p + 1))
    else if c == DQUOTE then Go(p + 1, InDouble, cur)
    else if c == SQUOTE then Go(p + 1, InSingle, cur)
    else Go(p + 1, Plain, cur + [c])
  }

  /** The position strictly advances, and never beyond the terminator. */
  function TakeTurn(line: seq<byte>, p: nat, mode: Mode, cur: seq<byte>): (t: Turn)
    requires p <= |line|
    ensures t.Go? ==> p < t.p <= |line|
    ensures t.Stop? && t.result.Token? ==> p <= t.result.next <= |line|
    ensures t.Stop? && t.result.Token? && (mode != Plain || At(line, p) != NUL) ==> p < t.result.next
  {
    match mode
    case InDouble => DoubleTurn(line, p, cur)
    case InSingle => SingleTurn(line, p, cur)
    case Plain => PlainTurn(line, p, cur)
  }

  /** The token that starts at `p` in the given quoting mode, appended to `cur`. */
  function ScanToken(line: seq<byte>, p: nat, mode: Mode, cur: seq<byte>): (r: Scan)
    requires p <= |line|
    ensures r.Token? ==> p <= r.next <= |line|
    ensures r.Token? && (mode != Plain || At(line, p) != NUL) ==> p < r.next
    decreases |line| - p
  {
    match TakeTurn(line, p, mode, cur)
    case Stop(r) => r
    case Go(p', mode', cur') => ScanToken(line, p', mode', cur')
  }

  function SkipBlanks(line: seq<byte>, p: nat): (q: nat)
    requires p <= |line|
    ensures p <= q <= |line|
    ensures !IsSpace(At(line, q))
    ensures forall i :: p <= i < q ==> IsSpace(line[i])
    decreases |line| - p
  {
    if p < |line| && IsSpace(line[p]) then SkipBlanks(line, p + 1) else p
  }

  function Prepend(front: seq<seq<byte>>, r: Parsed): Parsed {
    if r.Null? then Null else Args(front + r.argv)
  }

  function SplitFrom(line: seq<byte>, p: nat): Parsed
    requires p <= |line|
    decreases |line| - p
  {
    var q := SkipBlanks(line, p);
    if At(line, q) == NUL then Args([])
    else
      match ScanToken(line, q, Plain, [])
      case Unbalanced => Null
      case Token(text, next) =>
        Prepend([text], SplitFrom(line, next))
  }

  /** The argument vector of a whole line. */
  function Split(line: seq<byte>): Parsed {
    SplitFrom(line, 0)
  }

  /** The arm of the token loop inside double quotes; `p'` is the last byte it has looked at. */
  method DoubleArm(line: seq<byte>, p: nat, cur: seq<byte>)
    returns (bad: bool, done: bool, p': nat, cur': seq<byte>)
    requires p <= |line|
    ensures DoubleTurn(line, p, cur) == if bad then Stop(Unbalanced)
                                        else if done then Stop(Token(cur', p' + 1))
                                        else Go(p' + 1, InDouble, cur')
    ensures bad || At(line, p') != NUL
  {
    bad, done, p', cur' := false, false, p, cur;
    if At(line, p) == BACKSLASH && At(line, p + 1) == 120
       && IsHexDigit(At(line, p + 2)) && IsHexDigit(At(line, p + 3)) {
      var b: byte := HexValue(At(line, p + 2)) * 16 + HexValue(At(line, p + 3));
      cur' := cur + [b];
      p' := p + 3;
    } else if At(line, p) == BACKSLASH && At(line, p + 1) != NUL {
      p' := p + 1;
      cur' := cur + [Unescape(At(line, p'))];
    } else if At(line, p) == DQUOTE {
      if At(line, p + 1) != NUL && !IsSpace(At(line, p + 1)) {
        bad := true;
      }
      done := true;
    } else if At(line, p) == NUL {
      bad := true;
    } else {
      cur' := cur + [At(line, p)];
    }
  }

  /** The arm inside single quotes. */
  method SingleArm(line: seq<byte>, p: nat, cur: seq<byte>)
    returns (bad: bool, done: bool, p': nat, cur': seq<byte>)
    requires p <= |line|
    ensures SingleTurn(line, p, cur) == if bad then Stop(Unbalanced)
                                        else if done then Stop(Token(cur', p' + 1))
                                        else Go(p' + 1, InSingle, cur')
    ensures bad || At(line, p') != NUL
  {
    bad, done, p', cur' := false, false, p, cur;
    if At(line, p) == BACKSLASH && At(line, p + 1) == SQUOTE {
      p' := p + 1;
      cur' := cur + [SQUOTE];
    } else if At(line, p) == SQUOTE {
      if At(line, p + 1) != NUL && !IsSpace(At(line, p + 1)) {
        bad := true;
      }
      done := true;
    } else if At(line, p) == NUL {
      bad := true;
    } else {
      cur' := cur + [At(line, p)];
    }
  }

  /** The arm outside quotes; it may open one. */
  method PlainArm(line: seq<byte>, p: nat, cur: seq<byte>)
    returns (inq: bool, insq: bool, done: bool, cur': seq<byte>)
    requires p <= |line|
    ensures PlainTurn(line, p, cur) == if done then Stop(Token(cur', if At(line, p) == NUL then p else p + 1))
                                       else Go(p + 1, ModeOf(inq, insq), cur')
    ensures !(inq && insq) && (done || At(line, p) != NUL)
  {
    inq, insq, done, cur' := false, false, false, cur;
    var c := At(line, p);
    if c == SPACE || c == LF || c == CR || c == TAB || c == NUL {
      done := true;
    } else if c == DQUOTE {
      inq := true;
    } else if c == SQUOTE {
      insq := true;
    } else {
      cur' := cur + [c];
    }
  }

  /** The quoting mode that the two flags stand for. */
  function ModeOf(inq: bool, insq: bool): Mode {
    if inq then InDouble else if insq then InSingle else Plain
  }

  /** The inner loop of `sdssplitargs`, which reads one token from `start`. */
  method GetToken(line: seq<byte>, start: nat) returns (r: Scan)
    requires start < |line| && At(line, start) != NUL
    ensures r == ScanToken(line, start, Plain, [])
  {
    hide DoubleTurn, SingleTurn, PlainTurn;
    var p := start;
    var inq, insq, done, bad := false, false, false, false;
    var current: seq<byte> := [];
    ghost var goal := ScanToken(line, start, Plain, []);
    while !done
      invariant start <= p <= |line|
      invariant !(inq && insq)
      invariant goal == if done then Token(current, p) else ScanToken(line, p, ModeOf(inq, insq), current)
      decreases !done, |line| - p
    {
      ghost var turn := TakeTurn(line, p, ModeOf(inq, insq), current);
      if inq {
        bad, done, p, current := DoubleArm(line, p, current);
      } else if insq {
        bad, done, p, current := SingleArm(line, p, current);
      } else {
        inq, insq, done, current := PlainArm(line, p, current);
      }
      if bad {
        return Unbalanced;
      }
      if At(line, p) != NUL {
        p := p + 1;
      }
      assert turn == if done then Stop(Token(current, p)) else Go(p, ModeOf(inq, insq), current);
    }
    r := Token(current, p);
  }

  /** The arguments in front of `p` are `vector`, and the rest of the line is still to be parsed. */
  ghost predicate Parsing(line: seq<byte>, p: nat, vector: seq<seq<byte>>) {
    p <= |line| && Split(line) == Prepend(vector, SplitFrom(line, p))
  }

  lemma ParsingStart(line: seq<byte>)
    ensures Parsing(line, 0, [])
  {
    var r := SplitFrom(line, 0);
    assert r.Args? ==> [] + r.argv == r.argv;
  }

  /** With the blanks skipped up to `q`: the end, an error, or one more argument. */
  lemma ParsingStep(line: seq<byte>, p: nat, vector: seq<seq<byte>>)
    requires Parsing(line, p, vector)
    ensures var q := SkipBlanks(line, p);
            if At(line, q) == NUL then Split(line) == Args(vector)
            else match ScanToken(line, q, Plain, [])
                 case Unbalanced => Split(line) == Null
                 case Token(text, next) => Parsing(line, next, vector + [text])
  {
    hide ScanToken, Split;
    var q := SkipBlanks(line, p);
    if At(line, q) == NUL {
      assert vector + [] == vector;
    } else {
      var token := ScanToken(line, q, Plain, []);
      if token.Token? {
        var rest := SplitFrom(line, token.next);
        if rest.Args? {
          Assoc(vector, [token.text], rest.argv);
        }
      }
    }
  }

  /** The outer loop of `sdssplitargs`. */
  method SplitArgs(line: seq<byte>) returns (r: Parsed)
    ensures r == Split(line)
  {
    hide ScanToken, Split, Parsing;
    var p := 0;
    var vector: seq<seq<byte>> := [];
    ParsingStart(line);
    while true
      invariant 0 <= p <= |line|
      invariant Parsing(line, p, vector)
      decreases |line| - p
    {
      ParsingStep(line, p, vector);
      ghost var p0 := p;
      while At(line, p) != NUL && IsSpace(At(line, p))
        invariant p0 <= p <= |line|
        invariant SkipBlanks(line, p) == SkipBlanks(line, p0)
        decreases |line| - p
      {
        p := p + 1;
      }
      if At(line, p) == NUL {
        return Args(vector);
      }
      var token := GetToken(line, p);
      if token.Unbalanced? {
        return Null;
      }
      vector := vector + [token.text];
      p := token.next;
    }
  }

  // ---------- round trip ----------

  /** A hexadecimal escape where the scan stands. */
  lemma TurnHex(line: seq<byte>, p: nat, b: byte, cur: seq<byte>)
    requires At(line, p) == BACKSLASH && At(line, p + 1) == 120
    requires At(line, p + 2) == Hex2(b)[0] && At(line, p + 3) == Hex2(b)[1]
    ensures DoubleTurn(line, p, cur) == Go(p + 4, InDouble, cur + [b])
  {
    hide Hex2, LowerHex, HexValue, At;
  }

  /** The text of `b` where the scan stands makes one turn that appends exactly `b`. */
  lemma TurnReprByte(line: seq<byte>, p: nat, b: byte, cur: seq<byte>)
    requires var r := ReprByte(b); forall k :: 0 <= k < |r| ==> At(line, p + k) == r[k]
    ensures DoubleTurn(line, p, cur) == Go(p + |ReprByte(b)|, InDouble, cur + [b])
  {
    hide Hex2, LowerHex, HexValue, At;
    var r := ReprByte(b);
    assert At(line, p + 0) == r[0];
    if |r| > 1 {
      assert At(line, p + 1) == r[1];
    }
    if |r| == 4 {
      assert At(line, p + 2) == r[2] && At(line, p + 3) == r[3];
      TurnHex(line, p, b, cur);
    }
  }

  /** Scanning one printed byte inside double quotes appends exactly that byte. */
  lemma ScanReprByte(line: seq<byte>, p: nat, b: byte, tail: seq<byte>, cur: seq<byte>)
    requires p <= |line| && line[p..] == ReprByte(b) + tail
    ensures p + |ReprByte(b)| <= |line| && line[p + |ReprByte(b)|..] == tail
    ensures ScanToken(line, p, InDouble, cur) == ScanToken(line, p + |ReprByte(b)|, InDouble, cur + [b])
  {
    hide ReprByte, DoubleTurn, SingleTurn, PlainTurn;
    SuffixAfter(line, p, ReprByte(b), tail);
    TurnReprByte(line, p, b, cur);
  }

  lemma ScanClosingQuote(line: seq<byte>, p: nat, rest: seq<byte>, cur: seq<byte>)
    requires p <= |line| && line[p..] == [DQUOTE] + rest
    requires rest == [] || ClosesToken(rest[0])
    ensures ScanToken(line, p, InDouble, cur) == Token(cur, |line| - |rest|)
  {
    assert line[p] == line[p..][0] == DQUOTE;
    assert rest != [] ==> line[p + 1] == line[p..][1] == rest[0];
  }

  lemma {:induction false} ScanReprBody(line: seq<byte>, p: nat, x: seq<byte>, rest: seq<byte>, cur: seq<byte>)
    requires p <= |line| && line[p..] == ReprBody(x) + ([DQUOTE] + rest)
    requires rest == [] || ClosesToken(rest[0])
    ensures ScanToken(line, p, InDouble, cur) == Token(cur + x, |line| - |rest|)
    decreases |x|
  {
    hide ReprByte, ScanToken;
    if x == [] {
      assert [] + ([DQUOTE] + rest) == [DQUOTE] + rest;
      ScanClosingQuote(line, p, rest, cur);
      assert cur + x == cur;
    } else {
      var tail := ReprBody(x[1..]) + ([DQUOTE] + rest);
      Assoc(ReprByte(x[0]), ReprBody(x[1..]), [DQUOTE] + rest);
      ScanReprByte(line, p, x[0], tail, cur);
      ScanReprBody(line, p + |ReprByte(x[0])|, x[1..], rest, cur + [x[0]]);
      AppendHead(cur, x);
    }
  }

  lemma ScanRepr(line: seq<byte>, p: nat, x: seq<byte>, rest: seq<byte>)
    requires p <= |line| && line[p..] == Repr(x) + rest
    requires rest == [] || ClosesToken(rest[0])
    ensures ScanToken(line, p, Plain, []) == Token(x, |line| - |rest|)
    ensures |Repr(x)| + |rest| == |line| - p && At(line, p) == DQUOTE
  {
    hide ReprBody;
    var body := ReprBody(x) + ([DQUOTE] + rest);
    assert Repr(x) + rest == [DQUOTE] + body;
    SuffixAfter(line, p, [DQUOTE], body);
    assert line[p + 0] == DQUOTE;
    ScanReprBody(line, p + 1, x, rest, []);
    assert [] + x == x;
  }

  /** One step of the argument loop, when a token starts right here. */
  lemma ReprStarts(x: seq<byte>)
    ensures Repr(x) != [] && Repr(x)[0] == DQUOTE
  {
  }

  /** Where no blank stands, the parse takes one token and goes on behind it. */
  lemma SplitHere(line: seq<byte>, p: nat)
    requires p < |line| && line[p] != NUL && !IsSpace(line[p])
    ensures match ScanToken(line, p, Plain, [])
            case Unbalanced => SplitFrom(line, p) == Null
            case Token(text, next) => SplitFrom(line, p) == Prepend([text], SplitFrom(line, next))
  {
    hide ScanToken;
    assert SkipBlanks(line, p) == p;
  }

  lemma SplitStep(line: seq<byte>, p: nat, x: seq<byte>, rest: seq<byte>)
    requires p <= |line| && line[p..] == Repr(x) + rest
    requires rest == [] || ClosesToken(rest[0])
    ensures var q := |line| - |rest|;
            p <= q && line[q..] == rest
            && SplitFrom(line, p) == Prepend([x], SplitFrom(line, q))
  {
    hide Repr, ScanToken, SplitFrom;
    ReprStarts(x);
    ScanRepr(line, p, x, rest);
    SuffixAfter(line, p, Repr(x), rest);
    assert line[p + 0] == DQUOTE;
    SplitHere(line, p);
  }

  lemma SplitSkipsSpace(line: seq<byte>, p: nat)
    requires p < |line| && line[p] == SPACE
    ensures SplitFrom(line, p) == SplitFrom(line, p + 1)
  {
    hide ScanToken;
    assert SkipBlanks(line, p) == SkipBlanks(line, p + 1);
  }

  lemma SplitLast(line: seq<byte>, p: nat, x: seq<byte>)
    requires p <= |line| && line[p..] == Repr(x)
    ensures SplitFrom(line, p) == Args([x])
  {
    hide Repr, ScanToken;
    assert line[p..] == Repr(x) + [];
    SplitStep(line, p, x, []);
    assert [x] + [] == [x];
  }

  lemma SplitNext(line: seq<byte>, p: nat, x: seq<byte>, more: seq<byte>)
    requires p <= |line| && line[p..] == Repr(x) + [SPACE] + more
    ensures |more| < |line| - p && line[|line| - |more|..] == more
    ensures SplitFrom(line, p) == Prepend([x], SplitFrom(line, |line| - |more|))
  {
    hide Repr, ScanToken, SplitFrom;
    var rest := [SPACE] + more;
    Assoc(Repr(x), [SPACE], more);
    SplitStep(line, p, x, rest);
    var q := |line| - |rest|;
    SuffixAfter(line, q, [SPACE], more);
    assert line[q + 0] == SPACE;
    SplitSkipsSpace(line, q);
  }

  lemma {:induction false} SplitReprLineFrom(line: seq<byte>, p: nat, args: seq<seq<byte>>)
    requires p <= |line| && line[p..] == ReprLine(args)
    ensures SplitFrom(line, p) == Args(args)
    decreases |args|
  {
    hide Repr, ScanToken;
    if args == [] {
      assert SkipBlanks(line, p) == p == |line|;
    } else if |args| == 1 {
      hide SplitFrom;
      SplitLast(line, p, args[0]);
      assert args == [args[0]];
    } else {
      hide SplitFrom;
      var more := ReprLine(args[1..]);
      SplitNext(line, p, args[0], more);
      SplitReprLineFrom(line, |line| - |more|, args[1..]);
      HeadTail(args);
    }
  }

  /** Printing any list of byte strings and parsing the line gives the list back. */
  lemma SplitInvertsReprLine(args: seq<seq<byte>>)
    ensures Split(ReprLine(args)) == Args(args)
  {
    var line := ReprLine(args);
    assert line[0..] == line;
    SplitReprLineFrom(line, 0, args);
  }
}
