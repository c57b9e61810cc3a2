/** Argument lines as a grammar: what `sdssplitargs` accepts, with which result, and when it returns NULL. */
module SdsGrammar {
  import opened Bytes
  import opened Seqs
  import opened SdsRepr

  // ---------- the parts of an argument ----------

  /** The bytes that end an unquoted word. */
  predicate Separator(c: byte) {
    c == SPACE || c == LF || c == CR || c == TAB
  }

  /** A byte that stands for itself outside quotes. */
  predicate WordByte(c: byte) {
    !Separator(c) && c != NUL && c != DQUOTE && c != SQUOTE
  }

  predicate WordBytes(w: seq<byte>) {
    forall i :: 0 <= i < |w| ==> WordByte(w[i])
  }

  predicate Blanks(g: seq<byte>) {
    forall i :: 0 <= i < |g| ==> IsSpace(g[i])
  }

  /** What may stand between double quotes: a byte for itself, an escaped byte, `\x` and two hexadecimal digits. */
  datatype Item = Same(c: byte) | Escaped(c: byte) | HexPair(a: byte, b: byte)

  /** The escapes that do not stand for the byte behind the backslash: `\n`, `\r`, `\t`, `\b`, `\a`. */
  const SpecialEscapes: map<byte, byte> := map[110 := 10, 114 := 13, 116 := 9, 98 := 8, 97 := 7]

  function ItemText(it: Item): (r: seq<byte>)
    ensures 1 <= |r| <= 4
  {
    match it
    case Same(c) => [c]
    case Escaped(c) => [BACKSLASH, c]
    case HexPair(a, b) => [BACKSLASH, 120, a, b]
  }

  function ItemValue(it: Item): byte {
    match it
    case Same(c) => c
    case Escaped(c) => if c in SpecialEscapes then SpecialEscapes[c] else c
    case HexPair(a, b) => HexValue(a) * 16 + HexValue(b)
  }

  predicate TwoDigits(s: seq<byte>) {
    |s| >= 2 && IsHexDigit(s[0]) && IsHexDigit(s[1])
  }

  /** The item can be meant where `rest` follows: `\x` and two digits is always a pair. */
  predicate GoodItem(it: Item, rest: seq<byte>) {
    match it
    case Same(c) => c != DQUOTE && c != BACKSLASH && c != NUL
    case Escaped(c) => c != NUL && (c == 120 ==> !TwoDigits(rest))
    case HexPair(a, b) => IsHexDigit(a) && IsHexDigit(b)
  }

  function ItemsText(items: seq<Item>): seq<byte> {
    if items == [] then [] else ItemText(items[0]) + ItemsText(items[1..])
  }

  function ItemsValue(items: seq<Item>): seq<byte> {
    if items == [] then [] else [ItemValue(items[0])] + ItemsValue(items[1..])
  }

  predicate GoodItems(items: seq<Item>, rest: seq<byte>) {
    items != [] ==> GoodItem(items[0], ItemsText(items[1..]) + rest) && GoodItems(items[1..], rest)
  }

  /** Between single quotes everything stands for itself, but a quote is written `\'`. */
  function SingleByte(c: byte): seq<byte> {
    if c == SQUOTE then [BACKSLASH, SQUOTE] else [c]
  }

  function SingleText(v: seq<byte>): seq<byte> {
    if v == [] then [] else SingleByte(v[0]) + SingleText(v[1..])
  }

  predicate EndsInBackslash(v: seq<byte>) {
    v != [] && v[|v| - 1] == BACKSLASH
  }

  // ---------- arguments and lines ----------

  /** A word, and behind it nothing or a quoted part, which ends the argument. */
  datatype Quoted = Bare | InQuotes(items: seq<Item>) | InSingles(v: seq<byte>)
  datatype Arg = Arg(word: seq<byte>, quoted: Quoted)

  function ArgText(a: Arg): seq<byte> {
    a.word + match a.quoted
             case Bare => []
             case InQuotes(items) => [DQUOTE] + (ItemsText(items) + [DQUOTE])
             case InSingles(v) => [SQUOTE] + (SingleText(v) + [SQUOTE])
  }

  function ArgValue(a: Arg): seq<byte> {
    a.word + match a.quoted
             case Bare => []
             case InQuotes(items) => ItemsValue(items)
             case InSingles(v) => v
  }

  predicate GoodWord(w: seq<byte>) {
    WordBytes(w) && (w != [] ==> !IsSpace(w[0]))
  }

  predicate GoodArg(a: Arg) {
    GoodWord(a.word)
    && match a.quoted
       case Bare => a.word != []
       case InQuotes(items) => GoodItems(items, [DQUOTE])
       case InSingles(v) => NulFree(v) && !EndsInBackslash(v)
  }

  function ArgValues(args: seq<Arg>): (r: seq<seq<byte>>)
    ensures |r| == |args|
  {
    if args == [] then [] else [ArgValue(args[0])] + ArgValues(args[1..])
  }

  /** The gap, and behind it argument after argument, each with the gap behind it. */
  function LineText(args: seq<Arg>, gaps: seq<seq<byte>>): seq<byte>
    requires |gaps| == |args| + 1
  {
    if args == [] then gaps[0] else gaps[0] + (ArgText(args[0]) + LineText(args[1..], gaps[1..]))
  }

  /** What may follow an argument: nothing, a separator, or behind a closing quote any blank. */
  predicate MayFollow(a: Arg, rest: seq<byte>) {
    rest == [] || if a.quoted.Bare? then Separator(rest[0]) else IsSpace(rest[0])
  }

  /** Good arguments, blanks around them, and at least one blank between neighbours and before `tail`. */
  predicate GoodLine(args: seq<Arg>, gaps: seq<seq<byte>>, tail: seq<byte>) {
    |gaps| == |args| + 1 && Blanks(gaps[0])
    && (args != [] ==>
          GoodArg(args[0]) && MayFollow(args[0], LineText(args[1..], gaps[1..]) + tail)
          && GoodLine(args[1..], gaps[1..], tail))
  }

  ghost predicate IsLine(line: seq<byte>, args: seq<Arg>, gaps: seq<seq<byte>>) {
    GoodLine(args, gaps, []) && line == LineText(args, gaps)
  }

  // ---------- broken lines ----------

  /** An argument with an opening quote and no end: what is quoted so far, and what comes then. */
  datatype Opened = OpenQuotes(items: seq<Item>, rest: seq<byte>) | OpenSingles(v: seq<byte>, rest: seq<byte>)

  function OpenedText(word: seq<byte>, o: Opened): seq<byte> {
    word + match o
           case OpenQuotes(items, rest) => [DQUOTE] + (ItemsText(items) + rest)
           case OpenSingles(v, rest) => [SQUOTE] + (SingleText(v) + rest)
  }

  /** A quote and behind it something that is not a blank. */
  predicate BadClose(rest: seq<byte>, quote: byte) {
    |rest| >= 2 && rest[0] == quote && !IsSpace(rest[1])
  }

  /** The line ends inside the quotes, or the closing quote is followed by something that is not a blank. */
  predicate BadOpened(word: seq<byte>, o: Opened) {
    GoodWord(word)
    && match o
       case OpenQuotes(items, rest) =>
         GoodItems(items, rest) && (rest == [] || rest == [BACKSLASH] || BadClose(rest, DQUOTE))
       case OpenSingles(v, rest) =>
         NulFree(v) && (rest == [] || (BadClose(rest, SQUOTE) && !EndsInBackslash(v)))
  }

  /** Good arguments, and then one whose quotes are not balanced. */
  ghost predicate IsBroken(line: seq<byte>, args: seq<Arg>, gaps: seq<seq<byte>>, word: seq<byte>, o: Opened) {
    GoodLine(args, gaps, OpenedText(word, o)) && BadOpened(word, o)
    && line == LineText(args, gaps) + OpenedText(word, o)
  }

  // ---------- scanning the parts ----------

  /** One turn of the token loop, named so that proofs unfold just this one. */
  lemma OneTurn(line: seq<byte>, p: nat, mode: Mode, cur: seq<byte>)
    requires p <= |line|
    ensures match TakeTurn(line, p, mode, cur)
            case Stop(r) => ScanToken(line, p, mode, cur) == r
            case Go(p', mode', cur') => ScanToken(line, p, mode, cur) == ScanToken(line, p', mode', cur')
  {
    hide DoubleTurn, SingleTurn, PlainTurn;
  }

  lemma {:induction false} ScanWord(line: seq<byte>, p: nat, w: seq<byte>, rest: seq<byte>, cur: seq<byte>)
    requires p <= |line| && line[p..] == w + rest && WordBytes(w)
    ensures p + |w| <= |line| && line[p + |w|..] == rest
    ensures ScanToken(line, p, Plain, cur) == ScanToken(line, p + |w|, Plain, cur + w)
    decreases |w|
  {
    hide ScanToken;
    if w == [] {
      assert cur + w == cur && w + rest == rest;
    } else {
      SuffixAfter(line, p, [w[0]], w[1..] + rest);
      assert line[p + 0] == w[0];
      OneTurn(line, p, Plain, cur);
      ScanWord(line, p + 1, w[1..], rest, cur + [w[0]]);
      AppendHead(cur, w);
    }
  }

  /** An item where the scan stands makes one turn that appends exactly its value. */
  lemma TurnItem(line: seq<byte>, p: nat, it: Item, rest: seq<byte>, cur: seq<byte>)
    requires p <= |line| && line[p..] == ItemText(it) + rest && GoodItem(it, rest)
    ensures DoubleTurn(line, p, cur) == Go(p + |ItemText(it)|, InDouble, cur + [ItemValue(it)])
  {
    hide HexValue;
    var r := ItemText(it);
    SuffixAfter(line, p, r, rest);
    assert line[p + 0] == r[0] && (|r| > 1 ==> line[p + 1] == r[1]);
    if it.HexPair? {
      assert line[p + 2] == r[2] && line[p + 3] == r[3];
    } else if it.Escaped? {
      EscapeMeans(it.c);
      assert |rest| >= 1 ==> line[p + 2] == line[p + 2..][0] == rest[0];
      assert |rest| >= 2 ==> line[p + 3] == line[p + 2..][1] == rest[1];
    }
  }

  lemma EscapeMeans(c: byte)
    ensures Unescape(c) == if c in SpecialEscapes then SpecialEscapes[c] else c
  {
  }

  lemma {:induction false} ScanItems(line: seq<byte>, p: nat, items: seq<Item>, rest: seq<byte>, cur: seq<byte>)
    requires p <= |line| && line[p..] == ItemsText(items) + rest && GoodItems(items, rest)
    ensures var q := |line| - |rest|;
            p <= q <= |line| && line[q..] == rest
            && ScanToken(line, p, InDouble, cur) == ScanToken(line, q, InDouble, cur + ItemsValue(items))
    decreases |items|
  {
    hide ScanToken, DoubleTurn, SingleTurn, PlainTurn, ItemText, ItemValue, GoodItem;
    if items == [] {
      assert line[p..] == rest;
      assert cur + [] == cur;
    } else {
      var it, more := items[0], ItemsText(items[1..]);
      Assoc(ItemText(it), more, rest);
      TurnItem(line, p, it, more + rest, cur);
      OneTurn(line, p, InDouble, cur);
      SuffixAfter(line, p, ItemText(it), more + rest);
      ScanItems(line, p + |ItemText(it)|, items[1..], rest, cur + [ItemValue(it)]);
      Assoc(cur, [ItemValue(it)], ItemsValue(items[1..]));
    }
  }

  predicate NoQuoteAfterBackslash(v: seq<byte>, rest: seq<byte>) {
    EndsInBackslash(v) ==> rest == [] || rest[0] != SQUOTE
  }

  lemma SingleCut(v: seq<byte>)
    requires v != []
    ensures SingleText(v) == SingleByte(v[0]) + SingleText(v[1..]) && SingleText(v)[0] != SQUOTE
  {
  }

  /** The text of a single-quoted byte makes one turn that appends exactly it. */
  lemma TurnSingle(line: seq<byte>, p: nat, c: byte, more: seq<byte>, cur: seq<byte>)
    requires p <= |line| && line[p..] == SingleByte(c) + more && c != NUL
    requires c == BACKSLASH ==> more == [] || more[0] != SQUOTE
    ensures SingleTurn(line, p, cur) == Go(p + |SingleByte(c)|, InSingle, cur + [c])
    ensures p + |SingleByte(c)| <= |line| && line[p + |SingleByte(c)|..] == more
  {
    var first := SingleByte(c);
    SuffixAfter(line, p, first, more);
    assert line[p + 0] == first[0] && (|first| > 1 ==> line[p + 1] == first[1]);
    assert |first| == 1 && more != [] ==> line[p + 1] == line[p + 1..][0] == more[0];
  }

  lemma {:induction false} ScanSingle(line: seq<byte>, p: nat, v: seq<byte>, rest: seq<byte>, cur: seq<byte>)
    requires p <= |line| && line[p..] == SingleText(v) + rest && NulFree(v) && NoQuoteAfterBackslash(v, rest)
    ensures var q := |line| - |rest|;
            p <= q <= |line| && line[q..] == rest
            && ScanToken(line, p, InSingle, cur) == ScanToken(line, q, InSingle, cur + v)
    decreases |v|
  {
    hide ScanToken, DoubleTurn, SingleTurn, PlainTurn;
    if v == [] {
      assert line[p..] == rest;
      assert cur + [] == cur;
    } else {
      var more := SingleText(v[1..]);
      SingleCut(v);
      if |v| > 1 {
        SingleCut(v[1..]);
      }
      Assoc(SingleByte(v[0]), more, rest);
      hide SingleText, SingleByte;
      assert v[0] == BACKSLASH && more + rest != [] ==> (more + rest)[0] != SQUOTE;
      TurnSingle(line, p, v[0], more + rest, cur);
      OneTurn(line, p, InSingle, cur);
      ScanSingle(line, p + |SingleByte(v[0])|, v[1..], rest, cur + [v[0]]);
      AppendHead(cur, v);
    }
  }

  // ---------- how a token ends ----------

  lemma PlainEnds(line: seq<byte>, p: nat, rest: seq<byte>, cur: seq<byte>)
    requires p <= |line| && line[p..] == rest && (rest == [] || Separator(rest[0]))
    ensures ScanToken(line, p, Plain, cur) == Token(cur, if rest == [] then p else p + 1)
  {
    OneTurn(line, p, Plain, cur);
    hide ScanToken;
    assert rest != [] ==> line[p] == rest[0];
  }

  lemma PlainOpens(line: seq<byte>, p: nat, quote: byte, rest: seq<byte>, cur: seq<byte>)
    requires p <= |line| && line[p..] == [quote] + rest && (quote == DQUOTE || quote == SQUOTE)
    ensures p < |line| && line[p + 1..] == rest
    ensures ScanToken(line, p, Plain, cur)
            == ScanToken(line, p + 1, if quote == DQUOTE then InDouble else InSingle, cur)
  {
    SuffixAfter(line, p, [quote], rest);
    assert line[p + 0] == quote;
    OneTurn(line, p, Plain, cur);
    hide ScanToken;
  }

  /** At the closing quote, or where there is none. */
  lemma QuoteEnds(line: seq<byte>, p: nat, quote: byte, mode: Mode, rest: seq<byte>, cur: seq<byte>)
    requires NulFree(line) && p <= |line| && line[p..] == rest
    requires (quote == DQUOTE && mode == InDouble) || (quote == SQUOTE && mode == InSingle)
    ensures rest != [] && rest[0] == quote && (|rest| == 1 || IsSpace(rest[1])) ==>
              ScanToken(line, p, mode, cur) == Token(cur, p + 1)
    ensures rest == [] || BadClose(rest, quote) ==> ScanToken(line, p, mode, cur) == Unbalanced
  {
    OneTurn(line, p, mode, cur);
    hide ScanToken;
    assert rest != [] ==> line[p] == rest[0];
    assert |rest| > 1 ==> line[p + 1] == rest[1];
  }

  /** A backslash at the very end of a double-quoted part. */
  lemma LoneBackslash(line: seq<byte>, p: nat, cur: seq<byte>)
    requires NulFree(line) && p <= |line| && line[p..] == [BACKSLASH]
    ensures ScanToken(line, p, InDouble, cur) == Unbalanced
  {
    assert line[p] == line[p..][0] && |line| == p + 1;
    OneTurn(line, p, InDouble, cur);
    OneTurn(line, p + 1, InDouble, cur + [BACKSLASH]);
    hide ScanToken;
  }

  // ---------- one argument ----------

  /** A word, a quote, and what stands behind it. */
  lemma ScanToQuote(line: seq<byte>, p: nat, word: seq<byte>, quote: byte, more: seq<byte>)
    requires p <= |line| && line[p..] == word + ([quote] + more) && WordBytes(word)
    requires quote == DQUOTE || quote == SQUOTE
    ensures p + |word| + 1 <= |line| && line[p + |word| + 1..] == more
    ensures ScanToken(line, p, Plain, [])
            == ScanToken(line, p + |word| + 1, if quote == DQUOTE then InDouble else InSingle, word)
  {
    hide ScanToken, WordBytes;
    ScanWord(line, p, word, [quote] + more, []);
    assert [] + word == word;
    PlainOpens(line, p + |word|, quote, more, word);
  }

  lemma ScanBare(line: seq<byte>, p: nat, word: seq<byte>, rest: seq<byte>)
    requires p <= |line| && line[p..] == word + rest && WordBytes(word) && (rest == [] || Separator(rest[0]))
    ensures var q := |line| - |rest|;
            p + |word| == q && line[q..] == rest
            && ScanToken(line, p, Plain, []) == Token(word, if rest == [] then q else q + 1)
  {
    hide ScanToken, WordBytes;
    ScanWord(line, p, word, rest, []);
    assert [] + word == word;
    PlainEnds(line, p + |word|, rest, word);
  }

  lemma ScanInQuotes(line: seq<byte>, p: nat, word: seq<byte>, items: seq<Item>, rest: seq<byte>)
    requires NulFree(line) && p <= |line| && line[p..] == word + ([DQUOTE] + (ItemsText(items) + ([DQUOTE] + rest)))
    requires WordBytes(word) && GoodItems(items, [DQUOTE]) && (rest == [] || IsSpace(rest[0]))
    ensures var q := |line| - |rest|;
            p < q && line[q..] == rest && ScanToken(line, p, Plain, []) == Token(word + ItemsValue(items), q)
  {
    hide ScanToken, WordBytes, GoodItems, ItemsText, ItemsValue, NulFree;
    var close := [DQUOTE] + rest;
    ScanToQuote(line, p, word, DQUOTE, ItemsText(items) + close);
    ItemsBefore(items, rest);
    ScanItems(line, p + |word| + 1, items, close, word);
    var q := |line| - |close|;
    SuffixAfter(line, q, [DQUOTE], rest);
    QuoteEnds(line, q, DQUOTE, InDouble, close, word + ItemsValue(items));
  }

  lemma ScanInSingles(line: seq<byte>, p: nat, word: seq<byte>, v: seq<byte>, rest: seq<byte>)
    requires NulFree(line) && p <= |line| && line[p..] == word + ([SQUOTE] + (SingleText(v) + ([SQUOTE] + rest)))
    requires WordBytes(word) && NulFree(v) && !EndsInBackslash(v) && (rest == [] || IsSpace(rest[0]))
    ensures var q := |line| - |rest|;
            p < q && line[q..] == rest && ScanToken(line, p, Plain, []) == Token(word + v, q)
  {
    hide ScanToken, WordBytes, SingleText, NulFree;
    var close := [SQUOTE] + rest;
    ScanToQuote(line, p, word, SQUOTE, SingleText(v) + close);
    ScanSingle(line, p + |word| + 1, v, close, word);
    var q := |line| - |close|;
    SuffixAfter(line, q, [SQUOTE], rest);
    QuoteEnds(line, q, SQUOTE, InSingle, close, word + v);
  }

  /** The text of an argument and of what follows it, taken apart. */
  lemma ArgParts(a: Arg, rest: seq<byte>)
    ensures ArgText(a) + rest == a.word + match a.quoted
                                          case Bare => rest
                                          case InQuotes(items) => [DQUOTE] + (ItemsText(items) + ([DQUOTE] + rest))
                                          case InSingles(v) => [SQUOTE] + (SingleText(v) + ([SQUOTE] + rest))
  {
    hide ItemsText, SingleText;
    match a.quoted
    case Bare =>
      assert a.word + [] == a.word;
    case InQuotes(items) => QuotedParts(a.word, DQUOTE, ItemsText(items), rest);
    case InSingles(v) => QuotedParts(a.word, SQUOTE, SingleText(v), rest);
  }

  lemma QuotedParts(word: seq<byte>, quote: byte, body: seq<byte>, rest: seq<byte>)
    ensures word + ([quote] + (body + [quote])) + rest == word + ([quote] + (body + ([quote] + rest)))
  {
    Assoc(word, [quote] + (body + [quote]), rest);
    Assoc([quote], body + [quote], rest);
    Assoc(body, [quote], rest);
  }

  /** A good argument where the scan stands is the token, with exactly its value. */
  lemma ScanArg(line: seq<byte>, p: nat, a: Arg, rest: seq<byte>)
    requires NulFree(line) && p <= |line| && line[p..] == ArgText(a) + rest && GoodArg(a) && MayFollow(a, rest)
    ensures var q := |line| - |rest|;
            p <= q && line[q..] == rest
            && ScanToken(line, p, Plain, []) == Token(ArgValue(a), if a.quoted.Bare? && rest != [] then q + 1 else q)
  {
    hide ScanToken, GoodItems, ItemsText, ItemsValue, SingleText, WordBytes, NulFree, ArgText;
    ArgParts(a, rest);
    match a.quoted
    case Bare =>
      ScanBare(line, p, a.word, rest);
      assert a.word + [] == a.word;
    case InQuotes(items) => ScanInQuotes(line, p, a.word, items, rest);
    case InSingles(v) => ScanInSingles(line, p, a.word, v, rest);
  }

  /** Only the closing quote matters for what comes before it. */
  lemma {:induction false} ItemsBefore(items: seq<Item>, rest: seq<byte>)
    requires GoodItems(items, [DQUOTE])
    ensures GoodItems(items, [DQUOTE] + rest)
    decreases |items|
  {
    if items != [] {
      ItemsBefore(items[1..], rest);
      var more := ItemsText(items[1..]);
      assert more + ([DQUOTE] + rest) == (more + [DQUOTE]) + rest;
      hide ItemsText;
      assert TwoDigits(more + [DQUOTE] + rest) ==> TwoDigits(more + [DQUOTE]);
    }
  }

  lemma ScanOpenQuotes(line: seq<byte>, p: nat, word: seq<byte>, items: seq<Item>, rest: seq<byte>)
    requires NulFree(line) && p <= |line| && line[p..] == word + ([DQUOTE] + (ItemsText(items) + rest))
    requires WordBytes(word) && GoodItems(items, rest) && (rest == [] || rest == [BACKSLASH] || BadClose(rest, DQUOTE))
    ensures ScanToken(line, p, Plain, []) == Unbalanced
  {
    hide ScanToken, WordBytes, GoodItems, ItemsText, ItemsValue, NulFree;
    ScanToQuote(line, p, word, DQUOTE, ItemsText(items) + rest);
    ScanItems(line, p + |word| + 1, items, rest, word);
    var cur := word + ItemsValue(items);
    if rest == [BACKSLASH] {
      LoneBackslash(line, |line| - |rest|, cur);
    } else {
      QuoteEnds(line, |line| - |rest|, DQUOTE, InDouble, rest, cur);
    }
  }

  lemma ScanOpenSingles(line: seq<byte>, p: nat, word: seq<byte>, v: seq<byte>, rest: seq<byte>)
    requires NulFree(line) && p <= |line| && line[p..] == word + ([SQUOTE] + (SingleText(v) + rest))
    requires WordBytes(word) && NulFree(v) && (rest == [] || (BadClose(rest, SQUOTE) && !EndsInBackslash(v)))
    ensures ScanToken(line, p, Plain, []) == Unbalanced
  {
    hide ScanToken, WordBytes, SingleText, NulFree;
    ScanToQuote(line, p, word, SQUOTE, SingleText(v) + rest);
    ScanSingle(line, p + |word| + 1, v, rest, word);
    QuoteEnds(line, |line| - |rest|, SQUOTE, InSingle, rest, word + v);
  }

  /** Unbalanced quotes where the scan stands. */
  lemma ScanOpened(line: seq<byte>, p: nat, word: seq<byte>, o: Opened)
    requires NulFree(line) && p <= |line| && line[p..] == OpenedText(word, o) && BadOpened(word, o)
    ensures ScanToken(line, p, Plain, []) == Unbalanced
  {
    hide ScanToken, GoodItems, ItemsText, SingleText, WordBytes, NulFree, BadClose;
    match o
    case OpenQuotes(items, rest) => ScanOpenQuotes(line, p, word, items, rest);
    case OpenSingles(v, rest) => ScanOpenSingles(line, p, word, v, rest);
  }

  // ---------- whole lines ----------

  lemma {:induction false} SkipAll(line: seq<byte>, p: nat, g: seq<byte>, rest: seq<byte>)
    requires p <= |line| && line[p..] == g + rest && Blanks(g)
    ensures p + |g| <= |line| && line[p + |g|..] == rest && SkipBlanks(line, p) == SkipBlanks(line, p + |g|)
    decreases |g|
  {
    if g == [] {
      assert g + rest == rest;
    } else {
      SuffixAfter(line, p, [g[0]], g[1..] + rest);
      assert line[p + 0] == g[0];
      SkipAll(line, p + 1, g[1..], rest);
    }
  }

  lemma SplitSkips(line: seq<byte>, p: nat, q: nat)
    requires p <= |line| && q <= |line| && SkipBlanks(line, p) == SkipBlanks(line, q)
    ensures SplitFrom(line, p) == SplitFrom(line, q)
  {
    hide ScanToken, SkipBlanks;
  }

  lemma SplitAtEnd(line: seq<byte>)
    ensures SplitFrom(line, |line|) == Args([])
  {
    hide ScanToken;
  }

  lemma PrependBoth(a: seq<seq<byte>>, b: seq<seq<byte>>, r: Parsed)
    ensures Prepend(a, Prepend(b, r)) == Prepend(a + b, r) && Prepend([], r) == r
  {
    if r.Args? {
      Assoc(a, b, r.argv);
      assert [] + r.argv == r.argv;
    }
  }

  lemma StartsArg(a: Arg, rest: seq<byte>)
    requires GoodArg(a)
    ensures ArgText(a) != [] && !IsSpace((ArgText(a) + rest)[0])
  {
    hide GoodItems, ItemsText, SingleText;
  }

  /** One argument and what follows it. */
  lemma SplitArg(line: seq<byte>, p: nat, a: Arg, rest: seq<byte>)
    requires NulFree(line) && p <= |line| && line[p..] == ArgText(a) + rest && GoodArg(a) && MayFollow(a, rest)
    ensures var q := |line| - |rest|;
            p < q && line[q..] == rest && SplitFrom(line, p) == Prepend([ArgValue(a)], SplitFrom(line, q))
  {
    assert forall i :: 0 <= i < |line| ==> line[i] != NUL;
    hide ArgText, ArgValue, GoodArg, ScanToken, SplitFrom, NulFree;
    StartsArg(a, rest);
    ScanArg(line, p, a, rest);
    assert line[p] == line[p..][0];
    SplitHere(line, p);
    if a.quoted.Bare? && rest != [] {
      SplitOneOn(line, |line| - |rest|, rest);
    }
  }

  /** The separator behind a word is a blank. */
  lemma SplitOneOn(line: seq<byte>, q: nat, rest: seq<byte>)
    requires q <= |line| && line[q..] == rest && rest != [] && Separator(rest[0])
    ensures q < |line| && SplitFrom(line, q) == SplitFrom(line, q + 1)
  {
    hide SplitFrom;
    assert rest == [rest[0]] + rest[1..];
    SkipAll(line, q, [rest[0]], rest[1..]);
    SplitSkips(line, q, q + 1);
  }

  lemma LineCut(args: seq<Arg>, gaps: seq<seq<byte>>, tail: seq<byte>)
    requires |gaps| == |args| + 1 && args != []
    ensures LineText(args, gaps) + tail
            == gaps[0] + (ArgText(args[0]) + (LineText(args[1..], gaps[1..]) + tail))
  {
    hide ArgText;
    var more := LineText(args[1..], gaps[1..]);
    Assoc(gaps[0], ArgText(args[0]) + more, tail);
    Assoc(ArgText(args[0]), more, tail);
  }

  /** The arguments of a good line are parsed one after the other, up to its tail. */
  lemma {:induction false} SplitGood(line: seq<byte>, p: nat, args: seq<Arg>, gaps: seq<seq<byte>>, tail: seq<byte>)
    requires NulFree(line) && GoodLine(args, gaps, tail) && p <= |line| && line[p..] == LineText(args, gaps) + tail
    ensures |tail| <= |line| - p && line[|line| - |tail|..] == tail
    ensures SplitFrom(line, p) == Prepend(ArgValues(args), SplitFrom(line, |line| - |tail|))
    decreases |args|
  {
    hide ArgText, ArgValue, GoodArg, MayFollow, ScanToken, SplitFrom, Blanks, NulFree, SkipBlanks;
    var p' := p + |gaps[0]|;
    if args == [] {
      SkipAll(line, p, gaps[0], tail);
      SplitSkips(line, p, p');
      PrependBoth([], [], SplitFrom(line, p'));
    } else {
      var a, more := args[0], LineText(args[1..], gaps[1..]);
      var rest := more + tail;
      LineCut(args, gaps, tail);
      assert Blanks(gaps[0]) && GoodArg(a) && MayFollow(a, rest) && GoodLine(args[1..], gaps[1..], tail);
      hide LineText, GoodLine;
      SkipAll(line, p, gaps[0], ArgText(a) + rest);
      SplitSkips(line, p, p');
      SplitArg(line, p', a, rest);
      SplitGood(line, |line| - |rest|, args[1..], gaps[1..], tail);
      PrependBoth([ArgValue(a)], ArgValues(args[1..]), SplitFrom(line, |line| - |tail|));
    }
  }

  /** A good line is parsed to the values of its arguments. */
  lemma LineParsed(line: seq<byte>, args: seq<Arg>, gaps: seq<seq<byte>>)
    requires NulFree(line) && IsLine(line, args, gaps)
    ensures Split(line) == Args(ArgValues(args))
  {
    assert |gaps| == |args| + 1;
    hide GoodLine, LineText, SplitFrom;
    assert line[0..] == line && line == LineText(args, gaps) + [];
    SplitGood(line, 0, args, gaps, []);
    SplitAtEnd(line);
    assert ArgValues(args) + [] == ArgValues(args);
  }

  lemma StartsOpened(word: seq<byte>, o: Opened)
    requires BadOpened(word, o)
    ensures OpenedText(word, o) != [] && !IsSpace(OpenedText(word, o)[0])
  {
    hide GoodItems, ItemsText, SingleText;
  }

  /** A broken line is refused. */
  lemma BrokenRefused(line: seq<byte>, args: seq<Arg>, gaps: seq<seq<byte>>, word: seq<byte>, o: Opened)
    requires NulFree(line) && IsBroken(line, args, gaps, word, o)
    ensures Split(line) == Null
  {
    assert |gaps| == |args| + 1;
    hide GoodLine, LineText, SplitFrom, OpenedText, BadOpened, ScanToken;
    var tail := OpenedText(word, o);
    assert line[0..] == line;
    SplitGood(line, 0, args, gaps, tail);
    StartsOpened(word, o);
    var q := |line| - |tail|;
    assert line[q] == line[q..][0];
    ScanOpened(line, q, word, o);
    SplitHere(line, q);
  }

  // ---------- every line is a good line or a broken one ----------

  lemma {:induction false} CutBlanks(s: seq<byte>) returns (g: seq<byte>, rest: seq<byte>)
    ensures s == g + rest && Blanks(g) && (rest == [] || !IsSpace(rest[0]))
    decreases |s|
  {
    if s == [] || !IsSpace(s[0]) {
      g, rest := [], s;
    } else {
      g, rest := CutBlanks(s[1..]);
      HeadTail(s);
      Assoc([s[0]], g, rest);
      g := [s[0]] + g;
    }
  }

  lemma {:induction false} CutWord(s: seq<byte>) returns (w: seq<byte>, rest: seq<byte>)
    ensures s == w + rest && WordBytes(w) && (rest == [] || !WordByte(rest[0]))
    decreases |s|
  {
    if s == [] || !WordByte(s[0]) {
      w, rest := [], s;
    } else {
      w, rest := CutWord(s[1..]);
      HeadTail(s);
      Assoc([s[0]], w, rest);
      w := [s[0]] + w;
    }
  }

  /** The item at the start of a text that is neither at its end nor at a closing quote. */
  lemma CutItem(s: seq<byte>) returns (it: Item, rest: seq<byte>)
    requires NulFree(s) && s != [] && s != [BACKSLASH] && s[0] != DQUOTE
    ensures s == ItemText(it) + rest && GoodItem(it, rest) && |rest| < |s|
  {
    if s[0] != BACKSLASH {
      it, rest := Same(s[0]), s[1..];
    } else if s[1] == 120 && TwoDigits(s[2..]) {
      it, rest := HexPair(s[2], s[3]), s[4..];
      assert s[2..][0] == s[2] && s[2..][1] == s[3];
      assert s == [s[0], s[1], s[2], s[3]] + s[4..];
    } else {
      it, rest := Escaped(s[1]), s[2..];
      assert s == [s[0], s[1]] + s[2..];
    }
  }

  lemma {:induction false} CutItems(s: seq<byte>) returns (items: seq<Item>, rest: seq<byte>)
    requires NulFree(s)
    ensures s == ItemsText(items) + rest && GoodItems(items, rest)
    ensures rest == [] || rest == [BACKSLASH] || rest[0] == DQUOTE
    decreases |s|
  {
    hide ItemText, GoodItem;
    if s == [] || s == [BACKSLASH] || s[0] == DQUOTE {
      items, rest := [], s;
      assert ItemsText(items) + rest == rest;
    } else {
      var it, more := CutItem(s);
      assert forall i :: 0 <= i < |more| ==> more[i] == s[|ItemText(it)| + i];
      items, rest := CutItems(more);
      Assoc(ItemText(it), ItemsText(items), rest);
      assert ([it] + items)[1..] == items;
      items := [it] + items;
    }
  }

  lemma SingleCons(c: byte, v: seq<byte>)
    ensures SingleText([c] + v) == SingleByte(c) + SingleText(v)
  {
    assert ([c] + v)[1..] == v;
  }

  /** The value of a single-quoted part up to its closing quote or the end of the line. */
  lemma {:induction false} CutSingle(s: seq<byte>) returns (v: seq<byte>, rest: seq<byte>)
    requires NulFree(s)
    ensures s == SingleText(v) + rest && NulFree(v) && (rest == [] || rest[0] == SQUOTE)
    ensures rest != [] ==> !EndsInBackslash(v)
    decreases |s|
  {
    hide SingleText;
    if s == [] || s[0] == SQUOTE {
      v, rest := [], s;
      assert SingleText([]) == [] by {
        SingleEmpty();
      }
    } else {
      var n := if s[0] == BACKSLASH && |s| > 1 && s[1] == SQUOTE then 2 else 1;
      var c := if n == 2 then SQUOTE else s[0];
      assert s == SingleByte(c) + s[n..];
      v, rest := CutSingle(s[n..]);
      SingleCons(c, v);
      Assoc(SingleByte(c), SingleText(v), rest);
      if v == [] {
        SingleEmpty();
        assert s[n..] == rest;
      }
      v := [c] + v;
    }
  }

  lemma SingleEmpty()
    ensures SingleText([]) == []
  {
  }

  /** How a text can be read: whole, or up to an argument whose quotes are not balanced. */
  datatype Reading = Whole(args: seq<Arg>, gaps: seq<seq<byte>>)
                   | Broken(args: seq<Arg>, gaps: seq<seq<byte>>, word: seq<byte>, o: Opened)

  function TailOf(r: Reading): seq<byte> {
    if r.Whole? then [] else OpenedText(r.word, r.o)
  }

  /** `r` reads `s`, and its first gap takes all the blanks at the start. */
  ghost predicate Reads(s: seq<byte>, r: Reading) {
    GoodLine(r.args, r.gaps, TailOf(r)) && s == LineText(r.args, r.gaps) + TailOf(r)
    && (r.Broken? ==> BadOpened(r.word, r.o))
  }

  /** An argument in front of what has been read. */
  lemma ReadsMore(g: seq<byte>, a: Arg, s: seq<byte>, r: Reading) returns (r': Reading)
    requires Blanks(g) && GoodArg(a) && MayFollow(a, s) && Reads(s, r)
    ensures Reads(g + (ArgText(a) + s), r')
  {
    hide ArgText, GoodArg, MayFollow, OpenedText, BadOpened, Blanks;
    var args, gaps := [a] + r.args, [g] + r.gaps;
    assert args[1..] == r.args && gaps[1..] == r.gaps && args[0] == a && gaps[0] == g;
    LineCut(args, gaps, TailOf(r));
    r' := if r.Whole? then Whole(args, gaps) else Broken(args, gaps, r.word, r.o);
  }

  lemma ReadsBroken(g: seq<byte>, word: seq<byte>, o: Opened) returns (r: Reading)
    requires Blanks(g) && BadOpened(word, o)
    ensures Reads(g + OpenedText(word, o), r)
  {
    hide OpenedText, BadOpened, Blanks;
    r := Broken([], [g], word, o);
  }

  lemma ReadsBlanks(g: seq<byte>) returns (r: Reading)
    requires Blanks(g)
    ensures Reads(g, r)
  {
    hide Blanks;
    r := Whole([], [g]);
    assert g + [] == g;
  }

  /** An argument at the start of a text that starts with no blank: complete, or with unbalanced quotes. */
  lemma CutArg(s: seq<byte>) returns (whole: bool, a: Arg, rest: seq<byte>, o: Opened)
    requires NulFree(s) && s != [] && !IsSpace(s[0])
    ensures whole ==> GoodArg(a) && s == ArgText(a) + rest && MayFollow(a, rest) && |rest| < |s|
    ensures !whole ==> BadOpened(a.word, o) && s == OpenedText(a.word, o)
  {
    var word, more := CutWord(s);
    assert word != [] ==> s[0] == word[0];
    a, rest, o, whole := Arg(word, Bare), more, OpenSingles([], []), true;
    if more == [] || Separator(more[0]) {
      assert word + [] == word;
      assert word != [] by {
        assert [] + more == more;
      }
    } else {
      var quote, body := more[0], more[1..];
      HeadTail(more);
      BodyNulFree(s, word, quote, body);
      hide WordBytes, NulFree;
      if quote == DQUOTE {
        whole, a, rest, o := CutQuotes(s, word, body);
      } else {
        whole, a, rest, o := CutSingles(s, word, body);
      }
    }
  }

  lemma BodyNulFree(s: seq<byte>, word: seq<byte>, quote: byte, body: seq<byte>)
    requires NulFree(s) && s == word + ([quote] + body)
    ensures NulFree(body) && quote != NUL
  {
    SuffixAfter(s, 0, word, [quote] + body);
    SuffixAfter(s, |word|, [quote], body);
    assert s[|word| + 0] == quote;
    assert forall i :: 0 <= i < |body| ==> body[i] == s[|word| + 1..][i] == s[|word| + 1 + i];
  }

  lemma CutQuotes(s: seq<byte>, word: seq<byte>, body: seq<byte>)
    returns (whole: bool, a: Arg, rest: seq<byte>, o: Opened)
    requires NulFree(body) && s == word + ([DQUOTE] + body) && GoodWord(word)
    ensures whole ==> GoodArg(a) && s == ArgText(a) + rest && MayFollow(a, rest) && |rest| < |s|
    ensures !whole ==> a.word == word && BadOpened(word, o) && s == OpenedText(word, o)
  {
    hide GoodWord, ItemsText, NulFree;
    var items, tail := CutItems(body);
    a, o := Arg(word, InQuotes(items)), OpenQuotes(items, tail);
    rest := if tail == [] then [] else tail[1..];
    whole := tail != [] && tail[0] == DQUOTE && (rest == [] || IsSpace(rest[0]));
    if whole {
      HeadTail(tail);
      ItemsAtQuote(items, rest);
      hide GoodItems;
      QuotedParts(word, DQUOTE, ItemsText(items), rest);
    }
  }

  /** What stands behind the closing quote does not matter for what comes before it. */
  lemma {:induction false} ItemsAtQuote(items: seq<Item>, rest: seq<byte>)
    requires GoodItems(items, [DQUOTE] + rest)
    ensures GoodItems(items, [DQUOTE])
    decreases |items|
  {
    if items != [] {
      ItemsAtQuote(items[1..], rest);
      var more := ItemsText(items[1..]);
      assert more + ([DQUOTE] + rest) == (more + [DQUOTE]) + rest;
      hide ItemsText;
      assert TwoDigits(more + [DQUOTE]) ==> TwoDigits(more + [DQUOTE] + rest);
    }
  }

  lemma CutSingles(s: seq<byte>, word: seq<byte>, body: seq<byte>)
    returns (whole: bool, a: Arg, rest: seq<byte>, o: Opened)
    requires NulFree(body) && s == word + ([SQUOTE] + body) && GoodWord(word)
    ensures whole ==> GoodArg(a) && s == ArgText(a) + rest && MayFollow(a, rest) && |rest| < |s|
    ensures !whole ==> a.word == word && BadOpened(word, o) && s == OpenedText(word, o)
  {
    hide GoodWord, SingleText, NulFree;
    var v, tail := CutSingle(body);
    a, o := Arg(word, InSingles(v)), OpenSingles(v, tail);
    rest := if tail == [] then [] else tail[1..];
    whole := tail != [] && (rest == [] || IsSpace(rest[0]));
    if whole {
      HeadTail(tail);
      QuotedParts(word, SQUOTE, SingleText(v), rest);
    }
  }

  /** Every C string can be read. */
  lemma {:induction false} Readable(s: seq<byte>) returns (r: Reading)
    requires NulFree(s)
    ensures Reads(s, r)
    decreases |s|
  {
    hide Reads, GoodArg, ArgText, BadOpened, OpenedText, MayFollow;
    var g, rest := CutBlanks(s);
    if rest == [] {
      assert g + [] == g;
      r := ReadsBlanks(g);
    } else {
      NulFreeBehind(s, g, rest);
      var whole, a, more, o := CutArg(rest);
      if whole {
        NulFreeBehind(rest, ArgText(a), more);
        r := Readable(more);
        r := ReadsMore(g, a, more, r);
      } else {
        r := ReadsBroken(g, a.word, o);
      }
    }
  }

  lemma NulFreeBehind(s: seq<byte>, a: seq<byte>, b: seq<byte>)
    requires NulFree(s) && s == a + b
    ensures NulFree(b)
  {
    assert forall i :: 0 <= i < |b| ==> b[i] == s[|a| + i];
  }

  // ---------- the results ----------

  /** `sdssplitargs` returns a vector for exactly the lines of the grammar, and it holds the values of the arguments. */
  lemma SplitIffLine(line: seq<byte>, argv: seq<seq<byte>>)
    requires NulFree(line)
    ensures Split(line) == Args(argv) <==> exists args, gaps :: IsLine(line, args, gaps) && ArgValues(args) == argv
  {
    hide IsBroken, Split, GoodLine, LineText, NulFree, ArgValues;
    if Split(line) == Args(argv) {
      var r := Readable(line);
      Classified(line, r);
      if r.Whole? {
        LineParsed(line, r.args, r.gaps);
      } else {
        BrokenRefused(line, r.args, r.gaps, r.word, r.o);
      }
    }
    if exists args, gaps :: IsLine(line, args, gaps) && ArgValues(args) == argv {
      var args, gaps :| IsLine(line, args, gaps) && ArgValues(args) == argv;
      LineParsed(line, args, gaps);
    }
  }

  /** NULL is returned for exactly the lines with good arguments up to one whose quotes are not balanced. */
  lemma NullIffBroken(line: seq<byte>)
    requires NulFree(line)
    ensures Split(line) == Null <==> exists args, gaps, word, o :: IsBroken(line, args, gaps, word, o)
  {
    hide IsBroken, Split, GoodLine, LineText, NulFree, ArgValues;
    if Split(line) == Null {
      var r := Readable(line);
      Classified(line, r);
      if r.Whole? {
        LineParsed(line, r.args, r.gaps);
      }
    }
    if exists args, gaps, word, o :: IsBroken(line, args, gaps, word, o) {
      var args, gaps, word, o :| IsBroken(line, args, gaps, word, o);
      BrokenRefused(line, args, gaps, word, o);
    }
  }

  lemma Classified(line: seq<byte>, r: Reading)
    requires Reads(line, r)
    ensures if r.Whole? then IsLine(line, r.args, r.gaps) else IsBroken(line, r.args, r.gaps, r.word, r.o)
  {
    assert |r.gaps| == |r.args| + 1;
    hide GoodLine, LineText, OpenedText, BadOpened;
    if r.Whole? {
      assert LineText(r.args, r.gaps) + [] == LineText(r.args, r.gaps);
    }
  }

  // ---------- plain words and single-quoted words ----------

  /** The texts one after the other, a space between neighbours. */
  function Spaced(texts: seq<seq<byte>>): seq<byte> {
    if texts == [] then []
    else if |texts| == 1 then texts[0]
    else texts[0] + [SPACE] + Spaced(texts[1..])
  }

  function ArgTexts(args: seq<Arg>): (r: seq<seq<byte>>)
    ensures |r| == |args| && forall i :: 0 <= i < |args| ==> r[i] == ArgText(args[i])
  {
    seq(|args|, i requires 0 <= i < |args| => ArgText(args[i]))
  }

  /** The gaps of the arguments behind the first one. */
  function SpaceBefore(n: nat): (gaps: seq<seq<byte>>)
    ensures |gaps| == n + 1
  {
    if n == 0 then [[]] else [[SPACE]] + SpaceBefore(n - 1)
  }

  lemma {:induction false} SpacedRest(args: seq<Arg>)
    requires forall i :: 0 <= i < |args| ==> GoodArg(args[i])
    ensures GoodLine(args, SpaceBefore(|args|), [])
    ensures LineText(args, SpaceBefore(|args|)) == if args == [] then [] else [SPACE] + Spaced(ArgTexts(args))
    decreases |args|
  {
    hide GoodArg, ArgText;
    var gaps := SpaceBefore(|args|);
    if args != [] {
      SpacedRest(args[1..]);
      assert gaps[1..] == SpaceBefore(|args| - 1);
      var more := LineText(args[1..], gaps[1..]);
      assert more + [] == more;
      assert ArgTexts(args)[1..] == ArgTexts(args[1..]);
      if |args| == 1 {
        assert ArgText(args[0]) + [] == ArgText(args[0]);
      } else {
        Assoc(ArgText(args[0]), [SPACE], Spaced(ArgTexts(args[1..])));
      }
    }
  }

  lemma SpacedIsLine(args: seq<Arg>) returns (gaps: seq<seq<byte>>)
    requires forall i :: 0 <= i < |args| ==> GoodArg(args[i])
    ensures IsLine(Spaced(ArgTexts(args)), args, gaps)
  {
    hide GoodArg, ArgText;
    if args == [] {
      gaps := [[]];
    } else {
      SpacedRest(args);
      var spaces := SpaceBefore(|args|);
      assert spaces[0] == [SPACE];
      hide GoodLine, LineText, Spaced, SpaceBefore;
      LeadingGap(args, spaces, Spaced(ArgTexts(args)));
      gaps := [[]] + spaces[1..];
    }
  }

  /** Good arguments with single spaces between them are parsed to their values. */
  lemma SplitSpaced(args: seq<Arg>)
    requires forall i :: 0 <= i < |args| ==> GoodArg(args[i])
    requires NulFree(Spaced(ArgTexts(args)))
    ensures Split(Spaced(ArgTexts(args))) == Args(ArgValues(args))
  {
    hide GoodArg, NulFree, Split, IsLine, Spaced, ArgTexts;
    var gaps := SpacedIsLine(args);
    LineParsed(Spaced(ArgTexts(args)), args, gaps);
  }

  lemma LeadingGap(args: seq<Arg>, gaps: seq<seq<byte>>, line: seq<byte>)
    requires args != [] && GoodLine(args, gaps, []) && gaps[0] == [SPACE] && LineText(args, gaps) == [SPACE] + line
    ensures IsLine(line, args, [[]] + gaps[1..])
  {
    hide GoodArg, ArgText;
    var gaps' := [[]] + gaps[1..];
    assert gaps'[1..] == gaps[1..];
    var more := ArgText(args[0]) + LineText(args[1..], gaps[1..]);
    assert ([SPACE] + more)[1..] == ([SPACE] + line)[1..];
    assert ([SPACE] + more)[1..] == more && ([SPACE] + line)[1..] == line;
    assert [] + more == more;
  }

  /** A word without NUL, blanks and quotes. */
  predicate PlainWord(w: seq<byte>) {
    w != [] && forall i :: 0 <= i < |w| ==> w[i] != NUL && !IsSpace(w[i]) && w[i] != DQUOTE && w[i] != SQUOTE
  }

  lemma {:induction false} SpacedNulFree(texts: seq<seq<byte>>)
    requires forall i :: 0 <= i < |texts| ==> NulFree(texts[i])
    ensures NulFree(Spaced(texts))
    decreases |texts|
  {
    if |texts| > 1 {
      SpacedNulFree(texts[1..]);
    }
  }

  function BareArgs(words: seq<seq<byte>>): (args: seq<Arg>)
    ensures |args| == |words| && forall i :: 0 <= i < |words| ==> args[i] == Arg(words[i], Bare)
  {
    seq(|words|, i requires 0 <= i < |words| => Arg(words[i], Bare))
  }

  lemma {:induction false} ValuesOf(args: seq<Arg>, values: seq<seq<byte>>)
    requires |args| == |values| && forall i :: 0 <= i < |args| ==> ArgValue(args[i]) == values[i]
    ensures ArgValues(args) == values
    decreases |args|
  {
    hide ArgValue;
    if args != [] {
      ValuesOf(args[1..], values[1..]);
      HeadTail(values);
    }
  }

  lemma BareWord(w: seq<byte>)
    requires PlainWord(w)
    ensures var a := Arg(w, Bare); GoodArg(a) && ArgText(a) == w == ArgValue(a) && NulFree(w)
  {
    assert w + [] == w;
  }

  /** Words with single spaces between them are parsed to exactly these words. */
  lemma SplitWords(words: seq<seq<byte>>)
    requires forall i :: 0 <= i < |words| ==> PlainWord(words[i])
    ensures Split(Spaced(words)) == Args(words)
  {
    hide PlainWord;
    var args := BareArgs(words);
    forall i | 0 <= i < |words|
      ensures GoodArg(args[i]) && ArgText(args[i]) == words[i] == ArgValue(args[i]) && NulFree(words[i])
    {
      BareWord(words[i]);
    }
    hide GoodArg, ArgText, ArgValue, NulFree, Split;
    assert ArgTexts(args) == words;
    SpacedNulFree(words);
    ValuesOf(args, words);
    SplitSpaced(args);
  }

  /** A value between single quotes, its quotes escaped. */
  function SingleQuoted(v: seq<byte>): seq<byte> {
    [SQUOTE] + (SingleText(v) + [SQUOTE])
  }

  function SingleArgs(values: seq<seq<byte>>): (args: seq<Arg>)
    ensures |args| == |values| && forall i :: 0 <= i < |values| ==> args[i] == Arg([], InSingles(values[i]))
  {
    seq(|values|, i requires 0 <= i < |values| => Arg([], InSingles(values[i])))
  }

  function SingleTexts(values: seq<seq<byte>>): (r: seq<seq<byte>>)
    ensures |r| == |values| && forall i :: 0 <= i < |values| ==> r[i] == SingleQuoted(values[i])
  {
    seq(|values|, i requires 0 <= i < |values| => SingleQuoted(values[i]))
  }

  lemma {:induction false} SingleNulFree(v: seq<byte>)
    requires NulFree(v)
    ensures NulFree(SingleText(v))
  {
    if v != [] {
      SingleNulFree(v[1..]);
    }
  }

  /** Any C strings that do not end in a backslash, each between single quotes, are parsed to exactly themselves. */
  lemma SplitSingles(values: seq<seq<byte>>)
    requires forall i :: 0 <= i < |values| ==> NulFree(values[i]) && !EndsInBackslash(values[i])
    ensures Split(Spaced(SingleTexts(values))) == Args(values)
  {
    var args, texts := SingleArgs(values), SingleTexts(values);
    forall i | 0 <= i < |values|
      ensures GoodArg(args[i]) && ArgText(args[i]) == texts[i] && ArgValue(args[i]) == values[i] && NulFree(texts[i])
    {
      SingleNulFree(values[i]);
      assert [] + SingleQuoted(values[i]) == SingleQuoted(values[i]) && [] + values[i] == values[i];
    }
    hide GoodArg, ArgText, ArgValue, NulFree, SingleQuoted, Split;
    assert ArgTexts(args) == texts;
    SpacedNulFree(texts);
    ValuesOf(args, values);
    SplitSpaced(args);
  }
}
