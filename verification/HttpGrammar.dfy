/** What the request parser accepts, as functions and a grammar over the bytes of the request. */
module HttpGrammar {
  import opened Bytes
  import opened Seqs

  datatype Code = NoRequest | GetRequest | BadRequest | InternalError
  datatype State = RequestLine | Header | Content

  // ---------- C library calls on the text of a line ----------

  /** The C string at the start of `mem`: everything before the first NUL. */
  function UpToNul(mem: seq<byte>): (t: seq<byte>)
    ensures |t| <= |mem|
  {
    if mem == [] || mem[0] == NUL then [] else [mem[0]] + UpToNul(mem[1..])
  }

  predicate IsBlank(c: byte) {
    c == SPACE || c == TAB
  }

  predicate NoBlank(t: seq<byte>) {
    forall i :: 0 <= i < |t| ==> t[i] != SPACE && t[i] != TAB
  }

  predicate AllBlank(t: seq<byte>) {
    forall i :: 0 <= i < |t| ==> t[i] == SPACE || t[i] == TAB
  }

  /** `strpbrk(t, " \t")` as an index, the length if there is no blank. */
  function FirstBlank(t: seq<byte>): (i: nat)
    ensures i <= |t| && NoBlank(t[..i])
    ensures i < |t| ==> IsBlank(t[i])
  {
    if t == [] || IsBlank(t[0]) then 0
    else
      assert forall k :: 1 <= k < |t| ==> t[k] == t[1..][k - 1];
      1 + FirstBlank(t[1..])
  }

  /** `strspn(t, " \t")`. */
  function BlankSpan(t: seq<byte>): (i: nat)
    ensures i <= |t| && AllBlank(t[..i])
    ensures i < |t| ==> !IsBlank(t[i])
  {
    if t == [] || !IsBlank(t[0]) then 0
    else
      assert forall k :: 1 <= k < |t| ==> t[k] == t[1..][k - 1];
      1 + BlankSpan(t[1..])
  }

  /** `strcasecmp(a, b) == 0`. */
  predicate SameNoCase(a: seq<byte>, b: seq<byte>) {
    |a| == |b| && forall i :: 0 <= i < |a| ==> ToLower(a[i]) == ToLower(b[i])
  }

  const GET: seq<byte> := [71, 69, 84]
  const HTTP_1_1: seq<byte> := [72, 84, 84, 80, 47, 49, 46, 49]
  const HTTP_SCHEME: seq<byte> := [104, 116, 116, 112, 58, 47, 47]

  /** A path, or an absolute `http` URL with a path. */
  predicate UrlOk(u: seq<byte>) {
    if |u| >= 7 && SameNoCase(u[..7], HTTP_SCHEME) then SLASH in u[7..]
    else u != [] && u[0] == SLASH
  }

  /** The decisions of `parse_requestline` on the text of the line. */
  predicate RequestLineOk(t: seq<byte>) {
    var i := FirstBlank(t);
    i < |t| && SameNoCase(t[..i], GET)
    && var w := t[i + 1..];
       var u := w[BlankSpan(w)..];
       var j := FirstBlank(u);
       j < |u|
       && var x := u[j + 1..];
          SameNoCase(x[BlankSpan(x)..], HTTP_1_1) && UrlOk(u[..j])
  }

  // ---------- the request line as a grammar ----------

  /** A letter in either case. */
  predicate Letter(c: byte, upper: byte) {
    c == upper || c == upper + 32
  }

  /** `GET` in any case. */
  predicate IsGet(m: seq<byte>) {
    |m| == 3 && Letter(m[0], 71) && Letter(m[1], 69) && Letter(m[2], 84)
  }

  /** `HTTP` in any case. */
  predicate IsHttp(h: seq<byte>) {
    |h| == 4 && Letter(h[0], 72) && Letter(h[1], 84) && Letter(h[2], 84) && Letter(h[3], 80)
  }

  /** `HTTP/1.1`. */
  predicate IsVersion(v: seq<byte>) {
    |v| == 8 && IsHttp(v[..4]) && v[4..] == [47, 49, 46, 49]
  }

  /** `http://`, a host without a slash, and a path that starts with one. */
  ghost predicate IsAbsolute(u: seq<byte>, scheme: seq<byte>, host: seq<byte>, path: seq<byte>) {
    u == scheme + host + path
    && |scheme| == 7 && IsHttp(scheme[..4]) && scheme[4..] == [58, 47, 47]
    && SLASH !in host
    && path != [] && path[0] == SLASH
  }

  /** A path, or an absolute URL with a path. */
  ghost predicate IsUrl(u: seq<byte>) {
    (u != [] && u[0] == SLASH) || exists scheme, host, path :: IsAbsolute(u, scheme, host, path)
  }

  /** method, blanks, URL, blanks, version */
  ghost predicate IsRequestLine(t: seq<byte>, m: seq<byte>, b1: seq<byte>, u: seq<byte>, b2: seq<byte>, v: seq<byte>) {
    t == m + b1 + u + b2 + v
    && IsGet(m)
    && b1 != [] && AllBlank(b1)
    && NoBlank(u) && IsUrl(u)
    && b2 != [] && AllBlank(b2)
    && IsVersion(v)
  }

  ghost predicate GoodLine(t: seq<byte>) {
    exists m, b1, u, b2, v :: IsRequestLine(t, m, b1, u, b2, v)
  }

  lemma GetSpelling(m: seq<byte>)
    ensures SameNoCase(m, GET) <==> IsGet(m)
  {
    if IsGet(m) {
      assert forall i :: 0 <= i < 3 ==> ToLower(m[i]) == ToLower(GET[i]);
    }
    if SameNoCase(m, GET) {
      assert ToLower(m[0]) == ToLower(GET[0]) && ToLower(m[1]) == ToLower(GET[1]) && ToLower(m[2]) == ToLower(GET[2]);
    }
  }

  lemma VersionSpelling(v: seq<byte>)
    ensures SameNoCase(v, HTTP_1_1) <==> IsVersion(v)
  {
    if |v| == 8 {
      EightBytes(v);
    }
  }

  lemma EightBytes(v: seq<byte>)
    requires |v| == 8
    ensures SameNoCase(v, HTTP_1_1) <==> IsVersion(v)
  {
    assert v[..4][0] == v[0] && v[..4][1] == v[1] && v[..4][2] == v[2] && v[..4][3] == v[3];
    assert v[4..] == [v[4], v[5], v[6], v[7]];
    if SameNoCase(v, HTTP_1_1) {
      assert forall i :: 0 <= i < 8 ==> ToLower(v[i]) == ToLower(HTTP_1_1[i]);
      assert HTTP_1_1[0] == 72 && HTTP_1_1[1] == 84 && HTTP_1_1[2] == 84 && HTTP_1_1[3] == 80;
      assert HTTP_1_1[4] == 47 && HTTP_1_1[5] == 49 && HTTP_1_1[6] == 46 && HTTP_1_1[7] == 49;
    }
  }

  lemma SchemeSpelling(v: seq<byte>)
    requires |v| == 7
    ensures SameNoCase(v, HTTP_SCHEME) <==> IsHttp(v[..4]) && v[4..] == [58, 47, 47]
  {
    assert v[..4][0] == v[0] && v[..4][1] == v[1] && v[..4][2] == v[2] && v[..4][3] == v[3];
    assert v[4..] == [v[4], v[5], v[6]];
    if SameNoCase(v, HTTP_SCHEME) {
      assert forall i :: 0 <= i < 7 ==> ToLower(v[i]) == ToLower(HTTP_SCHEME[i]);
      assert HTTP_SCHEME[0] == 104 && HTTP_SCHEME[1] == 116 && HTTP_SCHEME[2] == 116 && HTTP_SCHEME[3] == 112;
      assert HTTP_SCHEME[4] == 58 && HTTP_SCHEME[5] == 47 && HTTP_SCHEME[6] == 47;
    }
  }

  /** The URL test accepts exactly the URLs of the grammar. */
  lemma UrlOkIff(u: seq<byte>)
    ensures UrlOk(u) <==> IsUrl(u)
  {
    if |u| >= 7 {
      SchemeSpelling(u[..7]);
    }
    hide SameNoCase, IsHttp;
    if UrlOk(u) && !(u != [] && u[0] == SLASH) {
      var host, path := HostAndPath(u[7..]);
      assert u == u[..7] + u[7..];
      Assoc(u[..7], host, path);
      assert IsAbsolute(u, u[..7], host, path);
    }
    if exists scheme, host, path :: IsAbsolute(u, scheme, host, path) {
      var scheme, host, path :| IsAbsolute(u, scheme, host, path);
      Assoc(scheme, host, path);
      assert u[..7] == scheme && u[7..] == host + path;
      assert (host + path)[|host|] == SLASH;
    } else if u != [] && u[0] == SLASH && |u| >= 7 {
      NoSchemeAtSlash(u);
    }
  }

  lemma NoSchemeAtSlash(u: seq<byte>)
    requires |u| >= 7 && u[0] == SLASH
    ensures !IsHttp(u[..7][..4])
  {
  }

  /** Cutting at the first slash. */
  lemma {:induction false} HostAndPath(s: seq<byte>) returns (host: seq<byte>, path: seq<byte>)
    requires SLASH in s
    ensures s == host + path && SLASH !in host && path != [] && path[0] == SLASH
    decreases |s|
  {
    if s[0] == SLASH {
      host, path := [], s;
    } else {
      assert s == [s[0]] + s[1..];
      host, path := HostAndPath(s[1..]);
      host := [s[0]] + host;
    }
  }

  lemma {:induction false} FirstBlankOf(m: seq<byte>, rest: seq<byte>)
    requires NoBlank(m) && rest != [] && IsBlank(rest[0])
    ensures FirstBlank(m + rest) == |m|
  {
    if m == [] {
      assert m + rest == rest;
    } else {
      assert (m + rest)[1..] == m[1..] + rest;
      FirstBlankOf(m[1..], rest);
    }
  }

  lemma {:induction false} BlankSpanOf(b: seq<byte>, rest: seq<byte>)
    requires AllBlank(b) && (rest == [] || !IsBlank(rest[0]))
    ensures BlankSpan(b + rest) == |b|
  {
    if b == [] {
      assert b + rest == rest;
    } else {
      assert (b + rest)[1..] == b[1..] + rest;
      BlankSpanOf(b[1..], rest);
    }
  }

  lemma GetHasNoBlank(m: seq<byte>)
    requires IsGet(m)
    ensures NoBlank(m)
  {
  }

  lemma VersionStartsPlain(v: seq<byte>)
    requires IsVersion(v)
    ensures v != [] && !IsBlank(v[0])
  {
    assert v[..4][0] == v[0];
  }

  /** A word, blanks and a rest are found again by the cuts of the parser. */
  lemma CutOf(word: seq<byte>, blanks: seq<byte>, rest: seq<byte>)
    requires NoBlank(word) && blanks != [] && AllBlank(blanks) && (rest == [] || !IsBlank(rest[0]))
    ensures var t := word + (blanks + rest);
            FirstBlank(t) == |word| < |t| && t[..|word|] == word
            && var w := t[|word| + 1..]; w[BlankSpan(w)..] == rest
  {
    assert (blanks + rest)[0] == blanks[0];
    FirstBlankOf(word, blanks + rest);
    BlankSpanOf(blanks[1..], rest);
    hide FirstBlank, BlankSpan, NoBlank, AllBlank;
    var t := word + (blanks + rest);
    var w := t[|word| + 1..];
    assert w == blanks[1..] + rest;
    assert w[|blanks| - 1..] == rest;
  }

  /** A line with the shape of the grammar is accepted. */
  lemma GrammarAccepted(t: seq<byte>, m: seq<byte>, b1: seq<byte>, u: seq<byte>, b2: seq<byte>, v: seq<byte>)
    requires IsRequestLine(t, m, b1, u, b2, v)
    ensures RequestLineOk(t)
  {
    GetHasNoBlank(m);
    VersionStartsPlain(v);
    GetSpelling(m);
    VersionSpelling(v);
    UrlOkIff(u);
    UrlNotEmpty(u);
    hide UrlOk, IsUrl, IsGet, IsVersion, SameNoCase, FirstBlank, BlankSpan, AllBlank;
    var tail := u + (b2 + v);
    assert t == m + (b1 + tail);
    assert tail[0] == u[0];
    CutOf(m, b1, tail);
    CutOf(u, b2, v);
  }

  /** Cutting at the first blank and after the blanks: word, blanks, rest. */
  lemma CutWord(t: seq<byte>) returns (word: seq<byte>, blanks: seq<byte>, rest: seq<byte>)
    requires FirstBlank(t) < |t|
    ensures t == word + blanks + rest
    ensures word == t[..FirstBlank(t)] && NoBlank(word)
    ensures blanks != [] && AllBlank(blanks)
    ensures rest == var w := t[FirstBlank(t) + 1..]; w[BlankSpan(w)..]
    ensures rest == [] || !IsBlank(rest[0])
  {
    hide FirstBlank, BlankSpan, NoBlank;
    var i := FirstBlank(t);
    var w := t[i + 1..];
    var n := BlankSpan(w);
    word, blanks, rest := t[..i], [t[i]] + w[..n], w[n..];
    CutTwice(t, i, n);
    assert AllBlank(w[..n]);
  }

  lemma CutTwice(t: seq<byte>, i: nat, n: nat)
    requires i < |t| && i + 1 + n <= |t|
    ensures var w := t[i + 1..]; t == t[..i] + ([t[i]] + w[..n]) + w[n..]
  {
    CutAt(t, i);
    var w := t[i + 1..];
    assert w == w[..n] + w[n..];
    Assoc(t[..i], [t[i]], w[..n] + w[n..]);
    Assoc([t[i]], w[..n], w[n..]);
    Assoc(t[..i], [t[i]] + w[..n], w[n..]);
  }

  /** An accepted line has the shape of the grammar. */
  lemma AcceptedHasGrammar(t: seq<byte>)
    returns (m: seq<byte>, b1: seq<byte>, u: seq<byte>, b2: seq<byte>, v: seq<byte>)
    requires RequestLineOk(t)
    ensures IsRequestLine(t, m, b1, u, b2, v)
  {
    hide UrlOk, IsUrl, IsGet, IsVersion, SameNoCase, FirstBlank, BlankSpan, NoBlank, AllBlank;
    var rest;
    m, b1, rest := CutWord(t);
    u, b2, v := CutWord(rest);
    Assoc(m + b1, u + b2, v);
    Assoc(m + b1, u, b2);
    GetSpelling(m);
    VersionSpelling(v);
    UrlOkIff(u);
  }

  lemma UrlNotEmpty(u: seq<byte>)
    requires IsUrl(u)
    ensures u != []
  {
  }

  /** `parse_requestline` accepts exactly the lines of the grammar. */
  lemma RequestLineIffGrammar(t: seq<byte>)
    ensures RequestLineOk(t) <==> GoodLine(t)
  {
    hide RequestLineOk, IsRequestLine;
    if RequestLineOk(t) {
      var m, b1, u, b2, v := AcceptedHasGrammar(t);
    }
    if GoodLine(t) {
      var m, b1, u, b2, v :| IsRequestLine(t, m, b1, u, b2, v);
      GrammarAccepted(t, m, b1, u, b2, v);
    }
  }
}
