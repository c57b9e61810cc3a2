/** `sdssplitlen` and `sdsjoinsds`: cutting a byte string at a separator and joining it again. */
module SdsSplit {
  import opened Bytes
  import opened Seqs

  /** The tokens joined with `sep` between neighbours. */
  function Join(tokens: seq<seq<byte>>, sep: seq<byte>): seq<byte> {
    if tokens == [] then []
    else if |tokens| == 1 then tokens[0]
    else tokens[0] + sep + Join(tokens[1..], sep)
  }

  /** `sep` stands at position `k` of `s`. */
  predicate OccursAt(s: seq<byte>, sep: seq<byte>, k: nat) {
    k + |sep| <= |s| && s[k..k + |sep|] == sep
  }

  predicate Contains(s: seq<byte>, sep: seq<byte>) {
    exists k :: 0 <= k <= |s| && OccursAt(s, sep, k)
  }

  predicate SeparatorFree(tokens: seq<seq<byte>>, sep: seq<byte>) {
    forall i :: 0 <= i < |tokens| ==> !Contains(tokens[i], sep)
  }

  /** Some proper non-empty prefix of `sep` is also a suffix of it. */
  predicate Bordered(sep: seq<byte>) {
    exists k :: 1 <= k < |sep| && OverlapsAt(sep, k)
  }

  /** `sep` shifted by `k` agrees with itself where the two overlap. */
  predicate OverlapsAt(sep: seq<byte>, k: nat) {
    k <= |sep| && sep[k..] == sep[..|sep| - k]
  }

  /** The scan from left to right: `cur` is the token read so far, `rest` is still ahead. */
  function Pieces(cur: seq<byte>, rest: seq<byte>, sep: seq<byte>): (r: seq<seq<byte>>)
    requires sep != []
    ensures |r| >= 1
    decreases |rest|
  {
    if |rest| < |sep| then [cur + rest]
    else if sep <= rest then [cur] + Pieces([], rest[|sep|..], sep)
    else Pieces(cur + [rest[0]], rest[1..], sep)
  }

  /** What `sdssplitlen` returns: no tokens for an empty string or an empty separator. */
  function Split(s: seq<byte>, sep: seq<byte>): seq<seq<byte>> {
    if s == [] || sep == [] then [] else Pieces([], s, sep)
  }

  /** What the scan still has to produce at position `j`, the current token starting at `start`. */
  ghost function Ahead(s: seq<byte>, sep: seq<byte>, start: nat, j: nat): seq<seq<byte>>
    requires sep != [] && start <= j <= |s|
  {
    Pieces(s[start..j], s[j..], sep)
  }

  lemma AheadHit(s: seq<byte>, sep: seq<byte>, start: nat, j: nat)
    requires sep != [] && start <= j && j + |sep| <= |s| && s[j..j + |sep|] == sep
    ensures Ahead(s, sep, start, j) == [s[start..j]] + Ahead(s, sep, j + |sep|, j + |sep|)
  {
    assert s[j..][..|sep|] == sep;
    assert s[j..][|sep|..] == s[j + |sep|..];
    assert s[j + |sep|..j + |sep|] == [];
  }

  lemma AheadMiss(s: seq<byte>, sep: seq<byte>, start: nat, j: nat)
    requires sep != [] && start <= j && j + |sep| <= |s| && s[j..j + |sep|] != sep
    ensures Ahead(s, sep, start, j) == Ahead(s, sep, start, j + 1)
  {
    assert s[j..][..|sep|] == s[j..j + |sep|];
    assert s[start..j + 1] == s[start..j] + [s[j..][0]];
    assert s[j..][1..] == s[j + 1..];
  }

  lemma AheadEnd(s: seq<byte>, sep: seq<byte>, start: nat, j: nat)
    requires sep != [] && start <= j <= |s| && j + |sep| > |s|
    ensures Ahead(s, sep, start, j) == [s[start..]]
  {
    assert s[start..j] + s[j..] == s[start..];
  }

  /** The scan stands at `j`, its current token starts at `start`, and it has cut off `found`. */
  ghost predicate Scanning(s: seq<byte>, sep: seq<byte>, start: nat, j: nat, found: seq<seq<byte>>) {
    s != [] && sep != [] && start <= j <= |s| && Split(s, sep) == found + Ahead(s, sep, start, j)
  }

  lemma ScanStart(s: seq<byte>, sep: seq<byte>)
    requires s != [] && sep != []
    ensures Scanning(s, sep, 0, 0, [])
  {
    assert s[0..0] == [] && s[0..] == s;
    assert [] + Ahead(s, sep, 0, 0) == Ahead(s, sep, 0, 0);
  }

  lemma ScanHit(s: seq<byte>, sep: seq<byte>, start: nat, j: nat, found: seq<seq<byte>>)
    requires Scanning(s, sep, start, j, found) && j + |sep| <= |s| && s[j..j + |sep|] == sep
    ensures Scanning(s, sep, j + |sep|, j + |sep|, found + [s[start..j]])
  {
    AheadHit(s, sep, start, j);
    hide Split, Ahead;
    Assoc(found, [s[start..j]], Ahead(s, sep, j + |sep|, j + |sep|));
  }

  lemma ScanMiss(s: seq<byte>, sep: seq<byte>, start: nat, j: nat, found: seq<seq<byte>>)
    requires Scanning(s, sep, start, j, found) && j + |sep| <= |s| && s[j..j + |sep|] != sep
    ensures Scanning(s, sep, start, j + 1, found)
  {
    AheadMiss(s, sep, start, j);
    hide Split, Ahead;
  }

  lemma ScanEnd(s: seq<byte>, sep: seq<byte>, start: nat, j: nat, found: seq<seq<byte>>)
    requires Scanning(s, sep, start, j, found) && j + |sep| > |s|
    ensures Split(s, sep) == found + [s[start..]]
  {
    AheadEnd(s, sep, start, j);
    hide Split, Ahead;
  }

  /** The `s_realloc` to twice the slots. */
  method Enlarge(tokens: array<seq<byte>>, slots: nat) returns (bigger: array<seq<byte>>)
    requires tokens.Length <= slots
    ensures fresh(bigger) && bigger.Length == slots
    ensures bigger[..tokens.Length] == tokens[..]
  {
    bigger := new seq<byte>[slots];
    for i := 0 to tokens.Length
      invariant bigger[..i] == tokens[..i]
    {
      bigger[i] := tokens[i];
    }
  }

  /** Room for two more tokens before the next byte is looked at. */
  method EnsureSlots(tokens: array<seq<byte>>, elements: nat) returns (r: array<seq<byte>>)
    requires elements < tokens.Length
    ensures r == tokens || fresh(r)
    ensures elements + 2 <= r.Length && r[..elements] == tokens[..elements]
  {
    r := tokens;
    if tokens.Length < elements + 2 {
      r := Enlarge(tokens, tokens.Length * 2);
      assert r[..elements] == r[..tokens.Length][..elements] == tokens[..][..elements];
    }
  }

  /** `tokens[elements] = sdsnewlen(...)`. */
  method PutToken(tokens: array<seq<byte>>, elements: nat, token: seq<byte>)
    requires elements < tokens.Length
    modifies tokens
    ensures tokens[..elements + 1] == old(tokens[..elements]) + [token]
  {
    tokens[elements] := token;
  }

  /** `sdssplitlen`: the token array starts with five slots and doubles when it is short. */
  method SplitLen(s: seq<byte>, sep: seq<byte>) returns (tokens: array?<seq<byte>>, count: nat)
    ensures tokens == null <==> s == [] || sep == []
    ensures tokens == null ==> count == 0
    ensures tokens != null ==> count <= tokens.Length && tokens[..count] == Split(s, sep)
  {
    hide Split, Scanning;
    if |sep| < 1 || |s| <= 0 {
      return null, 0;
    }
    var elements := 0;
    var start, j := 0, 0;
    var arr := new seq<byte>[5];
    ScanStart(s, sep);
    assert arr[..0] == [];
    while j < |s| - (|sep| - 1)
      invariant 0 <= start <= j <= |s|
      invariant 0 <= elements < arr.Length && fresh(arr)
      invariant Scanning(s, sep, start, j, arr[..elements])
    {
      arr := EnsureSlots(arr, elements);
      if s[j..j + |sep|] == sep {
        ScanHit(s, sep, start, j, arr[..elements]);
        PutToken(arr, elements, s[start..j]);
        elements := elements + 1;
        start := j + |sep|;
        j := j + |sep| - 1;
      } else {
        ScanMiss(s, sep, start, j, arr[..elements]);
      }
      j := j + 1;
    }
    ScanEnd(s, sep, start, j, arr[..elements]);
    PutToken(arr, elements, s[start..]);
    elements := elements + 1;
    return arr, elements;
  }

  /** `sdsjoinsds`. */
  method JoinSds(argv: seq<seq<byte>>, sep: seq<byte>) returns (join: seq<byte>)
    ensures join == Join(argv, sep)
  {
    join := [];
    for j := 0 to |argv|
      invariant join + Join(argv[j..], sep) == Join(argv, sep)
    {
      var tail := argv[j..];
      assert tail[0] == argv[j] && tail[1..] == argv[j + 1..];
      join := join + argv[j];
      if j != |argv| - 1 {
        join := join + sep;
      }
    }
  }

  // ---------- joining undoes splitting ----------

  lemma {:induction false} JoinPieces(cur: seq<byte>, rest: seq<byte>, sep: seq<byte>)
    requires sep != []
    ensures Join(Pieces(cur, rest, sep), sep) == cur + rest
    decreases |rest|
  {
    if |rest| < |sep| {
    } else if sep <= rest {
      var more := Pieces([], rest[|sep|..], sep);
      JoinPieces([], rest[|sep|..], sep);
      assert ([cur] + more)[1..] == more;
      assert cur + sep + rest[|sep|..] == cur + rest;
    } else {
      JoinPieces(cur + [rest[0]], rest[1..], sep);
      assert cur + [rest[0]] + rest[1..] == cur + rest;
    }
  }

  /** For non-empty input and separator, joining the tokens restores the input. */
  lemma JoinInvertsSplit(s: seq<byte>, sep: seq<byte>)
    requires s != [] && sep != []
    ensures Join(Split(s, sep), sep) == s
  {
    JoinPieces([], s, sep);
    assert [] + s == s;
  }

  // ---------- no token contains the separator ----------

  /** No occurrence of `sep` in `cur + rest` starts inside `cur`. */
  ghost predicate NoneStartsIn(cur: seq<byte>, rest: seq<byte>, sep: seq<byte>) {
    forall k :: 0 <= k < |cur| ==> !OccursAt(cur + rest, sep, k)
  }

  lemma {:induction false} PiecesSeparatorFree(cur: seq<byte>, rest: seq<byte>, sep: seq<byte>)
    requires sep != []
    requires NoneStartsIn(cur, rest, sep)
    ensures SeparatorFree(Pieces(cur, rest, sep), sep)
    decreases |rest|
  {
    if |rest| < |sep| {
      CurSeparatorFree(cur, rest, sep, cur + rest);
    } else if sep <= rest {
      CurSeparatorFree(cur, rest, sep, cur);
      PiecesSeparatorFree([], rest[|sep|..], sep);
    } else {
      var cur' := cur + [rest[0]];
      assert cur' + rest[1..] == cur + rest;
      assert (cur + rest)[|cur|..|cur| + |sep|] == rest[..|sep|];
      assert !OccursAt(cur + rest, sep, |cur|);
      PiecesSeparatorFree(cur', rest[1..], sep);
    }
  }

  /** A finished token `t` is a prefix of the text in which no occurrence was seen. */
  lemma CurSeparatorFree(cur: seq<byte>, rest: seq<byte>, sep: seq<byte>, t: seq<byte>)
    requires sep != [] && NoneStartsIn(cur, rest, sep)
    requires t == cur || (t == cur + rest && |rest| < |sep|)
    ensures !Contains(t, sep)
  {
    forall k | 0 <= k <= |t|
      ensures !OccursAt(t, sep, k)
    {
      if OccursAt(t, sep, k) {
        assert (cur + rest)[k..k + |sep|] == t[k..k + |sep|];
        assert OccursAt(cur + rest, sep, k);
      }
    }
  }

  lemma SplitSeparatorFree(s: seq<byte>, sep: seq<byte>)
    requires sep != []
    ensures SeparatorFree(Split(s, sep), sep)
  {
    PiecesSeparatorFree([], s, sep);
  }

  // ---------- the tokens are those of the leftmost matches ----------

  /** No occurrence of `sep` in `s` starts before position `n`. */
  ghost predicate NoneBefore(s: seq<byte>, sep: seq<byte>, n: nat) {
    forall k :: 0 <= k < n ==> !OccursAt(s, sep, k)
  }

  /** Each token ends at the first match of the separator in what is left, and the last one has none. */
  ghost predicate Leftmost(tokens: seq<seq<byte>>, sep: seq<byte>) {
    tokens != []
    && if |tokens| == 1 then !Contains(tokens[0], sep)
       else NoneBefore(Join(tokens, sep), sep, |tokens[0]|) && Leftmost(tokens[1..], sep)
  }

  lemma {:induction false} PiecesLeftmost(cur: seq<byte>, rest: seq<byte>, sep: seq<byte>)
    requires sep != [] && NoneStartsIn(cur, rest, sep)
    ensures Leftmost(Pieces(cur, rest, sep), sep)
    decreases |rest|
  {
    if |rest| < |sep| {
      CurSeparatorFree(cur, rest, sep, cur + rest);
    } else if sep <= rest {
      var more := Pieces([], rest[|sep|..], sep);
      PiecesLeftmost([], rest[|sep|..], sep);
      assert ([cur] + more)[1..] == more;
      JoinPieces(cur, rest, sep);
    } else {
      var cur' := cur + [rest[0]];
      assert cur' + rest[1..] == cur + rest;
      assert (cur + rest)[|cur|..|cur| + |sep|] == rest[..|sep|];
      assert !OccursAt(cur + rest, sep, |cur|);
      PiecesLeftmost(cur', rest[1..], sep);
    }
  }

  /** A token up to the first match. */
  lemma {:induction false} PiecesToMatch(cur: seq<byte>, t: seq<byte>, rest: seq<byte>, sep: seq<byte>)
    requires sep != [] && NoneBefore(t + sep + rest, sep, |t|)
    ensures Pieces(cur, t + sep + rest, sep) == [cur + t] + Pieces([], rest, sep)
    decreases |t|
  {
    var s := t + sep + rest;
    if t == [] {
      assert s == sep + rest && s[|sep|..] == rest;
      assert cur + t == cur;
    } else {
      assert !OccursAt(s, sep, 0);
      assert s[0..0 + |sep|] == s[..|sep|];
      var s' := t[1..] + sep + rest;
      assert s[1..] == s';
      forall k | 0 <= k < |t| - 1
        ensures !OccursAt(s', sep, k)
      {
        assert !OccursAt(s, sep, k + 1);
        assert k + |sep| <= |s'| ==> s'[k..k + |sep|] == s[k + 1..k + 1 + |sep|];
      }
      PiecesToMatch(cur + [t[0]], t[1..], rest, sep);
      assert cur + [t[0]] + t[1..] == cur + t;
    }
  }

  lemma {:induction false} PiecesOfLeftmost(tokens: seq<seq<byte>>, sep: seq<byte>)
    requires sep != [] && Leftmost(tokens, sep)
    ensures Pieces([], Join(tokens, sep), sep) == tokens
    decreases |tokens|
  {
    var t := tokens[0];
    assert [] + t == t;
    if |tokens| == 1 {
      PiecesOfLast([], t, sep);
    } else {
      PiecesToMatch([], t, Join(tokens[1..], sep), sep);
      PiecesOfLeftmost(tokens[1..], sep);
      assert [t] + tokens[1..] == tokens;
    }
  }

  /** The tokens of a non-empty string are determined: joined they are the string, and each of them
      ends at the first match of the separator. */
  lemma SplitIffLeftmost(s: seq<byte>, sep: seq<byte>, tokens: seq<seq<byte>>)
    requires s != [] && sep != []
    ensures Split(s, sep) == tokens <==> Join(tokens, sep) == s && Leftmost(tokens, sep)
  {
    JoinInvertsSplit(s, sep);
    PiecesLeftmost([], s, sep);
    hide Pieces, Leftmost;
    if Join(tokens, sep) == s && Leftmost(tokens, sep) {
      PiecesOfLeftmost(tokens, sep);
    }
  }

  // ---------- when splitting undoes joining ----------

  /** An occurrence before the place where the separator was put lies in the token or overlaps itself. */
  lemma EarlyMatch(t: seq<byte>, rest: seq<byte>, sep: seq<byte>)
    requires t != [] && sep != [] && sep <= t + sep + rest
    ensures Contains(t, sep) || Bordered(sep)
  {
    var s := t + sep + rest;
    if |sep| <= |t| {
      assert t[0..0 + |sep|] == s[..|sep|];
      assert OccursAt(t, sep, 0);
    } else {
      var k := |t|;
      assert sep[k..] == s[..|sep|][k..] == s[k..|sep|] == sep[..|sep| - k];
      assert OverlapsAt(sep, k);
    }
  }

  lemma ContainsTail(t: seq<byte>, sep: seq<byte>)
    requires t != [] && !Contains(t, sep)
    ensures !Contains(t[1..], sep)
  {
    if Contains(t[1..], sep) {
      var k :| 0 <= k <= |t[1..]| && OccursAt(t[1..], sep, k);
      assert t[k + 1..k + 1 + |sep|] == t[1..][k..k + |sep|];
      assert OccursAt(t, sep, k + 1);
    }
  }

  lemma {:induction false} PiecesOfToken(cur: seq<byte>, t: seq<byte>, rest: seq<byte>, sep: seq<byte>)
    requires sep != [] && !Contains(t, sep) && !Bordered(sep)
    ensures Pieces(cur, t + sep + rest, sep) == [cur + t] + Pieces([], rest, sep)
    decreases |t|
  {
    var s := t + sep + rest;
    if t == [] {
      assert s == sep + rest && s[|sep|..] == rest;
      assert cur + t == cur;
    } else {
      if sep <= s {
        EarlyMatch(t, rest, sep);
      }
      ContainsTail(t, sep);
      assert s[1..] == t[1..] + sep + rest;
      PiecesOfToken(cur + [t[0]], t[1..], rest, sep);
      assert cur + [t[0]] + t[1..] == cur + t;
    }
  }

  lemma {:induction false} PiecesOfLast(cur: seq<byte>, t: seq<byte>, sep: seq<byte>)
    requires sep != [] && !Contains(t, sep)
    ensures Pieces(cur, t, sep) == [cur + t]
    decreases |t|
  {
    if |t| >= |sep| {
      assert t[0..0 + |sep|] == t[..|sep|];
      assert !OccursAt(t, sep, 0);
      ContainsTail(t, sep);
      PiecesOfLast(cur + [t[0]], t[1..], sep);
      assert cur + [t[0]] + t[1..] == cur + t;
    }
  }

  lemma {:induction false} PiecesOfJoin(tokens: seq<seq<byte>>, sep: seq<byte>)
    requires sep != [] && !Bordered(sep) && tokens != [] && SeparatorFree(tokens, sep)
    ensures Pieces([], Join(tokens, sep), sep) == tokens
    decreases |tokens|
  {
    var t := tokens[0];
    assert [] + t == t;
    if |tokens| == 1 {
      PiecesOfLast([], t, sep);
    } else {
      var rest := tokens[1..];
      PiecesOfToken([], t, Join(rest, sep), sep);
      PiecesOfJoin(rest, sep);
      assert [t] + rest == tokens;
    }
  }

  /** The law that splitting a join gives the tokens back. */
  ghost predicate SplitInvertsJoin(sep: seq<byte>) {
    forall tokens: seq<seq<byte>> ::
      SeparatorFree(tokens, sep) && Join(tokens, sep) != [] ==> Split(Join(tokens, sep), sep) == tokens
  }

  /** A bordered separator can be found too early: here it is found at position 0. */
  lemma BorderedCounterexample(sep: seq<byte>, k: nat) returns (tokens: seq<seq<byte>>)
    requires 1 <= k < |sep| && OverlapsAt(sep, k)
    ensures tokens == [sep[..k], []] && SeparatorFree(tokens, sep)
    ensures Join(tokens, sep) != [] && Split(Join(tokens, sep), sep) != tokens
  {
    tokens := [sep[..k], []];
    assert tokens[1..] == [[]];
    assert Join(tokens[1..], sep) == [];
    var s := Join(tokens, sep);
    assert s == sep[..k] + sep + [] == sep[..k] + sep;
    assert s[..|sep|] == sep[..k] + sep[..|sep| - k] == sep[..k] + sep[k..] == sep;
    assert sep <= s;
    assert Split(s, sep)[0] == [];
  }

  /** Splitting undoes joining for exactly the unbordered separators, every one-byte separator among them. */
  lemma SplitInvertsJoinIff(sep: seq<byte>)
    requires sep != []
    ensures SplitInvertsJoin(sep) <==> !Bordered(sep)
    ensures |sep| == 1 ==> SplitInvertsJoin(sep)
  {
    if Bordered(sep) {
      var k :| 1 <= k < |sep| && OverlapsAt(sep, k);
      var tokens := BorderedCounterexample(sep, k);
    } else {
      forall tokens: seq<seq<byte>> | SeparatorFree(tokens, sep) && Join(tokens, sep) != []
        ensures Split(Join(tokens, sep), sep) == tokens
      {
        PiecesOfJoin(tokens, sep);
      }
    }
  }
}
