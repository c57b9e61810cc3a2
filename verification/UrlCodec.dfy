/** Percent coding in the directory server: `encode_str` and `decode_str`. */
module UrlCodec {
  import opened Bytes
  import opened Seqs

  /** Unreserved bytes and the slash stand for themselves. */
  predicate Plain(c: byte) {
    IsAlnum(c) || c in [SLASH, 95, 46, 45, 126]
  }

  function EncodeByte(c: byte): (r: seq<byte>)
    ensures 1 <= |r| <= 3
    ensures c != NUL ==> NulFree(r)
  {
    if Plain(c) then [c] else [PERCENT] + Hex2(c)
  }

  function Encode(s: seq<byte>): seq<byte> {
    if s == [] then [] else EncodeByte(s[0]) + Encode(s[1..])
  }

  predicate IsEscape(s: seq<byte>) {
    |s| >= 3 && s[0] == PERCENT && IsHexDigit(s[1]) && IsHexDigit(s[2])
  }

  function Decode(s: seq<byte>): seq<byte> {
    if s == [] then []
    else if IsEscape(s) then [(HexValue(s[1]) * 16 + HexValue(s[2])) as byte] + Decode(s[3..])
    else [s[0]] + Decode(s[1..])
  }

  /** How many bytes of `s` the encoder takes, with `used` bytes of `tosize` already filled. */
  function Taken(s: seq<byte>, used: nat, tosize: nat): (n: nat)
    ensures n <= |s|
  {
    if s == [] || used + 4 >= tosize then 0
    else 1 + Taken(s[1..], used + |EncodeByte(s[0])|, tosize)
  }

  // ---------- what the functions mean ----------

  /** The bytes `-`, `.`, `/`, `0` to `9`, `A` to `Z`, `_`, `a` to `z` and `~` stand for themselves, every other one
      is `%` and its two lower-case hexadecimal digits. */
  lemma EncodeByteIs(c: byte)
    ensures EncodeByte(c) ==
              if 45 <= c <= 57 || 65 <= c <= 90 || c == 95 || 97 <= c <= 122 || c == 126 then [c]
              else [37, HexDigits[c / 16], HexDigits[c % 16]]
  {
    hide Hex2;
  }

  /** A text to decode is made of bytes and of `%` with two hexadecimal digits of either case. */
  datatype Piece = Raw(c: byte) | Pair(a: byte, b: byte)

  function PieceText(x: Piece): seq<byte> {
    if x.Raw? then [x.c] else [PERCENT, x.a, x.b]
  }

  function PieceValue(x: Piece): byte {
    if x.Raw? then x.c else HexValue(x.a) * 16 + HexValue(x.b)
  }

  function PiecesText(xs: seq<Piece>): seq<byte> {
    if xs == [] then [] else PieceText(xs[0]) + PiecesText(xs[1..])
  }

  function PiecesValue(xs: seq<Piece>): (r: seq<byte>)
    ensures |r| == |xs| && forall i :: 0 <= i < |xs| ==> r[i] == PieceValue(xs[i])
  {
    seq(|xs|, i requires 0 <= i < |xs| => PieceValue(xs[i]))
  }

  /** A `%` is a byte of its own only where two hexadecimal digits do not follow. */
  predicate GoodPiece(x: Piece, rest: seq<byte>) {
    if x.Pair? then IsHexDigit(x.a) && IsHexDigit(x.b)
    else x.c == PERCENT ==> !(|rest| >= 2 && IsHexDigit(rest[0]) && IsHexDigit(rest[1]))
  }

  predicate GoodPieces(xs: seq<Piece>) {
    xs != [] ==> GoodPiece(xs[0], PiecesText(xs[1..])) && GoodPieces(xs[1..])
  }

  lemma DecodePiece(x: Piece, rest: seq<byte>)
    requires GoodPiece(x, rest)
    ensures Decode(PieceText(x) + rest) == [PieceValue(x)] + Decode(rest)
  {
    hide HexValue;
    var s, n := PieceText(x) + rest, |PieceText(x)|;
    assert s[n..] == rest;
    if x.Pair? {
      assert s[1] == x.a && s[2] == x.b;
    } else {
      assert |s| > 1 ==> s[1] == rest[0];
      assert |s| > 2 ==> s[2] == rest[1];
    }
  }

  /** Decoding turns each piece into its one byte, on every text and not only on encoded ones. */
  lemma {:induction false} DecodePieces(xs: seq<Piece>)
    requires GoodPieces(xs)
    ensures Decode(PiecesText(xs)) == PiecesValue(xs)
    decreases |xs|
  {
    hide PieceText, PieceValue, GoodPiece, Decode;
    if xs == [] {
      DecodeNothing();
    } else {
      DecodePieces(xs[1..]);
      DecodePiece(xs[0], PiecesText(xs[1..]));
      assert PiecesValue(xs) == [PieceValue(xs[0])] + PiecesValue(xs[1..]);
    }
  }

  lemma DecodeNothing()
    ensures Decode([]) == []
  {
  }

  /** Every text is made of such pieces. */
  lemma {:induction false} TextPieces(s: seq<byte>) returns (xs: seq<Piece>)
    ensures GoodPieces(xs) && PiecesText(xs) == s
    decreases |s|
  {
    if s == [] {
      xs := [];
    } else {
      var x := if IsEscape(s) then Pair(s[1], s[2]) else Raw(s[0]);
      var n := |PieceText(x)|;
      assert s == PieceText(x) + s[n..];
      var more := TextPieces(s[n..]);
      xs := [x] + more;
      assert xs[1..] == more;
      if x.Raw? && |s| > 2 {
        assert s[1..][0] == s[1] && s[1..][1] == s[2];
      }
    }
  }

  /** The encoder takes bytes as long as more than four places are free before each, and then no more. */
  lemma {:induction false} TakenIs(s: seq<byte>, used: nat, tosize: nat, k: nat)
    requires k <= |s|
    ensures var n := Taken(s, used, tosize);
            (k < n ==> used + |Encode(s[..k])| + 4 < tosize)
            && (k == n && n < |s| ==> used + |Encode(s[..k])| + 4 >= tosize)
    decreases |s|
  {
    hide EncodeByte;
    if k == 0 {
      assert s[..0] == [];
    } else if used + 4 < tosize {
      TakenIs(s[1..], used + |EncodeByte(s[0])|, tosize, k - 1);
      assert s[..k][0] == s[0] && s[..k][1..] == s[1..][..k - 1];
    }
  }

  // ---------- decoding undoes encoding ----------

  lemma DecodeEncodedByte(c: byte, rest: seq<byte>)
    ensures Decode(EncodeByte(c) + rest) == [c] + Decode(rest)
  {
    var s := EncodeByte(c) + rest;
    if Plain(c) {
      assert s[1..] == rest;
    } else {
      assert s[3..] == rest && s[1] == Hex2(c)[0] && s[2] == Hex2(c)[1];
    }
  }

  /** Whatever bytes were encoded, decoding gives them back. */
  lemma {:induction false} DecodeInvertsEncode(s: seq<byte>)
    ensures Decode(Encode(s)) == s
  {
    if s != [] {
      DecodeEncodedByte(s[0], Encode(s[1..]));
      DecodeInvertsEncode(s[1..]);
    }
  }

  lemma {:induction false} EncodeNulFree(s: seq<byte>)
    requires NulFree(s)
    ensures NulFree(Encode(s)) && |Encode(s)| <= 3 * |s|
  {
    if s != [] {
      EncodeNulFree(s[1..]);
    }
  }

  lemma {:induction false} EncodeAppend(s: seq<byte>, c: byte)
    ensures Encode(s + [c]) == Encode(s) + EncodeByte(c)
  {
    hide EncodeByte;
    if s == [] {
      assert s + [c] == [c];
      assert Encode([c]) == EncodeByte(c) + Encode([]);
    } else {
      assert (s + [c])[0] == s[0] && (s + [c])[1..] == s[1..] + [c];
      EncodeAppend(s[1..], c);
      Assoc(EncodeByte(s[0]), Encode(s[1..]), EncodeByte(c));
    }
  }

  // ---------- truncation ----------

  /** Everything is taken exactly when the last byte still finds more than four free places. */
  lemma {:induction false} TakenAllIff(s: seq<byte>, used: nat, tosize: nat)
    requires s != []
    ensures Taken(s, used, tosize) == |s| <==> used + |Encode(s[..|s| - 1])| + 4 < tosize
    decreases |s|
  {
    hide EncodeByte;
    var front := s[..|s| - 1];
    if |s| == 1 {
      assert front == [];
    } else {
      TakenAllIff(s[1..], used + |EncodeByte(s[0])|, tosize);
      assert front[1..] == s[1..][..|s| - 2];
      assert front[0] == s[0];
    }
  }

  /** A string of length n survives whole in any buffer larger than 3n + 1. */
  lemma RoundTripWhole(s: seq<byte>, tosize: nat)
    requires NulFree(s) && 3 * |s| + 1 < tosize
    ensures Taken(s, 0, tosize) == |s|
  {
    if s != [] {
      EncodeNulFree(s[..|s| - 1]);
      TakenAllIff(s, 0, tosize);
    }
  }

  // ---------- the two loops ----------

  /** One encoded byte, written behind what is there. */
  method PutEncoded(to: array<byte>, tolen: nat, c: byte) returns (tolen': nat)
    requires tolen + 4 < to.Length
    modifies to
    ensures tolen < tolen' <= tolen + 3
    ensures to[..tolen'] == old(to[..tolen]) + EncodeByte(c)
    ensures forall i :: tolen + 4 <= i < to.Length ==> to[i] == old(to[i])
  {
    if Plain(c) {
      to[tolen] := c;
      tolen' := tolen + 1;
    } else {
      var h := Hex2(c);
      to[tolen] := PERCENT;
      to[tolen + 1] := h[0];
      to[tolen + 2] := h[1];
      to[tolen + 3] := NUL;
      tolen' := tolen + 3;
    }
  }

  /** The encoder stands at byte `n` and has written `done`. */
  ghost predicate Encoding(from: seq<byte>, n: nat, done: seq<byte>, tosize: nat) {
    n <= |from| && done == Encode(from[..n])
    && Taken(from, 0, tosize) == n + Taken(from[n..], |done|, tosize)
  }

  lemma EncodingStep(from: seq<byte>, n: nat, done: seq<byte>, tosize: nat)
    requires n < |from| && |done| + 4 < tosize && Encoding(from, n, done, tosize)
    ensures Encoding(from, n + 1, done + EncodeByte(from[n]), tosize)
  {
    hide EncodeByte;
    EncodeAppend(from[..n], from[n]);
    assert from[..n + 1] == from[..n] + [from[n]];
    assert from[n..][0] == from[n] && from[n..][1..] == from[n + 1..];
  }

  /** `encode_str`: returns the length written, and for the contract how many bytes were taken. */
  method EncodeStr(to: array<byte>, tosize: nat, from: seq<byte>) returns (tolen: nat, n: nat)
    requires 1 <= tosize <= to.Length && NulFree(from)
    modifies to
    ensures n == Taken(from, 0, tosize) && tolen < tosize
    ensures to[..tolen] == Encode(from[..n]) && to[tolen] == NUL
    ensures Decode(to[..tolen]) == from[..n]
    ensures forall i :: tosize <= i < to.Length ==> to[i] == old(to[i])
  {
    hide EncodeByte;
    tolen, n := 0, 0;
    assert from[0..] == from && from[..0] == [];
    while n < |from| && tolen + 4 < tosize
      invariant tolen < tosize && Encoding(from, n, to[..tolen], tosize)
      invariant forall i :: tosize <= i < to.Length ==> to[i] == old(to[i])
      decreases |from| - n
    {
      EncodingStep(from, n, to[..tolen], tosize);
      tolen := PutEncoded(to, tolen, from[n]);
      n := n + 1;
    }
    ghost var done := to[..tolen];
    to[tolen] := NUL;
    assert to[..tolen] == done;
    DecodeInvertsEncode(from[..n]);
  }

  predicate EscapeAt(text: seq<byte>, f: nat) {
    At(text, f) == PERCENT && IsHexDigit(At(text, f + 1)) && IsHexDigit(At(text, f + 2))
  }

  /** The byte that the decoder produces at `f`, and the width of what it stands for. */
  function DecodedAt(text: seq<byte>, f: nat): byte {
    if EscapeAt(text, f) then HexValue(At(text, f + 1)) * 16 + HexValue(At(text, f + 2)) else At(text, f)
  }

  function WidthAt(text: seq<byte>, f: nat): nat {
    if EscapeAt(text, f) then 3 else 1
  }

  /** The decoder stands at byte `f` and has written `done`. */
  ghost predicate Decoding(text: seq<byte>, f: nat, done: seq<byte>) {
    f <= |text| && done + Decode(text[f..]) == Decode(text)
  }

  lemma DecodeStep(text: seq<byte>, f: nat)
    requires f < |text|
    ensures f + WidthAt(text, f) <= |text|
    ensures Decode(text[f..]) == [DecodedAt(text, f)] + Decode(text[f + WidthAt(text, f)..])
  {
    var rest := text[f..];
    assert rest[0] == text[f] && rest[1..] == text[f + 1..];
    if f + 3 <= |text| {
      assert rest[1] == text[f + 1] && rest[2] == text[f + 2] && rest[3..] == text[f + 3..];
    }
  }

  lemma DecodingStep(text: seq<byte>, f: nat, done: seq<byte>)
    requires f < |text| && Decoding(text, f, done)
    ensures Decoding(text, f + WidthAt(text, f), done + [DecodedAt(text, f)])
  {
    hide Decode, DecodedAt, WidthAt;
    DecodeStep(text, f);
    Assoc(done, [DecodedAt(text, f)], Decode(text[f + WidthAt(text, f)..]));
  }

  /** `decode_str`; the two buffers may also be one. */
  method DecodeStr(to: array<byte>, from: array<byte>, n: nat) returns (m: nat)
    requires n < from.Length && n < to.Length
    requires NulFree(from[..n]) && from[n] == NUL
    modifies to
    ensures m <= n && to[..m] == Decode(old(from[..n])) && to[m] == NUL
  {
    hide Decode, Decoding, EscapeAt, DecodedAt, WidthAt;
    ghost var text := from[..n];
    ghost var done: seq<byte> := [];
    var f := 0;
    m := 0;
    DecodingStart(text);
    while from[f] != NUL
      invariant 0 <= m <= f <= n && to[..m] == done
      invariant forall i :: f <= i <= n ==> from[i] == At(text, i)
      invariant Decoding(text, f, done)
      decreases n - f
    {
      DecodingStep(text, f, done);
      DecodedCases(text, f);
      done := done + [DecodedAt(text, f)];
      if from[f] == PERCENT && IsHexDigit(from[f + 1]) && IsHexDigit(from[f + 2]) {
        to[m] := HexValue(from[f + 1]) * 16 + HexValue(from[f + 2]);
        f := f + 2;
      } else {
        to[m] := from[f];
      }
      m := m + 1;
      f := f + 1;
    }
    DecodingEnd(text, done);
    to[m] := NUL;
    assert to[..m] == done;
  }

  lemma DecodingStart(text: seq<byte>)
    ensures Decoding(text, 0, [])
  {
    assert text[0..] == text && [] + Decode(text) == Decode(text);
  }

  lemma DecodingEnd(text: seq<byte>, done: seq<byte>)
    requires Decoding(text, |text|, done)
    ensures done == Decode(text)
  {
    assert done + [] == done;
  }

  /** What stands at `f` is an escape or a byte for itself. */
  lemma DecodedCases(text: seq<byte>, f: nat)
    ensures var a, b := At(text, f + 1), At(text, f + 2);
            if At(text, f) == PERCENT && IsHexDigit(a) && IsHexDigit(b)
            then WidthAt(text, f) == 3 && DecodedAt(text, f) == HexValue(a) * 16 + HexValue(b)
            else WidthAt(text, f) == 1 && DecodedAt(text, f) == At(text, f)
  {
  }
}
