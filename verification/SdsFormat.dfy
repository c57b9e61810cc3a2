/** What a format of `sdscatfmt` means, piece by piece. */
module SdsFormat {
  import opened Bytes
  import opened Seqs
  import opened SdsDecimal
  import opened SdsPrint

  /** A byte other than '%', a specifier with its argument, '%' with another byte, or a '%' at the very end. */
  datatype Piece = Literal(c: byte) | Spec(letter: byte, arg: Arg) | Unknown(c: byte) | Dangling

  /** The letters `s`, `S`, `i`, `I`, `u`, `U` read a C string, an sds, an int, a long long and their unsigned kinds. */
  predicate Reads(letter: byte, a: Arg) {
    match a
    case CStr(s) => letter == 115 && NulFree(s)
    case SdsStr(_) => letter == 83
    case Int(v) => letter == 105 && -2147483648 <= v <= 2147483647
    case LongLong(v) => letter == 73 && -9223372036854775808 <= v <= 9223372036854775807
    case UInt(v) => letter == 117 && 0 <= v <= 4294967295
    case ULongLong(v) => letter == 85 && 0 <= v <= 18446744073709551615
  }

  function PieceText(x: Piece): seq<byte> {
    match x
    case Literal(c) => [c]
    case Spec(letter, _) => [37, letter]
    case Unknown(c) => [37, c]
    case Dangling => [37]
  }

  /** `t` is what the piece puts out: strings as they are, numbers in canonical decimal notation. */
  ghost predicate Shows(x: Piece, t: seq<byte>) {
    match x
    case Literal(c) => t == [c]
    case Spec(_, a) => if a.CStr? || a.SdsStr? then t == a.s else Canonical(t) && Parse(t) == a.v
    case Unknown(c) => t == [c]
    case Dangling => t == []
  }

  predicate GoodPiece(x: Piece, last: bool) {
    match x
    case Literal(c) => c != 37
    case Spec(letter, a) => Reads(letter, a)
    case Unknown(c) => c !in [115, 83, 105, 73, 117, 85]
    case Dangling => last
  }

  predicate GoodPieces(xs: seq<Piece>) {
    forall i :: 0 <= i < |xs| ==> GoodPiece(xs[i], i == |xs| - 1)
  }

  function FormatText(xs: seq<Piece>): seq<byte> {
    if xs == [] then [] else PieceText(xs[0]) + FormatText(xs[1..])
  }

  /** The arguments that the specifiers read, in their order. */
  function PieceArgs(xs: seq<Piece>): seq<Arg> {
    if xs == [] then [] else (if xs[0].Spec? then [xs[0].arg] else []) + PieceArgs(xs[1..])
  }

  /** `texts` are what the pieces put out, one after the other. */
  ghost predicate AllShown(xs: seq<Piece>, texts: seq<seq<byte>>) {
    |texts| == |xs| && forall i :: 0 <= i < |xs| ==> Shows(xs[i], texts[i])
  }

  function Concat(texts: seq<seq<byte>>): seq<byte> {
    if texts == [] then [] else texts[0] + Concat(texts[1..])
  }

  lemma ReadsIs(c: byte, a: Arg)
    ensures ArgFor(c, a) <==> Reads(c, a)
    ensures Reads(c, a) ==> IsSpecifier(c)
    ensures IsSpecifier(c) <==> c in [115, 83, 105, 73, 117, 85]
  {
  }

  lemma ArgTextShows(letter: byte, a: Arg, t: seq<byte>)
    requires Reads(letter, a)
    ensures Shows(Spec(letter, a), t) <==> t == ArgText(a)
  {
    if !a.CStr? && !a.SdsStr? {
      DecimalRoundTrip(a.v);
      if Canonical(t) {
        DecimalUnique(t);
      }
      hide Canonical, Decimal;
    }
  }

  /** The first piece of a format. */
  lemma RenderPiece(x: Piece, more: seq<byte>, args: seq<Arg>, t: seq<byte>)
    requires GoodPiece(x, more == []) && Shows(x, t) && WellTyped(more, args)
    ensures var fmt := PieceText(x) + more;
            var all := (if x.Spec? then [x.arg] else []) + args;
            WellTyped(fmt, all) && Render(fmt, all) == t + Render(more, args)
  {
    var fmt := PieceText(x) + more;
    assert fmt[0] == PieceText(x)[0] && fmt[|PieceText(x)|..] == more;
    assert [] + args == args;
    match x
    case Spec(letter, a) =>
      ReadsIs(letter, a);
      ArgTextShows(letter, a, t);
      hide ArgText, ArgFor, IsSpecifier, Reads;
      assert ([a] + args)[0] == a && ([a] + args)[1..] == args;
    case Unknown(c) =>
      ReadsIs(c, CStr([]));
    case Literal(_) =>
    case Dangling =>
  }

  /** A format puts out exactly what its pieces put out, and reads exactly their arguments. */
  lemma {:induction false} RenderPieces(xs: seq<Piece>, extra: seq<Arg>, texts: seq<seq<byte>>)
    requires GoodPieces(xs) && AllShown(xs, texts)
    ensures WellTyped(FormatText(xs), PieceArgs(xs) + extra)
    ensures Render(FormatText(xs), PieceArgs(xs) + extra) == Concat(texts)
    decreases |xs|
  {
    hide PieceText, Shows, GoodPiece, WellTyped, Render;
    if xs == [] {
      RenderNothing([] + extra);
    } else {
      var more := xs[1..];
      assert forall i :: 0 <= i < |more| ==> more[i] == xs[i + 1];
      RenderPieces(more, extra, texts[1..]);
      assert GoodPiece(xs[0], 0 == |xs| - 1);
      LastPiece(xs);
      RenderPiece(xs[0], FormatText(more), PieceArgs(more) + extra, texts[0]);
      Assoc(if xs[0].Spec? then [xs[0].arg] else [], PieceArgs(more), extra);
    }
  }

  lemma RenderNothing(args: seq<Arg>)
    ensures WellTyped([], args) && Render([], args) == []
  {
  }

  /** Only the last piece has nothing behind it. */
  lemma LastPiece(xs: seq<Piece>)
    requires xs != []
    ensures FormatText(xs[1..]) == [] <==> |xs| == 1
  {
    if |xs| > 1 {
      assert FormatText(xs[1..]) == PieceText(xs[1]) + FormatText(xs[1..][1..]);
    }
  }

  /** Every format with arguments that fit it is made of such pieces. */
  lemma {:induction false} FormatPieces(fmt: seq<byte>, args: seq<Arg>) returns (xs: seq<Piece>, extra: seq<Arg>)
    requires WellTyped(fmt, args)
    ensures GoodPieces(xs) && FormatText(xs) == fmt && PieceArgs(xs) + extra == args
    decreases |fmt|
  {
    if fmt == [] {
      xs, extra := [], args;
      assert [] + args == args;
    } else {
      var x := if fmt[0] != PERCENT then Literal(fmt[0]) else if |fmt| == 1 then Dangling
               else if IsSpecifier(fmt[1]) then Spec(fmt[1], args[0]) else Unknown(fmt[1]);
      var n := |PieceText(x)|;
      if |fmt| > 1 {
        ReadsIs(fmt[1], if x.Spec? then args[0] else CStr([]));
      }
      assert GoodPiece(x, n == |fmt|);
      assert fmt == PieceText(x) + fmt[n..];
      var rest := if x.Spec? then args[1..] else args;
      assert args == (if x.Spec? then [x.arg] else []) + rest;
      hide PieceText, GoodPiece, IsSpecifier;
      var more;
      more, extra := FormatPieces(fmt[n..], rest);
      xs := [x] + more;
      assert xs[1..] == more;
      LastPiece(xs);
      Assoc(if x.Spec? then [x.arg] else [], PieceArgs(more), extra);
    }
  }
}
