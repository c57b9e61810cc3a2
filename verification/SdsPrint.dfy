/** The printers `sdscatrepr` and `sdscatfmt`, writing into a string object. */
module SdsPrint {
  import opened Bytes
  import opened Seqs
  import opened SdsBuffer
  import opened SdsDecimal
  import Repr = SdsRepr

  // ---------- sdscatrepr ----------

  /** What has been written once `i` bytes of `p` are printed. */
  ghost function Printed(was: seq<byte>, p: seq<byte>, i: nat): seq<byte>
    requires i <= |p|
  {
    was + ([DQUOTE] + Repr.ReprBody(p[..i]))
  }

  lemma PrintedStep(was: seq<byte>, p: seq<byte>, i: nat)
    requires i < |p|
    ensures Printed(was, p, i + 1) == Printed(was, p, i) + Repr.ReprByte(p[i])
    ensures |Printed(was, p, i)| <= |was| + 1 + 4 * i
  {
    hide Repr.ReprByte;
    var r := Repr.ReprByte(p[i]);
    assert p[..i + 1] == p[..i] + [p[i]];
    Repr.ReprBodyAppend(p[..i], [p[i]]);
    Repr.ReprBodyOne(p[i]);
    Assoc([DQUOTE], Repr.ReprBody(p[..i]), r);
    Assoc(was, [DQUOTE] + Repr.ReprBody(p[..i]), r);
  }

  lemma PrintedStart(was: seq<byte>, p: seq<byte>)
    ensures Printed(was, p, 0) == was + [DQUOTE]
  {
    assert Repr.ReprBody(p[..0]) == [];
    assert [DQUOTE] + [] == [DQUOTE];
  }

  lemma PrintedAll(was: seq<byte>, p: seq<byte>)
    ensures Printed(was, p, |p|) + [DQUOTE] == was + Repr.Repr(p)
    ensures |Printed(was, p, |p|)| <= |was| + 1 + 4 * |p|
  {
    assert p[..|p|] == p;
  }

  /** `sdscatrepr`. */
  method CatRepr(x: Sds, p: seq<byte>)
    requires x.Valid() && Fits(x.Len() + 4 * |p| + 2)
    modifies x, x.buf
    ensures x.Valid() && x.Contents() == old(x.Contents()) + Repr.Repr(p)
    ensures x.buf == old(x.buf) || fresh(x.buf)
  {
    hide Printed, Repr.Repr, Repr.ReprByte;
    ghost var was := x.Contents();
    PrintedStart(was, p);
    x.CatLen([DQUOTE]);
    for i := 0 to |p|
      invariant x.Valid() && (x.buf == old(x.buf) || fresh(x.buf))
      invariant x.Contents() == Printed(was, p, i)
    {
      PrintedStep(was, p, i);
      CatReprByte(x, p[i]);
    }
    PrintedAll(was, p);
    x.CatLen([DQUOTE]);
  }

  /** The `switch` of `sdscatrepr`. */
  method CatReprByte(x: Sds, c: byte)
    requires x.Valid() && Fits(x.Len() + 4)
    modifies x, x.buf
    ensures x.Valid() && x.Contents() == old(x.Contents()) + Repr.ReprByte(c)
    ensures x.buf == old(x.buf) || fresh(x.buf)
  {
    if c == BACKSLASH || c == DQUOTE {
      x.CatLen([BACKSLASH, c]);
    } else if c == LF {
      x.CatLen([BACKSLASH, 110]);
    } else if c == CR {
      x.CatLen([BACKSLASH, 114]);
    } else if c == TAB {
      x.CatLen([BACKSLASH, 116]);
    } else if c == 7 {
      x.CatLen([BACKSLASH, 97]);
    } else if c == 8 {
      x.CatLen([BACKSLASH, 98]);
    } else if IsPrint(c) {
      x.CatLen([c]);
    } else {
      x.CatLen([BACKSLASH, 120] + Hex2(c));
    }
  }

  // ---------- sdscatfmt ----------

  /** A variadic argument, with the C type under which it was passed. */
  datatype Arg =
    | CStr(s: seq<byte>)
    | SdsStr(s: seq<byte>)
    | Int(v: int)
    | LongLong(v: int)
    | UInt(v: int)
    | ULongLong(v: int)

  predicate IsSpecifier(c: byte) {
    c == 115 || c == 83 || c == 105 || c == 73 || c == 117 || c == 85
  }

  /** `a` has the type that the specifier `c` reads with `va_arg`. */
  predicate ArgFor(c: byte, a: Arg) {
    match a
    case CStr(s) => c == 115 && NulFree(s)
    case SdsStr(s) => c == 83
    case Int(v) => c == 105 && -0x8000_0000 <= v < 0x8000_0000
    case LongLong(v) => c == 73 && LLONG_MIN <= v <= LLONG_MAX
    case UInt(v) => c == 117 && 0 <= v < 0x1_0000_0000
    case ULongLong(v) => c == 85 && 0 <= v <= ULLONG_MAX
  }

  function ArgText(a: Arg): seq<byte> {
    if a.CStr? || a.SdsStr? then a.s else Decimal(a.v)
  }

  /** Every specifier finds an argument of its type. */
  predicate WellTyped(fmt: seq<byte>, args: seq<Arg>) {
    if fmt == [] then true
    else if fmt[0] != PERCENT then WellTyped(fmt[1..], args)
    else if |fmt| == 1 then true
    else if IsSpecifier(fmt[1]) then
      args != [] && ArgFor(fmt[1], args[0]) && WellTyped(fmt[2..], args[1..])
    else WellTyped(fmt[2..], args)
  }

  /** The text that a format prescribes: a trailing '%' is dropped, an unknown `%c` is `c`. */
  function Render(fmt: seq<byte>, args: seq<Arg>): seq<byte>
    requires WellTyped(fmt, args)
  {
    if fmt == [] then []
    else if fmt[0] != PERCENT then [fmt[0]] + Render(fmt[1..], args)
    else if |fmt| == 1 then []
    else if IsSpecifier(fmt[1]) then ArgText(args[0]) + Render(fmt[2..], args[1..])
    else [fmt[1]] + Render(fmt[2..], args)
  }

  /** The text of an argument, through the 21-byte scratch buffer for numbers. */
  method ArgBytes(c: byte, a: Arg) returns (t: seq<byte>)
    requires ArgFor(c, a)
    ensures t == ArgText(a)
  {
    if a.CStr? || a.SdsStr? {
      t := a.s;
    } else {
      var scratch := new byte[LLSTR_SIZE];
      var l;
      if a.Int? || a.LongLong? {
        l := Ll2Str(scratch, a.v);
      } else {
        l := Ull2Str(scratch, a.v);
      }
      t := scratch[..l];
    }
  }

  /** What one turn of the format loop consumes and appends. */
  lemma RenderStep(fmt: seq<byte>, args: seq<Arg>, f: nat, k: nat)
    requires f < |fmt| && k <= |args| && WellTyped(fmt[f..], args[k..])
    ensures fmt[f] != PERCENT ==>
              WellTyped(fmt[f + 1..], args[k..])
              && Render(fmt[f..], args[k..]) == [fmt[f]] + Render(fmt[f + 1..], args[k..])
    ensures fmt[f] == PERCENT && f + 1 == |fmt| ==>
              WellTyped(fmt[f + 1..], args[k..])
              && Render(fmt[f..], args[k..]) == Render(fmt[f + 1..], args[k..])
    ensures fmt[f] == PERCENT && f + 1 < |fmt| && IsSpecifier(fmt[f + 1]) ==>
              k < |args| && ArgFor(fmt[f + 1], args[k]) && WellTyped(fmt[f + 2..], args[k + 1..])
              && Render(fmt[f..], args[k..]) == ArgText(args[k]) + Render(fmt[f + 2..], args[k + 1..])
    ensures fmt[f] == PERCENT && f + 1 < |fmt| && !IsSpecifier(fmt[f + 1]) ==>
              WellTyped(fmt[f + 2..], args[k..])
              && Render(fmt[f..], args[k..]) == [fmt[f + 1]] + Render(fmt[f + 2..], args[k..])
  {
    var g := fmt[f..];
    assert g[0] == fmt[f] && g[1..] == fmt[f + 1..];
    if |g| > 1 {
      assert g[1] == fmt[f + 1] && g[2..] == fmt[f + 2..];
    }
    if k < |args| {
      assert args[k..][0] == args[k] && args[k..][1..] == args[k + 1..];
    }
  }

  /** `sdscatfmt`: the write index stays equal to the length through every regrowth. */
  method CatFmt(x: Sds, fmt: seq<byte>, args: seq<Arg>)
    requires x.Valid() && NulFree(fmt) && WellTyped(fmt, args)
    requires Fits(2 * x.Len() + 2 * |fmt| + |Render(fmt, args)|)
    modifies x, x.buf
    ensures x.Valid() && x.Contents() == old(x.Contents()) + Render(fmt, args)
    ensures x.buf == old(x.buf) || fresh(x.buf)
  {
    var initlen := x.Len();
    ghost var goal := x.Contents() + Render(fmt, args);
    x.Reserve(initlen + |fmt| * 2);
    var i, f, k := initlen, 0, 0;
    assert fmt[0..] == fmt && args[0..] == args;
    while f < |fmt|
      invariant 0 <= f <= |fmt| && 0 <= k <= |args|
      invariant x.Shape() && i == x.Len() && (x.buf == old(x.buf) || fresh(x.buf))
      invariant Remaining(x, fmt, args, f, k, goal)
    {
      i, f, k := FmtTurn(x, fmt, args, i, f, k, goal);
    }
    assert x.Contents() + [] == x.Contents();
    x.buf[i] := NUL;
    assert x.buf[..i] == goal;
  }

  /** From byte `f` of the format and argument `k` on, exactly the rest of `goal` is still to come. */
  ghost predicate Remaining(x: Sds, fmt: seq<byte>, args: seq<Arg>, f: nat, k: nat, goal: seq<byte>)
    reads x, x.buf
  {
    x.Shape() && f <= |fmt| && k <= |args| && WellTyped(fmt[f..], args[k..])
    && x.Contents() + Render(fmt[f..], args[k..]) == goal
  }

  /** Room for at least one byte. */
  method ReserveOne(x: Sds)
    requires x.Shape() && Fits(x.Len() + 1)
    modifies x
    ensures x.Shape() && x.Avail() >= 1 && x.Contents() == old(x.Contents())
    ensures x.buf == old(x.buf) || fresh(x.buf)
  {
    if x.Avail() == 0 {
      x.Reserve(1);
    }
  }

  /** A byte that stands for itself; `rest` is what still follows. */
  method PutByte(x: Sds, i: nat, c: byte, ghost rest: seq<byte>) returns (i': nat)
    requires x.Shape() && i == x.Len() && x.Avail() >= 1
    modifies x`flags, x`lenField, x.buf
    ensures x.Shape() && x.Contents() + rest == old(x.Contents()) + ([c] + rest) && i' == x.Len()
  {
    Assoc(x.Contents(), [c], rest);
    x.PutAt(i, [c]);
    i' := i + 1;
  }

  /** One turn of the loop of `sdscatfmt`. */
  method FmtTurn(x: Sds, fmt: seq<byte>, args: seq<Arg>, i: nat, f: nat, k: nat, ghost goal: seq<byte>)
    returns (i': nat, f': nat, k': nat)
    requires f < |fmt| && Remaining(x, fmt, args, f, k, goal) && i == x.Len() && Fits(|goal| + 1)
    modifies x, x.buf
    ensures f < f' <= |fmt| && Remaining(x, fmt, args, f', k', goal) && i' == x.Len()
    ensures x.buf == old(x.buf) || fresh(x.buf)
  {
    RenderStep(fmt, args, f, k);
    hide Render, WellTyped, ArgText, ArgFor, IsSpecifier;
    ReserveOne(x);
    ghost var sofar := x.Contents();
    i', f', k' := i, f, k;
    if fmt[f] == PERCENT {
      if f + 1 < |fmt| {
        f' := f + 1;
        if IsSpecifier(fmt[f']) {
          ghost var rest := Render(fmt[f' + 1..], args[k + 1..]);
          i' := PutArg(x, i, fmt[f'], args[k]);
          Assoc(sofar, ArgText(args[k]), rest);
          k' := k + 1;
        } else {
          i' := PutByte(x, i, fmt[f'], Render(fmt[f' + 1..], args[k..]));
        }
      }
    } else {
      i' := PutByte(x, i, fmt[f], Render(fmt[f + 1..], args[k..]));
    }
    f' := f' + 1;
  }

  /** The cases of the specifiers: text, room for it, copy, length. */
  method PutArg(x: Sds, i: nat, c: byte, a: Arg) returns (i': nat)
    requires x.Shape() && i == x.Len() && ArgFor(c, a) && Fits(x.Len() + |ArgText(a)|)
    modifies x, x.buf
    ensures x.Shape() && x.Contents() == old(x.Contents()) + ArgText(a) && i' == x.Len()
    ensures x.buf == old(x.buf) || fresh(x.buf)
  {
    var t := ArgBytes(c, a);
    if x.Avail() < |t| {
      x.Reserve(|t|);
    }
    x.PutAt(i, t);
    i' := i + |t|;
  }

  // ---------- printing and parsing end to end ----------

  /** Room that is enough for the line: four bytes a byte, two quotes and a space. */
  function Room(args: seq<seq<byte>>): nat {
    if args == [] then 0 else 4 * |args[0]| + 3 + Room(args[1..])
  }

  /** Printing every argument with `sdscatrepr`, one space apart, and parsing the line again. */
  method PrintAndParse(args: seq<seq<byte>>) returns (r: Repr.Parsed)
    requires Fits(Room(args))
    ensures r == Repr.Args(args)
  {
    var x := new Sds([]);
    assert args[0..] == args;
    for i := 0 to |args|
      invariant x.Valid() && fresh(x) && fresh(x.buf)
      invariant |x.Contents()| + Room(args[i..]) <= Room(args)
      invariant x.Contents() + Repr.ReprLine(args[i..]) == Repr.ReprLine(args)
    {
      LineStep(x.Contents(), args, i);
      CatRepr(x, args[i]);
      if i + 1 < |args| {
        x.CatLen([SPACE]);
      }
    }
    var line := x.buf[..x.Len()];
    assert line + [] == line;
    Repr.SplitInvertsReprLine(args);
    r := Repr.SplitArgs(line);
  }

  /** Printing argument `i` behind `was`, then the space if another follows. */
  lemma LineStep(was: seq<byte>, args: seq<seq<byte>>, i: nat)
    requires i < |args|
    ensures |Repr.Repr(args[i])| + 1 + Room(args[i + 1..]) <= Room(args[i..])
    ensures i + 1 < |args| ==>
              was + Repr.ReprLine(args[i..]) == was + Repr.Repr(args[i]) + [SPACE] + Repr.ReprLine(args[i + 1..])
    ensures i + 1 == |args| ==>
              was + Repr.ReprLine(args[i..]) == was + Repr.Repr(args[i]) + Repr.ReprLine(args[i + 1..])
    ensures |Repr.Repr(args[i])| <= 4 * |args[i]| + 2
    ensures 4 * |args[i]| + 3 + Room(args[i + 1..]) == Room(args[i..])
  {
    var rest := args[i..];
    assert rest[0] == args[i] && rest[1..] == args[i + 1..];
  }
}
