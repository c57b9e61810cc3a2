/** `sdsll2str` and `sdsull2str`: printing 64-bit integers into a buffer. */
module SdsDecimal {
  import opened Bytes

  const LLSTR_SIZE := 21
  const ULLONG_MAX := 0xFFFF_FFFF_FFFF_FFFF
  const LLONG_MAX := 0x7FFF_FFFF_FFFF_FFFF
  const LLONG_MIN := -0x8000_0000_0000_0000

  type ulonglong = v: int | 0 <= v <= ULLONG_MAX
  type longlong = v: int | LLONG_MIN <= v <= LLONG_MAX

  // ---------- decimal notation ----------

  /** The decimal digits of a natural number. */
  function Digits(v: nat): (d: seq<byte>)
    ensures |d| >= 1
  {
    if v < 10 then [48 + v] else Digits(v / 10) + [48 + v % 10]
  }

  /** The decimal text of an integer. */
  function Decimal(v: int): seq<byte> {
    if v < 0 then [MINUS] + Digits(-v) else Digits(v)
  }

  predicate AllDigits(d: seq<byte>) {
    forall i :: 0 <= i < |d| ==> IsDigit(d[i])
  }

  /** The number a digit string denotes. */
  function ValueOf(d: seq<byte>): nat
    requires AllDigits(d)
  {
    if d == [] then 0 else 10 * ValueOf(d[..|d| - 1]) + (d[|d| - 1] - 48)
  }

  /** Non-empty digits, with no leading zero but in "0" itself. */
  predicate CanonicalDigits(d: seq<byte>) {
    |d| >= 1 && AllDigits(d) && (d[0] == 48 ==> |d| == 1)
  }

  /** Canonical decimal text: "-0" is not canonical. */
  predicate Canonical(t: seq<byte>) {
    if t != [] && t[0] == MINUS then CanonicalDigits(t[1..]) && t[1] != 48 else CanonicalDigits(t)
  }

  function Parse(t: seq<byte>): int
    requires Canonical(t)
  {
    if t[0] == MINUS then 0 - ValueOf(t[1..]) else ValueOf(t)
  }

  lemma {:induction false} DigitsCanonical(v: nat)
    ensures CanonicalDigits(Digits(v)) && ValueOf(Digits(v)) == v
    ensures Digits(v)[0] == 48 <==> v == 0
  {
    if v < 10 {
      var d := [(48 + v) as byte];
      assert d[..|d| - 1] == [];
    } else {
      DigitsCanonical(v / 10);
      var d := Digits(v);
      assert d[..|d| - 1] == Digits(v / 10);
    }
  }

  /** What is printed is canonical and reads back as the value. */
  lemma DecimalRoundTrip(v: int)
    ensures Canonical(Decimal(v)) && Parse(Decimal(v)) == v
  {
    var t := Decimal(v);
    if v < 0 {
      DigitsCanonical(-v);
      assert t[1..] == Digits(-v);
    } else {
      DigitsCanonical(v);
    }
  }

  lemma {:induction false} DigitsUnique(d: seq<byte>)
    requires CanonicalDigits(d)
    ensures d == Digits(ValueOf(d))
    decreases |d|
  {
    var front := d[..|d| - 1];
    if |d| == 1 {
      assert front == [];
      assert d == [d[0]];
    } else {
      DigitsUnique(front);
      ValuePositive(front);
      var v, c := ValueOf(front), d[|d| - 1];
      assert ValueOf(d) == 10 * v + (c - 48);
      assert ValueOf(d) / 10 == v && 48 + ValueOf(d) % 10 == c;
      assert d == front + [c];
    }
  }

  lemma {:induction false} ValuePositive(d: seq<byte>)
    requires AllDigits(d) && |d| >= 1 && d[0] != 48
    ensures ValueOf(d) >= 1
    decreases |d|
  {
    if |d| > 1 {
      ValuePositive(d[..|d| - 1]);
    } else {
      assert d[..|d| - 1] == [];
    }
  }

  /** No other canonical text denotes the same value. */
  lemma DecimalUnique(t: seq<byte>)
    requires Canonical(t)
    ensures t == Decimal(Parse(t))
  {
    if t[0] == MINUS {
      DigitsUnique(t[1..]);
      ValuePositive(t[1..]);
      assert t == [MINUS] + t[1..];
    } else {
      DigitsUnique(t);
    }
  }

  function Pow10(n: nat): nat {
    if n == 0 then 1 else 10 * Pow10(n - 1)
  }

  lemma {:induction false} DigitsLength(v: nat, n: nat)
    requires n >= 1 && v < Pow10(n)
    ensures |Digits(v)| <= n
    decreases n
  {
    if v >= 10 {
      assert n >= 2 by {
        assert Pow10(1) == 10 * Pow10(0);
      }
      DigitsLength(v / 10, n - 1);
    }
  }

  /** The text and its terminator fit in 21 bytes. */
  lemma DecimalFits(v: int)
    requires LLONG_MIN <= v <= ULLONG_MAX
    ensures |Decimal(v)| + 1 <= LLSTR_SIZE
  {
    assert Pow10(5) == 100000;
    assert Pow10(10) == 10000000000;
    assert Pow10(15) == 1000000000000000;
    assert Pow10(19) == 10000000000000000000;
    if v < 0 {
      DigitsLength(-v, 19);
    } else {
      DigitsLength(v, 20);
    }
  }

  // ---------- the digit loop and the reversal ----------

  function Reversed(s: seq<byte>): (r: seq<byte>)
    ensures |r| == |s|
  {
    if s == [] then [] else Reversed(s[1..]) + [s[0]]
  }

  lemma {:induction false} ReversedAt(s: seq<byte>, k: nat)
    requires k < |s|
    ensures Reversed(s)[k] == s[|s| - 1 - k]
    decreases |s|
  {
    if k < |s| - 1 {
      ReversedAt(s[1..], k);
    }
  }

  lemma {:induction false} ReversedAppend(s: seq<byte>, c: byte)
    ensures Reversed(s + [c]) == [c] + Reversed(s)
    decreases |s|
  {
    if s == [] {
      assert s + [c] == [c];
    } else {
      assert (s + [c])[1..] == s[1..] + [c];
      ReversedAppend(s[1..], c);
    }
  }

  /** The digits of what is left of the value: none once it is 0. */
  function Left(v: nat): seq<byte> {
    if v == 0 then [] else Digits(v)
  }

  lemma LeftStep(v: nat, done: seq<byte>)
    requires v != 0
    ensures Left(v) + Reversed(done) == Left(v / 10) + Reversed(done + [(48 + v % 10) as byte])
  {
    var c: byte := 48 + v % 10;
    ReversedAppend(done, c);
    assert Left(v) == Left(v / 10) + [c];
    assert Left(v / 10) + [c] + Reversed(done) == Left(v / 10) + ([c] + Reversed(done));
  }

  /** Nothing behind the 21 bytes of the buffer has changed. */
  predicate Untouched(now: seq<byte>, before: seq<byte>) {
    |now| == |before| && forall i :: LLSTR_SIZE <= i < |now| ==> now[i] == before[i]
  }

  /** `done` has been written, least significant digit first, and `v` is still to be written. */
  ghost predicate Emitting(v0: nat, v: nat, done: seq<byte>) {
    done != [] && Digits(v0) == Left(v) + Reversed(done)
  }

  lemma EmittingStart(v: nat)
    ensures Emitting(v, v / 10, [(48 + v % 10) as byte])
  {
    var c: byte := 48 + v % 10;
    assert Reversed([c]) == [] + [c];
  }

  lemma EmittingStep(v0: nat, v: nat, done: seq<byte>)
    requires v != 0 && Emitting(v0, v, done)
    ensures Emitting(v0, v / 10, done + [(48 + v % 10) as byte]) && |done| < |Digits(v0)|
  {
    hide Digits, Reversed;
    LeftStep(v, done);
  }

  lemma EmittingEnd(v0: nat, done: seq<byte>)
    requires Emitting(v0, 0, done)
    ensures Reversed(done) == Digits(v0)
  {
    assert [] + Reversed(done) == Reversed(done);
  }

  /** `s[p] = c`. */
  method PutChar(s: array<byte>, p: nat, c: byte)
    requires p < LLSTR_SIZE <= s.Length
    modifies s
    ensures s[..p + 1] == old(s[..p]) + [c] && Untouched(s[..], old(s[..]))
  {
    s[p] := c;
  }

  /** The `do ... while` loop: digits of `v0`, least significant first. */
  method EmitDigits(s: array<byte>, v0: ulonglong) returns (p: nat)
    requires s.Length >= LLSTR_SIZE
    modifies s
    ensures p <= 20 && p == |Digits(v0)| && Reversed(s[..p]) == Digits(v0)
    ensures Untouched(s[..], old(s[..]))
  {
    hide Digits, Reversed, Emitting;
    DecimalFits(v0);
    EmittingStart(v0);
    assert s[..0] == [];
    PutChar(s, 0, 48 + v0 % 10);
    p := 1;
    var v: nat := v0 / 10;
    assert s[..1] == [(48 + v0 % 10) as byte];
    while v != 0
      invariant 1 <= p <= 20 && Emitting(v0, v, s[..p])
      invariant Untouched(s[..], old(s[..]))
    {
      EmittingStep(v0, v, s[..p]);
      PutChar(s, p, 48 + v % 10);
      p := p + 1;
      v := v / 10;
    }
    EmittingEnd(v0, s[..p]);
  }

  /** The two-pointer reversal of the first `l` bytes. */
  method ReverseInPlace(s: array<byte>, l: nat)
    requires 1 <= l <= s.Length
    modifies s
    ensures s[..l] == Reversed(old(s[..l]))
    ensures s[l..] == old(s[l..])
  {
    var i, p := 0, l - 1;
    while i < p
      invariant 0 <= i <= l && p == l - 1 - i && i <= p + 1
      invariant forall k :: 0 <= k < i ==> s[k] == old(s[l - 1 - k]) && s[l - 1 - k] == old(s[k])
      invariant forall k :: i <= k <= p ==> s[k] == old(s[k])
      invariant forall k :: l <= k < s.Length ==> s[k] == old(s[k])
    {
      var aux := s[i];
      s[i] := s[p];
      s[p] := aux;
      i := i + 1;
      p := p - 1;
    }
    ghost var was := old(s[..l]);
    forall k | 0 <= k < l
      ensures s[..l][k] == Reversed(was)[k]
    {
      ReversedAt(was, k);
    }
  }

  /** `sdsll2str`. */
  method Ll2Str(s: array<byte>, value: longlong) returns (l: nat)
    requires s.Length >= LLSTR_SIZE
    modifies s
    ensures l < LLSTR_SIZE && s[..l] == Decimal(value) && s[l] == NUL
    ensures Untouched(s[..], old(s[..]))
  {
    var v: ulonglong;
    if value < 0 {
      if value != LLONG_MIN {
        v := -value;
      } else {
        v := LLONG_MAX + 1;
      }
    } else {
      v := value;
    }
    hide Digits, Reversed;
    l := EmitDigits(s, v);
    DecimalFits(value);
    if value < 0 {
      ReversedAppend(s[..l], MINUS);
      PutChar(s, l, MINUS);
      l := l + 1;
    }
    CloseText(s, l);
  }

  /** The common end: the terminator, then the reversal. */
  method CloseText(s: array<byte>, l: nat)
    requires 1 <= l < LLSTR_SIZE <= s.Length
    modifies s
    ensures s[..l] == Reversed(old(s[..l])) && s[l] == NUL
    ensures Untouched(s[..], old(s[..]))
  {
    hide Reversed;
    ghost var text := s[..l];
    PutChar(s, l, NUL);
    assert s[..l] == s[..l + 1][..l] == text;
    assert s[l] == s[..l + 1][l];
    ghost var mid := s[..];
    ReverseInPlace(s, l);
    assert s[l..] == mid[l..];
    assert s[l] == s[l..][0];
    assert forall i :: l <= i < s.Length ==> s[i] == s[l..][i - l] == mid[i];
  }

  /** `sdsull2str`. */
  method Ull2Str(s: array<byte>, v: ulonglong) returns (l: nat)
    requires s.Length >= LLSTR_SIZE
    modifies s
    ensures l < LLSTR_SIZE && s[..l] == Decimal(v) && s[l] == NUL
    ensures Untouched(s[..], old(s[..]))
  {
    hide Digits, Reversed;
    l := EmitDigits(s, v);
    CloseText(s, l);
  }
}
