/** The format language of app/printf-stdarg.c as a list of pieces, and what it renders to. */
module PrintfFormat {
  import opened Bits
  import opened CStrings
  import opened Wrappers
  import opened PrintfSpec

  const LOWER_C: Byte := 0x63
  const LOWER_D: Byte := 0x64
  const LOWER_S: Byte := 0x73
  const LOWER_U: Byte := 0x75
  const LOWER_X: Byte := 0x78
  const UPPER_X: Byte := 0x58

  predicate IsConversion(k: Byte) { k in {LOWER_C, LOWER_D, LOWER_S, LOWER_U, LOWER_X, UPPER_X} }

  /** Silent: an unknown conversion, or a lone percent sign at the end, prints nothing.
      CutOff: the format ends inside a directive, and the code reads past its terminator. */
  datatype Piece = Literal(c: Byte) | Conv(kind: Byte, width: nat, pad: Pad) | Silent | CutOff

  datatype Arg = IntArg(value: Int32) | StrArg(text: Option<seq<Byte>>)

  predicate IsDigit(c: Byte) { ZERO_CHAR <= c <= NINE_CHAR }

  function SkipZeros(f: seq<Byte>): (r: seq<Byte>)
    ensures |r| <= |f|
  {
    if f != [] && f[0] == ZERO_CHAR then SkipZeros(f[1..]) else f
  }

  function SkipDigits(f: seq<Byte>): (r: seq<Byte>)
    ensures |r| <= |f|
  {
    if f != [] && IsDigit(f[0]) then SkipDigits(f[1..]) else f
  }

  /** Decimal digits read onto a width already begun. */
  function WidthOf(f: seq<Byte>, w: nat): nat
    decreases |f|
  {
    if f != [] && IsDigit(f[0]) then WidthOf(f[1..], w * 10 + (f[0] - ZERO_CHAR)) else w
  }

  /** The first piece of a format and what follows it. */
  function Next(f: seq<Byte>): (r: (Piece, seq<Byte>))
    requires f != []
    ensures |r.1| < |f|
  {
    if f[0] != PERCENT then (Literal(f[0]), f[1..])
    else if |f| == 1 then (Silent, [])
    else if f[1] == PERCENT then (Literal(PERCENT), f[2..])
    else
      var right := f[1] == MINUS;
      var r0 := if right then f[2..] else f[1..];
      var r1 := SkipZeros(r0);
      var r2 := SkipDigits(r1);
      if r2 == [] then (CutOff, [])
      else if IsConversion(r2[0]) then (Conv(r2[0], WidthOf(r1, 0), Pad(right, |r1| < |r0|)), r2[1..])
      else (Silent, r2[1..])
  }

  function Pieces(f: seq<Byte>): seq<Piece>
    decreases |f|
  {
    if f == [] then [] else [Next(f).0] + Pieces(Next(f).1)
  }

  /** No directive is cut off and no width overflows an int. */
  predicate WellFormed(ps: seq<Piece>)
  {
    forall k :: 0 <= k < |ps| ==> !ps[k].CutOff? && (ps[k].Conv? ==> ps[k].width < 0x8000_0000)
  }

  /** The arguments the pieces consume are there and of the right kind. */
  predicate Matches(ps: seq<Piece>, args: seq<Arg>)
    decreases |ps|
  {
    if ps == [] then true
    else if !ps[0].Conv? then Matches(ps[1..], args)
    else
      && args != []
      && (ps[0].kind == LOWER_S <==> args[0].StrArg?)
      && (args[0].StrArg? && args[0].text.Some? ==> NUL !in args[0].text.value)
      && Matches(ps[1..], args[1..])
  }

  const NULL_TEXT: seq<Byte> := [0x28, 0x6e, 0x75, 0x6c, 0x6c, 0x29]   // "(null)"

  function RenderConv(k: Byte, width: nat, pad: Pad, arg: Arg): seq<Byte>
    requires k == LOWER_S <==> arg.StrArg?
  {
    if arg.StrArg? then Padded(if arg.text.Some? then arg.text.value else NULL_TEXT, width, pad)
    else if k == LOWER_D then NumberText(arg.value, 10, true, width, pad, LOWER_A)
    else if k == LOWER_X then NumberText(arg.value, 16, false, width, pad, LOWER_A)
    else if k == UPPER_X then NumberText(arg.value, 16, false, width, pad, UPPER_A)
    else if k == LOWER_U then NumberText(arg.value, 10, false, width, pad, LOWER_A)
    else Padded(if arg.value % 256 == 0 then [] else [arg.value % 256], width, pad)
  }

  function Render(ps: seq<Piece>, args: seq<Arg>): seq<Byte>
    requires Matches(ps, args)
    decreases |ps|
  {
    if ps == [] then []
    else match ps[0]
      case Literal(c) => [c] + Render(ps[1..], args)
      case Conv(k, w, p) => RenderConv(k, w, p, args[0]) + Render(ps[1..], args[1..])
      case Silent => Render(ps[1..], args)
      case CutOff => Render(ps[1..], args)
  }

  // ---- the language round trip ----

  /** How a piece is spelled. */
  function Spelled(p: Piece): seq<Byte>
  {
    match p
    case Literal(c) => if c == PERCENT then [PERCENT, PERCENT] else [c]
    case Conv(k, w, pad) =>
      [PERCENT] + (if pad.right then [MINUS] else []) + (if pad.zero then [ZERO_CHAR] else [])
        + Digits(w, 10, LOWER_A) + [k]
    case _ => []
  }

  function SpelledAll(ps: seq<Piece>): seq<Byte>
  {
    if ps == [] then [] else Spelled(ps[0]) + SpelledAll(ps[1..])
  }

  predicate Spellable(p: Piece) { p.Literal? || (p.Conv? && IsConversion(p.kind)) }

  lemma {:induction false} DecimalDigits(w: nat)
    ensures forall k :: 0 <= k < |Digits(w, 10, LOWER_A)| ==> IsDigit(Digits(w, 10, LOWER_A)[k])
    ensures w > 0 ==> Digits(w, 10, LOWER_A)[0] != ZERO_CHAR
  {
    if w > 0 {
      DecimalDigits(w / 10);
      if w < 10 { assert Digits(w / 10, 10, LOWER_A) == []; }
    }
  }

  lemma {:induction false} WidthReads(d: seq<Byte>, w: nat, rest: seq<Byte>)
    requires forall k :: 0 <= k < |d| ==> IsDigit(d[k])
    requires rest != [] ==> !IsDigit(rest[0])
    ensures SkipDigits(d + rest) == rest
    ensures WidthOf(d + rest, w) == w * Power(10, |d|) + NumberOf(d, 10)
    decreases |d|
  {
    if d == [] {
      assert d + rest == rest;
    } else {
      assert (d + rest)[1..] == d[1..] + rest;
      WidthReads(d[1..], w * 10 + (d[0] - ZERO_CHAR), rest);
      FirstDigit(d);
      var (p, x) := (Power(10, |d| - 1), d[0] - ZERO_CHAR);
      assert (w * 10 + x) * p == w * (10 * p) + x * p by { SplitProduct(w, x, p); }
    }
  }

  lemma SplitProduct(w: int, x: int, p: int)
    ensures (w * 10 + x) * p == w * (10 * p) + x * p
  {
  }

  /** The first digit counts with the highest power. */
  lemma {:induction false} FirstDigit(d: seq<Byte>)
    requires d != [] && IsDigit(d[0])
    ensures NumberOf(d, 10) == (d[0] - ZERO_CHAR) * Power(10, |d| - 1) + NumberOf(d[1..], 10)
    decreases |d|
  {
    var n := |d| - 1;
    if n == 0 {
      assert d[..0] == [] && d[1..] == [];
      assert Power(10, 0) == 1;
    } else {
      var (front, x) := (d[..n], d[0] - ZERO_CHAR);
      FirstDigit(front);
      assert d[1..][..n - 1] == front[1..] && d[1..][n - 1] == d[n];
      TenTimes(x, Power(10, n - 1), NumberOf(front[1..], 10));
    }
  }

  lemma TenTimes(x: int, p: int, v: int)
    ensures (x * p + v) * 10 == x * (10 * p) + v * 10
  {
  }

  /** Zeros and then a width without leading zeros, before a conversion. */
  lemma WidthSpelled(k: Byte, d: seq<Byte>, zero: bool, rest: seq<Byte>)
    requires IsConversion(k) && (forall i :: 0 <= i < |d| ==> IsDigit(d[i])) && (d != [] ==> d[0] != ZERO_CHAR)
    ensures var r1 := d + ([k] + rest);
      var r0 := (if zero then [ZERO_CHAR] else []) + r1;
      && r1[0] != ZERO_CHAR && r1[0] != MINUS && r1[0] != PERCENT
      && SkipZeros(r0) == r1 && SkipDigits(r1) == [k] + rest && WidthOf(r1, 0) == NumberOf(d, 10)
  {
    var r1 := d + ([k] + rest);
    WidthReads(d, 0, [k] + rest);
    assert r1[0] == if d == [] then k else d[0];
    if zero { assert ([ZERO_CHAR] + r1)[1..] == r1; } else { assert [] + r1 == r1; }
  }

  lemma ConvIsNext(f: seq<Byte>, r0: seq<Byte>, r1: seq<Byte>, k: Byte, w: nat, pad: Pad, rest: seq<Byte>)
    requires IsConversion(k) && r0 != [] && r0[0] != PERCENT && r0[0] != MINUS
    requires f == [PERCENT] + (if pad.right then [MINUS] else []) + r0
    requires SkipZeros(r0) == r1 && SkipDigits(r1) == [k] + rest && WidthOf(r1, 0) == w
    requires |r1| < |r0| <==> pad.zero
    ensures Next(f) == (Conv(k, w, pad), rest)
  {
    hide SkipZeros, SkipDigits, WidthOf;
    assert f[if pad.right then 2 else 1..] == r0;
    assert ([k] + rest)[1..] == rest;
  }

  lemma Regroup(a: seq<Byte>, b: seq<Byte>, c: seq<Byte>, d: seq<Byte>, k: seq<Byte>, rest: seq<Byte>)
    ensures a + b + c + d + k + rest == a + b + (c + (d + (k + rest)))
  {
  }

  /** A spelled piece is read as itself, whatever follows. */
  lemma SpelledIsNext(p: Piece, rest: seq<Byte>)
    requires Spellable(p)
    ensures Next(Spelled(p) + rest) == (p, rest)
  {
    var f := Spelled(p) + rest;
    match p {
      case Literal(c) =>
        assert f[if c == PERCENT then 2 else 1..] == rest;
      case Conv(k, w, pad) =>
        hide Digits, Next;
        var r1 := Digits(w, 10, LOWER_A) + ([k] + rest);
        var r0 := (if pad.zero then [ZERO_CHAR] else []) + r1;
        DecimalDigits(w);
        DigitsValue(w, 10, LOWER_A);
        WidthSpelled(k, Digits(w, 10, LOWER_A), pad.zero, rest);
        Regroup([PERCENT], if pad.right then [MINUS] else [], if pad.zero then [ZERO_CHAR] else [],
                Digits(w, 10, LOWER_A), [k], rest);
        ConvIsNext(f, r0, r1, k, w, pad, rest);
    }
  }

  /** Spelling any list of pieces and reading it back gives the list. */
  lemma {:induction false} SpelledReadsBack(ps: seq<Piece>)
    requires forall k :: 0 <= k < |ps| ==> Spellable(ps[k])
    ensures Pieces(SpelledAll(ps)) == ps
  {
    if ps != [] {
      SpelledReadsBack(ps[1..]);
      SpelledIsNext(ps[0], SpelledAll(ps[1..]));
    }
  }
}
