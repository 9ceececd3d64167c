/** What a directive of app/printf-stdarg.c prints, in bytes and numbers alone. */
module PrintfMeaning {
  import opened Bits
  import opened CStrings
  import opened Wrappers
  import opened PrintfSpec
  import opened PrintfFormat
  import PrintfStdarg

  // ---- the field ----

  /** Decimal digits, with a to f for x and A to F for X. */
  predicate DigitFor(k: Byte, c: Byte)
  {
    0x30 <= c <= 0x39 || (k == 0x78 && 0x61 <= c <= 0x66) || (k == 0x58 && 0x41 <= c <= 0x46)
  }

  /** d prints the signed value; u, x and X the value modulo 2^32, the last two in base 16. There is
      a sign exactly before a negative number, and no zero before other digits. */
  ghost predicate IsNumber(t: seq<Byte>, k: Byte, v: Int32)
  {
    var negative := k == 0x64 && v < 0;
    var d := if negative && t != [] then t[1..] else t;
    && d != [] && (negative ==> t[0] == 0x2d)
    && (forall i :: 0 <= i < |d| ==> DigitFor(k, d[i])) && (d[0] == 0x30 ==> |d| == 1)
    && NumberOf(d, if k == 0x78 || k == 0x58 then 16 else 10) ==
       if k != 0x64 then (v as int) % 0x1_0000_0000 else if v < 0 then -(v as int) else v
  }

  /** What the directive prints without flags and width: a string itself, or (null); a character,
      unless it is zero; or a number. */
  ghost predicate IsBare(t: seq<Byte>, k: Byte, arg: Arg)
  {
    match arg
    case StrArg(text) => t == if text.Some? then text.value else [0x28, 0x6e, 0x75, 0x6c, 0x6c, 0x29]
    case IntArg(v) =>
      if k == 0x63 then t == (if v % 256 == 0 then [] else [v % 256]) else IsNumber(t, k, v)
  }

  /** The field: filled up to the width with blanks, or with zeros, on the right or on the left; a
      sign stays in front of zeros on the left. */
  ghost predicate IsField(f: seq<Byte>, t: seq<Byte>, k: Byte, width: nat, right: bool, zero: bool, arg: Arg)
  {
    var fill := seq(if |t| < width then width - |t| else 0, _ => if zero then 0x30 else 0x20);
    f == if right then t + fill
         else if zero && k == 0x64 && arg.IntArg? && arg.value < 0 && t != [] then [0x2d] + fill + t[1..]
         else fill + t
  }

  predicate KnownDirective(k: Byte, arg: Arg)
  {
    && k in {0x63, 0x64, 0x73, 0x75, 0x78, 0x58}
    && (k == 0x73 <==> arg.StrArg?)
    && (arg.StrArg? && arg.text.Some? ==> 0x00 !in arg.text.value)
  }

  lemma {:induction false} DigitShape(u: nat, b: nat, letbase: Byte, k: Byte)
    requires (b == 10 && letbase == LOWER_A) || (b == 16 && k == (if letbase == LOWER_A then 0x78 else 0x58))
    requires letbase == LOWER_A || letbase == UPPER_A
    ensures forall i :: 0 <= i < |Digits(u, b, letbase)| ==> DigitFor(k, Digits(u, b, letbase)[i])
    ensures u > 0 ==> Digits(u, b, letbase) != [] && Digits(u, b, letbase)[0] != 0x30
  {
    if u > 0 {
      DivMod(u, b);
      DigitShape(u / b, b, letbase, k);
      if u / b == 0 { assert Digits(u / b, b, letbase) == []; }
    }
  }

  lemma ZeroIsNumber(k: Byte)
    ensures IsNumber([0x30], k, 0)
  {
    var t: seq<Byte> := [0x30];
    assert t[..0] == [] && t[0] == 0x30 && DigitFor(k, t[0]);
    assert NumberOf(t, 16) == 0 && NumberOf(t, 10) == 0;
  }

  lemma DigitsAreNumber(u: nat, b: nat, letbase: Byte, k: Byte, v: Int32)
    requires u > 0 && b == (if k == 0x78 || k == 0x58 then 16 else 10)
    requires letbase == if k == 0x58 then UPPER_A else LOWER_A
    requires u == if k != 0x64 then (v as int) % 0x1_0000_0000 else if v < 0 then -(v as int) else v
    ensures var d := Digits(u, b, letbase); IsNumber(if k == 0x64 && v < 0 then [MINUS] + d else d, k, v)
  {
    var d := Digits(u, b, letbase);
    DigitShape(u, b, letbase, k);
    DigitsValue(u, b, letbase);
    hide Digits, NumberOf, DigitFor, IsNumber;
    if k == 0x64 && v < 0 { NegativeNumber(d, v); } else { PlainNumber(d, k, v); }
  }

  lemma NegativeNumber(d: seq<Byte>, v: Int32)
    requires d != [] && d[0] != 0x30 && (forall i :: 0 <= i < |d| ==> DigitFor(0x64, d[i]))
    requires v < 0 && NumberOf(d, 10) == -(v as int)
    ensures IsNumber([0x2d] + d, 0x64, v)
  {
    hide NumberOf, DigitFor;
    var t := [0x2d] + d;
    assert t[1..] == d;
  }

  lemma PlainNumber(d: seq<Byte>, k: Byte, v: Int32)
    requires d != [] && d[0] != 0x30 && (forall i :: 0 <= i < |d| ==> DigitFor(k, d[i]))
    requires !(k == 0x64 && v < 0)
    requires NumberOf(d, if k == 0x78 || k == 0x58 then 16 else 10) == if k != 0x64 then (v as int) % 0x1_0000_0000 else v
    ensures IsNumber(d, k, v)
  {
    hide NumberOf, DigitFor;
  }

  /** The text of a number without flags and width. */
  lemma NaturalIsNumber(i: Int32, k: Byte)
    requires k == 0x64 || k == 0x75 || k == 0x78 || k == 0x58
    ensures var (b, letbase) := (if k == 0x78 || k == 0x58 then 16 else 10, if k == 0x58 then UPPER_A else LOWER_A);
      IsNumber(Natural(i, b, k == 0x64, letbase), k, i)
  {
    hide IsNumber, Digits;
    if i == 0 {
      ZeroIsNumber(k);
    } else {
      var u := if k == 0x64 && i < 0 then -(i as int) else U32(i);
      DigitsAreNumber(u, if k == 0x78 || k == 0x58 then 16 else 10, if k == 0x58 then UPPER_A else LOWER_A, k, i);
    }
  }

  /** Every directive prints a field of what it means. */
  lemma DirectiveMeans(k: Byte, width: nat, pad: Pad, arg: Arg) returns (t: seq<Byte>)
    requires KnownDirective(k, arg)
    ensures IsBare(t, k, arg) && IsField(RenderConv(k, width, pad, arg), t, k, width, pad.right, pad.zero, arg)
  {
    match arg {
      case StrArg(text) =>
        t := if text.Some? then text.value else NULL_TEXT;
      case IntArg(v) =>
        if k == 0x63 {
          t := if v % 256 == 0 then [] else [v % 256];
        } else {
          t := Natural(v, if k == 0x78 || k == 0x58 then 16 else 10, k == 0x64, if k == 0x58 then UPPER_A else LOWER_A);
          NaturalIsNumber(v, k);
          NumberField(v, k, width, pad, t);
        }
    }
  }

  lemma NumberField(v: Int32, k: Byte, width: nat, pad: Pad, t: seq<Byte>)
    requires k == 0x64 || k == 0x75 || k == 0x78 || k == 0x58
    requires t == Natural(v, if k == 0x78 || k == 0x58 then 16 else 10, k == 0x64, if k == 0x58 then UPPER_A else LOWER_A)
    ensures IsField(RenderConv(k, width, pad, IntArg(v)), t, k, width, pad.right, pad.zero, IntArg(v))
  {
    hide Digits;
    if k == 0x64 && v < 0 {
      var d := Digits(Magnitude(v), 10, LOWER_A);
      assert t == [MINUS] + d && t[1..] == d;
    }
  }

  // ---- formats ----

  /** Text without percent signs prints as itself. */
  lemma {:induction false} PlainText(s: seq<Byte>)
    requires 0x25 !in s
    ensures Matches(Pieces(s), []) && WellFormed(Pieces(s)) && Render(Pieces(s), []) == s
  {
    if s != [] {
      PlainText(s[1..]);
      assert Next(s) == (Literal(s[0]), s[1..]);
      assert Pieces(s) == [Literal(s[0])] + Pieces(s[1..]);
    }
  }

  /** Two percent signs print one; a lone one at the end, and an unknown conversion, print nothing. */
  lemma PercentSigns(c: Byte)
    ensures Render(Pieces([0x25, 0x25]), []) == [0x25] && Render(Pieces([0x25]), []) == []
    ensures c !in {0x25, 0x2d, 0x63, 0x64, 0x73, 0x75, 0x78, 0x58} && !(0x30 <= c <= 0x39) ==>
      Pieces([0x25, c]) == [Silent] && Render(Pieces([0x25, c]), []) == []
  {
    assert [0x25, 0x25][2..] == [] && [0x25, c][1..] == [c] && [c][1..] == [];
    assert Pieces([]) == [];
    assert Pieces([0x25, 0x25]) == [Literal(0x25)] && Pieces([0x25]) == [Silent];
  }

  /** How many arguments the pieces take. */
  function Taken(ps: seq<Piece>): nat
  {
    if ps == [] then 0 else (if ps[0].Conv? then 1 else 0) + Taken(ps[1..])
  }

  /** The rendering of pieces in a row is their renderings in a row, each with its own arguments. */
  lemma {:induction false} RenderInARow(ps: seq<Piece>, a: seq<Arg>, qs: seq<Piece>, b: seq<Arg>)
    requires Matches(ps, a) && |a| == Taken(ps) && Matches(qs, b)
    ensures Matches(ps + qs, a + b) && Render(ps + qs, a + b) == Render(ps, a) + Render(qs, b)
    decreases |ps|
  {
    hide RenderConv;
    if ps == [] {
      assert ps + qs == qs && a + b == b;
    } else {
      assert (ps + qs)[1..] == ps[1..] + qs;
      if ps[0].Conv? {
        assert (a + b)[1..] == a[1..] + b;
        RenderInARow(ps[1..], a[1..], qs, b);
      } else {
        RenderInARow(ps[1..], a, qs, b);
      }
    }
  }

  // ---- one directive, spelled out ----

  /** A percent sign, a minus sign, a zero, a width, the conversion. */
  function Directive(right: bool, zero: bool, width: seq<Byte>, k: Byte): seq<Byte>
  {
    [0x25] + (if right then [0x2d] else []) + (if zero then [0x30] else []) + width + [k]
  }

  predicate IsWidth(width: seq<Byte>)
  {
    (forall i :: 0 <= i < |width| ==> 0x30 <= width[i] <= 0x39) && (width != [] ==> width[0] != 0x30)
  }

  /** The width that its digits spell. */
  function Spelt(width: seq<Byte>): (w: nat)
    requires forall i :: 0 <= i < |width| ==> 0x30 <= width[i] <= 0x39
    ensures w == NumberOf(width, 10)
  {
    NotNegative(width);
    NumberOf(width, 10)
  }

  lemma {:induction false} NotNegative(width: seq<Byte>)
    requires forall i :: 0 <= i < |width| ==> 0x30 <= width[i] <= 0x39
    ensures NumberOf(width, 10) >= 0
    decreases |width|
  {
    if width != [] { NotNegative(width[..|width| - 1]); }
  }

  lemma DirectiveReads(right: bool, zero: bool, width: seq<Byte>, k: Byte)
    requires IsWidth(width) && k in {0x63, 0x64, 0x73, 0x75, 0x78, 0x58}
    ensures Pieces(Directive(right, zero, width, k)) == [Conv(k, Spelt(width), Pad(right, zero))]
  {
    var f := Directive(right, zero, width, k);
    var r1 := width + ([k] + []);
    var r0 := (if zero then [ZERO_CHAR] else []) + r1;
    WidthSpelled(k, width, zero, []);
    hide Next;
    Regroup([PERCENT], if right then [MINUS] else [], if zero then [ZERO_CHAR] else [], width, [k], []);
    assert f + [] == f;
    ConvIsNext(f, r0, r1, k, Spelt(width), Pad(right, zero), []);
    assert Pieces([]) == [];
  }

  /** mysprintf with one directive: the destination holds the field and a terminator, and nothing
      else in it has changed. */
  method SprintfField(d: array<Byte>, right: bool, zero: bool, width: seq<Byte>, k: Byte, arg: Arg)
    returns (pc: nat, ghost t: seq<Byte>)
    requires KnownDirective(k, arg) && IsWidth(width) && Spelt(width) < 0x8000_0000
    requires |RenderConv(k, Spelt(width), Pad(right, zero), arg)| < d.Length
    modifies d
    ensures IsBare(t, k, arg) && pc < d.Length
    ensures IsField(d[..pc], t, k, Spelt(width), right, zero, arg)
    ensures d[pc] == 0x00 && d[pc + 1..] == old(d[pc + 1..])
  {
    hide Directive, Pieces, IsBare, IsField, RenderConv, Render, WellFormed, Matches, Text, Terminated, Spelt;
    var fmt := Directive(right, zero, width, k);
    ghost var (w, pad) := (Spelt(width), Pad(right, zero));
    DirectiveReads(right, zero, width, k);
    DirectiveText(right, zero, width, k);
    OneDirective(k, w, pad, arg);
    t := DirectiveMeans(k, w, pad, arg);
    ghost var (before, f) := (d[..], RenderConv(k, w, pad, arg));
    pc := PrintfStdarg.Mysprintf(d, fmt + [0x00], [arg]);
    Parts(d[..], f, before[pc + 1..]);
    assert d[..][..pc] == d[..pc] && d[..][pc + 1..] == d[pc + 1..] && before[pc + 1..] == old(d[pc + 1..]);
  }

  lemma OneDirective(k: Byte, w: nat, pad: Pad, arg: Arg)
    requires KnownDirective(k, arg) && w < 0x8000_0000
    ensures var ps := [Conv(k, w, pad)];
      WellFormed(ps) && Matches(ps, [arg]) && Render(ps, [arg]) == RenderConv(k, w, pad, arg)
  {
    hide RenderConv;
    assert [Conv(k, w, pad)][1..] == [] && [arg][1..] == [];
  }

  lemma Parts(whole: seq<Byte>, f: seq<Byte>, rest: seq<Byte>)
    requires whole == f + [0x00] + rest
    ensures whole[..|f|] == f && whole[|f|] == 0x00 && whole[|f| + 1..] == rest
  {
  }

  lemma DirectiveText(right: bool, zero: bool, width: seq<Byte>, k: Byte)
    requires IsWidth(width) && k in {0x63, 0x64, 0x73, 0x75, 0x78, 0x58}
    ensures var fmt := Directive(right, zero, width, k);
      Terminated(fmt + [0x00], 0) && Text(fmt + [0x00], 0) == fmt
  {
    var fmt := Directive(right, zero, width, k);
    assert (fmt + [0x00])[0..0 + |fmt|] == fmt;
    TextAt(fmt + [0x00], 0, fmt);
  }
}
