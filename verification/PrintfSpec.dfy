/** What a printf directive should produce, and what can be read back from it. */
module PrintfSpec {
  import opened Bits
  import opened CStrings
  import opened Wrappers

  type Int32 = x: int | -0x8000_0000 <= x < 0x8000_0000

  const ZERO_CHAR: Byte := 0x30
  const NINE_CHAR: Byte := 0x39
  const BLANK: Byte := 0x20
  const MINUS: Byte := 0x2d
  const PERCENT: Byte := 0x25
  const LOWER_A: Byte := 0x61
  const UPPER_A: Byte := 0x41

  datatype Pad = Pad(right: bool, zero: bool)

  // ---- digits and padding ----

  /** Conversion to unsigned int. */
  function U32(x: int): nat { x % 0x1_0000_0000 }

  function Magnitude(i: int): nat { if i < 0 then -i else i }

  function DigitChar(t: nat, letbase: Byte): Byte
    requires t < 16 && letbase <= 0x61
  {
    if t >= 10 then t + letbase - 10 else t + ZERO_CHAR
  }

  function Digits(u: nat, b: nat, letbase: Byte): (s: seq<Byte>)
    requires (b == 10 || b == 16) && letbase <= 0x61
    ensures u > 0 ==> s != []
  {
    if u == 0 then [] else Digits(u / b, b, letbase) + [DigitChar(u % b, letbase)]
  }

  /** The number without padding. */
  function Natural(i: Int32, b: nat, signed: bool, letbase: Byte): (s: seq<Byte>)
    requires (b == 10 || b == 16) && letbase <= 0x61
    ensures s != []
  {
    if i == 0 then [ZERO_CHAR]
    else if signed && b == 10 && i < 0 then [MINUS] + Digits(Magnitude(i), b, letbase)
    else Digits(U32(i), b, letbase)
  }

  function Repeat(c: Byte, n: nat): (s: seq<Byte>)
    ensures |s| == n
  {
    seq(n, _ => c)
  }

  /** `text` filled up to `width`, on the right or on the left. */
  function Padded(text: seq<Byte>, width: nat, pad: Pad): (s: seq<Byte>)
    ensures |s| == if |text| < width then width else |text|
  {
    var n := if |text| < width then width - |text| else 0;
    var fill := Repeat(if width > 0 && pad.zero then ZERO_CHAR else BLANK, n);
    if pad.right then text + fill else fill + text
  }

  /** A sign goes before padding zeros. */
  function NumberText(i: Int32, b: nat, signed: bool, width: nat, pad: Pad, letbase: Byte): (s: seq<Byte>)
    requires (b == 10 || b == 16) && letbase <= 0x61
    ensures |s| == var n := |Natural(i, b, signed, letbase)|; if n < width then width else n
  {
    if signed && b == 10 && i < 0 && width > 0 && pad.zero
    then [MINUS] + Padded(Digits(Magnitude(i), b, letbase), width - 1, pad)
    else Padded(Natural(i, b, signed, letbase), width, pad)
  }

  // ---- reading a number back ----

  function DigitValue(c: Byte): int
  {
    if c >= 0x61 then c - 0x61 + 10 else if c >= 0x41 then c - 0x41 + 10 else c - 0x30
  }

  function NumberOf(s: seq<Byte>, b: nat): int
  {
    if s == [] then 0 else NumberOf(s[..|s| - 1], b) * b + DigitValue(s[|s| - 1])
  }

  function Signed(s: seq<Byte>, b: nat): int
  {
    if s != [] && s[0] == MINUS then -NumberOf(s[1..], b) else NumberOf(s, b)
  }

  function TrimLeft(s: seq<Byte>): seq<Byte>
  {
    if s != [] && s[0] == BLANK then TrimLeft(s[1..]) else s
  }

  function TrimRight(s: seq<Byte>): seq<Byte>
  {
    if s != [] && s[|s| - 1] == BLANK then TrimRight(s[..|s| - 1]) else s
  }

  /** The number a reader finds in a padded field. */
  function ReadBack(s: seq<Byte>, b: nat): int { Signed(TrimRight(TrimLeft(s)), b) }

  /** No digit is a blank or a sign. */
  predicate AllDigits(s: seq<Byte>)
  {
    forall k :: 0 <= k < |s| ==> ZERO_CHAR <= s[k]
  }

  lemma {:induction false} DigitsValue(u: nat, b: nat, letbase: Byte)
    requires (b == 10 || b == 16) && (letbase == LOWER_A || letbase == UPPER_A)
    ensures NumberOf(Digits(u, b, letbase), b) == u && AllDigits(Digits(u, b, letbase))
  {
    if u > 0 {
      var (q, t) := (u / b, u % b);
      DivMod(u, b);
      DigitsValue(q, b, letbase);
      DigitCharValue(t, letbase);
      hide DigitChar, DigitValue;
      var (s, d) := (Digits(q, b, letbase), DigitChar(t, letbase));
      assert Digits(u, b, letbase) == s + [d];
      if b == 10 {
        Extend(s, d, 10);
      } else {
        Extend(s, d, 16);
      }
    }
  }

  lemma DigitCharValue(t: nat, letbase: Byte)
    requires t < 16 && (letbase == LOWER_A || letbase == UPPER_A)
    ensures DigitValue(DigitChar(t, letbase)) == t && DigitChar(t, letbase) >= ZERO_CHAR
  {
  }

  lemma Extend(s: seq<Byte>, d: Byte, b: nat)
    ensures NumberOf(s + [d], b) == NumberOf(s, b) * b + DigitValue(d)
  {
    assert (s + [d])[..|s|] == s;
  }

  lemma DivMod(u: nat, b: nat)
    requires b > 0
    ensures u / b * b + u % b == u && u % b < b && (u > 0 && b >= 2 ==> u / b < u)
  {
  }

  function Power(b: nat, n: nat): nat { if n == 0 then 1 else b * Power(b, n - 1) }

  lemma {:induction false} PowerPositive(b: nat, n: nat)
    requires b >= 2
    ensures Power(b, n) >= 1 && (n > 0 ==> Power(b, n) >= 2)
  {
    if n > 0 { PowerPositive(b, n - 1); }
  }

  lemma {:induction false} LeadingZeros(n: nat, s: seq<Byte>, b: nat)
    ensures NumberOf(Repeat(ZERO_CHAR, n) + s, b) == NumberOf(s, b)
    decreases n + |s|
  {
    var z := Repeat(ZERO_CHAR, n) + s;
    if s != [] {
      assert z[..|z| - 1] == Repeat(ZERO_CHAR, n) + s[..|s| - 1];
      LeadingZeros(n, s[..|s| - 1], b);
    } else if n > 0 {
      assert z[..|z| - 1] == Repeat(ZERO_CHAR, n - 1) + s;
      LeadingZeros(n - 1, s, b);
    }
  }

  lemma {:induction false} TrailingZeros(s: seq<Byte>, n: nat, b: nat)
    ensures NumberOf(s + Repeat(ZERO_CHAR, n), b) == NumberOf(s, b) * Power(b, n)
  {
    var z := s + Repeat(ZERO_CHAR, n);
    if n == 0 {
      assert z == s;
    } else {
      assert z[..|z| - 1] == s + Repeat(ZERO_CHAR, n - 1);
      TrailingZeros(s, n - 1, b);
      Reassociate(NumberOf(s, b), Power(b, n - 1), b);
    }
  }

  lemma Reassociate(x: int, p: int, b: int)
    ensures x * p * b == x * (b * p)
  {
  }

  lemma {:induction false} TrimLeftFill(n: nat, s: seq<Byte>)
    requires s != [] && s[0] != BLANK
    ensures TrimLeft(Repeat(BLANK, n) + s) == s && TrimLeft(s + Repeat(BLANK, n)) == s + Repeat(BLANK, n)
  {
    if n == 0 {
      assert Repeat(BLANK, 0) + s == s;
    } else {
      assert (Repeat(BLANK, n) + s)[1..] == Repeat(BLANK, n - 1) + s;
      TrimLeftFill(n - 1, s);
    }
  }

  lemma {:induction false} TrimRightFill(n: nat, s: seq<Byte>)
    requires s != [] && s[|s| - 1] != BLANK
    ensures TrimRight(s + Repeat(BLANK, n)) == s
  {
    var r := s + Repeat(BLANK, n);
    if n == 0 {
      assert r == s;
    } else {
      assert r[..|r| - 1] == s + Repeat(BLANK, n - 1);
      TrimRightFill(n - 1, s);
    }
  }

  lemma TrimFill(n: nat, s: seq<Byte>)
    requires s != [] && s[0] != BLANK && s[|s| - 1] != BLANK
    ensures TrimRight(TrimLeft(Repeat(BLANK, n) + s)) == s
    ensures TrimRight(TrimLeft(s + Repeat(BLANK, n))) == s
  {
    hide Repeat;
    TrimLeftFill(n, s);
    TrimRightFill(n, s);
    TrimRightFill(0, s);
    assert s + Repeat(BLANK, 0) == s;
  }

  lemma TrimNothing(s: seq<Byte>)
    requires s != [] && s[0] != BLANK && s[|s| - 1] != BLANK
    ensures TrimRight(TrimLeft(s)) == s
  {
  }

  /** The value printed: negative only where the conversion is signed. */
  function Printed(i: Int32, b: nat, signed: bool): int
  {
    if signed && b == 10 then i else U32(i)
  }

  lemma NaturalReads(i: Int32, b: nat, signed: bool, letbase: Byte)
    requires (b == 10 || b == 16) && (letbase == LOWER_A || letbase == UPPER_A)
    ensures var s := Natural(i, b, signed, letbase);
      && Signed(s, b) == Printed(i, b, signed)
      && s[0] != BLANK && s[|s| - 1] != BLANK
      && (s[0] == MINUS <==> Printed(i, b, signed) < 0)
  {
    if i == 0 {
      assert [ZERO_CHAR][..0] == [];
      assert NumberOf([ZERO_CHAR], b) == 0;
    } else if signed && b == 10 && i < 0 {
      var d := Digits(Magnitude(i), b, letbase);
      DigitsRead(Magnitude(i), b, letbase);
      assert ([MINUS] + d)[1..] == d;
    } else {
      assert U32(i) > 0 && Printed(i, b, signed) == U32(i);
      DigitsRead(U32(i), b, letbase);
    }
  }

  lemma DigitsRead(u: nat, b: nat, letbase: Byte)
    requires u > 0 && (b == 10 || b == 16) && (letbase == LOWER_A || letbase == UPPER_A)
    ensures var s := Digits(u, b, letbase);
      && NumberOf(s, b) == u && Signed(s, b) == u
      && s[0] != BLANK && s[0] != MINUS && s[|s| - 1] != BLANK
  {
    DigitsValue(u, b, letbase);
  }

  /** Digits with zeros before or after them read as one number. */
  lemma ZerosRead(s: seq<Byte>, n: nat, b: nat)
    requires s != [] && AllDigits(s)
    ensures ReadBack(Repeat(ZERO_CHAR, n) + s, b) == NumberOf(s, b)
    ensures ReadBack(s + Repeat(ZERO_CHAR, n), b) == NumberOf(s, b) * Power(b, n)
    ensures ReadBack([MINUS] + (Repeat(ZERO_CHAR, n) + s), b) == -NumberOf(s, b)
    ensures ReadBack([MINUS] + (s + Repeat(ZERO_CHAR, n)), b) == -(NumberOf(s, b) * Power(b, n))
  {
    var (l, r) := (Repeat(ZERO_CHAR, n) + s, s + Repeat(ZERO_CHAR, n));
    LeadingZeros(n, s, b);
    TrailingZeros(s, n, b);
    assert AllDigits(l) && AllDigits(r);
    TrimNothing(l);
    TrimNothing(r);
    TrimNothing([MINUS] + l);
    TrimNothing([MINUS] + r);
    assert ([MINUS] + l)[1..] == l && ([MINUS] + r)[1..] == r;
  }

  /** Multiplying a positive number by a power of the base changes it unless the power is one. */
  lemma ScaledDiffers(u: nat, b: nat, n: nat)
    requires u > 0 && b >= 2
    ensures u * Power(b, n) == u <==> n == 0
  {
  }

  /** For every 32-bit value, width and flags but one combination, the field reads back as the
      value. With left adjustment and zero padding together the zeros follow the digits, and
      the value survives exactly when there is nothing to pad or nothing to scale. */
  lemma FieldReadsBack(i: Int32, b: nat, signed: bool, width: nat, pad: Pad, letbase: Byte)
    requires (b == 10 || b == 16) && (letbase == LOWER_A || letbase == UPPER_A)
    ensures ReadBack(NumberText(i, b, signed, width, pad, letbase), b) == Printed(i, b, signed) <==>
      !(pad.right && pad.zero) || i == 0 || width <= |Natural(i, b, signed, letbase)|
  {
    hide TrimLeft, TrimRight, Digits, Power, Repeat;
    var t := Natural(i, b, signed, letbase);
    NaturalReads(i, b, signed, letbase);
    if width == 0 || !pad.zero {
      PlainField(t, width, pad);
    } else if signed && b == 10 && i < 0 {
      DigitsValue(Magnitude(i), b, letbase);
      NegativeField(Digits(Magnitude(i), b, letbase), Magnitude(i), b, width - 1, pad);
    } else {
      if i == 0 {
        assert t[..0] == [];
      } else {
        DigitsValue(U32(i), b, letbase);
      }
      PositiveField(t, if i == 0 then 0 else U32(i), b, width, pad);
    }
  }

  lemma NegativeField(s: seq<Byte>, u: int, b: nat, width: nat, pad: Pad)
    requires s != [] && AllDigits(s) && NumberOf(s, b) == u && u > 0 && b >= 2 && pad.zero
    ensures ReadBack([MINUS] + Padded(s, width, pad), b) == -u <==> !pad.right || width <= |s|
  {
    hide Power, Repeat, NumberOf;
    EmptyFill(s, width, pad);
    ZeroField(s, u, b, if |s| < width then width - |s| else 0);
  }

  lemma PositiveField(s: seq<Byte>, u: int, b: nat, width: nat, pad: Pad)
    requires s != [] && AllDigits(s) && NumberOf(s, b) == u && u >= 0 && b >= 2 && pad.zero
    ensures ReadBack(Padded(s, width, pad), b) == u <==> !pad.right || u == 0 || width <= |s|
  {
    hide Power, Repeat, NumberOf;
    var n := if |s| < width then width - |s| else 0;
    EmptyFill(s, width, pad);
    if u == 0 {
      ZerosRead(s, n, b);
    } else {
      ZeroField(s, u, b, n);
    }
  }

  lemma EmptyFill(s: seq<Byte>, width: nat, pad: Pad)
    requires pad.zero
    ensures var n := if |s| < width then width - |s| else 0;
      Padded(s, width, pad) == if pad.right then s + Repeat(ZERO_CHAR, n) else Repeat(ZERO_CHAR, n) + s
  {
    if width == 0 { assert Repeat(ZERO_CHAR, 0) == Repeat(BLANK, 0); }
  }

  lemma PlainField(t: seq<Byte>, width: nat, pad: Pad)
    requires t != [] && t[0] != BLANK && t[|t| - 1] != BLANK && (width == 0 || !pad.zero)
    ensures TrimRight(TrimLeft(Padded(t, width, pad))) == t
  {
    TrimFill(if |t| < width then width - |t| else 0, t);
  }

  lemma ZeroField(s: seq<Byte>, u: int, b: nat, n: nat)
    requires s != [] && AllDigits(s) && NumberOf(s, b) == u && u > 0 && b >= 2
    ensures ReadBack(Repeat(ZERO_CHAR, n) + s, b) == u
    ensures ReadBack(s + Repeat(ZERO_CHAR, n), b) == u <==> n == 0
    ensures ReadBack([MINUS] + (Repeat(ZERO_CHAR, n) + s), b) == -u
    ensures ReadBack([MINUS] + (s + Repeat(ZERO_CHAR, n)), b) == -u <==> n == 0
  {
    ZerosRead(s, n, b);
    ScaledDiffers(u, b, n);
  }

  /** %-05d prints 5 as 50000. */
  lemma LeftZeroAppends()
    ensures NumberText(5, 10, true, 5, Pad(true, true), LOWER_A) == [0x35, 0x30, 0x30, 0x30, 0x30]
    ensures ReadBack(NumberText(5, 10, true, 5, Pad(true, true), LOWER_A), 10) != Printed(5, 10, true)
  {
    assert Digits(5, 10, LOWER_A) == Digits(0, 10, LOWER_A) + [0x35] == [0x35];
    FieldReadsBack(5, 10, true, 5, Pad(true, true), LOWER_A);
  }
}
