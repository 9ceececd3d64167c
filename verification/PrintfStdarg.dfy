/** The formatter of app/printf-stdarg.c: an output pointer that advances, a digit loop that
    fills a twelve-byte buffer backwards, and the format interpreter. */
module PrintfStdarg {
  import opened Bits
  import opened CStrings
  import opened Wrappers
  import opened PrintfSpec
  import opened PrintfFormat

  const PRINT_BUF_LEN := 12

  /** The `char **out` argument: a destination string, or null for the console. */
  class Output {
    const dest: array?<Byte>
    const start: nat
    var pos: nat
    var console: seq<Byte>
    ghost var written: seq<Byte>
    ghost const before: seq<Byte>

    /** What was written so far is in place, and the rest of the destination is untouched. */
    ghost predicate Valid()
      reads this, if dest == null then {} else {dest}
    {
      if dest == null then console == written
      else
        && |before| == dest.Length && start <= pos == start + |written| <= dest.Length
        && dest[..] == before[..start] + written + before[pos..]
    }

    /** There is room for n more bytes and a terminator. */
    ghost predicate Room(n: nat)
      reads this
    {
      dest != null ==> pos + n < dest.Length
    }

    constructor ToString(d: array<Byte>, at: nat)
      requires at < d.Length
      ensures Valid() && dest == d && start == at && pos == at && written == []
      ensures before == d[..]
    {
      dest, start, pos, console := d, at, at, [];
      written := [];
      before := d[..];
    }

    constructor ToConsole()
      ensures Valid() && dest == null && written == []
    {
      dest, start, pos, console := null, 0, 0, [];
      written := [];
      before := [];
    }

    method PrintChar(c: Byte)
      requires Valid() && Room(0)
      modifies this, dest
      ensures Valid() && written == old(written) + [c]
      ensures dest != null ==> pos == old(pos) + 1
    {
      if dest != null {
        ghost var was := dest[..];
        dest[pos] := c;
        assert dest[..] == was[pos := c];
        written := written + [c];
        pos := pos + 1;
        assert before[pos - 1..][1..] == before[pos..];
      } else {
        console := console + [c];
        written := written + [c];
      }
    }
  }

  lemma RepeatMore(c: Byte, n: nat)
    ensures Repeat(c, n) + [c] == Repeat(c, n + 1)
  {
  }

  /** Prints n copies of the padding character. */
  method PrintFill(out: Output, padchar: Byte, n: nat)
    requires out.Valid() && out.Room(n)
    modifies out, out.dest
    ensures out.Valid() && out.written == old(out.written) + Repeat(padchar, n)
    ensures out.dest != null ==> out.pos == old(out.pos) + n
  {
    hide Repeat;
    assert Repeat(padchar, 0) == [];
    for k := 0 to n
      invariant out.Valid() && out.written == old(out.written) + Repeat(padchar, k)
      invariant out.dest != null ==> out.pos == old(out.pos) + k
    {
      RepeatMore(padchar, k);
      out.PrintChar(padchar);
    }
  }

  /** How much padding the text leaves to do. */
  method FillFor(mem: seq<Byte>, at: nat, width: nat) returns (fill: nat)
    requires Terminated(mem, at)
    ensures fill == if |Text(mem, at)| < width then width - |Text(mem, at)| else 0
  {
    fill := width;
    if fill > 0 {
      var len := 0;
      while mem[at + len] != NUL
        invariant at + len <= StrEnd(mem, at)
        decreases StrEnd(mem, at) - (at + len)
      {
        len := len + 1;
      }
      if len >= fill { fill := 0; } else { fill := fill - len; }
    }
  }

  lemma OneMore(mem: seq<Byte>, at: nat, p: nat, was: seq<Byte>)
    requires at <= p < |mem|
    ensures was + mem[at..p] + [mem[p]] == was + mem[at..p + 1]
  {
    assert mem[at..p] + [mem[p]] == mem[at..p + 1];
  }

  /** Prints the text itself. */
  method PrintText(out: Output, mem: seq<Byte>, at: nat) returns (pc: nat)
    requires out.Valid() && Terminated(mem, at) && out.Room(|Text(mem, at)|)
    modifies out, out.dest
    ensures out.Valid() && out.written == old(out.written) + Text(mem, at) && pc == |Text(mem, at)|
    ensures out.dest != null ==> out.pos == old(out.pos) + pc
  {
    pc := 0;
    var p := at;
    ghost var end := StrEnd(mem, at);
    while mem[p] != NUL
      invariant at <= p <= end && out.Valid() && pc == p - at
      invariant out.written == old(out.written) + mem[at..p]
      invariant out.dest != null ==> out.pos == old(out.pos) + pc
      decreases end - p
    {
      OneMore(mem, at, p, old(out.written));
      out.PrintChar(mem[p]);
      pc := pc + 1;
      p := p + 1;
    }
  }

  /** Prints the text at `at`, padded to `width`. */
  method Prints(out: Output, mem: seq<Byte>, at: nat, width: nat, pad: Pad) returns (pc: nat)
    requires out.Valid() && Terminated(mem, at) && out.Room(|Padded(Text(mem, at), width, pad)|)
    modifies out, out.dest
    ensures out.Valid() && out.written == old(out.written) + Padded(Text(mem, at), width, pad)
    ensures pc == |Padded(Text(mem, at), width, pad)|
    ensures out.dest != null ==> out.pos == old(out.pos) + pc
  {
    hide Repeat, Text, Padded;
    var padchar := if width > 0 && pad.zero then ZERO_CHAR else BLANK;
    var fill := FillFor(mem, at, width);
    var left := if pad.right then 0 else fill;
    PaddedParts(old(out.written), Text(mem, at), width, pad, fill, left, padchar);
    PrintFill(out, padchar, left);
    var n := PrintText(out, mem, at);
    PrintFill(out, padchar, fill - left);
    pc := fill + n;
  }

  /** Padding in front, the text, padding behind. */
  lemma PaddedParts(was: seq<Byte>, text: seq<Byte>, width: nat, pad: Pad, fill: nat, left: nat, padchar: Byte)
    requires fill == if |text| < width then width - |text| else 0
    requires left == if pad.right then 0 else fill
    requires padchar == if width > 0 && pad.zero then ZERO_CHAR else BLANK
    ensures was + Repeat(padchar, left) + text + Repeat(padchar, fill - left) == was + Padded(text, width, pad)
  {
    assert Repeat(padchar, 0) == [];
    hide Repeat;
  }

  /** One digit fewer to go: a tenfold bound per remaining place. */
  lemma DigitRoom(u: nat, b: nat, s: nat)
    requires (b == 10 || b == 16) && u > 0 && 1 <= s && u < Power(10, s - 1)
    ensures s >= 2 && u / b < Power(10, s - 2) && u / b < u
  {
  }

  lemma LongestNumber()
    ensures Power(10, 10) == 10_000_000_000
  {
    assert Power(10, 5) == 100_000;
  }

  lemma DigitsStep(u: nat, b: nat, letbase: Byte, done: seq<Byte>)
    requires (b == 10 || b == 16) && letbase <= 0x61 && u > 0
    ensures Digits(u, b, letbase) + done == Digits(u / b, b, letbase) + ([DigitChar(u % b, letbase)] + done)
  {
  }

  lemma DigitsHaveNoNul(u: nat, b: nat, letbase: Byte)
    requires (b == 10 || b == 16) && (letbase == LOWER_A || letbase == UPPER_A)
    ensures NUL !in Digits(u, b, letbase)
  {
    DigitsValue(u, b, letbase);
  }

  /** The digit loop: fills the buffer backwards from its last place and never leaves it. */
  method FillDigits(print_buf: array<Byte>, u0: nat, b: nat, letbase: Byte) returns (s: nat)
    requires print_buf.Length == PRINT_BUF_LEN && u0 < 0x1_0000_0000
    requires (b == 10 || b == 16) && (letbase == LOWER_A || letbase == UPPER_A)
    modifies print_buf
    ensures 1 <= s < PRINT_BUF_LEN && print_buf[PRINT_BUF_LEN - 1] == NUL
    ensures print_buf[s..PRINT_BUF_LEN - 1] == Digits(u0, b, letbase)
  {
    hide Digits, Power;
    s := PRINT_BUF_LEN - 1;
    print_buf[s] := NUL;
    var u: nat := u0;
    LongestNumber();
    assert Digits(u0, b, letbase) + print_buf[s..PRINT_BUF_LEN - 1] == Digits(u0, b, letbase);
    while u != 0
      invariant 1 <= s <= PRINT_BUF_LEN - 1 && u < Power(10, s - 1)
      invariant print_buf[PRINT_BUF_LEN - 1] == NUL
      invariant Digits(u0, b, letbase) == Digits(u, b, letbase) + print_buf[s..PRINT_BUF_LEN - 1]
      decreases u
    {
      DigitRoom(u, b, s);
      DigitsStep(u, b, letbase, print_buf[s..PRINT_BUF_LEN - 1]);
      ghost var done := print_buf[s..PRINT_BUF_LEN - 1];
      var t := u % b;
      if t >= 10 { t := t + (letbase - ZERO_CHAR - 10); }
      s := s - 1;
      print_buf[s] := t + ZERO_CHAR;
      assert print_buf[s..PRINT_BUF_LEN - 1] == [DigitChar(u % b, letbase)] + done;
      u := u / b;
    }
    assert Digits(0, b, letbase) == [] by { NoDigits(b, letbase); }
  }

  lemma NoDigits(b: nat, letbase: Byte)
    requires (b == 10 || b == 16) && letbase <= 0x61
    ensures Digits(0, b, letbase) == []
  {
  }

  lemma NumberInBuffer(m: seq<Byte>, s: nat)
    requires |m| == PRINT_BUF_LEN && s < PRINT_BUF_LEN
    requires m[PRINT_BUF_LEN - 1] == NUL && NUL !in m[s..PRINT_BUF_LEN - 1]
    ensures Terminated(m, s) && Text(m, s) == m[s..PRINT_BUF_LEN - 1]
  {
    var text := m[s..PRINT_BUF_LEN - 1];
    assert m[s..s + |text|] == text;
    TextAt(m, s, text);
  }

  lemma SignInBuffer(m: seq<Byte>, s: nat)
    requires |m| == PRINT_BUF_LEN && 1 <= s < PRINT_BUF_LEN
    requires m[PRINT_BUF_LEN - 1] == NUL && NUL !in m[s..PRINT_BUF_LEN - 1]
    ensures var m' := m[s - 1 := MINUS];
      Terminated(m', s - 1) && Text(m', s - 1) == [MINUS] + m[s..PRINT_BUF_LEN - 1]
  {
    var m' := m[s - 1 := MINUS];
    assert m'[s - 1..PRINT_BUF_LEN - 1] == [MINUS] + m[s..PRINT_BUF_LEN - 1];
    NumberInBuffer(m', s - 1);
  }

  /** The end of printi: the sign goes out first when zeros follow it, into the buffer otherwise. */
  method FinishNumber(out: Output, print_buf: array<Byte>, s0: nat, neg: bool, width0: nat, pad: Pad) returns (pc: nat)
    requires print_buf.Length == PRINT_BUF_LEN && 1 <= s0 < PRINT_BUF_LEN && print_buf != out.dest
    requires print_buf[PRINT_BUF_LEN - 1] == NUL && NUL !in print_buf[s0..PRINT_BUF_LEN - 1]
    requires out.Valid() && out.Room(|SignedField(print_buf[s0..PRINT_BUF_LEN - 1], neg, width0, pad)|)
    modifies out, out.dest, print_buf
    ensures out.Valid()
    ensures out.written == old(out.written) + SignedField(old(print_buf[s0..PRINT_BUF_LEN - 1]), neg, width0, pad)
    ensures pc == |SignedField(old(print_buf[s0..PRINT_BUF_LEN - 1]), neg, width0, pad)|
    ensures out.dest != null ==> out.pos == old(out.pos) + pc
  {
    hide Padded, StrEnd, Text, Terminated, Output.Valid, SignedField;
    var (s, width) := (s0, width0);
    FieldParts(out.written, print_buf[s0..PRINT_BUF_LEN - 1], neg, width, pad);
    ghost var m := print_buf[..];
    assert m[s0..PRINT_BUF_LEN - 1] == print_buf[s0..PRINT_BUF_LEN - 1];
    NumberInBuffer(m, s0);
    pc := 0;
    if neg && width > 0 && pad.zero {
      out.PrintChar(MINUS);
      pc := pc + 1;
      width := width - 1;
    } else if neg {
      SignInBuffer(m, s);
      s := s - 1;
      print_buf[s] := MINUS;
      assert print_buf[..] == m[s := MINUS];
    }
    var n := Prints(out, print_buf[..], s, width, pad);
    pc := pc + n;
  }

  function SignedField(digits: seq<Byte>, neg: bool, width: nat, pad: Pad): seq<Byte>
  {
    if neg && width > 0 && pad.zero then [MINUS] + Padded(digits, width - 1, pad)
    else Padded(if neg then [MINUS] + digits else digits, width, pad)
  }

  lemma FieldParts(was: seq<Byte>, digits: seq<Byte>, neg: bool, width: nat, pad: Pad)
    ensures var (f, first) := (SignedField(digits, neg, width, pad), neg && width > 0 && pad.zero);
      && (first ==> |f| == 1 + |Padded(digits, width - 1, pad)|)
      && (first ==> was + f == was + [MINUS] + Padded(digits, width - 1, pad))
      && (!first ==> f == Padded(if neg then [MINUS] + digits else digits, width, pad))
  {
    hide Padded;
  }

  /** Prints one integer. */
  method Printi(out: Output, i: Int32, b: nat, sg: bool, width: nat, pad: Pad, letbase: Byte) returns (pc: nat)
    requires (b == 10 || b == 16) && (letbase == LOWER_A || letbase == UPPER_A)
    requires out.Valid() && out.Room(|NumberText(i, b, sg, width, pad, letbase)|)
    modifies out, out.dest
    ensures out.Valid() && out.written == old(out.written) + NumberText(i, b, sg, width, pad, letbase)
    ensures pc == |NumberText(i, b, sg, width, pad, letbase)|
    ensures out.dest != null ==> out.pos == old(out.pos) + pc
  {
    hide Digits, Padded, StrEnd, Text;
    var print_buf := new Byte[PRINT_BUF_LEN](_ => 0);
    if i == 0 {
      print_buf[0] := ZERO_CHAR;
      print_buf[1] := NUL;
      assert print_buf[..][0..0 + |[ZERO_CHAR]|] == [ZERO_CHAR];
      TextAt(print_buf[..], 0, [ZERO_CHAR]);
      pc := Prints(out, print_buf[..], 0, width, pad);
    } else {
      var neg := sg && b == 10 && i < 0;
      var u := if neg then U32(-(i as int)) else U32(i);
      assert u == if neg then Magnitude(i) else U32(i);
      var s := FillDigits(print_buf, u, b, letbase);
      DigitsHaveNoNul(u, b, letbase);
      assert NumberText(i, b, sg, width, pad, letbase) == SignedField(Digits(u, b, letbase), neg, width, pad);
      pc := FinishNumber(out, print_buf, s, neg, width, pad);
    }
  }

  lemma SliceStep(fmt: seq<Byte>, q: nat, end: nat)
    requires q < end <= |fmt|
    ensures fmt[q..end] != [] && fmt[q..end][0] == fmt[q] && fmt[q..end][1..] == fmt[q + 1..end]
  {
  }

  method ReadZeros(fmt: seq<Byte>, p: nat, ghost end: nat) returns (q: nat)
    requires p <= end < |fmt| && fmt[end] == NUL
    ensures p <= q <= end && SkipZeros(fmt[p..end]) == fmt[q..end]
  {
    q := p;
    while fmt[q] == ZERO_CHAR
      invariant p <= q <= end
      invariant SkipZeros(fmt[p..end]) == SkipZeros(fmt[q..end])
      decreases end - q
    {
      SliceStep(fmt, q, end);
      q := q + 1;
    }
    if q < end { SliceStep(fmt, q, end); }
  }

  method ReadWidth(fmt: seq<Byte>, p: nat, ghost end: nat) returns (q: nat, width: nat)
    requires p <= end < |fmt| && fmt[end] == NUL
    ensures p <= q <= end && SkipDigits(fmt[p..end]) == fmt[q..end] && WidthOf(fmt[p..end], 0) == width
  {
    q, width := p, 0;
    while ZERO_CHAR <= fmt[q] <= NINE_CHAR
      invariant p <= q <= end
      invariant SkipDigits(fmt[p..end]) == SkipDigits(fmt[q..end])
      invariant WidthOf(fmt[p..end], 0) == WidthOf(fmt[q..end], width)
      decreases end - q
    {
      SliceStep(fmt, q, end);
      width := width * 10 + (fmt[q] - ZERO_CHAR);
      q := q + 1;
    }
    if q < end { SliceStep(fmt, q, end); }
  }

  /** Flags and width of the directive whose percent sign is at p; returns where its conversion
      character is. */
  method ReadDirective(fmt: seq<Byte>, p: nat, ghost end: nat) returns (q: nat, width: nat, pad: Pad)
    requires p + 1 < end < |fmt| && fmt[end] == NUL && fmt[p] == PERCENT && fmt[p + 1] != PERCENT
    requires !Next(fmt[p..end]).0.CutOff?
    ensures p < q < end
    ensures Next(fmt[p..end]) ==
            (if IsConversion(fmt[q]) then Conv(fmt[q], width, pad) else Silent, fmt[q + 1..end])
  {
    hide Next, SkipZeros, SkipDigits, WidthOf;
    var right := fmt[p + 1] == MINUS;
    var q0 := if right then p + 2 else p + 1;
    var q1 := ReadZeros(fmt, q0, end);
    q, width := ReadWidth(fmt, q1, end);
    pad := Pad(right, q1 > q0);
    DirectiveIs(fmt, p, end, q0, q1, q, width, pad);
  }

  lemma DirectiveIs(fmt: seq<Byte>, p: nat, end: nat, q0: nat, q1: nat, q: nat, width: nat, pad: Pad)
    requires p + 1 < end <= |fmt| && fmt[p] == PERCENT && fmt[p + 1] != PERCENT
    requires pad.right == (fmt[p + 1] == MINUS) && q0 == (if pad.right then p + 2 else p + 1)
    requires q0 <= q1 <= q <= end && (pad.zero <==> q1 > q0)
    requires SkipZeros(fmt[q0..end]) == fmt[q1..end]
    requires SkipDigits(fmt[q1..end]) == fmt[q..end] && WidthOf(fmt[q1..end], 0) == width
    ensures Next(fmt[p..end]) ==
            if q == end then (CutOff, [])
            else (if IsConversion(fmt[q]) then Conv(fmt[q], width, pad) else Silent, fmt[q + 1..end])
  {
  }

  /** Prints one argument; the conversions of the source, in its order. */
  method PrintArg(out: Output, k: Byte, width: nat, pad: Pad, arg: Arg) returns (pc: nat)
    requires IsConversion(k) && (k == LOWER_S <==> arg.StrArg?)
    requires arg.StrArg? && arg.text.Some? ==> NUL !in arg.text.value
    requires out.Valid() && out.Room(|RenderConv(k, width, pad, arg)|)
    modifies out, out.dest
    ensures out.Valid() && out.written == old(out.written) + RenderConv(k, width, pad, arg)
    ensures pc == |RenderConv(k, width, pad, arg)|
    ensures out.dest != null ==> out.pos == old(out.pos) + pc
  {
    hide Padded, NumberText;
    if k == LOWER_S {
      var text := if arg.text.Some? then arg.text.value else NULL_TEXT;
      assert (text + [NUL])[0..0 + |text|] == text;
      TextAt(text + [NUL], 0, text);
      pc := Prints(out, text + [NUL], 0, width, pad);
    } else if k == LOWER_D {
      pc := Printi(out, arg.value, 10, true, width, pad, LOWER_A);
    } else if k == LOWER_X {
      pc := Printi(out, arg.value, 16, false, width, pad, LOWER_A);
    } else if k == UPPER_X {
      pc := Printi(out, arg.value, 16, false, width, pad, UPPER_A);
    } else if k == LOWER_U {
      pc := Printi(out, arg.value, 10, false, width, pad, LOWER_A);
    } else {
      var scr := [arg.value % 256, NUL];
      ghost var text: seq<Byte> := if arg.value % 256 == 0 then [] else [arg.value % 256];
      assert scr[0..0 + |text|] == text;
      TextAt(scr, 0, text);
      pc := Prints(out, scr, 0, width, pad);
    }
  }

  lemma RenderNext(f: seq<Byte>, args: seq<Arg>)
    requires f != [] && WellFormed(Pieces(f)) && Matches(Pieces(f), args)
    ensures !Next(f).0.CutOff? && WellFormed(Pieces(Next(f).1))
    ensures Next(f).0.Literal? ==>
      && Matches(Pieces(Next(f).1), args)
      && Render(Pieces(f), args) == [Next(f).0.c] + Render(Pieces(Next(f).1), args)
    ensures Next(f).0.Silent? ==>
      && Matches(Pieces(Next(f).1), args)
      && Render(Pieces(f), args) == Render(Pieces(Next(f).1), args)
    ensures Next(f).0.Conv? ==>
      var Conv(k, w, pad) := Next(f).0;
      && IsConversion(k) && args != [] && (k == LOWER_S <==> args[0].StrArg?)
      && (args[0].StrArg? && args[0].text.Some? ==> NUL !in args[0].text.value)
      && Matches(Pieces(Next(f).1), args[1..])
      && Render(Pieces(f), args) == RenderConv(k, w, pad, args[0]) + Render(Pieces(Next(f).1), args[1..])
  {
    hide RenderConv;
    var (p, rest) := Next(f);
    var ps := Pieces(f);
    assert ps[0] == p && ps[1..] == Pieces(rest);
    assert WellFormed(ps[1..]);
  }

  /** The interpreter's loop; a format that ends inside a directive is excluded, because the code
      would read past its terminator. */
  method PrintPieces(out: Output, fmt: seq<Byte>, args0: seq<Arg>) returns (pc: nat)
    requires Terminated(fmt, 0)
    requires var ps := Pieces(Text(fmt, 0));
      WellFormed(ps) && Matches(ps, args0) && out.Room(|Render(ps, args0)|)
    requires out.Valid()
    modifies out, out.dest
    ensures out.Valid()
    ensures var r := Render(Pieces(Text(fmt, 0)), args0);
      out.written == old(out.written) + r && pc == |r|
  {
    hide Next, Pieces, Render, Matches, WellFormed, RenderConv;
    var p, args := 0, args0;
    ghost var end := StrEnd(fmt, 0);
    ghost var whole := Render(Pieces(Text(fmt, 0)), args0);
    assert fmt[0..end] == Text(fmt, 0);
    pc := 0;
    while fmt[p] != NUL
      invariant p <= end && out.Valid()
      invariant WellFormed(Pieces(fmt[p..end])) && Matches(Pieces(fmt[p..end]), args)
      invariant out.Room(|Render(Pieces(fmt[p..end]), args)|)
      invariant old(out.written) + whole == out.written + Render(Pieces(fmt[p..end]), args)
      invariant pc == |out.written| - |old(out.written)|
      decreases end - p
    {
      ghost var f := fmt[p..end];
      RenderNext(f, args);
      if fmt[p] != PERCENT {
        LiteralNext(fmt, p, end);
        out.PrintChar(fmt[p]);
        pc := pc + 1;
        p := p + 1;
      } else if fmt[p + 1] == NUL {
        LoneNext(fmt, p, end);
        p := p + 1;
      } else if fmt[p + 1] == PERCENT {
        PercentNext(fmt, p, end);
        out.PrintChar(PERCENT);
        pc := pc + 1;
        p := p + 2;
      } else {
        var q, width, pad := ReadDirective(fmt, p, end);
        if IsConversion(fmt[q]) {
          var n := PrintArg(out, fmt[q], width, pad, args[0]);
          pc := pc + n;
          args := args[1..];
        }
        p := q + 1;
      }
    }
    NothingRenders(args);
    assert fmt[p..end] == [];
  }

  lemma NothingRenders(args: seq<Arg>)
    ensures Matches(Pieces([]), args) && Render(Pieces([]), args) == []
  {
  }

  lemma LiteralNext(fmt: seq<Byte>, p: nat, end: nat)
    requires p < end <= |fmt| && fmt[p] != PERCENT
    ensures Next(fmt[p..end]) == (Literal(fmt[p]), fmt[p + 1..end])
  {
    SliceStep(fmt, p, end);
  }

  lemma LoneNext(fmt: seq<Byte>, p: nat, end: nat)
    requires p < end < |fmt| && fmt[p] == PERCENT && end == p + 1
    ensures Next(fmt[p..end]) == (Silent, fmt[p + 1..end])
  {
    assert fmt[p + 1..end] == [];
  }

  lemma PercentNext(fmt: seq<Byte>, p: nat, end: nat)
    requires p + 1 < end <= |fmt| && fmt[p] == PERCENT && fmt[p + 1] == PERCENT
    ensures Next(fmt[p..end]) == (Literal(PERCENT), fmt[p + 2..end])
  {
    assert fmt[p..end][2..] == fmt[p + 2..end];
  }

  /** print: renders the directives in order, counts the bytes, terminates a string destination,
      and touches nothing else in it. */
  method Print(out: Output, fmt: seq<Byte>, args: seq<Arg>) returns (pc: nat)
    requires Terminated(fmt, 0)
    requires var ps := Pieces(Text(fmt, 0));
      WellFormed(ps) && Matches(ps, args) && out.Room(|Render(ps, args)|)
    requires out.Valid() && out.written == []
    modifies out, out.dest
    ensures var r := Render(Pieces(Text(fmt, 0)), args);
      && pc == |r|
      && (out.dest == null ==> out.console == r)
      && (out.dest != null ==>
            out.start + |r| < |out.before| == out.dest.Length &&
            out.dest[..] == out.before[..out.start] + r + [NUL] + out.before[out.start + |r| + 1..])
  {
    hide Pieces, Render, Matches, WellFormed;
    pc := PrintPieces(out, fmt, args);
    if out.dest != null {
      ghost var was := out.dest[..];
      out.dest[out.pos] := NUL;
      assert out.dest[..] == was[out.pos := NUL];
    }
  }

  /** mysprintf: a destination string receives exactly the rendering and its terminator. */
  method Mysprintf(d: array<Byte>, fmt: seq<Byte>, args: seq<Arg>) returns (pc: nat)
    requires Terminated(fmt, 0)
    requires var ps := Pieces(Text(fmt, 0));
      WellFormed(ps) && Matches(ps, args) && |Render(ps, args)| < d.Length
    modifies d
    ensures var r := Render(Pieces(Text(fmt, 0)), args);
      pc == |r| && d[..] == r + [NUL] + old(d[..])[|r| + 1..]
  {
    hide Pieces, Render, Matches, WellFormed;
    ghost var was, r := d[..], Render(Pieces(Text(fmt, 0)), args);
    var out := new Output.ToString(d, 0);
    hide Text;
    pc := Print(out, fmt, args);
    assert was[..0] == [] && [] + r == r;
  }
}
