/** The EEPROM driver, app/eeprom9366.c: instruction packing and the write-enable state. */
module Eeprom9366 {
  import opened Bits
  import opened EepromChip

  datatype Call =
    | ReadCall(address: nat)
    | WriteCall(address: nat, data: Byte)
    | EraseCall(address: nat)
    | EraseAllCall

  // ---- how an instruction is packed into SPI bytes ----

  /** The three bytes of an instruction that carries data. */
  function TransactionFrame(command: nat, address: nat, data: Byte): seq<Byte>
  {
    [ U8(Or(Shl(command, 2), Shr(And(address, 0x180), 7))),
      U8(Or(Shl(And(address, 0x7f), 1), Shr(And(data, 0x80), 7))),
      U8(Shl(And(data, 0x7f), 1)) ]
  }

  /** The two bytes of an instruction that carries no data. */
  function CommandFrame(command: nat, address: nat): seq<Byte>
  {
    [ U8(Or(Shl(command, 1), Shr(And(address, 0x100), 8))), U8(And(address, 0xff)) ]
  }

  /** The write-enable instruction: CommandFrame(0x4, 0x180), as EnableFrameIs shows. */
  const ENABLE_FRAME: seq<Byte> := [0x09, 0x80]

  function CallFrame(call: Call): seq<Byte>
  {
    match call
    case ReadCall(a) => TransactionFrame(0x6, a, 0)
    case WriteCall(a, d) => TransactionFrame(0x5, a, d)
    case EraseCall(a) => CommandFrame(0x7, a)
    case EraseAllCall => CommandFrame(0x4, 0x100)
  }

  /** The chip-select windows one driver call produces. */
  function CallFrames(call: Call, writeEnabled: bool): seq<seq<Byte>>
  {
    if call.ReadCall? || writeEnabled then [CallFrame(call)] else [ENABLE_FRAME, CallFrame(call)]
  }

  // ---- the array the driver is meant to be ----

  function ArrayAfter(cells: Cells, call: Call): Cells
  {
    match call
    case ReadCall(_) => cells
    case WriteCall(a, d) => cells[a % SIZE := d]
    case EraseCall(a) => cells[a % SIZE := 0xff]
    case EraseAllCall => seq(SIZE, _ => 0xff)
  }

  /** The final array, and the byte each read returns, in order. */
  function ArrayRun(cells: Cells, calls: seq<Call>): (Cells, seq<Byte>)
    decreases |calls|
  {
    if calls == [] then (cells, [])
    else
      var (cells', answers) := ArrayRun(ArrayAfter(cells, calls[0]), calls[1..]);
      (cells', (if calls[0].ReadCall? then [cells[calls[0].address % SIZE]] else []) + answers)
  }

  // ---- the driver and the part, clock by clock ----

  function Windows(c: Chip, frames: seq<seq<Byte>>): Chip
    decreases |frames|
  {
    if frames == [] then c else Windows(Window(c, frames[0]), frames[1..])
  }

  /** The byte that comes back while the last byte of `frame` goes out. */
  function LastReceived(c: Chip, frame: seq<Byte>): Byte
    requires frame != []
  {
    PowersOfTwo();
    Value(Shift(Select(c), WireBits(frame)).1[8 * (|frame| - 1)..])
  }

  function WireRun(c: Chip, writeEnabled: bool, calls: seq<Call>): (r: (Chip, seq<Byte>, seq<seq<Byte>>))
    decreases |calls|
  {
    if calls == [] then (c, [], [])
    else
      var frames := CallFrames(calls[0], writeEnabled);
      var (c', answers, wire) := WireRun(Windows(c, frames), writeEnabled || !calls[0].ReadCall?, calls[1..]);
      (c', (if calls[0].ReadCall? then [LastReceived(c, CallFrame(calls[0]))] else []) + answers, frames + wire)
  }

  /** A window that could change a cell of some part. */
  ghost predicate Programs(frame: seq<Byte>)
  {
    exists c: Chip :: Window(c, frame).cells != c.cells
  }

  /** Every window that programs the part comes after one that enables writing. */
  ghost predicate EnabledFirst(wire: seq<seq<Byte>>, alreadyEnabled: bool)
  {
    forall i {:trigger Programs(wire[i])} :: 0 <= i < |wire| && Programs(wire[i]) ==> alreadyEnabled || ENABLE_FRAME in wire[..i]
  }

  // ---- packing puts the instruction on the wire ----

  lemma {:induction false} OnesBit(n: nat, i: nat)
    ensures Bit(Pow2(n) - 1, i) == (i < n)
  {
    ZeroBit(i);
    if n > 0 && i > 0 {
      assert (Pow2(n) - 1) / 2 == Pow2(n - 1) - 1;
      OnesBit(n - 1, i - 1);
    }
  }

  lemma Masks(i: nat)
    ensures Bit(0x180, i) == (i == 7 || i == 8)
    ensures Bit(0x100, i) == (i == 8)
    ensures Bit(0x80, i) == (i == 7)
    ensures Bit(0x7f, i) == (i < 7)
    ensures Bit(0xff, i) == (i < 8)
  {
    assert Shl(3, 4) == 48 && Shl(3, 7) == 0x180 && Shl(1, 4) == 16 && Shl(1, 7) == 0x80 && Shl(1, 8) == 0x100;
    ShlBit(3, 7, i);
    ShlBit(1, 7, i);
    ShlBit(1, 8, i);
    if i >= 7 { OnesBit(2, i - 7); OnesBit(1, i - 7); }
    if i >= 8 { OnesBit(1, i - 8); }
    PowersOfTwo();
    assert Pow2(7) == 128;
    OnesBit(7, i);
    OnesBit(8, i);
  }

  lemma SmallBit(x: nat, n: nat, i: nat)
    requires x < Pow2(n)
    ensures i >= n ==> !Bit(x, i)
  {
  }

  lemma U8Bit(x: nat, i: nat)
    ensures Bit(U8(x), i) == (i < 8 && Bit(x, i))
  {
    PowersOfTwo();
    ModBit(x, 8, i);
  }

  lemma TransactionByteBits(command: nat, address: nat, data: Byte, i: nat)
    requires command < 8 && i < 8
    ensures var f := TransactionFrame(command, address, data);
      && Bit(f[0], i) == (if i < 2 then Bit(address, i + 7) else i < 5 && Bit(command, i - 2))
      && Bit(f[1], i) == (if i < 1 then Bit(data, 7) else Bit(address, i - 1))
      && Bit(f[2], i) == (i >= 1 && Bit(data, i - 1))
  {
    hide And, Or, Shl, Shr, Bit;
    PowersOfTwo();
    var f := TransactionFrame(command, address, data);
    U8Bit(Or(Shl(command, 2), Shr(And(address, 0x180), 7)), i);
    OrBit(Shl(command, 2), Shr(And(address, 0x180), 7), i);
    ShlBit(command, 2, i);
    ShrBit(And(address, 0x180), 7, i);
    AndBit(address, 0x180, i + 7);
    if i >= 2 { SmallBit(command, 3, i - 2); }
    U8Bit(Or(Shl(And(address, 0x7f), 1), Shr(And(data, 0x80), 7)), i);
    OrBit(Shl(And(address, 0x7f), 1), Shr(And(data, 0x80), 7), i);
    ShlBit(And(address, 0x7f), 1, i);
    ShrBit(And(data, 0x80), 7, i);
    AndBit(data, 0x80, i + 7);
    U8Bit(Shl(And(data, 0x7f), 1), i);
    ShlBit(And(data, 0x7f), 1, i);
    if i >= 1 {
      AndBit(address, 0x7f, i - 1);
      AndBit(data, 0x7f, i - 1);
      Masks(i - 1);
    }
    Masks(i + 7);
  }

  lemma CommandByteBits(command: nat, address: nat, i: nat)
    requires command < 8 && i < 8
    ensures var f := CommandFrame(command, address);
      && Bit(f[0], i) == (if i < 1 then Bit(address, 8) else i < 4 && Bit(command, i - 1))
      && Bit(f[1], i) == Bit(address, i)
  {
    hide And, Or, Shl, Shr, Bit;
    PowersOfTwo();
    U8Bit(Or(Shl(command, 1), Shr(And(address, 0x100), 8)), i);
    OrBit(Shl(command, 1), Shr(And(address, 0x100), 8), i);
    ShlBit(command, 1, i);
    ShrBit(And(address, 0x100), 8, i);
    AndBit(address, 0x100, i + 8);
    Masks(i + 8);
    if i >= 1 { SmallBit(command, 3, i - 1); }
    U8Bit(And(address, 0xff), i);
    AndBit(address, 0xff, i);
    Masks(i);
  }

  /** On the wire: three zeros, the command, the address, the data, one surplus zero. */
  lemma TransactionOnWire(command: nat, address: nat, data: Byte)
    requires command < 8
    ensures WireBits(TransactionFrame(command, address, data)) ==
            [false, false, false] + BitsOf(command, 3) + BitsOf(address, 9) + BitsOf(data, 8) + [false]
  {
    var f := TransactionFrame(command, address, data);
    forall i | 0 <= i < 8
      ensures Bit(f[0], i) == (if i < 2 then Bit(address, i + 7) else i < 5 && Bit(command, i - 2))
      ensures Bit(f[1], i) == (if i < 1 then Bit(data, 7) else Bit(address, i - 1))
      ensures Bit(f[2], i) == (i >= 1 && Bit(data, i - 1))
    {
      TransactionByteBits(command, address, data, i);
    }
    BytesOnWire(f[0], f[1], f[2], command, address, data);
  }

  lemma BytesOnWire(b1: Byte, b2: Byte, b3: Byte, command: nat, address: nat, data: Byte)
    requires forall i | 0 <= i < 8 ::
      && Bit(b1, i) == (if i < 2 then Bit(address, i + 7) else i < 5 && Bit(command, i - 2))
      && Bit(b2, i) == (if i < 1 then Bit(data, 7) else Bit(address, i - 1))
      && Bit(b3, i) == (i >= 1 && Bit(data, i - 1))
    ensures WireBits([b1, b2, b3]) ==
            [false, false, false] + BitsOf(command, 3) + BitsOf(address, 9) + BitsOf(data, 8) + [false]
  {
    ThreeBytes(b1, b2, b3);
    FirstByteBits(b1, command, address);
    SecondByteBits(b2, address, data);
    ThirdByteBits(b3, data);
    hide BitsOf, WireBits;
    var (a, d) := (BitsOf(address, 9), BitsOf(data, 8));
    assert a == a[..2] + a[2..] && d == d[..1] + d[1..];
  }

  lemma FirstByteBits(b1: Byte, command: nat, address: nat)
    requires forall i | 0 <= i < 8 :: Bit(b1, i) == (if i < 2 then Bit(address, i + 7) else i < 5 && Bit(command, i - 2))
    ensures BitsOf(b1, 8) == [false, false, false] + BitsOf(command, 3) + BitsOf(address, 9)[..2]
  {
    hide Bit;
  }

  lemma SecondByteBits(b2: Byte, address: nat, data: Byte)
    requires forall i | 0 <= i < 8 :: Bit(b2, i) == if i < 1 then Bit(data, 7) else Bit(address, i - 1)
    ensures BitsOf(b2, 8) == BitsOf(address, 9)[2..] + BitsOf(data, 8)[..1]
  {
    hide Bit;
  }

  lemma ThirdByteBits(b3: Byte, data: Byte)
    requires forall i | 0 <= i < 8 :: Bit(b3, i) == (i >= 1 && Bit(data, i - 1))
    ensures BitsOf(b3, 8) == BitsOf(data, 8)[1..] + [false]
  {
    hide Bit;
  }

  lemma ThreeBytes(b1: Byte, b2: Byte, b3: Byte)
    ensures WireBits([b1, b2, b3]) == BitsOf(b1, 8) + BitsOf(b2, 8) + BitsOf(b3, 8)
  {
    assert [b1, b2, b3][..2] == [b1, b2] && [b1, b2][..1] == [b1] && [b1][..0] == [];
    assert WireBits([b1]) == BitsOf(b1, 8);
  }

  lemma CommandOnWire(command: nat, address: nat)
    requires command < 8
    ensures WireBits(CommandFrame(command, address)) ==
            [false, false, false, false] + BitsOf(command, 3) + BitsOf(address, 9)
  {
    hide And, Or, Shl, Shr, Bit;
    var f := CommandFrame(command, address);
    assert f[..1] == [f[0]] && [f[0]][..0] == [];
    assert WireBits([f[0]]) == BitsOf(f[0], 8) by { assert WireBits([]) == []; }
    assert WireBits(f) == BitsOf(f[0], 8) + BitsOf(f[1], 8);
    forall i | 0 <= i < 8
      ensures Bit(f[0], i) == (if i < 1 then Bit(address, 8) else i < 4 && Bit(command, i - 1))
      ensures Bit(f[1], i) == Bit(address, i)
    {
      CommandByteBits(command, address, i);
    }
  }

  // ---- what the part makes of each window ----

  function CallInstr(call: Call): (i: Instr)
    ensures i.Read? || i.Write? || i.Erase? ==> i.address < SIZE
  {
    match call
    case ReadCall(a) => Read(a % SIZE)
    case WriteCall(a, d) => Write(a % SIZE, d)
    case EraseCall(a) => Erase(a % SIZE)
    case EraseAllCall => EraseAll
  }

  function DataTail(op1: bool, op0: bool, address: nat, data: Byte): (s: seq<bool>)
    ensures |s| == 20
  {
    [op1, op0] + BitsOf(address, 9) + BitsOf(data, 8) + [false]
  }

  lemma DataTailDecodes(op1: bool, op0: bool, address: nat, data: Byte, k: nat)
    requires op1 != op0 && 12 <= k <= 20 && (op0 ==> k >= 19)
    ensures Decode(DataTail(op1, op0, address, data)[..k]) ==
            if op1 then Read(address % SIZE) else Write(address % SIZE, data)
  {
    var tail := DataTail(op1, op0, address, data)[..k];
    assert tail[2..11] == BitsOf(address, 9);
    if op0 { assert tail[11..19] == BitsOf(data, 8); }
    PowersOfTwo();
    ValueOfBits(address, 9);
    ValueOfBits(data, 8);
  }

  /** `frame` is any three bytes that carry the instruction. */
  lemma DataWindow(c: Chip, frame: seq<Byte>, op1: bool, op0: bool, address: nat, data: Byte)
    requires op1 != op0 && |frame| == 3
    requires WireBits(frame) == [false, false, false] + [true] + DataTail(op1, op0, address, data)
    ensures Window(c, frame) == Execute(c.(selected := false, started := false, tail := []),
      if op1 then Read(address % SIZE) else Write(address % SIZE, data))
    ensures op1 ==> LastReceived(c, frame) == c.cells[address % SIZE]
  {
    hide Window, DataTail, Execute, WireBits, Decode, Shift;
    var tail := DataTail(op1, op0, address, data);
    assert tail[..20] == tail;
    DataTailDecodes(op1, op0, address, data, 20);
    WindowExecutes(c, frame, [false, false, false], tail);
    if op1 {
      var levels := Shift(Select(c), WireBits(frame)).1;
      var cell := c.cells[address % SIZE];
      forall k | 0 <= k < 8 ensures levels[16..][k] == BitsOf(cell, 8)[k] {
        assert levels[3 + 1 + (12 + k)] == Level(c.cells, tail[..12 + k]);
        DataTailDecodes(op1, op0, address, data, 12 + k);
      }
      assert levels[16..] == BitsOf(cell, 8);
      PowersOfTwo();
      ValueOfBits(cell, 8);
    }
  }

  lemma TransactionMeaning(c: Chip, command: nat, address: nat, data: Byte)
    requires command == 5 || command == 6
    ensures Window(c, TransactionFrame(command, address, data)) ==
            Execute(c.(selected := false, started := false, tail := []),
              if command == 6 then Read(address % SIZE) else Write(address % SIZE, data))
    ensures command == 6 ==>
      LastReceived(c, TransactionFrame(command, address, data)) == c.cells[address % SIZE]
  {
    hide Window, TransactionFrame, LastReceived, Execute, WireBits;
    TransactionOnWire(command, address, data);
    var op := BitsOf(command, 3);
    assert op == [true, command == 6, command == 5] by {
      assert Bit(5, 2) && !Bit(5, 1) && Bit(5, 0) && Bit(6, 2) && Bit(6, 1) && !Bit(6, 0);
    }
    var frame := TransactionFrame(command, address, data);
    assert WireBits(frame) == [false, false, false] + [true] + DataTail(command == 6, command == 5, address, data);
    DataWindow(c, frame, command == 6, command == 5, address, data);
  }

  lemma PlainTailDecodes(op: bool, address: nat)
    requires op || Bit(address, 8)
    ensures Decode([op, op] + BitsOf(address, 9)) ==
            if op then Erase(address % SIZE) else if Bit(address, 7) then Enable else EraseAll
  {
    var tail := [op, op] + BitsOf(address, 9);
    assert tail[2..11] == BitsOf(address, 9);
    assert tail[2] == Bit(address, 8) && tail[3] == Bit(address, 7);
    PowersOfTwo();
    ValueOfBits(address, 9);
  }

  lemma CommandMeaning(c: Chip, command: nat, address: nat)
    requires command == 7 || (command == 4 && Bit(address, 8))
    ensures Window(c, CommandFrame(command, address)) ==
            Execute(c.(selected := false, started := false, tail := []),
              if command == 7 then Erase(address % SIZE) else if Bit(address, 7) then Enable else EraseAll)
  {
    hide Window, CommandFrame, Execute, WireBits, Decode;
    CommandOnWire(command, address);
    var op := BitsOf(command, 3);
    assert op == [true, command == 7, command == 7] by {
      assert Bit(4, 2) && !Bit(4, 1) && !Bit(4, 0) && Bit(7, 2) && Bit(7, 1) && Bit(7, 0);
    }
    var frame, tail := CommandFrame(command, address), [command == 7, command == 7] + BitsOf(address, 9);
    assert WireBits(frame) == [false, false, false, false] + [true] + tail;
    PlainTailDecodes(command == 7, address);
    WindowExecutes(c, frame, [false, false, false, false], tail);
  }

  /** Each driver call's own window executes exactly the instruction the caller asked for. */
  lemma CallMeaning(c: Chip, call: Call)
    ensures Window(c, CallFrame(call)) ==
            Execute(c.(selected := false, started := false, tail := []), CallInstr(call))
    ensures call.ReadCall? ==> LastReceived(c, CallFrame(call)) == c.cells[call.address % SIZE]
  {
    hide Window, TransactionFrame, CommandFrame, LastReceived, Bit;
    match call
    case ReadCall(a) => TransactionMeaning(c, 0x6, a, 0);
    case WriteCall(a, d) => TransactionMeaning(c, 0x5, a, d);
    case EraseCall(a) => CommandMeaning(c, 0x7, a);
    case EraseAllCall =>
      assert Bit(0x100, 8) && !Bit(0x100, 7) by { Masks(7); Masks(8); }
      CommandMeaning(c, 0x4, 0x100);
  }

  lemma EnableMeaning(c: Chip)
    ensures Window(c, ENABLE_FRAME) ==
            c.(enabled := true, selected := false, started := false, tail := [])
  {
    EnableAddressMeaning(c, 0x180);
  }

  lemma SameBits(x: Byte, y: Byte)
    requires forall i :: 0 <= i < 8 ==> Bit(x, i) == Bit(y, i)
    ensures x == y
  {
    PowersOfTwo();
    assert BitsOf(x, 8) == BitsOf(y, 8);
    ValueOfBits(x, 8);
    ValueOfBits(y, 8);
  }

  lemma EnableFrameIs(command: nat, address: nat)
    requires command == 0x4 && address == 0x180
    ensures CommandFrame(command, address) == ENABLE_FRAME
  {
    hide And, Or, Shl, Shr;
    var f := CommandFrame(command, address);
    forall i | 0 <= i < 8 ensures Bit(f[0], i) == Bit(0x09, i) && Bit(f[1], i) == Bit(0x80, i) {
      CommandByteBits(command, address, i);
      Masks(i);
      Masks(8);
      SmallBits(i);
    }
    SameBits(f[0], 0x09);
    SameBits(f[1], 0x80);
  }

  lemma SmallBits(i: nat)
    ensures Bit(4, i) == (i == 2) && Bit(9, i) == (i == 0 || i == 3)
  {
    ShlBit(1, 2, i);
    ShlBit(1, 3, i);
    OnesBit(1, if i >= 3 then i - 3 else 0);
    OnesBit(1, if i >= 2 then i - 2 else 0);
    if i > 0 {
      ShlBit(1, 2, i - 1);
    }
  }

  lemma EnableAddressMeaning(c: Chip, address: nat)
    requires address == 0x180
    ensures Window(c, ENABLE_FRAME) ==
            c.(enabled := true, selected := false, started := false, tail := [])
  {
    hide Window, Bit, CommandFrame;
    assert Bit(address, 7) && Bit(address, 8) by { Masks(7); Masks(8); }
    CommandMeaning(c, 0x4, address);
    EnableFrameIs(0x4, address);
  }

  lemma OneWindow(c: Chip, f: seq<Byte>)
    ensures Windows(c, [f]) == Window(c, f)
  {
    assert [f][1..] == [];
  }

  lemma TwoWindows(c: Chip, f: seq<Byte>, g: seq<Byte>)
    ensures Windows(c, [f, g]) == Window(Window(c, f), g)
  {
    assert [f, g][1..] == [g];
    OneWindow(Window(c, f), g);
  }

  /** A driver call acts on the array, whatever the part saw before. */
  lemma CallRefinesArray(c: Chip, call: Call, writeEnabled: bool)
    requires writeEnabled ==> c.enabled
    ensures var c' := Windows(c, CallFrames(call, writeEnabled));
      && c'.cells == ArrayAfter(c.cells, call)
      && c'.enabled == (c.enabled || !call.ReadCall?)
      && !c'.selected
  {
    hide Window, CallFrame, Windows;
    var f := CallFrame(call);
    if call.ReadCall? || writeEnabled {
      OneWindow(c, f);
      CallMeaning(c, call);
    } else {
      TwoWindows(c, ENABLE_FRAME, f);
      EnableMeaning(c);
      CallMeaning(Window(c, ENABLE_FRAME), call);
    }
  }

  /** Any sequence of driver calls is the same sequence of array operations. */
  lemma {:induction false} RunRefinesArray(c: Chip, writeEnabled: bool, calls: seq<Call>)
    requires writeEnabled ==> c.enabled
    ensures var r := WireRun(c, writeEnabled, calls);
      (r.0.cells, r.1) == ArrayRun(c.cells, calls)
    decreases |calls|
  {
    if calls != [] {
      var frames := CallFrames(calls[0], writeEnabled);
      CallRefinesArray(c, calls[0], writeEnabled);
      if calls[0].ReadCall? { CallMeaning(c, calls[0]); }
      RunRefinesArray(Windows(c, frames), writeEnabled || !calls[0].ReadCall?, calls[1..]);
    }
  }

  lemma ReadDoesNotProgram(address: nat)
    ensures !Programs(CallFrame(ReadCall(address)))
  {
    forall c: Chip ensures Window(c, CallFrame(ReadCall(address))).cells == c.cells {
      CallMeaning(c, ReadCall(address));
    }
  }

  lemma EnableDoesNotProgram()
    ensures !Programs(ENABLE_FRAME)
  {
    forall c: Chip ensures Window(c, ENABLE_FRAME).cells == c.cells {
      EnableMeaning(c);
    }
  }

  lemma CallEnabledFirst(call: Call, writeEnabled: bool)
    ensures EnabledFirst(CallFrames(call, writeEnabled), writeEnabled)
  {
    var f := CallFrame(call);
    if call.ReadCall? {
      ReadDoesNotProgram(call.address);
    } else if !writeEnabled {
      EnableDoesNotProgram();
      FirstEnables(ENABLE_FRAME, f);
    }
  }

  lemma FirstEnables(e: seq<Byte>, f: seq<Byte>)
    requires e == ENABLE_FRAME && !Programs(e)
    ensures EnabledFirst([e, f], false)
  {
    assert [e, f][..1] == [e];
  }

  lemma EnabledFirstConcat(a: seq<seq<Byte>>, b: seq<seq<Byte>>, already: bool, between: bool)
    requires EnabledFirst(a, already) && EnabledFirst(b, between)
    requires between ==> already || ENABLE_FRAME in a
    ensures EnabledFirst(a + b, already)
  {
    forall i | 0 <= i < |a + b| && Programs((a + b)[i])
      ensures already || ENABLE_FRAME in (a + b)[..i]
    {
      if i < |a| {
        assert (a + b)[..i] == a[..i];
      } else {
        assert (a + b)[..i] == a + b[..i - |a|];
      }
    }
  }

  /** In every run an enable goes out before the first window that can change a cell. */
  lemma {:induction false} RunEnablesFirst(c: Chip, writeEnabled: bool, calls: seq<Call>)
    ensures EnabledFirst(WireRun(c, writeEnabled, calls).2, writeEnabled)
    decreases |calls|
  {
    if calls != [] {
      var frames := CallFrames(calls[0], writeEnabled);
      var we := writeEnabled || !calls[0].ReadCall?;
      RunEnablesFirst(Windows(c, frames), we, calls[1..]);
      CallEnabledFirst(calls[0], writeEnabled);
      var rest := WireRun(Windows(c, frames), we, calls[1..]).2;
      EnabledFirstConcat(frames, rest, writeEnabled, we);
    }
  }

  /** With the part enabled, a programming window changes the array and keeps the wire in order. */
  lemma ProgramWindow(c: Chip, call: Call, wire: seq<seq<Byte>>)
    requires c.enabled && !call.ReadCall?
    requires EnabledFirst(wire, false) && ENABLE_FRAME in wire
    ensures var c' := Window(c, CallFrame(call));
      c'.cells == ArrayAfter(c.cells, call) && c'.enabled && !c'.selected
    ensures EnabledFirst(wire + [CallFrame(call)], false) && ENABLE_FRAME in wire + [CallFrame(call)]
  {
    hide Window, CallFrame;
    CallMeaning(c, call);
    EnabledFirstConcat(wire, [CallFrame(call)], false, true);
  }

  // ---- the driver ----

  class Driver {
    var writeEnabled: bool
    var chip: Chip
    /** What every chip-select window carried since power-up. */
    ghost var wire: seq<seq<Byte>>

    ghost predicate Valid()
      reads this
    {
      && !chip.selected
      && (writeEnabled ==> chip.enabled && ENABLE_FRAME in wire)
      && EnabledFirst(wire, false)
    }

    /** Power-up: the part comes up write-protected. */
    constructor (cells: Cells)
      ensures Valid() && !writeEnabled && chip.cells == cells && wire == []
    {
      writeEnabled := false;
      chip := Chip(cells, false, false, false, []);
      wire := [];
    }

    method AssertCS()
      modifies this`chip
      ensures chip == Select(old(chip))
    {
      chip := Select(chip);
    }

    method DeassertCS()
      modifies this`chip
      ensures chip == Deselect(old(chip))
    {
      chip := Deselect(chip);
    }

    /** One byte out and one byte in; `sent` is what this window already carried. */
    method SpiXfer(b: Byte, ghost c: Chip, ghost sent: seq<Byte>) returns (r: Byte)
      requires chip == Shift(Select(c), WireBits(sent)).0
      modifies this`chip
      ensures chip == Shift(Select(c), WireBits(sent + [b])).0
      ensures r == LastReceived(c, sent + [b])
    {
      assert WireBits(sent + [b]) == WireBits(sent) + BitsOf(b, 8) by {
        assert (sent + [b])[..|sent|] == sent;
      }
      ShiftConcat(Select(c), WireBits(sent), BitsOf(b, 8));
      var (c', levels) := Shift(chip, BitsOf(b, 8));
      chip := c';
      PowersOfTwo();
      r := Value(levels);
      assert Shift(Select(c), WireBits(sent + [b])).1[8 * |sent|..] == levels;
    }

    method SpiTransaction(command: nat, address: nat, data: Byte) returns (rbyte: Byte)
      modifies this`chip, this`wire
      ensures chip == Window(old(chip), TransactionFrame(command, address, data))
      ensures rbyte == LastReceived(old(chip), TransactionFrame(command, address, data))
      ensures wire == old(wire) + [TransactionFrame(command, address, data)]
    {
      var b1 := U8(Or(Shl(command, 2), Shr(And(address, 0x180), 7)));
      var b2 := U8(Or(Shl(And(address, 0x7f), 1), Shr(And(data, 0x80), 7)));
      var b3 := U8(Shl(And(data, 0x7f), 1));
      ghost var c, frame := chip, [b1, b2, b3];
      assert frame == TransactionFrame(command, address, data);
      AssertCS();
      rbyte := SpiXfer(b1, c, []);
      rbyte := SpiXfer(b2, c, [b1]);
      assert [b1] + [b2] == [b1, b2];
      rbyte := SpiXfer(b3, c, [b1, b2]);
      assert [b1, b2] + [b3] == frame;
      DeassertCS();
      wire := wire + [frame];
    }

    method SpiCMD(command: nat, address: nat)
      modifies this`chip, this`wire
      ensures chip == Window(old(chip), CommandFrame(command, address))
      ensures wire == old(wire) + [CommandFrame(command, address)]
    {
      var b1 := U8(Or(Shl(command, 1), Shr(And(address, 0x100), 8)));
      var b2 := U8(And(address, 0xff));
      ghost var c, frame := chip, [b1, b2];
      assert frame == CommandFrame(command, address);
      AssertCS();
      var _ := SpiXfer(b1, c, []);
      var _ := SpiXfer(b2, c, [b1]);
      assert [b1] + [b2] == frame;
      DeassertCS();
      wire := wire + [frame];
    }

    method WriteEnable()
      requires Valid()
      modifies this
      ensures Valid() && writeEnabled && chip.cells == old(chip.cells)
      ensures wire == old(wire) + if old(writeEnabled) then [] else [ENABLE_FRAME]
    {
      hide CommandFrame, Window;
      if writeEnabled { return; }
      EnableMeaning(chip);
      EnableDoesNotProgram();
      ghost var frame := ENABLE_FRAME;
      EnableFrameIs(0x4, 0x180);
      SpiCMD(0x4, 0x180);
      assert wire == old(wire) + [frame];
      writeEnabled := true;
      assert EnabledFirst([frame], false);
      EnabledFirstConcat(old(wire), [frame], false, false);
    }

    method EraseAll()
      requires Valid()
      modifies this
      ensures Valid() && writeEnabled
      ensures chip.cells == ArrayAfter(old(chip.cells), EraseAllCall)
      ensures wire == old(wire) + CallFrames(EraseAllCall, old(writeEnabled))
    {
      hide Window, TransactionFrame, CommandFrame, EnabledFirst;
      WriteEnable();
      ProgramWindow(chip, EraseAllCall, wire);
      SpiCMD(0x4, 0x100);
    }

    method Erase(address: nat)
      requires Valid() && address < 65536
      modifies this
      ensures Valid() && writeEnabled
      ensures chip.cells == ArrayAfter(old(chip.cells), EraseCall(address))
      ensures wire == old(wire) + CallFrames(EraseCall(address), old(writeEnabled))
    {
      hide Window, TransactionFrame, CommandFrame, EnabledFirst;
      WriteEnable();
      ProgramWindow(chip, EraseCall(address), wire);
      SpiCMD(0x7, address);
    }

    method Write(address: nat, data: Byte)
      requires Valid() && address < 65536
      modifies this
      ensures Valid() && writeEnabled
      ensures chip.cells == ArrayAfter(old(chip.cells), WriteCall(address, data))
      ensures wire == old(wire) + CallFrames(WriteCall(address, data), old(writeEnabled))
    {
      hide Window, TransactionFrame, CommandFrame, EnabledFirst;
      WriteEnable();
      ProgramWindow(chip, WriteCall(address, data), wire);
      var _ := SpiTransaction(0x5, address, data);
    }

    method Read(address: nat) returns (res: Byte)
      requires Valid() && address < 65536
      modifies this
      ensures Valid() && writeEnabled == old(writeEnabled)
      ensures chip.cells == old(chip.cells) && res == Cell(chip.cells, address)
      ensures wire == old(wire) + CallFrames(ReadCall(address), writeEnabled)
    {
      CallMeaning(chip, ReadCall(address));
      ReadDoesNotProgram(address);
      res := SpiTransaction(0x6, address, 0);
      EnabledFirstConcat(old(wire), [CallFrame(ReadCall(address))], false, writeEnabled);
    }
  }
}
