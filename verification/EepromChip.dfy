/**
 * The serial EEPROM as its pins see it: a 512-byte part that is clocked one bit at a time.
 * The repository only states the instruction shape (app/eeprom9366.c:19); the rest is the
 * model's assumption about the part: leading zeros are skipped until the start bit, read data
 * is preceded by one dummy bit, surplus clocks are ignored, and an instruction takes effect
 * when chip select falls.
 */
module EepromChip {
  import opened Bits

  const SIZE := 512

  type Cells = c: seq<Byte> | |c| == 512 witness seq(512, _ => 0)

  /** The cell a nine-bit address selects. */
  function Cell(cells: Cells, address: nat): Byte { cells[address % SIZE] }

  datatype Instr =
    | Read(address: nat)
    | Write(address: nat, data: Byte)
    | Erase(address: nat)
    | EraseAll
    | WriteAll(data: Byte)
    | Enable
    | Disable
    | Incomplete

  /** `tail` is what was clocked in after the start bit. */
  datatype Chip = Chip(cells: Cells, enabled: bool, selected: bool, started: bool, tail: seq<bool>)

  /** Two opcode bits, nine address bits, then eight data bits. */
  function Decode(tail: seq<bool>): (i: Instr)
    ensures i.Read? || i.Write? || i.Erase? ==> i.address < SIZE
  {
    PowersOfTwo();
    if |tail| < 11 then Incomplete
    else
      var address := Value(tail[2..11]);
      match (tail[0], tail[1])
      case (true, true) => Erase(address)
      case (true, false) => Read(address)
      case (false, true) => if |tail| < 19 then Incomplete else Write(address, Value(tail[11..19]))
      case (false, false) =>
        match (tail[2], tail[3])
        case (true, true) => Enable
        case (true, false) => EraseAll
        case (false, true) => if |tail| < 19 then Incomplete else WriteAll(Value(tail[11..19]))
        case (false, false) => Disable
  }

  /** The level on the data output when the clock samples it after `tail`. */
  predicate Level(cells: Cells, tail: seq<bool>)
  {
    12 <= |tail| < 20 && Decode(tail).Read? && Bit(cells[Decode(tail).address], 19 - |tail|)
  }

  function Clock(c: Chip, din: bool): Chip
  {
    if !c.selected then c
    else if !c.started then c.(started := din)
    else c.(tail := c.tail + [din])
  }

  /** Clocks in `bits` and collects the output levels seen on the way. */
  function Shift(c: Chip, bits: seq<bool>): (r: (Chip, seq<bool>))
    ensures |r.1| == |bits|
    decreases |bits|
  {
    if bits == [] then (c, [])
    else
      var level := c.selected && c.started && Level(c.cells, c.tail);
      var (c', levels) := Shift(Clock(c, bits[0]), bits[1..]);
      (c', [level] + levels)
  }

  function Select(c: Chip): Chip { c.(selected := true, started := false, tail := []) }

  function Deselect(c: Chip): Chip
  {
    var idle := c.(selected := false, started := false, tail := []);
    if c.selected && c.started then Execute(idle, Decode(c.tail)) else idle
  }

  function Execute(c: Chip, i: Instr): Chip
    requires i.Read? || i.Write? || i.Erase? ==> i.address < SIZE
  {
    match i
    case Enable => c.(enabled := true)
    case Disable => c.(enabled := false)
    case Write(a, d) => if c.enabled then c.(cells := c.cells[a := d]) else c
    case Erase(a) => if c.enabled then c.(cells := c.cells[a := 0xff]) else c
    case EraseAll => if c.enabled then c.(cells := seq(SIZE, _ => 0xff)) else c
    case WriteAll(d) => if c.enabled then c.(cells := seq(SIZE, _ => d)) else c
    case Read(_) => c
    case Incomplete => c
  }

  /** The bits of the bytes the master sends while the part is selected. */
  function WireBits(frame: seq<Byte>): (s: seq<bool>)
    ensures |s| == 8 * |frame|
  {
    if frame == [] then [] else WireBits(frame[..|frame| - 1]) + BitsOf(frame[|frame| - 1], 8)
  }

  /** Everything between chip select rising and falling: the part afterwards. */
  function Window(c: Chip, frame: seq<Byte>): Chip
  {
    Deselect(Shift(Select(c), WireBits(frame)).0)
  }

  lemma {:induction false} ShiftConcat(c: Chip, a: seq<bool>, b: seq<bool>)
    ensures Shift(c, a + b).0 == Shift(Shift(c, a).0, b).0
    ensures Shift(c, a + b).1 == Shift(c, a).1 + Shift(Shift(c, a).0, b).1
    decreases |a|
  {
    if a == [] {
      assert a + b == b;
    } else {
      assert (a + b)[1..] == a[1..] + b;
      ShiftConcat(Clock(c, a[0]), a[1..], b);
    }
  }

  /** Before the start bit only zeros are skipped. */
  lemma {:induction false} ShiftZeros(c: Chip, bits: seq<bool>)
    requires c.selected && !c.started && forall i :: 0 <= i < |bits| ==> !bits[i]
    ensures Shift(c, bits).0 == c
    decreases |bits|
  {
    if bits != [] { ShiftZeros(c, bits[1..]); }
  }

  /** After it every bit is kept, and the output follows the bits received so far. */
  lemma {:induction false} ShiftStarted(c: Chip, bits: seq<bool>)
    requires c.selected && c.started
    ensures Shift(c, bits).0 == c.(tail := c.tail + bits)
    ensures forall i :: 0 <= i < |bits| ==> Shift(c, bits).1[i] == Level(c.cells, c.tail + bits[..i])
    decreases |bits|
  {
    hide Level;
    if bits == [] {
      assert c.tail + bits == c.tail;
    } else {
      var c1 := Clock(c, bits[0]);
      ShiftStarted(c1, bits[1..]);
      assert c1.tail + bits[1..] == c.tail + bits;
      forall i | 0 <= i < |bits|
        ensures Shift(c, bits).1[i] == Level(c.cells, c.tail + bits[..i])
      {
        if i == 0 {
          assert c.tail + bits[..0] == c.tail;
        } else {
          assert c1.tail + bits[1..][..i - 1] == c.tail + bits[..i];
        }
      }
    }
  }

  /** Zeros, the start bit, then bits that are kept. */
  lemma ShiftFramed(s: Chip, zeros: seq<bool>, tail: seq<bool>)
    requires s.selected && !s.started && s.tail == [] && forall i :: 0 <= i < |zeros| ==> !zeros[i]
    ensures var (r, late) := (Shift(s, zeros + [true] + tail), Shift(s.(started := true), tail));
      r.0 == s.(started := true, tail := tail) && r.1 == Shift(s, zeros + [true]).1 + late.1
  {
    var s1 := s.(started := true);
    assert s1.tail + tail == tail;
    ShiftZeros(s, zeros);
    ShiftOne(s);
    ShiftStarted(s1, tail);
    hide Shift;
    ShiftConcat(s, zeros, [true]);
    ShiftConcat(s, zeros + [true], tail);
  }

  /** The output during one of those bits. */
  lemma LevelAt(s: Chip, zeros: seq<bool>, tail: seq<bool>, i: nat)
    requires s.selected && !s.started && s.tail == [] && forall i :: 0 <= i < |zeros| ==> !zeros[i]
    requires i < |tail|
    ensures Shift(s, zeros + [true] + tail).1[|zeros| + 1 + i] == Level(s.cells, tail[..i])
  {
    hide Level, Shift;
    var s1 := s.(started := true);
    ShiftFramed(s, zeros, tail);
    ShiftStarted(s1, tail);
    assert s1.tail + tail[..i] == tail[..i];
  }

  lemma ShiftOne(s: Chip)
    requires s.selected && !s.started
    ensures Shift(s, [true]).0 == s.(started := true)
  {
    assert [true][1..] == [];
  }

  /** A window's meaning: zeros, the start bit, then the instruction. */
  lemma WindowExecutes(c: Chip, frame: seq<Byte>, zeros: seq<bool>, tail: seq<bool>)
    requires WireBits(frame) == zeros + [true] + tail
    requires forall i :: 0 <= i < |zeros| ==> !zeros[i]
    ensures Window(c, frame) == Execute(c.(selected := false, started := false, tail := []), Decode(tail))
    ensures forall i :: 0 <= i < |tail| ==>
      Shift(Select(c), WireBits(frame)).1[|zeros| + 1 + i] == Level(c.cells, tail[..i])
  {
    hide Decode, Execute, Level, WireBits, Shift;
    ShiftFramed(Select(c), zeros, tail);
    forall i | 0 <= i < |tail|
      ensures Shift(Select(c), WireBits(frame)).1[|zeros| + 1 + i] == Level(c.cells, tail[..i])
    {
      LevelAt(Select(c), zeros, tail, i);
    }
  }
}
