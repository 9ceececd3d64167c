/** The firmware's boot-time reader of the EEPROM map, app/cdcacm.c. */
module Cdcacm {
  import opened Bits
  import opened CStrings
  import opened EepromChip
  import opened Eeprom9366
  import opened Instrument
  import opened EepromLayout
  import opened Wrappers
  import Fletcher

  const MAGIC: Byte := 0xaa

  /** Room for each string and its terminator: manufacturer, product, serial number. */
  const ROOM := [64, 64, 24]

  function Word(cells: Cells, a: nat): nat
    requires a + 1 < SIZE
  {
    cells[a] as int + 256 * (cells[a + 1] as int)
  }

  /** A string is taken when neither its pointer nor its length is zero. */
  function BootString(cells: Cells, k: nat): Option<seq<Byte>>
    requires k < 3
  {
    if Pointer(cells, k) != 0 && Length(cells, k) != 0
    then Some(Fetch(cells, Pointer(cells, k), Length(cells, k)))
    else None
  }

  /** What the firmware makes of the three cells at h, whoever wrote them: the bytes from the
      pointer on, coming round at the end of the part, unless pointer or length is zero. */
  ghost predicate TakenAt(cells: Cells, h: nat, s: Option<seq<Byte>>)
    requires h + 2 < 512
  {
    var (p, n) := (cells[h] as int + 256 * (cells[h + 1] as int), cells[h + 2]);
    && (s.None? <==> p == 0 || n == 0)
    && (s.Some? ==> |s.value| == n && forall i :: 0 <= i < n ==> s.value[i] == cells[(p + i) % 512])
  }

  lemma TakesAnyPart(cells: Cells)
    ensures TakenAt(cells, 5, BootString(cells, 0))
    ensures TakenAt(cells, 8, BootString(cells, 1))
    ensures TakenAt(cells, 0xb, BootString(cells, 2))
  {
    assert HDR[0] == 5 && HDR[1] == 8 && HDR[2] == 0xb;
  }

  /** What the buffers demand of the EEPROM; the firmware itself does not check it. */
  predicate Fits(cells: Cells)
  {
    cells[0] == MAGIC ==>
      forall k :: 0 <= k < 3 && BootString(cells, k).Some? ==> Length(cells, k) < ROOM[k]
  }

  /** A buffer that received `s` and its terminator, or was left alone. */
  function Filled(buf: seq<Byte>, s: Option<seq<Byte>>): (r: seq<Byte>)
    requires s.Some? ==> |s.value| < |buf|
    ensures |r| == |buf|
  {
    if s.None? then buf else s.value + [0] + buf[|s.value| + 1..]
  }

  /** A string without NULs reads back from its buffer as itself. */
  lemma FilledText(buf: seq<Byte>, s: seq<Byte>)
    requires |s| < |buf| && NUL !in s
    ensures var b := Filled(buf, Some(s)); Terminated(b, 0) && Text(b, 0) == s
    ensures forall i :: |s| < i < |buf| ==> Filled(buf, Some(s))[i] == buf[i]
    ensures Filled(buf, None) == buf
  {
  }

  // ---- the host's image, read by the firmware ----

  /** The two polarity bytes, one a switch. */
  type Polarity = p: seq<Byte> | |p| == 2 witness [0, 0]

  function Identified(cells: Cells, vid: nat, pid: nat, pol: Polarity): Cells
  {
    Store(Store(Store(cells, 0, [MAGIC]), 1, LE16(vid) + LE16(pid)), 0xe, pol)
  }

  /** Magic, VID, PID and polarity first, then the strings. */
  function HostImage(cells: Cells, vid: nat, pid: nat, pol: Polarity, ss: Strings): Cells
  {
    WriteStrings(Identified(cells, vid, pid, pol), ss)
  }

  lemma IdentifiedCells(cells: Cells, vid: nat, pid: nat, pol: Polarity)
    requires vid < 65536 && pid < 65536
    ensures var c := Identified(cells, vid, pid, pol);
      && c[0] == 0xaa && c[1..5] == [vid % 256, vid / 256, pid % 256, pid / 256] && c[0xe..0x10] == pol
      && Word(c, 1) == vid && Word(c, 3) == pid
  {
    hide Store;
    var (c0, ids) := (Store(cells, 0, [MAGIC]), LE16(vid) + LE16(pid));
    var c1 := Store(c0, 1, ids);
    StoreAt(cells, 0, [MAGIC]);
    StoreAt(c0, 1, ids);
    StoreAt(c1, 0xe, pol);
    assert ids == [vid % 256, vid / 256, pid % 256, pid / 256];
  }

  lemma ImageIds(cells: Cells, vid: nat, pid: nat, pol: Polarity, ss: Strings)
    requires vid < 65536 && pid < 65536 && Start(4, ss) <= SIZE
    ensures var f := HostImage(cells, vid, pid, pol, ss);
      && f[0] == 0xaa && f[1..5] == [vid % 256, vid / 256, pid % 256, pid / 256] && f[0xe..0x10] == pol
      && Word(f, 1) == vid && Word(f, 3) == pid
  {
    hide WriteStrings, Start, Identified, Joined, Latest;
    var c := Identified(cells, vid, pid, pol);
    IdentifiedCells(cells, vid, pid, pol);
    forall i | 0 <= i < 5 || 0xe <= i < 0x10 ensures WriteStrings(c, ss)[i] == c[i] {
      WriteStringsFrame(c, ss, i);
    }
    var f := WriteStrings(c, ss);
    assert f[1..5] == c[1..5] && f[0xe..0x10] == c[0xe..0x10];
  }

  lemma BootWritten(f: Cells, k: nat, ss: Strings)
    requires k < 3 && Short(ss) && Written(f, k, ss)
    ensures BootString(f, k) == if ss[k] == [] then None else Some(ss[k])
    ensures Length(f, k) == |ss[k]|
  {
    hide Written, Pointer, Length, Fetch;
    HeaderWritten(f, k, ss);
    FetchWritten(f, k, ss);
  }

  /** The firmware decodes exactly what the host encoded: its IDs, its polarities, its strings, and
      nothing for a string that is empty. The buffers hold it exactly when the strings are short
      enough, which the host does not enforce. */
  lemma HostAndFirmwareAgree(cells: Cells, vid: nat, pid: nat, pol: Polarity, ss: Strings)
    requires vid < 65536 && pid < 65536 && Short(ss) && Start(4, ss) <= SIZE
    ensures var f := HostImage(cells, vid, pid, pol, ss);
      && f[0] == 0xaa && f[1..5] == [vid % 256, vid / 256, pid % 256, pid / 256] && f[0xe..0x10] == pol
      && Word(f, 1) == vid && Word(f, 3) == pid
      && (forall k :: 0 <= k < 3 ==> BootString(f, k) == if ss[k] == [] then None else Some(ss[k]))
      && (Fits(f) <==> |ss[0]| <= 63 && |ss[1]| <= 63 && |ss[2]| <= 23)
  {
    hide HostImage, Written, BootString, WriteStrings;
    var f := HostImage(cells, vid, pid, pol, ss);
    ImageIds(cells, vid, pid, pol, ss);
    assert f == WriteStrings(Identified(cells, vid, pid, pol), ss) by { ImageUnfolds(cells, vid, pid, pol, ss); }
    forall k | 0 <= k < 3
      ensures BootString(f, k) == if ss[k] == [] then None else Some(ss[k])
      ensures Length(f, k) == |ss[k]|
    {
      AllWritten(Identified(cells, vid, pid, pol), ss, k);
      BootWritten(f, k, ss);
    }
    hide Length, Word;
    FitsIff(f, ss);
  }

  lemma FitsIff(f: Cells, ss: Strings)
    requires f[0] == MAGIC
    requires forall k :: 0 <= k < 3 ==>
      BootString(f, k) == (if ss[k] == [] then None else Some(ss[k])) && Length(f, k) == |ss[k]|
    ensures Fits(f) <==> |ss[0]| <= 63 && |ss[1]| <= 63 && |ss[2]| <= 23
  {
    hide BootString, Length;
    assert ROOM[0] == 64 && ROOM[1] == 64 && ROOM[2] == 24;
    if Fits(f) {
      forall k | 0 <= k < 3 && ss[k] != [] ensures |ss[k]| < ROOM[k] { assert BootString(f, k).Some?; }
    }
  }

  lemma ImageUnfolds(cells: Cells, vid: nat, pid: nat, pol: Polarity, ss: Strings)
    ensures HostImage(cells, vid, pid, pol, ss) == WriteStrings(Identified(cells, vid, pid, pol), ss)
  {
  }

  // ---- the reader ----

  /** A buffer that has received the first j cells. */
  function CopiedSoFar(cells: Cells, addr: nat, j: nat, before: seq<Byte>): (r: seq<Byte>)
    requires j <= |before|
    ensures |r| == |before|
  {
    Fetch(cells, addr, j) + before[j..]
  }

  /** One turn of the copy: the next address, and the buffer with one more cell in it. */
  lemma CopyStep(cells: Cells, addr: nat, j: nat, before: seq<Byte>)
    requires j < |before|
    ensures var a := U16(addr + j);
      && a < 65536 && U16(a + 1) == U16(addr + (j + 1))
      && CopiedSoFar(cells, addr, j, before)[j := Cell(cells, a)] == CopiedSoFar(cells, addr, j + 1, before)
  {
    WrapKeepsCell(addr + j);
    NextAddress(addr + j);
    FetchExtends(cells, addr, j);
    hide Fetch, U16;
    assert before[j..][1..] == before[j + 1..];
  }

  lemma CopyStarts(cells: Cells, addr: nat, before: seq<Byte>)
    requires addr < 65536
    ensures CopiedSoFar(cells, addr, 0, before) == before && U16(addr) == addr
  {
    assert Fetch(cells, addr, 0) == [];
    Fletcher.U16Fits(addr);
  }

  lemma CopyEnds(cells: Cells, addr: nat, len: nat, before: seq<Byte>)
    requires len < |before|
    ensures CopiedSoFar(cells, addr, len, before)[len := 0] == Filled(before, Some(Fetch(cells, addr, len)))
  {
    hide Fetch;
    assert before[len..][1..] == before[len + 1..];
  }

  /** The buffer must have room for the terminator; the code does not check. */
  method CopyFromEE(eeprom: Driver, dest: array<Byte>, addr: nat, len: Byte)
    requires eeprom.Valid() && addr < 65536 && len < dest.Length
    modifies dest, eeprom
    ensures eeprom.Valid() && eeprom.chip.cells == old(eeprom.chip.cells)
    ensures dest[..] == Filled(old(dest[..]), Some(Fetch(eeprom.chip.cells, addr, len)))
  {
    hide Fetch, CopiedSoFar, Filled, U16, Cell, CallFrames, EnabledFirst;
    ghost var before, cells := dest[..], eeprom.chip.cells;
    var a := addr;
    CopyStarts(cells, addr, before);
    for j := 0 to len
      invariant eeprom.Valid() && eeprom.chip.cells == cells && a == U16(addr + j)
      invariant dest[..] == CopiedSoFar(cells, addr, j, before)
    {
      CopyStep(cells, addr, j, before);
      var b := eeprom.Read(a);
      ghost var sofar := dest[..];
      dest[j] := b;
      assert dest[..] == sofar[j := b];
      a := U16(a + 1);
    }
    CopyEnds(cells, addr, len, before);
    ghost var copied := dest[..];
    dest[len] := 0;
    assert dest[..] == copied[len := 0];
  }

  class UsbIdentity {
    const eeprom: Driver
    const serialNumber: array<Byte>
    const manufacturer: array<Byte>
    const product: array<Byte>
    var vendorID: nat
    var productID: nat
    var devVendor: nat     // dev.idVendor
    var devProduct: nat    // dev.idProduct
    var polarity: seq<(nat, Byte)>   // the setPulseHigh calls made: switch, setting

    ghost predicate Valid()
      reads this, eeprom
    {
      && eeprom.Valid()
      && serialNumber.Length == 24 && manufacturer.Length == 64 && product.Length == 64
      && serialNumber != manufacturer && serialNumber != product && manufacturer != product
    }

    constructor (eeprom: Driver)
      requires eeprom.Valid()
      ensures Valid() && this.eeprom == eeprom
      ensures fresh(serialNumber) && fresh(manufacturer) && fresh(product)
      ensures vendorID == 0x4161 && productID == 0x00ff && polarity == []
    {
      this.eeprom := eeprom;
      serialNumber := new Byte[24](_ => 0);
      manufacturer := new Byte[64](_ => 0);
      product := new Byte[64](_ => 0);
      vendorID, productID, devVendor, devProduct := 0x4161, 0x00ff, 0x4161, 0x00ff;
      polarity := [];
    }

    method ReadWord(addr: nat) returns (w: nat)
      requires Valid() && addr + 1 < SIZE
      modifies eeprom
      ensures Valid() && eeprom.chip.cells == old(eeprom.chip.cells)
      ensures w == Word(eeprom.chip.cells, addr)
    {
      hide CallFrames, EnabledFirst;
      SmallAddress(addr);
      SmallAddress(addr + 1);
      var lo := eeprom.Read(addr);
      var hi := eeprom.Read(addr + 1);
      w := FromLE(lo, hi);
    }

    /** One string of the map: pointer, length, and a copy when neither is zero. */
    method ReadEEString(dest: array<Byte>, k: nat)
      requires Valid() && k < 3 && dest.Length == ROOM[k]
      requires BootString(eeprom.chip.cells, k).Some? ==> Length(eeprom.chip.cells, k) < ROOM[k]
      modifies dest, eeprom
      ensures Valid() && eeprom.chip.cells == old(eeprom.chip.cells)
      ensures dest[..] == Filled(old(dest[..]), BootString(eeprom.chip.cells, k))
    {
      hide CallFrames, EnabledFirst, Fetch;
      var strPtr := ReadWord(HDR[k]);
      var strLen := eeprom.Read(HDR[k] + 2);
      if strPtr != 0 && strLen != 0 {
        CopyFromEE(eeprom, dest, strPtr, strLen);
      }
    }

    /** Fills the descriptor fields and strings from a valid EEPROM, and keeps the defaults of
        whatever it does not name. */
    method ReadEEprom()
      requires Valid() && Fits(eeprom.chip.cells)
      modifies this, eeprom, serialNumber, manufacturer, product
      ensures Valid() && eeprom.chip.cells == old(eeprom.chip.cells)
      ensures var c := eeprom.chip.cells;
        if c[0] != 0xaa then
          && unchanged(`vendorID, `productID, `devVendor, `devProduct, `polarity)
          && unchanged(serialNumber, manufacturer, product)
        else
          && vendorID == (if Word(c, 1) != 0 then Word(c, 1) else old(vendorID))
          && devVendor == (if Word(c, 1) != 0 then Word(c, 1) else old(devVendor))
          && productID == (if Word(c, 3) != 0 then Word(c, 3) else old(productID))
          && devProduct == (if Word(c, 3) != 0 then Word(c, 3) else old(devProduct))
          && manufacturer[..] == Filled(old(manufacturer[..]), BootString(c, 0))
          && product[..] == Filled(old(product[..]), BootString(c, 1))
          && serialNumber[..] == Filled(old(serialNumber[..]), BootString(c, 2))
          && TakenAt(c, 5, BootString(c, 0)) && TakenAt(c, 8, BootString(c, 1)) && TakenAt(c, 0xb, BootString(c, 2))
          && polarity == old(polarity) + (if c[0xe] <= 1 then [(1, c[0xe])] else [])
                                       + (if c[0xf] <= 1 then [(2, c[0xf])] else [])
    {
      TakesAnyPart(eeprom.chip.cells);
      hide Filled, Fits, BootString, Word, TakenAt, CallFrames, EnabledFirst;
      var dataValid := eeprom.Read(0);
      if dataValid != MAGIC { return; }
      FitsEach(eeprom.chip.cells);
      ReadIds();
      ReadEEString(manufacturer, 0);
      ReadEEString(product, 1);
      ReadEEString(serialNumber, 2);
      ReadPolarity();
    }

    method ReadIds()
      requires Valid()
      modifies this`vendorID, this`productID, this`devVendor, this`devProduct, eeprom
      ensures Valid() && eeprom.chip.cells == old(eeprom.chip.cells)
      ensures var (v, p) := (Word(eeprom.chip.cells, 1), Word(eeprom.chip.cells, 3));
        && vendorID == (if v != 0 then v else old(vendorID))
        && devVendor == (if v != 0 then v else old(devVendor))
        && productID == (if p != 0 then p else old(productID))
        && devProduct == (if p != 0 then p else old(devProduct))
    {
      var vid := ReadWord(1);
      if vid != 0 { devVendor, vendorID := vid, vid; }
      var pid := ReadWord(3);
      if pid != 0 { devProduct, productID := pid, pid; }
    }

    method ReadPolarity()
      requires Valid()
      modifies this`polarity, eeprom
      ensures Valid() && eeprom.chip.cells == old(eeprom.chip.cells)
      ensures var c := eeprom.chip.cells;
        polarity == old(polarity) + (if c[0xe] <= 1 then [(1, c[0xe])] else [])
                                  + (if c[0xf] <= 1 then [(2, c[0xf])] else [])
    {
      hide CallFrames, EnabledFirst;
      var s1 := eeprom.Read(0xe);
      if s1 == 0 || s1 == 1 { polarity := polarity + [(1, s1)]; }
      var s2 := eeprom.Read(0xf);
      if s2 == 0 || s2 == 1 { polarity := polarity + [(2, s2)]; }
    }
  }

  lemma FitsEach(cells: Cells)
    requires cells[0] == MAGIC && Fits(cells)
    ensures BootString(cells, 0).Some? ==> Length(cells, 0) < ROOM[0]
    ensures BootString(cells, 1).Some? ==> Length(cells, 1) < ROOM[1]
    ensures BootString(cells, 2).Some? ==> Length(cells, 2) < ROOM[2]
  {
  }
}
