/** A device is configured over USB with the host library, boots from what it was told, and is
    asked who it is. */
module EndToEnd {
  import opened Bits
  import opened Wrappers
  import opened EepromChip
  import opened EepromLayout
  import opened Instrument
  import opened AttenSwitch
  import opened Cdcacm
  import Eeprom9366
  import HvSupply
  import Spdt

  /** Through every layer, from the host's strings over packets, dispatcher, driver and serial
      bits and back: the host reads what it wrote, and the firmware comes up as told. */
  method ConfigureAndBoot(h: Host, usb: UsbIdentity, vid: nat, pid: nat, s1: int, s2: int, ss: Strings)
    returns (back: Strings, info: seq<Byte>)
    requires h.Valid() && usb.Valid() && usb.eeprom == h.dev.eeprom
    requires {h.dev.inbuf, h.dev.outbuf} !! {usb.manufacturer, usb.product, usb.serialNumber}
    requires 0 < vid < 65536 && 0 < pid < 65536
    requires Short(ss) && Start(4, ss) < SIZE
    requires |ss[0]| <= 63 && |ss[1]| <= 63 && |ss[2]| <= 23
    modifies h.dev, h.dev.inbuf, h.dev.outbuf, h.dev.eeprom
    modifies usb, usb.manufacturer, usb.product, usb.serialNumber
    ensures h.Valid() && usb.Valid() && back == ss
    ensures var pol := PolarityBytes(s1, Some(s2));
      && h.Cells() == HostImage(old(h.Cells()), vid, pid, pol, ss)
      && usb.polarity == old(usb.polarity) + [(1, if s1 != 0 then 1 else 0), (2, if s1 != 0 || s2 != 0 then 1 else 0)]
    ensures usb.vendorID == usb.devVendor == vid && usb.productID == usb.devProduct == pid
    ensures usb.manufacturer[..] == Filled(old(usb.manufacturer[..]), if ss[0] == [] then None else Some(ss[0]))
    ensures usb.product[..] == Filled(old(usb.product[..]), if ss[1] == [] then None else Some(ss[1]))
    ensures usb.serialNumber[..] == Filled(old(usb.serialNumber[..]), if ss[2] == [] then None else Some(ss[2]))
    ensures |info| == 16 && info[0] == pid % 256
  {
    hide WriteStrings, ReadStrings, Store, BootString, Filled, Start, Fits, Word, Eeprom9366.EnabledFirst;
    ghost var cells, pol := h.Cells(), PolarityBytes(s1, Some(s2));
    back := Configure(h, vid, pid, s1, s2, ss);
    HostAndFirmwareAgree(cells, vid, pid, pol, ss);
    usb.ReadEEprom();
    info := AskIdentity(h, usb);
  }

  /** The host's part, with every string read back. */
  method Configure(h: Host, vid: nat, pid: nat, s1: int, s2: int, ss: Strings) returns (back: Strings)
    requires h.Valid() && 0 < vid < 65536 && 0 < pid < 65536 && Short(ss) && Start(4, ss) < SIZE
    modifies h.dev, h.dev.inbuf, h.dev.outbuf, h.dev.eeprom
    ensures h.Valid() && back == ss
    ensures h.Cells() == HostImage(old(h.Cells()), vid, pid, PolarityBytes(s1, Some(s2)), ss)
  {
    hide WriteStrings, ReadStrings, Start, NamedAt, Identified, Eeprom9366.EnabledFirst;
    ghost var cells, pol := h.Cells(), PolarityBytes(s1, Some(s2));
    WriteIdentity(h, vid, pid, s1, s2);
    h.WriteEEStrings(ss);
    RoundTrip(Identified(cells, vid, pid, pol), ss);
    back := h.ReadEEStrings();
  }

  /** Everything but the strings. */
  method WriteIdentity(h: Host, vid: nat, pid: nat, s1: int, s2: int)
    requires h.Valid() && 0 < vid < 65536 && 0 < pid < 65536
    modifies h.dev, h.dev.inbuf, h.dev.outbuf, h.dev.eeprom
    ensures h.Valid() && h.Cells() == Identified(old(h.Cells()), vid, pid, PolarityBytes(s1, Some(s2)))
  {
    hide Store, PolarityBytes, LE16, Eeprom9366.EnabledFirst;
    ghost var cells := h.Cells();
    StoreOne(cells, MAGIC);
    var _ := h.EeMagic(Some(MAGIC as int));
    var _, _ := h.EeVidPid(Some(vid), Some(pid));
    var _, _ := h.EePolarity(Some(s1), Some(s2));
  }

  /** The dispatcher starts with the product ID that was read at boot; the endpoint behaves as before. */
  method AskIdentity(h: Host, usb: UsbIdentity) returns (info: seq<Byte>)
    requires h.Valid() && usb.Valid() && usb.eeprom == h.dev.eeprom
    modifies h.dev.eeprom
    ensures h.Valid() && usb.Valid() && h.Cells() == old(h.Cells())
    ensures |info| == 16 && info[0] == usb.productID % 256
  {
    var task := new InstrumentTask(usb.eeprom, usb.productID, h.dev.build, h.dev.takes, h.dev.stack);
    assert forall n: nat :: h.dev.Delivers(n) ==> task.Delivers(n);
    var restarted := new Host(task);
    info := restarted.Identify();
  }

  /** From the host's call to the coil: the relay asked for gets its pulse, and with a supply that
      only the timer turns off it ends up where it was sent. */
  method MoveRelay(h: Host, board: Spdt.Board, sw: Byte, sel: Byte) returns (ok: bool)
    requires h.Valid() && board.Valid()
    modifies h.dev, h.dev.inbuf, h.dev.outbuf, h.dev.eeprom, board
    ensures h.Valid() && board.Valid() && ok && h.Cells() == old(h.Cells())
    ensures Spdt.HasPulse(board.trace, |old(board.trace)|, old(board.pins),
                          if sw == 0 then Spdt.SW1 else Spdt.SW2, if sel == 0 then Spdt.J1 else Spdt.J2)
    ensures old(HvSupply.Supervised(board.hv)) ==>
      && board.latch1 == (if sw == 0 then Some(if sel == 0 then Spdt.J1 else Spdt.J2) else old(board.latch1))
      && board.latch2 == (if sw != 0 then Some(if sel == 0 then Spdt.J1 else Spdt.J2) else old(board.latch2))
  {
    hide Spdt.HasPulse, Spdt.Recorded;
    ok := h.Spdt(sw, sel);
    var told := h.dev.actions[|h.dev.actions| - 1];
    if HvSupply.Supervised(board.hv) { HvSupply.RunSupervised(board.hv, []); }
    board.SpdtSet(told.swtch, told.sel);
  }

  lemma StoreOne(cells: Cells, b: Byte)
    ensures Store(cells, 0, [b]) == cells[0 := b]
  {
    assert [b][..0] == [];
  }
}
