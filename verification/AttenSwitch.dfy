/** The EEPROM half of the host library, perl/AttenSwitch.pm. */
module AttenSwitch {
  import opened Bits
  import opened EepromChip
  import opened Eeprom9366
  import opened Instrument
  import opened EepromLayout
  import opened Wrappers
  import Fletcher

  // ---- packets ----

  /** The host's own inbound checksum, which the firmware never looks at. */
  function SimpleSum(payload: seq<Byte>): nat
  {
    if payload == [] then 0 else (SimpleSum(payload[..|payload| - 1]) + payload[|payload| - 1]) % 65536
  }

  /** AttenSwitch::Packet::make */
  function Make(command: Byte, payload: seq<Byte>): seq<Byte>
  {
    [1] + LE16(|payload| + HEADER) + [command] + LE16(SimpleSum(payload)) + payload
  }

  /** The bytes of a packet: version 1, length, command, the sum of the payload, the payload. */
  lemma MadeBytes(command: Byte, payload: seq<Byte>)
    requires |payload| <= 58
    ensures var w := Make(command, payload);
      && w[0] == 1 && w[1] as int + 256 * (w[2] as int) == |w| == 6 + |payload| && w[3] == command
      && w[4] as int + 256 * (w[5] as int) == Fletcher.Sum(payload)
      && w[6..] == payload
  {
    SimpleSumIsSum(payload);
    hide SimpleSum, LE16;
    MadeParts(command, payload, LE16(|payload| + HEADER), LE16(SimpleSum(payload)));
    TwoBytes(|payload| + HEADER);
    TwoBytes(SimpleSum(payload));
  }

  lemma TwoBytes(x: nat)
    requires x < 65536
    ensures LE16(x)[0] as int + 256 * (LE16(x)[1] as int) == x
  {
  }

  lemma MadeParts(command: Byte, payload: seq<Byte>, len: seq<Byte>, sum: seq<Byte>)
    requires |len| == 2 && |sum| == 2
    ensures var w := [1] + len + [command] + sum + payload;
      && |w| == 6 + |payload| && w[0] == 1 && w[1] == len[0] && w[2] == len[1] && w[3] == command
      && w[4] == sum[0] && w[5] == sum[1] && w[6..] == payload
  {
  }

  lemma {:induction false} SimpleSumIsSum(payload: seq<Byte>)
    requires |payload| <= 58
    ensures SimpleSum(payload) == Fletcher.Sum(payload) <= 255 * |payload|
    decreases |payload|
  {
    if payload != [] {
      var n := |payload| - 1;
      SimpleSumIsSum(payload[..n]);
      assert payload == payload[..n] + [payload[n]];
      Fletcher.SumConcat(payload[..n], [payload[n]]);
      assert [payload[n]][1..] == [];
    }
  }

  datatype Reply = Reply(version: Byte, command: Byte, payload: seq<Byte>)

  /** AttenSwitch::Packet::from_bytes */
  function FromBytes(p: seq<Byte>): Reply
    requires |p| >= HEADER
  {
    Reply(p[0], p[3], p[HEADER..])
  }

  /** Every packet the EEPROM methods build is a request the firmware understands. */
  lemma MadeIsWellFormed(command: Byte, payload: seq<Byte>)
    requires |payload| <= 58
    requires command == CMD_WRITEEE ==> |payload| >= 3
    requires command == CMD_READEE || command == CMD_SPDT ==> |payload| >= 2
    requires command == CMD_BLINK ==> |payload| >= 1
    ensures WellFormed(Make(command, payload))
  {
  }

  lemma WrittenCell(w: seq<Byte>, cells: Cells, addr: nat, data: Byte)
    requires WellFormed(w) && w == Make(CMD_WRITEEE, LE16(addr) + [data])
    ensures Stored(w, cells) == cells[addr % SIZE := data]
  {
    hide SimpleSum;
    assert w[3] == CMD_WRITEEE && w[6..] == LE16(addr) + [data];
    assert w[6] == LE16(addr)[0] && w[7] == LE16(addr)[1] && w[8] == data;
    SixteenThenNine(addr);
  }

  lemma ReadCell(w: seq<Byte>, cells: Cells, addr: nat, id: seq<Byte>)
    requires WellFormed(w) && w == Make(CMD_READEE, LE16(addr)) && |id| == 58
    ensures var r := FromBytes(ReplyTo(w, cells, id));
      r.command == CMD_READEE && r.payload == LE16(addr) + [cells[addr % SIZE]]
    ensures Stored(w, cells) == cells
  {
    hide SimpleSum, ReplyTo, Stored;
    assert w[3] == CMD_READEE && w[6..8] == LE16(addr);
    assert w[6] == LE16(addr)[0] && w[7] == LE16(addr)[1];
    ReadReply(w, cells, id);
    SixteenThenNine(addr);
  }

  lemma StoreExtends(cells: Cells, addr: nat, val: seq<Byte>, k: nat)
    requires k < |val|
    ensures Store(cells, addr, val[..k + 1]) == Store(cells, addr, val[..k])[(addr + k) % SIZE := val[k]]
  {
    assert val[..k + 1][..k] == val[..k];
  }

  /** What eePolarity(s1, s2) writes: a zero or missing second value becomes the first. */
  function PolarityBytes(s1: int, s2: Option<int>): (r: seq<Byte>)
    ensures |r| == 2
  {
    var s2 := if s2.Some? && s2.value != 0 then s2.value else s1;
    [if s1 != 0 then 1 else 0, if s2 != 0 then 1 else 0]
  }

  /** eePolarity stores the pair it is given unless that pair is (nonzero, zero), which it stores
      as two ones. */
  lemma PolarityStored(s1: int, s2: int)
    ensures s1 != 0 && s2 == 0 ==> PolarityBytes(s1, Some(s2)) == [1, 1]
    ensures PolarityBytes(s1, Some(s2)) == [Bool2Int(s1 != 0), Bool2Int(s2 != 0)] <==> !(s1 != 0 && s2 == 0)
  {
  }

  lemma FourBytes(v: nat, p: nat)
    requires v < 65536 && p < 65536
    ensures LE16(v) + LE16(p) == [v % 256, v / 256, p % 256, p / 256]
  {
  }

  lemma PlainWords(lo: Byte, hi: Byte)
    ensures FromLE(lo, hi) == lo as int + 256 * (hi as int)
  {
  }

  class Host {
    const dev: InstrumentTask

    ghost predicate Valid()
      reads this, dev, dev.eeprom
    {
      dev.Valid() && forall n: nat :: dev.Delivers(n)
    }

    function Cells(): EepromChip.Cells
      reads dev.eeprom
    {
      dev.eeprom.chip.cells
    }

    constructor (dev: InstrumentTask)
      requires dev.Valid() && forall n: nat :: dev.Delivers(n)
      ensures Valid() && this.dev == dev
    {
      this.dev := dev;
    }

    method SendPacket(command: Byte, payload: seq<Byte>) returns (ok: bool, rx: Reply)
      requires Valid() && WellFormed(Make(command, payload))
      modifies dev, dev.inbuf, dev.outbuf, dev.eeprom
      ensures Valid()
      ensures var w := Make(command, payload);
        && Cells() == Stored(w, old(Cells()))
        && rx == FromBytes(ReplyTo(w, old(Cells()), dev.Id()))
      ensures ok == (rx.command == 0)
      ensures dev.actions == old(dev.actions) +
        if command == 15 then [SpdtSet(payload[0], payload[1])] else if command == 17 then [IdBlink(payload[0])] else []
    {
      MadeBytes(command, payload);
      var w := Make(command, payload);
      var reply := dev.Serve(w);
      rx := FromBytes(reply.value);
      ok := rx.command == CMD_ACK;
    }

    /** Returns `nbytes` bytes read one packet at a time. */
    method ReadEE(addr: nat, nbytes: nat) returns (ret: seq<Byte>)
      requires Valid()
      modifies dev, dev.inbuf, dev.outbuf, dev.eeprom
      ensures Valid() && Cells() == old(Cells())
      ensures ret == Fetch(Cells(), addr, nbytes)
    {
      hide Make, ReplyTo, WellFormed, Stored;
      ret := [];
      for k := 0 to nbytes
        invariant Valid() && Cells() == old(Cells())
        invariant ret == Fetch(Cells(), addr, k)
      {
        MadeIsWellFormed(CMD_READEE, LE16(addr + k));
        ReadCell(Make(CMD_READEE, LE16(addr + k)), Cells(), addr + k, dev.Id());
        FetchExtends(Cells(), addr, k);
        var _, rx := SendPacket(CMD_READEE, LE16(addr + k));
        ret := ret + rx.payload[2..3];
      }
    }

    /** Stores `val` one packet at a time. */
    method WriteEE(addr: nat, val: seq<Byte>)
      requires Valid()
      modifies dev, dev.inbuf, dev.outbuf, dev.eeprom
      ensures Valid() && Cells() == Store(old(Cells()), addr, val)
    {
      hide Make, ReplyTo, WellFormed, Stored;
      for k := 0 to |val|
        invariant Valid() && Cells() == Store(old(Cells()), addr, val[..k])
      {
        MadeIsWellFormed(CMD_WRITEEE, LE16(addr + k) + [val[k]]);
        WrittenCell(Make(CMD_WRITEEE, LE16(addr + k) + [val[k]]), Cells(), addr + k, val[k]);
        StoreExtends(old(Cells()), addr, val, k);
        var _, _ := SendPacket(CMD_WRITEEE, LE16(addr + k) + [val[k]]);
      }
      assert val[..|val|] == val;
    }

    method EraseAllEE() returns (ok: bool)
      requires Valid()
      modifies dev, dev.inbuf, dev.outbuf, dev.eeprom
      ensures Valid() && Cells() == seq(SIZE, _ => 0xff) && ok
    {
      hide Fletcher.Stream;
      MadeIsWellFormed(CMD_ERASEALL, []);
      var res, _ := SendPacket(CMD_ERASEALL, []);
      ok := res;
    }

    /** Asks for a relay to be set: the firmware is told exactly these two bytes. */
    method Spdt(sw: Byte, sel: Byte) returns (ok: bool)
      requires Valid()
      modifies dev, dev.inbuf, dev.outbuf, dev.eeprom
      ensures Valid() && Cells() == old(Cells()) && ok
      ensures dev.actions == old(dev.actions) + [SpdtSet(sw, sel)]
    {
      hide ReplyTo, Stored, Make;
      ghost var w := Make(CMD_SPDT, [sw, sel]);
      MadeIsWellFormed(CMD_SPDT, [sw, sel]);
      MadeBytes(CMD_SPDT, [sw, sel]);
      ReplyStatus(w, Cells(), dev.Id());
      StoredBytes(w, Cells());
      var res, _ := SendPacket(CMD_SPDT, [sw, sel]);
      ok := res;
    }

    /** The identity record as far as it is sent; its first byte is the product. */
    method Identify() returns (info: seq<Byte>)
      requires Valid()
      modifies dev, dev.inbuf, dev.outbuf, dev.eeprom
      ensures Valid() && Cells() == old(Cells())
      ensures |info| == 16 && info == dev.Id()[..16] && info[0] == dev.productID % 256
    {
      hide ReplyTo, WellFormed, Stored;
      MadeIsWellFormed(CMD_ID, []);
      IdReply(Make(CMD_ID, []), Cells(), dev.Id());
      var _, rx := SendPacket(CMD_ID, []);
      info := rx.payload;
    }

    /** With a value, writes it; without, reads the stored one. */
    method EeMagic(val: Option<int>) returns (r: Byte)
      requires Valid()
      modifies dev, dev.inbuf, dev.outbuf, dev.eeprom
      ensures Valid() && r == Cells()[0]
      ensures val.Some? ==> Cells() == old(Cells())[0 := val.value % 256]
      ensures val.None? ==> Cells() == old(Cells())
    {
      if val.Some? {
        r := val.value % 256;
        assert [r][..0] == [];
        WriteEE(0, [r]);
      } else {
        var s := ReadEE(0, 1);
        r := s[0];
      }
    }

    /** A missing or zero VID is the default one; a PID makes it a write. */
    method EeVidPid(vid: Option<int>, pid: Option<int>) returns (v: nat, p: nat)
      requires Valid()
      modifies dev, dev.inbuf, dev.outbuf, dev.eeprom
      ensures Valid()
      ensures pid.Some? ==>
        && v == (if vid.Some? && vid.value != 0 then vid.value else 0x4161) % 65536
        && p == pid.value % 65536
        && Cells() == Store(old(Cells()), 1, LE16(v) + LE16(p))
        && Cells()[1..5] == [v % 256, v / 256, p % 256, p / 256]
        && (forall i :: 0 <= i < 512 && !(1 <= i < 5) ==> Cells()[i] == old(Cells()[i]))
      ensures pid.None? ==>
        && Cells() == old(Cells())
        && v == Cells()[1] as int + 256 * (Cells()[2] as int)
        && p == Cells()[3] as int + 256 * (Cells()[4] as int)
    {
      hide LE16, FromLE, Store;
      if pid.Some? {
        v := (if vid.Some? && vid.value != 0 then vid.value else 0x4161) % 65536;
        p := pid.value % 65536;
        FourBytes(v, p);
        StoreAt(Cells(), 1, LE16(v) + LE16(p));
        WriteEE(1, LE16(v) + LE16(p));
        assert Cells()[1..5] == LE16(v) + LE16(p);
      } else {
        var s := ReadEE(1, 4);
        v, p := FromLE(s[0], s[1]), FromLE(s[2], s[3]);
        PlainWords(s[0], s[1]);
        PlainWords(s[2], s[3]);
      }
    }

    method EePolarity(s1: Option<int>, s2: Option<int>) returns (p1: int, p2: int)
      requires Valid()
      modifies dev, dev.inbuf, dev.outbuf, dev.eeprom
      ensures Valid()
      ensures s1.Some? ==> Cells() == Store(old(Cells()), 0xe, PolarityBytes(s1.value, s2))
      ensures s1.Some? ==>
        && Cells()[0xe] == (if s1.value != 0 then 1 else 0)
        && Cells()[0xf] == (if (s2.Some? && s2.value != 0) || ((s2.None? || s2.value == 0) && s1.value != 0) then 1 else 0)
        && (forall i :: 0 <= i < 512 && i != 0xe && i != 0xf ==> Cells()[i] == old(Cells()[i]))
        && p1 == s1.value && p2 == (if s2.None? || s2.value == 0 then s1.value else s2.value)
      ensures s1.None? ==> Cells() == old(Cells()) && p1 == Cells()[0xe] && p2 == Cells()[0xf]
    {
      if s1.Some? {
        p1 := s1.value;
        p2 := if s2.Some? && s2.value != 0 then s2.value else p1;
        hide Store;
        StoreAt(Cells(), 0xe, [if p1 != 0 then 1 else 0, if p2 != 0 then 1 else 0]);
        WriteEE(0xe, [if p1 != 0 then 1 else 0, if p2 != 0 then 1 else 0]);
      } else {
        var s := ReadEE(0xe, 2);
        p1, p2 := s[0], s[1];
      }
    }

    /** One branch of writeEEStrings: header and string, or an empty header. */
    method WriteEEString(hdr: nat, addr: nat, s: seq<Byte>) returns (next: nat)
      requires Valid()
      modifies dev, dev.inbuf, dev.outbuf, dev.eeprom
      ensures Valid() && next == addr + |s|
      ensures Cells() == Store(Store(old(Cells()), hdr, Header(addr, s)), addr, s)
    {
      next := addr;
      if |s| != 0 {
        WriteEE(hdr, LE16(addr) + [|s| % 256]);
        WriteEE(addr, s);
        next := addr + |s|;
      } else {
        assert LE16(0) + [0] == [0, 0, 0];
        WriteEE(hdr, LE16(0) + [0]);
      }
    }

    method WriteEEStrings(ss: Strings)
      requires Valid()
      modifies dev, dev.inbuf, dev.outbuf, dev.eeprom
      ensures Valid() && Cells() == WriteStrings(old(Cells()), ss)
    {
      hide Store, Header;
      StartSum(ss);
      WriteFour(Cells(), ss);
      var addr := STRINGS;
      addr := WriteEEString(0x5, addr, ss[0]);
      addr := WriteEEString(0x8, addr, ss[1]);
      addr := WriteEEString(0xb, addr, ss[2]);
      addr := WriteEEString(0x10, addr, ss[3]);
    }

    method ReadEEHeader(hdr: nat) returns (ptr: nat, len: nat)
      requires Valid() && hdr + 2 < SIZE
      modifies dev, dev.inbuf, dev.outbuf, dev.eeprom
      ensures Valid() && Cells() == old(Cells())
      ensures ptr == FromLE(Cells()[hdr], Cells()[hdr + 1]) && len == Cells()[hdr + 2]
    {
      var h := ReadEE(hdr, 3);
      ptr, len := FromLE(h[0], h[1]), h[2];
    }

    /** Reads the four headers, then every string whose header is valid. */
    method ReadEEStrings() returns (strings: Strings)
      requires Valid()
      modifies dev, dev.inbuf, dev.outbuf, dev.eeprom
      ensures Valid() && Cells() == old(Cells())
      ensures strings == ReadStrings(Cells())
      ensures NamedAt(Cells(), 5, strings[0]) && NamedAt(Cells(), 8, strings[1])
      ensures NamedAt(Cells(), 0xb, strings[2]) && NamedAt(Cells(), 0x10, strings[3])
    {
      hide Fetch, NamedAt;
      var mfg, prd, ser, extra := [], [], [], [];
      var mfgP, mfgL := ReadEEHeader(0x5);
      var prdP, prdL := ReadEEHeader(0x8);
      var serP, serL := ReadEEHeader(0xb);
      var extraP, extraL := ReadEEHeader(0x10);
      if ValidStr(mfgP, mfgL) { mfg := ReadEE(mfgP, mfgL); }
      if ValidStr(prdP, prdL) { prd := ReadEE(prdP, prdL); }
      if ValidStr(serP, serL) { ser := ReadEE(serP, serL); }
      if ValidStr(extraP, extraL) { extra := ReadEE(extraP, extraL); }
      strings := [mfg, prd, ser, extra];
      ReadsAnyPart(Cells());
    }

    /** An erased part: every header is 0xff 0xff 0xff, and no string is read. */
    method EraseAndRead() returns (strings: Strings)
      requires Valid()
      modifies dev, dev.inbuf, dev.outbuf, dev.eeprom
      ensures Valid() && Cells() == seq(SIZE, _ => 0xff)
      ensures strings == [[], [], [], []]
    {
      hide ReadStrings;
      var _ := EraseAllEE();
      strings := ReadEEStrings();
    }
  }
}
