/**
 * The EEPROM map shared by the host library and the firmware:
 * 0 magic; 1,2 VID; 3,4 PID; then pointer (LE), length for the manufacturer (5), product (8),
 * serial number (0xB) and extra (0x10) strings; 0xE,0xF polarity; strings from 0x30 on.
 */
module EepromLayout {
  import opened Bits
  import opened EepromChip
  import opened Instrument
  import opened Wrappers

  const HDR := [0x5, 0x8, 0xb, 0x10]
  const STRINGS := 0x30

  type Strings = ss: seq<seq<Byte>> | |ss| == 4 witness [[], [], [], []]

  /** Bytes written one per packet; the part keeps nine address bits. */
  function Store(cells: Cells, addr: nat, val: seq<Byte>): Cells
    decreases |val|
  {
    if val == [] then cells
    else var n := |val| - 1; Store(cells, addr, val[..n])[(addr + n) % SIZE := val[n]]
  }

  function Fetch(cells: Cells, addr: nat, n: nat): (s: seq<Byte>)
    ensures |s| == n
  {
    seq(n, k requires 0 <= k < n => cells[(addr + k) % SIZE])
  }

  lemma {:induction false} StoreAt(cells: Cells, addr: nat, val: seq<Byte>)
    requires addr + |val| <= SIZE
    ensures forall i :: 0 <= i < SIZE ==>
      Store(cells, addr, val)[i] == if addr <= i < addr + |val| then val[i - addr] else cells[i]
    decreases |val|
  {
    if val != [] { StoreAt(cells, addr, val[..|val| - 1]); }
  }

  /** pack("v") keeps sixteen address bits and the part nine of those. */
  lemma SixteenThenNine(addr: nat)
    ensures FromLE(LE16(addr)[0], LE16(addr)[1]) % SIZE == addr % SIZE
  {
    var (x, hi) := (FromLE(LE16(addr)[0], LE16(addr)[1]), addr / 65536);
    TwoDigits(addr);
    assert addr == SIZE * (128 * hi) + x;
    DropSizes(128 * hi, x);
  }

  lemma TwoDigits(addr: nat)
    ensures addr == 65536 * (addr / 65536) + FromLE(LE16(addr)[0], LE16(addr)[1])
  {
  }

  lemma DropSizes(k: nat, x: nat)
    ensures (512 * k + x) % 512 == x % 512
  {
  }

  lemma FetchExtends(cells: Cells, addr: nat, k: nat)
    ensures Fetch(cells, addr, k) + [cells[(addr + k) % SIZE]] == Fetch(cells, addr, k + 1)
  {
  }

  /** The sixteen-bit address wraps without changing the cell. */
  lemma WrapKeepsCell(x: nat)
    ensures U16(x) < 65536 && U16(x) % SIZE == x % SIZE
  {
  }

  lemma NextAddress(x: nat)
    ensures U16(U16(x) + 1) == U16(x + 1)
  {
  }

  lemma SmallAddress(x: nat)
    requires x < SIZE
    ensures x % SIZE == x
  {
  }

  // ---- the host's writer ----

  function Header(addr: nat, s: seq<Byte>): (h: seq<Byte>)
    ensures |h| == 3
  {
    if s == [] then [0, 0, 0] else LE16(addr) + [|s| % 256]
  }

  /** Where string k starts. */
  function Start(k: nat, ss: Strings): (a: nat)
    requires k <= 4
    ensures a >= STRINGS
  {
    if k == 0 then STRINGS else Start(k - 1, ss) + |ss[k - 1]|
  }

  lemma StartSum(ss: Strings)
    ensures Start(1, ss) == STRINGS + |ss[0]| && Start(2, ss) == Start(1, ss) + |ss[1]|
    ensures Start(3, ss) == Start(2, ss) + |ss[2]| && Start(4, ss) == Start(3, ss) + |ss[3]|
  {
    assert Start(0, ss) == STRINGS;
  }

  function WriteOne(cells: Cells, k: nat, ss: Strings): Cells
    requires k < 4
  {
    Store(Store(cells, HDR[k], Header(Start(k, ss), ss[k])), Start(k, ss), ss[k])
  }

  /** The first k strings and their headers. */
  function WriteSome(cells: Cells, k: nat, ss: Strings): Cells
    requires k <= 4
  {
    if k == 0 then cells else WriteOne(WriteSome(cells, k - 1, ss), k - 1, ss)
  }

  function WriteStrings(cells: Cells, ss: Strings): Cells { WriteSome(cells, 4, ss) }

  lemma WriteFour(cells: Cells, ss: Strings)
    ensures WriteStrings(cells, ss) == WriteOne(WriteOne(WriteOne(WriteOne(cells, 0, ss), 1, ss), 2, ss), 3, ss)
  {
    hide WriteOne;
    assert WriteSome(cells, 1, ss) == WriteOne(WriteSome(cells, 0, ss), 0, ss);
    assert WriteSome(cells, 2, ss) == WriteOne(WriteSome(cells, 1, ss), 1, ss);
    assert WriteSome(cells, 3, ss) == WriteOne(WriteSome(cells, 2, ss), 2, ss);
  }

  // ---- the host's reader ----

  predicate ValidStr(ptr: nat, len: nat)
  {
    ptr >= 0x20 && len != 0 && ptr + len < SIZE
  }

  function Pointer(cells: Cells, k: nat): nat
    requires k < 4
  {
    FromLE(cells[HDR[k]], cells[HDR[k] + 1])
  }

  function Length(cells: Cells, k: nat): nat
    requires k < 4
  {
    cells[HDR[k] + 2]
  }

  function ReadString(cells: Cells, k: nat): seq<Byte>
    requires k < 4
  {
    var (ptr, len) := (Pointer(cells, k), Length(cells, k));
    if ValidStr(ptr, len) then Fetch(cells, ptr, len) else []
  }

  function ReadStrings(cells: Cells): Strings
  {
    [ReadString(cells, 0), ReadString(cells, 1), ReadString(cells, 2), ReadString(cells, 3)]
  }

  /** The string that the three cells at h name: it starts above the map and ends before the last
      cell, or it is empty. */
  ghost predicate NamedAt(cells: Cells, h: nat, s: seq<Byte>)
    requires h + 2 < 512
  {
    var (p, n) := (cells[h] as int + 256 * (cells[h + 1] as int), cells[h + 2]);
    s == if 0x20 <= p && n > 0 && p + n < 512 then cells[p..p + n] else []
  }

  /** What is read from any part, whoever wrote it. */
  lemma ReadsAnyPart(cells: Cells)
    ensures var ss := ReadStrings(cells);
      NamedAt(cells, 5, ss[0]) && NamedAt(cells, 8, ss[1]) && NamedAt(cells, 0xb, ss[2]) && NamedAt(cells, 0x10, ss[3])
  {
    hide ReadString, NamedAt;
    ReadsHeader(cells, 0);
    ReadsHeader(cells, 1);
    ReadsHeader(cells, 2);
    ReadsHeader(cells, 3);
    assert HDR[0] == 5 && HDR[1] == 8 && HDR[2] == 0xb && HDR[3] == 0x10;
  }

  lemma ReadsHeader(cells: Cells, k: nat)
    requires k < 4
    ensures NamedAt(cells, HDR[k], ReadString(cells, k))
  {
    var (p, n) := (Pointer(cells, k), Length(cells, k));
    hide Fetch;
    if p + n < 512 { FetchSlice(cells, p, n); }
  }

  lemma FetchSlice(cells: Cells, p: nat, n: nat)
    requires p + n <= SIZE
    ensures Fetch(cells, p, n) == cells[p..p + n]
  {
    forall i | 0 <= i < n ensures Fetch(cells, p, n)[i] == cells[p + i] { SmallAddress(p + i); }
  }

  // ---- what is where afterwards ----

  lemma {:induction false} StartMonotone(j: nat, k: nat, ss: Strings)
    requires j <= k <= 4
    ensures Start(j, ss) <= Start(k, ss)
  {
    if j < k { StartMonotone(j, k - 1, ss); }
  }

  /** The last address before `end` that selects cell i, or -1. */
  function Latest(i: nat, end: nat): (p: int)
    ensures -1 <= p < end
  {
    if end == 0 then -1 else if (end - 1) % SIZE == i then end - 1 else Latest(i, end - 1)
  }

  lemma {:induction false} LatestOrEarlier(i: nat, mid: nat, end: nat)
    requires mid <= end
    ensures Latest(i, end) >= mid || Latest(i, end) == Latest(i, mid)
  {
    if mid < end { LatestOrEarlier(i, mid, end - 1); }
  }

  /** Within the part an address is its cell; a cell is reached again only beyond its end. */
  lemma {:induction false} LatestWithin(i: nat, end: nat)
    requires i < SIZE
    ensures end <= SIZE + i ==> Latest(i, end) == if i < end then i else -1
    ensures end > SIZE + i ==> Latest(i, end) >= SIZE + i
  {
    if end > 0 {
      LatestWithin(i, end - 1);
      OneLap(i, end - 1);
    }
  }

  lemma OneLap(i: nat, p: nat)
    requires i < SIZE
    ensures p < SIZE + i ==> (p % SIZE == i <==> p == i)
    ensures (SIZE + i) % SIZE == i
  {
  }

  /** Bytes stored at consecutive addresses, past the end of the part too: the last one counts. */
  lemma {:induction false} StoreWraps(cells: Cells, addr: nat, val: seq<Byte>, i: nat)
    requires i < SIZE
    ensures var p := Latest(i, addr + |val|);
      Store(cells, addr, val)[i] == if p >= addr then val[p - addr] else cells[i]
    decreases |val|
  {
    if val != [] {
      var n := |val| - 1;
      StoreWraps(cells, addr, val[..n], i);
      assert Latest(i, addr + n + 1) == if (addr + n) % SIZE == i then addr + n else Latest(i, addr + n);
    }
  }

  /** The first k strings in a row. */
  function Joined(k: nat, ss: Strings): (t: seq<Byte>)
    requires k <= 4
    ensures |t| == Start(k, ss) - STRINGS
  {
    if k == 0 then [] else Joined(k - 1, ss) + ss[k - 1]
  }

  lemma {:induction false} JoinedHolds(k: nat, j: nat, n: nat, ss: Strings)
    requires k < n <= 4 && j < |ss[k]|
    ensures Start(k, ss) + j < Start(n, ss) && Joined(n, ss)[Start(k, ss) + j - STRINGS] == ss[k][j]
  {
    if k < n - 1 { JoinedHolds(k, j, n - 1, ss); }
  }

  /** The header a cell belongs to. */
  function HeaderOf(i: nat): (k: Option<nat>)
    ensures k.Some? ==> k.value < 4 && HDR[k.value] <= i < HDR[k.value] + 3
    ensures k.None? ==> forall j :: 0 <= j < 4 ==> !(HDR[j] <= i < HDR[j] + 3)
  {
    if 0x5 <= i < 0x8 then Some(0)
    else if 0x8 <= i < 0xb then Some(1)
    else if 0xb <= i < 0xe then Some(2)
    else if 0x10 <= i < 0x13 then Some(3)
    else None
  }

  /** What cell i holds after k strings of any length: the last string byte that fell on it since
      its own header was written, or that header's byte, or what it held before. */
  function CellAfter(cells: Cells, k: nat, ss: Strings, i: nat): Byte
    requires k <= 4 && i < SIZE
  {
    var (p, h) := (Latest(i, Start(k, ss)), HeaderOf(i));
    if h.Some? && h.value < k then
      if p >= Start(h.value, ss) then Joined(k, ss)[p - STRINGS] else Header(Start(h.value, ss), ss[h.value])[i - HDR[h.value]]
    else if p >= STRINGS then Joined(k, ss)[p - STRINGS] else cells[i]
  }

  /** What string k and its header make of a cell that held `was`. */
  function CellNext(was: Byte, k: nat, ss: Strings, i: nat): Byte
    requires k < 4 && i < SIZE
  {
    var p := Latest(i, Start(k + 1, ss));
    if p >= Start(k, ss) then ss[k][p - Start(k, ss)]
    else if HeaderOf(i) == Some(k) then Header(Start(k, ss), ss[k])[i - HDR[k]]
    else was
  }

  lemma OneWritten(cells: Cells, k: nat, ss: Strings, i: nat)
    requires k < 4 && i < SIZE
    ensures WriteOne(cells, k, ss)[i] == CellNext(cells[i], k, ss, i)
  {
    assert Start(k + 1, ss) == Start(k, ss) + |ss[k]|;
    hide Store, Latest, Header, Start;
    var h := Header(Start(k, ss), ss[k]);
    StoreAt(cells, HDR[k], h);
    StoreWraps(Store(cells, HDR[k], h), Start(k, ss), ss[k], i);
  }

  lemma {:induction false} SomeWritten(cells: Cells, k: nat, ss: Strings, i: nat)
    requires k <= 4 && i < SIZE
    ensures WriteSome(cells, k, ss)[i] == CellAfter(cells, k, ss, i)
  {
    if k == 0 {
      NothingWritten(cells, ss, i);
    } else {
      hide WriteOne, CellAfter, CellNext;
      var before := WriteSome(cells, k - 1, ss);
      assert WriteSome(cells, k, ss) == WriteOne(before, k - 1, ss);
      SomeWritten(cells, k - 1, ss, i);
      OneWritten(before, k - 1, ss, i);
      CellStep(cells, k - 1, ss, i);
    }
  }

  lemma NothingWritten(cells: Cells, ss: Strings, i: nat)
    requires i < SIZE
    ensures CellAfter(cells, 0, ss, i) == cells[i]
  {
  }

  lemma CellStep(cells: Cells, k: nat, ss: Strings, i: nat)
    requires k < 4 && i < SIZE
    ensures CellAfter(cells, k + 1, ss, i) == CellNext(CellAfter(cells, k, ss, i), k, ss, i)
  {
    hide Latest, Header, HeaderOf, Start, Joined;
    var (p, h) := (Latest(i, Start(k + 1, ss)), HeaderOf(i));
    if h.Some? && h.value < k { StartMonotone(h.value, k, ss); }
    StartMonotone(k, k + 1, ss);
    LatestOrEarlier(i, Start(k, ss), Start(k + 1, ss));
    if p >= STRINGS { JoinedStep(k, ss, p); }
  }

  lemma JoinedStep(k: nat, ss: Strings, p: nat)
    requires k < 4 && STRINGS <= p < Start(k + 1, ss)
    ensures p >= Start(k, ss) ==> p - Start(k, ss) < |ss[k]|
    ensures Joined(k + 1, ss)[p - STRINGS] == if p >= Start(k, ss) then ss[k][p - Start(k, ss)] else Joined(k, ss)[p - STRINGS]
  {
    assert Start(k + 1, ss) == Start(k, ss) + |ss[k]| && Joined(k + 1, ss) == Joined(k, ss) + ss[k];
  }

  /** Header k points at string k, and the string is there. */
  ghost predicate Written(cells: Cells, k: nat, ss: Strings)
    requires k < 4
  {
    var a := Start(k, ss);
    && a + |ss[k]| <= SIZE
    && (forall i :: 0 <= i < 3 ==> cells[HDR[k] + i] == Header(a, ss[k])[i])
    && (forall i :: 0 <= i < |ss[k]| ==> cells[a + i] == ss[k][i])
  }

  lemma HeaderCell(cells: Cells, ss: Strings, k: nat, j: nat)
    requires k < 4 && j < 3 && Start(4, ss) <= SIZE
    ensures WriteStrings(cells, ss)[HDR[k] + j] == Header(Start(k, ss), ss[k])[j]
  {
    var i := HDR[k] + j;
    assert HeaderOf(i) == Some(k);
    hide Header, Start, Joined, WriteSome, Latest, HeaderOf;
    LatestWithin(i, Start(4, ss));
    SomeWritten(cells, 4, ss, i);
  }

  lemma StringCell(cells: Cells, ss: Strings, k: nat, j: nat)
    requires k < 4 && j < |ss[k]| && Start(4, ss) <= SIZE
    ensures Start(k, ss) + j < SIZE && WriteStrings(cells, ss)[Start(k, ss) + j] == ss[k][j]
  {
    hide Header, Start, Joined, WriteSome, Latest;
    JoinedHolds(k, j, 4, ss);
    var i := Start(k, ss) + j;
    assert HeaderOf(i).None?;
    LatestWithin(i, Start(4, ss));
    hide HeaderOf;
    SomeWritten(cells, 4, ss, i);
  }

  lemma AllWritten(cells: Cells, ss: Strings, k: nat)
    requires k < 4 && Start(4, ss) <= SIZE
    ensures Written(WriteStrings(cells, ss), k, ss)
  {
    StartMonotone(k + 1, 4, ss);
    assert Start(k + 1, ss) == Start(k, ss) + |ss[k]|;
    hide WriteStrings, Header, Start;
    var f := WriteStrings(cells, ss);
    forall j | 0 <= j < 3 ensures f[HDR[k] + j] == Header(Start(k, ss), ss[k])[j] { HeaderCell(cells, ss, k, j); }
    forall j | 0 <= j < |ss[k]| ensures f[Start(k, ss) + j] == ss[k][j] { StringCell(cells, ss, k, j); }
  }

  lemma JoinedCell(cells: Cells, ss: Strings, i: nat)
    requires i < |Joined(4, ss)| && Start(4, ss) <= SIZE
    ensures WriteStrings(cells, ss)[STRINGS + i] == Joined(4, ss)[i]
  {
    hide Start, Joined, Latest, WriteSome;
    LatestWithin(STRINGS + i, Start(4, ss));
    assert HeaderOf(STRINGS + i).None?;
    hide HeaderOf;
    SomeWritten(cells, 4, ss, STRINGS + i);
  }

  /** The first string that is not empty starts at 0x30, and each further one where the last ended. */
  lemma StringsInARow(cells: Cells, ss: Strings)
    requires 0x30 + |ss[0]| + |ss[1]| + |ss[2]| + |ss[3]| <= 512
    ensures WriteStrings(cells, ss)[0x30..0x30 + |ss[0]| + |ss[1]| + |ss[2]| + |ss[3]|] == ss[0] + ss[1] + ss[2] + ss[3]
  {
    StartSum(ss);
    var (f, all) := (WriteStrings(cells, ss), ss[0] + ss[1] + ss[2] + ss[3]);
    assert Joined(1, ss) == [] + ss[0] && Joined(2, ss) == Joined(1, ss) + ss[1];
    assert Joined(3, ss) == Joined(2, ss) + ss[2] && Joined(4, ss) == Joined(3, ss) + ss[3];
    hide Start, Joined, Latest, WriteSome;
    forall i | 0 <= i < |all| ensures f[0x30 + i] == all[i] { JoinedCell(cells, ss, i); }
  }

  /** Magic, VID, PID, the polarity bytes and every other cell outside headers and strings: kept as
      long as the strings stop short of coming round to it, otherwise the byte that does. */
  lemma WriteStringsFrame(cells: Cells, ss: Strings, i: nat)
    requires i < STRINGS && HeaderOf(i).None?
    ensures var (end, p) := (Start(4, ss), Latest(i, Start(4, ss)));
      && (p >= STRINGS <==> end > SIZE + i)
      && WriteStrings(cells, ss)[i] == if p >= STRINGS then Joined(4, ss)[p - STRINGS] else cells[i]
  {
    hide Start, Joined, WriteSome, HeaderOf, Latest;
    LatestWithin(i, Start(4, ss));
    SomeWritten(cells, 4, ss, i);
  }

  // ---- the round trip ----

  lemma LittleEndian(x: nat)
    requires x < 65536
    ensures FromLE(LE16(x)[0], LE16(x)[1]) == x
  {
  }

  predicate Short(ss: Strings) { forall k :: 0 <= k < 4 ==> |ss[k]| <= 255 }

  lemma HeaderWritten(cells: Cells, k: nat, ss: Strings)
    requires k < 4 && Short(ss) && Written(cells, k, ss)
    ensures Length(cells, k) == |ss[k]|
    ensures ss[k] != [] ==> Pointer(cells, k) == Start(k, ss)
  {
    var a := Start(k, ss);
    var h := Header(a, ss[k]);
    assert cells[HDR[k] + 0] == h[0] && cells[HDR[k] + 1] == h[1] && cells[HDR[k] + 2] == h[2];
    hide Start;
    if ss[k] != [] { LittleEndian(a); }
  }

  lemma ReadWritten(cells: Cells, k: nat, ss: Strings)
    requires k < 4 && Short(ss) && Written(cells, k, ss)
    ensures ReadString(cells, k) == if Start(k + 1, ss) < SIZE then ss[k] else []
  {
    assert Start(k + 1, ss) == Start(k, ss) + |ss[k]|;
    hide Start, Written, Pointer, Length, Fetch;
    HeaderWritten(cells, k, ss);
    FetchWritten(cells, k, ss);
  }

  lemma FetchWritten(cells: Cells, k: nat, ss: Strings)
    requires k < 4 && Written(cells, k, ss)
    ensures Fetch(cells, Start(k, ss), |ss[k]|) == ss[k]
  {
  }

  /** While the strings fit in the part, reading back gives what was written exactly when no
      string is longer than a length byte can say and the last cell stays free. */
  lemma RoundTrip(cells: Cells, ss: Strings)
    requires Start(4, ss) <= SIZE
    ensures ReadStrings(WriteStrings(cells, ss)) == ss <==> Short(ss) && Start(4, ss) < SIZE
  {
    hide Written, ReadString, WriteStrings;
    var f := WriteStrings(cells, ss);
    if !Short(ss) {
      LongStringIsLost(f, ss);
    } else {
      forall k | 0 <= k < 4 ensures ReadString(f, k) == if Start(k + 1, ss) < SIZE then ss[k] else [] {
        AllWritten(cells, ss, k);
        ReadWritten(f, k, ss);
      }
      if Start(4, ss) < SIZE {
        forall k {:trigger ss[k]} | 0 <= k < 4 ensures Start(k + 1, ss) < SIZE { StartMonotone(k + 1, 4, ss); }
        assert ReadStrings(f) == ss;
      } else {
        var k := if ss[3] != [] then 3 else if ss[2] != [] then 2 else if ss[1] != [] then 1 else 0;
        StartSum(ss);
        assert Start(k + 1, ss) == SIZE;
        assert ss[k] != [] && ReadStrings(f)[k] == [];
      }
    }
  }

  /** Wherever it lands, a string of more than 255 bytes never comes back. */
  lemma LongStringIsLost(f: Cells, ss: Strings)
    requires !Short(ss)
    ensures ReadStrings(f) != ss
  {
  }

  /** The strings read back and nothing else of the map has changed. */
  predicate Restores(cells: Cells, ss: Strings)
  {
    var f := WriteStrings(cells, ss);
    ReadStrings(f) == ss && forall i :: 0 <= i < STRINGS && HeaderOf(i).None? ==> f[i] == cells[i]
  }

  /** For strings of any length, whatever the part held: exactly the short ones that leave the
      last cell free come back without harm to the rest of the map. */
  lemma RestoresIff(ss: Strings)
    ensures (forall cells: Cells :: Restores(cells, ss)) <==> Short(ss) && Start(4, ss) < SIZE
  {
    hide WriteStrings, ReadStrings, Start, Joined, Latest;
    var blank: Cells := seq(SIZE, _ => 0);
    forall cells: Cells | Short(ss) && Start(4, ss) < SIZE ensures Restores(cells, ss) {
      RoundTrip(cells, ss);
      forall i | 0 <= i < STRINGS && HeaderOf(i).None? ensures WriteStrings(cells, ss)[i] == cells[i] {
        WriteStringsFrame(cells, ss, i);
      }
    }
    assert HeaderOf(0).None?;
    if !Short(ss) {
      LongStringIsLost(WriteStrings(blank, ss), ss);
      assert !Restores(blank, ss);
    } else if Start(4, ss) == SIZE {
      RoundTrip(blank, ss);
      assert !Restores(blank, ss);
    } else if Start(4, ss) > SIZE {
      WriteStringsFrame(blank, ss, 0);
      var hit := WriteStrings(blank, ss)[0];
      var cells: Cells := seq(SIZE, _ => if hit == 0 then 1 else 0);
      WriteStringsFrame(cells, ss, 0);
      assert WriteStrings(cells, ss)[0] == hit != cells[0];
      assert !Restores(cells, ss);
    }
  }

  /** One string that ends in the last cell: written, and read back as nothing. */
  lemma LastCellIsUnread(cells: Cells, s: seq<Byte>, t: seq<Byte>)
    requires |s| == 255 && |t| == SIZE - STRINGS - 255
    ensures ReadStrings(WriteStrings(cells, [s, t, [], []])) == [s, [], [], []]
  {
    var ss: Strings := [s, t, [], []];
    hide WriteStrings, ReadString, Written;
    assert ss[0] == s && ss[1] == t && ss[2] == [] && ss[3] == [];
    StartSum(ss);
    hide Start;
    forall k | 0 <= k < 4 ensures ReadString(WriteStrings(cells, ss), k) == if Start(k + 1, ss) < SIZE then ss[k] else [] {
      AllWritten(cells, ss, k);
      ReadWritten(WriteStrings(cells, ss), k, ss);
    }
  }

  /** Strings that run past the last cell may still read back, by overwriting their own headers:
      here both come to point at the first of two equal texts. */
  lemma WrappedMayReadBack(cells: Cells, t: seq<Byte>)
    requires |t| == 255 && t[214..220] == [0x30, 0, 255, 0x30, 0, 255]
    ensures Start(4, [t, t, [], []]) == 558
    ensures ReadStrings(WriteStrings(cells, [t, t, [], []])) == [t, t, [], []]
  {
    var ss: Strings := [t, t, [], []];
    var f := WriteStrings(cells, ss);
    StartSum(ss);
    forall j | 0 <= j < 255 ensures f[STRINGS + j] == t[j] { FirstCell(cells, t, j); }
    EmptyHeader(cells, t, 2);
    EmptyHeader(cells, t, 3);
    WrappedHeader(cells, t, 0);
    WrappedHeader(cells, t, 1);
    hide WriteStrings, Pointer, Length;
    assert Fetch(f, STRINGS, 255) == t;
  }

  lemma WrappedHeader(cells: Cells, t: seq<Byte>, k: nat)
    requires |t| == 255 && t[214..220] == [0x30, 0, 255, 0x30, 0, 255] && k < 2
    ensures var f := WriteStrings(cells, [t, t, [], []]); Pointer(f, k) == STRINGS && Length(f, k) == 255
  {
    var a := 5 + 3 * k;
    assert HDR[k] == a;
    WrappedCell(cells, t, a);
    WrappedCell(cells, t, a + 1);
    WrappedCell(cells, t, a + 2);
    hide WriteStrings;
    var h := t[214..220];
    assert h[3 * k] == t[209 + a] && h[3 * k + 1] == t[209 + (a + 1)] && h[3 * k + 2] == t[209 + (a + 2)];
  }

  lemma JoinedTwice(t: seq<Byte>)
    requires |t| == 255
    ensures Joined(4, [t, t, [], []]) == t + t && Start(4, [t, t, [], []]) == 558 && Start(1, [t, t, [], []]) == 303
  {
    var ss: Strings := [t, t, [], []];
    StartSum(ss);
    assert Joined(1, ss) == [] + t && Joined(2, ss) == Joined(1, ss) + t;
    assert Joined(3, ss) == Joined(2, ss) + [] && Joined(4, ss) == Joined(3, ss) + [];
  }

  lemma WrappedCell(cells: Cells, t: seq<Byte>, i: nat)
    requires |t| == 255 && 5 <= i < 11
    ensures WriteStrings(cells, [t, t, [], []])[i] == t[209 + i]
  {
    var ss: Strings := [t, t, [], []];
    JoinedTwice(t);
    StartSum(ss);
    LapEnds(i, 558);
    hide Start, Joined, Latest, Header;
    SomeWritten(cells, 4, ss, i);
  }

  lemma {:induction false} LapEnds(i: nat, end: nat)
    requires i < SIZE && SIZE + i < end <= 2 * SIZE
    ensures Latest(i, end) == SIZE + i
    decreases end
  {
    OneLap(i, SIZE + i);
    if end > SIZE + i + 1 { LapEnds(i, end - 1); }
  }

  lemma FirstCell(cells: Cells, t: seq<Byte>, j: nat)
    requires |t| == 255 && j < 255
    ensures WriteStrings(cells, [t, t, [], []])[STRINGS + j] == t[j]
  {
    var ss: Strings := [t, t, [], []];
    JoinedTwice(t);
    LatestWithin(STRINGS + j, 558);
    hide Start, Joined, Latest, Header;
    SomeWritten(cells, 4, ss, STRINGS + j);
  }

  lemma EmptyHeader(cells: Cells, t: seq<Byte>, k: nat)
    requires |t| == 255 && 2 <= k < 4
    ensures ReadString(WriteStrings(cells, [t, t, [], []]), k) == []
  {
    var ss: Strings := [t, t, [], []];
    var i := HDR[k] + 2;
    JoinedTwice(t);
    StartSum(ss);
    LapEnds(i, 558);
    assert HeaderOf(i) == Some(k) && Header(Start(k, ss), ss[k])[2] == 0;
    hide Start, Joined, Latest, Header, WriteSome;
    SomeWritten(cells, 4, ss, i);
  }
}
