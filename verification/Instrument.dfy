/** Command packets (app/usbcmdio.h) and the firmware loop that answers them (app/instr_task.c). */
module Instrument {
  import opened Bits
  import opened EepromChip
  import opened Eeprom9366
  import opened Fletcher
  import opened Wrappers

  const CMD_ACK: Byte := 0
  const CMD_NAK: Byte := 1
  const CMD_ID: Byte := 3
  const CMD_ECHO: Byte := 4
  const CMD_READEE: Byte := 13
  const CMD_WRITEEE: Byte := 14
  const CMD_SPDT: Byte := 15
  const CMD_ERASEALL: Byte := 16
  const CMD_BLINK: Byte := 17

  const HEADER := 6        // bytes of a packet before its payload
  const WIRE_MAX := 64     // bytes of a packet on the wire
  const ITEM := 65         // bytes of a queue item: the flow byte and a packet
  const BUFFER := 256
  const ATTEMPTS := 10     // offers of a reply before it is dropped

  function LE16(x: nat): seq<Byte> { [x % 256, (x / 256) % 256] }

  function FromLE(lo: Byte, hi: Byte): nat { lo + 256 * hi }

  /** A buffer holds the flow byte, version, length (LE), command, checksum (LE), payload. */
  type Buffer = b: seq<Byte> | |b| == 256 witness seq(256, _ => 0)

  function Len(b: Buffer): nat { FromLE(b[2], b[3]) }

  /** What the endpoint is given: the buffer without its flow byte. */
  function Wire(b: Buffer): seq<Byte>
    requires Len(b) < 256
  {
    b[1..1 + Len(b)]
  }

  // ---- what the dispatcher does to its buffers, stale bytes included ----

  function Copied(inb: Buffer, outb: Buffer): Buffer
  {
    var sz := Len(inb) + 1;
    if sz < 248 then inb[..sz] + outb[sz..] else outb
  }

  /** Byte by byte: length and one more bytes are taken over, unless that makes 248 or more. */
  lemma CopiedBytes(inb: Buffer, outb: Buffer, k: nat)
    requires k < 256
    ensures var n := inb[2] as int + 256 * (inb[3] as int);
      Copied(inb, outb)[k] == if k <= n < 247 then inb[k] else outb[k]
  {
  }

  function WithLength(b: Buffer, n: nat): Buffer { b[2 := n % 256][3 := (n / 256) % 256] }

  /** The reply buffer before it is sealed; `data` is the cell a READEE addresses. */
  function Answered(inb: Buffer, outb: Buffer, data: Byte, id: seq<Byte>): Buffer
    requires |id| == 58
  {
    var o := WithLength(outb[1 := 1][4 := CMD_ACK], HEADER);
    var cmd := inb[4];
    if cmd == CMD_ID then
      var c := Copied(inb, o);
      WithLength(c[..7] + id + c[65..], HEADER + 16)
    else if cmd == CMD_ECHO then Copied(inb, o)
    else if cmd == CMD_READEE then WithLength(Copied(inb, o)[9 := data], HEADER + 3)
    else if cmd in {CMD_ACK, CMD_NAK, CMD_SPDT, CMD_WRITEEE, CMD_ERASEALL, CMD_BLINK} then o
    else o[4 := CMD_NAK]
  }

  /** The checksum covers buffer bytes 1 to length - 2, with its own field zeroed. */
  function Sealed(b: Buffer): Buffer
    requires Len(b) < 256
  {
    var z := b[5 := 0][6 := 0];
    var s := Stream(if Len(b) < 2 then [] else z[1..Len(b) - 1]);
    StreamBounded(if Len(b) < 2 then [] else z[1..Len(b) - 1]);
    z[5 := s.c1][6 := s.c2]
  }

  lemma StreamBounded(data: seq<Byte>)
    ensures Stream(data).c1 < 255 && Stream(data).c2 < 255
  {
    StreamMeaning(data);
  }

  lemma EmptyStream()
    ensures Stream([]) == Sums(0, 0)
  {
  }

  lemma StreamSlice(data: seq<Byte>, j: nat)
    requires 1 <= j < |data|
    ensures Stream(data[1..j + 1]) == Step(Stream(data[1..j]), data[j])
  {
    assert data[1..j + 1][..j - 1] == data[1..j];
  }

  lemma PackedBytes(c1: Byte, c2: Byte)
    ensures var p := U16(c2 * 256 + c1); p % 256 == c1 && (p / 256) % 256 == c2
  {
  }

  function AddressOf(inb: Buffer): nat { FromLE(inb[7], inb[8]) }

  function CellsAfter(inb: Buffer, cells: Cells): Cells
  {
    if inb[4] == CMD_WRITEEE then ArrayAfter(cells, WriteCall(AddressOf(inb), inb[9]))
    else if inb[4] == CMD_ERASEALL then ArrayAfter(cells, EraseAllCall)
    else cells
  }

  // ---- what the wire sees ----

  /** A request whose length field is right and whose payload is there. */
  predicate WellFormed(w: seq<Byte>)
  {
    && HEADER <= |w| <= WIRE_MAX
    && FromLE(w[1], w[2]) == |w|
    && (w[3] == CMD_READEE || w[3] == CMD_SPDT ==> |w| >= HEADER + 2)
    && (w[3] == CMD_WRITEEE ==> |w| >= HEADER + 3)
    && (w[3] == CMD_BLINK ==> |w| >= HEADER + 1)
  }

  function Seal(p: seq<Byte>): (r: seq<Byte>)
    requires |p| >= HEADER
    ensures |r| == |p|
  {
    var z := p[4 := 0][5 := 0];
    StreamBounded(z[..|p| - 2]);
    var s := Stream(z[..|p| - 2]);
    z[4 := s.c1][5 := s.c2]
  }

  /** A reply with its checksum still blank; `data` is the cell a READEE addresses. */
  function Body(w: seq<Byte>, data: Byte, id: seq<Byte>): (p: seq<Byte>)
    requires WellFormed(w) && |id| == 58
    ensures HEADER <= |p| <= WIRE_MAX
  {
    var cmd := w[3];
    if cmd == CMD_ID then [w[0]] + LE16(HEADER + 16) + [cmd, 0, 0] + id[..16]
    else if cmd == CMD_ECHO then w
    else if cmd == CMD_READEE then [w[0]] + LE16(HEADER + 3) + [cmd, 0, 0] + w[6..8] + [data]
    else
      var known := cmd in {CMD_ACK, CMD_NAK, CMD_SPDT, CMD_WRITEEE, CMD_ERASEALL, CMD_BLINK};
      [1] + LE16(HEADER) + [if known then CMD_ACK else CMD_NAK, 0, 0]
  }

  function ReadAddress(w: seq<Byte>): nat
    requires WellFormed(w)
  {
    if w[3] == CMD_READEE then FromLE(w[6], w[7]) else 0
  }

  /** The reply to a request, from the request, the EEPROM and the build constants alone. */
  function ReplyTo(w: seq<Byte>, cells: Cells, id: seq<Byte>): (r: seq<Byte>)
    requires WellFormed(w) && |id| == 58
    ensures |r| >= HEADER
  {
    Seal(Body(w, cells[ReadAddress(w) % SIZE], id))
  }

  /** The cells after a request, from the request alone. */
  function Stored(w: seq<Byte>, cells: Cells): Cells
    requires WellFormed(w)
  {
    if w[3] == CMD_WRITEEE then ArrayAfter(cells, WriteCall(FromLE(w[6], w[7]), w[8]))
    else if w[3] == CMD_ERASEALL then ArrayAfter(cells, EraseAllCall)
    else cells
  }

  /** What a request does to the part: command 14 writes its third payload byte, 16 erases, and no
      other request changes a cell. */
  lemma StoredBytes(w: seq<Byte>, cells: Cells)
    requires WellFormed(w)
    ensures Stored(w, cells) ==
            if w[3] == 14 then cells[(w[6] as int + 256 * (w[7] as int)) % 512 := w[8]]
            else if w[3] == 16 then seq(512, _ => 0xff) else cells
  {
  }

  /** The reply to a read: the address as it came, then the cell. */
  lemma ReadReply(w: seq<Byte>, cells: Cells, id: seq<Byte>)
    requires WellFormed(w) && w[3] == CMD_READEE && |id| == 58
    ensures var r := ReplyTo(w, cells, id);
      r[3] == CMD_READEE && r[HEADER..] == w[6..8] + [cells[FromLE(w[6], w[7]) % SIZE]]
    ensures Stored(w, cells) == cells
  {
    hide Stream;
    var b := Body(w, cells[ReadAddress(w) % SIZE], id);
    assert b[3] == CMD_READEE && b[HEADER..] == w[6..8] + [cells[ReadAddress(w) % SIZE]];
    SealKeepsRest(b);
  }

  /** The reply to an identity request: the first sixteen bytes of the record. */
  lemma IdReply(w: seq<Byte>, cells: Cells, id: seq<Byte>)
    requires WellFormed(w) && w[3] == CMD_ID && |id| == 58
    ensures var r := ReplyTo(w, cells, id); r[3] == CMD_ID && r[HEADER..] == id[..16]
    ensures Stored(w, cells) == cells
  {
    hide Stream;
    var b := Body(w, cells[ReadAddress(w) % SIZE], id);
    assert b[3] == CMD_ID && b[HEADER..] == id[..16];
    SealKeepsRest(b);
  }

  /** Version, length and status of every reply, and for the requests that only act, all of it. */
  lemma ReplyStatus(w: seq<Byte>, cells: Cells, id: seq<Byte>)
    requires WellFormed(w) && |id| == 58
    ensures var (r, cmd) := (ReplyTo(w, cells, id), w[3]);
      && r[1] as int + 256 * (r[2] as int) == |r| == (if cmd == 3 then 22 else if cmd == 4 then |w| else if cmd == 13 then 9 else 6)
      && r[0] == (if cmd == 3 || cmd == 4 || cmd == 13 then w[0] else 1)
      && r[3] == (if cmd == 3 || cmd == 4 || cmd == 13 then cmd
                  else if cmd == 0 || cmd == 1 || 14 <= cmd <= 17 then 0 else 1)
  {
    hide Stream;
    SealKeepsRest(Body(w, cells[ReadAddress(w) % SIZE], id));
  }

  /** Every reply's checksum field: the plain sum, then the weighted sum, modulo 255, of all but
      its last two bytes with the field itself zero. */
  lemma ReplyChecksum(w: seq<Byte>, cells: Cells, id: seq<Byte>)
    requires WellFormed(w) && |id| == 58
    ensures var r := ReplyTo(w, cells, id);
      var covered: seq<Byte> := r[4 := 0][5 := 0][..|r| - 2];
      && r[4] == Sum(covered) % 255 && r[5] == WeightedSum(covered) % 255
      && r[4] as int + 256 * (r[5] as int) == Checksum(covered)
  {
    var r := ReplyTo(w, cells, id);
    var p := Body(w, cells[ReadAddress(w) % SIZE], id);
    hide Stream, Body;
    var zr: seq<Byte> := r[4 := 0][5 := 0];
    var zp: seq<Byte> := p[4 := 0][5 := 0];
    assert zr == zp;
    StreamMeaning(zp[..|p| - 2]);
  }

  lemma SealKeepsRest(p: seq<Byte>)
    requires |p| >= HEADER
    ensures Seal(p)[3] == p[3] && Seal(p)[HEADER..] == p[HEADER..]
  {
    hide Stream;
  }

  lemma SealedKeepsLength(b: Buffer)
    requires Len(b) < 256
    ensures Len(Sealed(b)) == Len(b)
  {
    hide Stream;
  }

  lemma SealedOnWire(b: Buffer)
    requires HEADER <= Len(b) <= WIRE_MAX
    ensures Len(Sealed(b)) == Len(b) && Wire(Sealed(b)) == Seal(Wire(b))
  {
    hide Stream;
    var n := Len(b);
    assert b[5 := 0][6 := 0][1..n - 1] == Wire(b)[4 := 0][5 := 0][..n - 2];
  }

  /** No reply depends on earlier traffic: neither on what the queue item held after the
      packet (`junk`) nor on what an earlier reply left in the output buffer (`stale`). */
  lemma HistoryIndependence(w: seq<Byte>, junk: seq<Byte>, stale: Buffer, cells: Cells, id: seq<Byte>)
    requires WellFormed(w) && |id| == 58 && 1 + |w| + |junk| == BUFFER
    ensures var inb: Buffer := [0] + w + junk;
      var out := Answered(inb, stale, cells[AddressOf(inb) % SIZE], id);
      && HEADER <= Len(out) <= WIRE_MAX
      && Wire(Sealed(out)) == ReplyTo(w, cells, id)
      && CellsAfter(inb, cells) == Stored(w, cells)
  {
    hide Sealed, Seal, Answered, Body;
    var inb: Buffer := [0] + w + junk;
    assert forall k {:trigger w[k]} :: 0 <= k < |w| ==> inb[1 + k] == w[k];
    var data := cells[AddressOf(inb) % SIZE];
    var out := Answered(inb, stale, data, id);
    AnsweredBody(w, inb, stale, data, id);
    var body := Body(w, data, id);
    assert body == Body(w, cells[ReadAddress(w) % SIZE], id) by {
      hide *;
      BodyUsesData(w, data, cells[ReadAddress(w) % SIZE], id);
    }
    SealIgnoresChecksum(Wire(out), body);
    SealedOnWire(out);
  }

  /** The replies of a run that really carries the output buffer along and picks up whatever
      `junks` each queue item drags in. */
  function BufferRun(out: Buffer, cells: Cells, ws: seq<seq<Byte>>, junks: seq<seq<Byte>>, id: seq<Byte>): seq<seq<Byte>>
    requires |ws| == |junks| && |id| == 58
    requires forall k :: 0 <= k < |ws| ==> WellFormed(ws[k]) && 1 + |ws[k]| + |junks[k]| == BUFFER
    decreases |ws|
  {
    if ws == [] then []
    else
      var inb: Buffer := [0] + ws[0] + junks[0];
      HistoryIndependence(ws[0], junks[0], out, cells, id);
      var out' := Sealed(Answered(inb, out, cells[AddressOf(inb) % SIZE], id));
      SealedKeepsLength(Answered(inb, out, cells[AddressOf(inb) % SIZE], id));
      [Wire(out')] + BufferRun(out', CellsAfter(inb, cells), ws[1..], junks[1..], id)
  }

  /** The same run from the requests and the cells alone. */
  function PureRun(cells: Cells, ws: seq<seq<Byte>>, id: seq<Byte>): seq<seq<Byte>>
    requires |id| == 58 && forall k :: 0 <= k < |ws| ==> WellFormed(ws[k])
    decreases |ws|
  {
    if ws == [] then [] else [ReplyTo(ws[0], cells, id)] + PureRun(Stored(ws[0], cells), ws[1..], id)
  }

  /** Over every run of well-formed requests each reply is a function of its request, of the
      EEPROM at that point and of the build: never of anything left in a buffer. */
  lemma {:induction false} RunHistoryIndependence(out: Buffer, cells: Cells, ws: seq<seq<Byte>>, junks: seq<seq<Byte>>, id: seq<Byte>)
    requires |ws| == |junks| && |id| == 58
    requires forall k :: 0 <= k < |ws| ==> WellFormed(ws[k]) && 1 + |ws[k]| + |junks[k]| == BUFFER
    ensures BufferRun(out, cells, ws, junks, id) == PureRun(cells, ws, id)
    decreases |ws|
  {
    hide Answered, Sealed, ReplyTo, CellsAfter, Stored, WellFormed;
    if ws != [] {
      var inb: Buffer := [0] + ws[0] + junks[0];
      HistoryIndependence(ws[0], junks[0], out, cells, id);
      var answered := Answered(inb, out, cells[AddressOf(inb) % SIZE], id);
      RunHistoryIndependence(Sealed(answered), CellsAfter(inb, cells), ws[1..], junks[1..], id);
    }
  }

  lemma BodyUsesData(w: seq<Byte>, data: Byte, data': Byte, id: seq<Byte>)
    requires WellFormed(w) && |id| == 58 && (w[3] == CMD_READEE ==> data == data')
    ensures Body(w, data, id) == Body(w, data', id)
  {
  }

  predicate EqualButChecksum(p: seq<Byte>, q: seq<Byte>)
  {
    |p| == |q| && forall k :: 0 <= k < |p| && k != 4 && k != 5 ==> p[k] == q[k]
  }

  lemma AnsweredBody(w: seq<Byte>, inb: Buffer, stale: Buffer, data: Byte, id: seq<Byte>)
    requires WellFormed(w) && |id| == 58
    requires forall k {:trigger w[k]} :: 0 <= k < |w| ==> inb[1 + k] == w[k]
    ensures var out := Answered(inb, stale, data, id);
      && Len(out) == |Body(w, data, id)|
      && EqualButChecksum(Wire(out), Body(w, data, id))
  {
    var out := Answered(inb, stale, data, id);
    assert inb[1] == w[0] && inb[2] == w[1] && inb[3] == w[2] && inb[4] == w[3];
    assert Len(inb) == |w|;
    var o := WithLength(stale[1 := 1][4 := CMD_ACK], HEADER);
    assert o[1] == 1 && o[2] == HEADER && o[3] == 0 && o[4] == CMD_ACK;
    var c := Copied(inb, o);
    assert forall k {:trigger c[k]} :: 0 <= k <= |w| ==> c[k] == inb[k];
    hide WithLength, Copied;
    if w[3] == CMD_ECHO {
      forall k {:trigger w[k]} | 0 <= k < |w| ensures out[1 + k] == w[k] { }
    } else if w[3] == CMD_ID {
      IdBody(w, c, id);
    } else if w[3] == CMD_READEE {
      assert inb[7] == w[6] && inb[8] == w[7];
      ReadBody(w, c, data);
    }
  }

  lemma IdBody(w: seq<Byte>, c: Buffer, id: seq<Byte>)
    requires WellFormed(w) && |id| == 58 && w[3] == CMD_ID && c[1] == w[0] && c[4] == w[3]
    ensures var out := WithLength(c[..7] + id + c[65..], HEADER + 16);
      Len(out) == 22 && EqualButChecksum(Wire(out), Body(w, 0, id))
  {
  }

  lemma ReadBody(w: seq<Byte>, c: Buffer, data: Byte)
    requires WellFormed(w) && w[3] == CMD_READEE
    requires c[1] == w[0] && c[4] == w[3] && c[7] == w[6] && c[8] == w[7]
    ensures var out := WithLength(c[9 := data], HEADER + 3);
      Len(out) == 9 && EqualButChecksum(Wire(out), Body(w, data, seq(58, _ => 0)))
  {
  }

  lemma SealIgnoresChecksum(p: seq<Byte>, q: seq<Byte>)
    requires |p| >= HEADER && EqualButChecksum(p, q)
    ensures Seal(p) == Seal(q)
  {
    assert p[4 := 0][5 := 0] == q[4 := 0][5 := 0];
  }

  // ---- what the checksum of a reply protects ----

  /** A receiver that recomputes the checksum accepts `p`. */
  predicate Accepts(p: seq<Byte>)
    requires |p| >= HEADER
  {
    Seal(p) == p
  }

  /** Exactly which single-byte corruptions of a reply a checksum test lets through: any change
      of the last two payload bytes, and elsewhere the confusion of 0 and 255. */
  lemma UndetectedCorruption(body: seq<Byte>, k: nat, x: Byte)
    requires |body| >= HEADER && k < |body| && x != Seal(body)[k]
    ensures var p := Seal(body);
      Accepts(p[k := x]) <==>
        k != 4 && k != 5 && (k >= |p| - 2 || {x, p[k]} == {0, 255})
  {
    hide Stream;
    var p := Seal(body);
    var q := p[k := x];
    var n := |p|;
    var zp, zq := p[4 := 0][5 := 0], q[4 := 0][5 := 0];
    assert zp == body[4 := 0][5 := 0];
    StreamBounded(zp[..n - 2]);
    StreamBounded(zq[..n - 2]);
    if k == 4 || k == 5 {
      assert zq == zp;
    } else if k >= n - 2 {
      assert zq[..n - 2] == zp[..n - 2];
    } else {
      var sp, sq := Stream(zp[..n - 2]), Stream(zq[..n - 2]);
      assert Seal(q) == zq[4 := sq.c1][5 := sq.c2] && q == zq[4 := sp.c1][5 := sp.c2];
      assert Accepts(q) <==> sp == sq by {
        if Accepts(q) { assert q[4] == sq.c1 && q[5] == sq.c2 && q[4] == sp.c1 && q[5] == sp.c2; }
      }
      assert zq[..n - 2] == zp[..n - 2][k := x];
      OneByteDetection(zp[..n - 2], k, x);
      PackedEqual(Stream(zp[..n - 2]), Stream(zq[..n - 2]));
    }
  }

  /** So the cell a READEE reply carries is not covered by that reply's checksum at all. */
  lemma ReadReplyChecksumIsBlind(w: seq<Byte>, cells: Cells, cells': Cells, id: seq<Byte>)
    requires WellFormed(w) && w[3] == CMD_READEE && |id| == 58
    ensures ReplyTo(w, cells, id)[..8] == ReplyTo(w, cells', id)[..8]
  {
    hide Stream;
    var p := [w[0]] + LE16(HEADER + 3) + [CMD_READEE, 0, 0] + w[6..8];
    var (d, d') := (cells[FromLE(w[6], w[7]) % SIZE], cells'[FromLE(w[6], w[7]) % SIZE]);
    assert (p + [d])[4 := 0][5 := 0][..7] == (p + [d'])[4 := 0][5 := 0][..7];
  }

  /** An echo returns the request itself; only the checksum is rewritten. */
  lemma EchoReturnsRequest(w: seq<Byte>, cells: Cells, id: seq<Byte>)
    requires WellFormed(w) && w[3] == CMD_ECHO && |id| == 58
    ensures var r := ReplyTo(w, cells, id);
      |r| == |w| && r[..4] == w[..4] && r[6..] == w[6..] && Accepts(r)
  {
    hide Stream;
    SealIgnoresChecksum(Seal(w), w);
  }

  // ---- the dispatcher loop ----

  lemma QueuedBytes(w: seq<Byte>, more: seq<Byte>)
    requires WellFormed(w)
    ensures var b := [0] + w + more;
      && b[4] == w[3]
      && (w[3] == 15 ==> b[7] == w[6] && b[8] == w[7]) && (w[3] == 17 ==> b[7] == w[6])
  {
  }

  /** Peripheral calls whose effect is modelled elsewhere. */
  datatype Action = SpdtSet(swtch: Byte, sel: Byte) | IdBlink(on: Byte)

  type Packet = s: seq<Byte> | |s| == 64 witness seq(64, _ => 0)

  class InstrumentTask {
    const eeprom: Driver
    const inbuf: array<Byte>
    const outbuf: array<Byte>
    const productID: nat    // as it stands after readEEprom, which runs once at boot
    const build: seq<Byte>  // the rest of payload_id_response_t, fixed by the build
    /** Whether the endpoint takes the nth reply when it is offered for the kth time. */
    const takes: (nat, nat) -> bool
    var replies: nat
    var actions: seq<Action>
    /** What the receive interrupt's 64-byte buffer on the stack happens to hold. */
    var stack: Packet

    ghost predicate Valid()
      reads this, eeprom
    {
      && eeprom.Valid()
      && inbuf.Length == BUFFER && outbuf.Length == BUFFER && inbuf != outbuf
      && |build| == 57
    }

    /** payload_id_response_t, which starts with shortProdID(). */
    function Id(): (id: seq<Byte>)
      ensures |id| == 1 + |build|
    {
      [productID % 256] + build
    }

    /** One of the ten offers of the nth reply is taken. */
    predicate Delivers(n: nat) { exists k: nat :: k < 10 && takes(n, k) }

    constructor (eeprom: Driver, productID: nat, build: seq<Byte>, takes: (nat, nat) -> bool, stack: Packet)
      requires eeprom.Valid() && |build| == 57
      ensures Valid() && this.eeprom == eeprom && this.productID == productID && this.build == build
      ensures this.takes == takes && replies == 0
      ensures fresh(inbuf) && fresh(outbuf) && actions == []
    {
      this.eeprom, this.productID, this.build, this.takes, this.stack := eeprom, productID, build, takes, stack;
      replies := 0;
      inbuf := new Byte[BUFFER](_ => 0);
      outbuf := new Byte[BUFFER](_ => 0);
      actions := [];
    }

    /** The receive interrupt queues 65 bytes of which only the packet is new; `junk` is the rest. */
    method ReadPacket(w: seq<Byte>, junk: seq<Byte>)
      requires Valid() && |w| <= WIRE_MAX && 1 + |w| + |junk| == ITEM
      modifies inbuf
      ensures inbuf[..] == [0] + w + junk + old(inbuf[ITEM..])
    {
      var item := [0] + w + junk;
      forall k | 0 <= k < ITEM { inbuf[k] := item[k]; }
    }

    method CopyPacket()
      requires Valid()
      modifies outbuf
      ensures outbuf[..] == Copied(inbuf[..], old(outbuf[..]))
    {
      var sz := FromLE(inbuf[2], inbuf[3]) + 1;
      if sz < 248 {
        forall k | 0 <= k < sz { outbuf[k] := inbuf[k]; }
      }
    }

    method SetLength(n: nat)
      requires Valid()
      modifies outbuf
      ensures outbuf[..] == WithLength(old(outbuf[..]), n)
    {
      outbuf[2] := n % 256;
      outbuf[3] := (n / 256) % 256;
    }

    method GetInstrumentID()
      requires Valid()
      modifies outbuf
      ensures outbuf[..] == WithLength(old(outbuf[..7]) + Id() + old(outbuf[65..]), HEADER + 16)
    {
      var id := [productID % 256] + build;
      forall k | 0 <= k < 58 { outbuf[7 + k] := id[k]; }
      SetLength(HEADER + 16);
    }

    method ComputeChecksum()
      requires Valid() && Len(outbuf[..]) < 247
      modifies outbuf
      ensures outbuf[..] == Sealed(old(outbuf[..]))
    {
      hide Stream, Step, EnabledFirst, U16;
      ghost var before: Buffer := outbuf[..];
      ghost var z: Buffer := before[5 := 0][6 := 0];
      var sums := new FletcherChecksum();
      assert sums.State() == Stream([]) by { EmptyStream(); }
      outbuf[5] := 0;
      outbuf[6] := 0;
      var n: int := FromLE(outbuf[2], outbuf[3]);
      var j: int := 1;
      assert outbuf[..] == z && z[1..1] == [];
      while j < n - 1
        invariant 1 <= j && (j <= n - 1 || (n < 2 && j == 1))
        invariant outbuf[..] == z && fresh(sums)
        invariant sums.checksum1 < 255 && sums.checksum2 < 255
        invariant sums.State() == Stream(z[1..j])
      {
        StreamSlice(z, j);
        sums.Fletch(outbuf[j]);
        j := j + 1;
      }
      var checksum := U16(sums.checksum2 * 256 + sums.checksum1);
      PackedBytes(sums.checksum1, sums.checksum2);
      outbuf[5] := checksum % 256;
      outbuf[6] := (checksum / 256) % 256;
      assert outbuf[..] == z[5 := sums.checksum1][6 := sums.checksum2];
    }

    /** Offers the sealed reply to the endpoint: ten attempts, then it is dropped. */
    method WritePacket() returns (reply: Option<seq<Byte>>)
      requires Valid() && 0 < Len(outbuf[..]) < 247
      modifies outbuf, this`replies
      ensures outbuf[..] == Sealed(old(outbuf[..])) && replies == old(replies) + 1
      ensures reply == if Delivers(old(replies)) then Some(Wire(outbuf[..])) else None
    {
      hide Stream, Sealed;
      SealedKeepsLength(outbuf[..]);
      ComputeChecksum();
      var n := FromLE(outbuf[2], outbuf[3]);
      var timeLeft: nat := ATTEMPTS;
      var rval := if takes(replies, 0) then n else 0;
      while rval == 0 && timeLeft > 1
        invariant 1 <= timeLeft <= ATTEMPTS
        invariant rval == if takes(replies, ATTEMPTS - timeLeft) then n else 0
        invariant forall k: nat :: k < ATTEMPTS - timeLeft ==> !takes(replies, k)
      {
        timeLeft := timeLeft - 1;
        rval := if takes(replies, ATTEMPTS - timeLeft) then n else 0;
      }
      reply := if rval != 0 then Some(outbuf[1..1 + rval]) else None;
      replies := replies + 1;
    }

    /** The command dispatcher, up to the point where the reply is sent. */
    method Dispatch()
      requires Valid()
      modifies this, outbuf, eeprom
      ensures Valid() && replies == old(replies)
      ensures eeprom.chip.cells == CellsAfter(inbuf[..], old(eeprom.chip.cells))
      ensures var data := old(eeprom.chip.cells)[AddressOf(inbuf[..]) % SIZE];
        outbuf[..] == Answered(inbuf[..], old(outbuf[..]), data, Id())
      ensures var b := inbuf[..];
        actions == old(actions) +
          if b[4] == 15 then [SpdtSet(b[7], b[8])] else if b[4] == 17 then [IdBlink(b[7])] else []
    {
      hide WithLength, Copied, CallFrames, EnabledFirst;
      ghost var stale: Buffer, b: Buffer := outbuf[..], inbuf[..];
      outbuf[1] := 1;
      outbuf[4] := CMD_ACK;
      assert outbuf[..] == stale[1 := 1][4 := CMD_ACK];
      SetLength(HEADER);
      ghost var o: Buffer := outbuf[..];
      var cmd := inbuf[4];
      if cmd == CMD_ACK {
      } else if cmd == CMD_NAK {
      } else if cmd == CMD_ID {
        CopyPacket();
        GetInstrumentID();
      } else if cmd == CMD_ECHO {
        CopyPacket();
      } else if cmd == CMD_SPDT {
        actions := actions + [SpdtSet(inbuf[7], inbuf[8])];
      } else if cmd == CMD_WRITEEE {
        eeprom.Write(FromLE(inbuf[7], inbuf[8]), inbuf[9]);
      } else if cmd == CMD_READEE {
        CopyPacket();
        var data := eeprom.Read(FromLE(inbuf[7], inbuf[8]));
        outbuf[9] := data;
        assert outbuf[..] == Copied(b, o)[9 := data];
        SetLength(HEADER + 3);
      } else if cmd == CMD_ERASEALL {
        eeprom.EraseAll();
      } else if cmd == CMD_BLINK {
        actions := actions + [IdBlink(inbuf[7])];
      } else {
        outbuf[4] := CMD_NAK;
        assert outbuf[..] == o[4 := CMD_NAK];
      }
      assert inbuf[..] == b;
    }

    /** A packet arrives, is queued, executed and answered. */
    method Serve(w: seq<Byte>) returns (reply: Option<seq<Byte>>)
      requires Valid() && WellFormed(w)
      modifies this, inbuf, outbuf, eeprom
      ensures Valid() && replies == old(replies) + 1
      ensures eeprom.chip.cells == Stored(w, old(eeprom.chip.cells))
      ensures reply == if Delivers(old(replies)) then Some(ReplyTo(w, old(eeprom.chip.cells), Id())) else None
      ensures actions == old(actions) +
        if w[3] == 15 then [SpdtSet(w[6], w[7])] else if w[3] == 17 then [IdBlink(w[6])] else []
    {
      var junk := stack[|w|..];
      stack := w + junk;
      hide Stream, Sealed, Answered, Seal, Body, CellsAfter, Stored, ReplyTo, FromLE, Wire, CallFrames, EnabledFirst;
      ghost var rest, stale, cells := inbuf[ITEM..], outbuf[..], eeprom.chip.cells;
      ReadPacket(w, junk);
      assert inbuf[..] == [0] + w + (junk + rest);
      QueuedBytes(w, junk + rest);
      HistoryIndependence(w, junk + rest, stale, cells, Id());
      Dispatch();
      reply := WritePacket();
    }
  }
}
