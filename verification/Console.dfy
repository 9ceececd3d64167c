/** The packetising console stream of app/syscalls.c: _write, enq and sendPacket. */
module Console {
  import opened Bits

  const BUFFER_SIZE := 64
  const LF: Byte := 0x0a
  const CR: Byte := 0x0d

  // ---- the output line discipline ----

  function Translated(c: Byte): seq<Byte> { if c == LF then [CR, LF] else [c] }

  /** ONLCR (POSIX.1-2017 Base Definitions, section 11.2.3): a line feed becomes CR LF. */
  function Onlcr(s: seq<Byte>): seq<Byte>
  {
    if s == [] then [] else Onlcr(s[..|s| - 1]) + Translated(s[|s| - 1])
  }

  /** What a receiver that drops the CR of every CR LF sees. */
  function Received(s: seq<Byte>): seq<Byte>
  {
    if s == [] then []
    else if |s| >= 2 && s[0] == CR && s[1] == LF then [LF] + Received(s[2..])
    else [s[0]] + Received(s[1..])
  }

  lemma {:induction false} OnlcrConcat(a: seq<Byte>, b: seq<Byte>)
    ensures Onlcr(a + b) == Onlcr(a) + Onlcr(b)
    decreases |b|
  {
    if b == [] {
      assert a + b == a;
    } else {
      var n := |b| - 1;
      assert (a + b)[..|a + b| - 1] == a + b[..n];
      OnlcrConcat(a, b[..n]);
    }
  }

  /** In bytes: 0x0a becomes 0x0d 0x0a wherever it stands, and every other byte stays. */
  lemma OnlcrBytes(a: seq<Byte>, c: Byte, b: seq<Byte>)
    ensures Onlcr(a + [c] + b) == Onlcr(a) + (if c == 0x0a then [0x0d, 0x0a] else [c]) + Onlcr(b)
    ensures Onlcr([]) == []
  {
    OnlcrConcat(a + [c], b);
    OnlcrConcat(a, [c]);
    assert [c][..0] == [];
  }

  lemma OnlcrCons(c: Byte, s: seq<Byte>)
    ensures Onlcr([c] + s) == Translated(c) + Onlcr(s)
  {
    OnlcrConcat([c], s);
    assert [c][..0] == [];
  }

  /** The translation loses nothing, carriage returns in the input included. */
  lemma {:induction false} OnlcrReversible(s: seq<Byte>)
    ensures Received(Onlcr(s)) == s
    ensures s != [] ==> Onlcr(s) != [] && Onlcr(s)[0] != LF
    decreases |s|
  {
    if s != [] {
      var (c, rest) := (s[0], s[1..]);
      assert s == [c] + rest;
      OnlcrCons(c, rest);
      OnlcrReversible(rest);
      var t := Onlcr(rest);
      assert (Translated(c) + t)[|Translated(c)|..] == t;
    }
  }

  // ---- what becomes of the bytes ----

  function Flatten(packets: seq<seq<Byte>>): seq<Byte>
  {
    if packets == [] then [] else packets[0] + Flatten(packets[1..])
  }

  /** Packets that went out, and the bytes queued since the last of them. */
  datatype Link = Link(packets: seq<seq<Byte>>, backlog: seq<Byte>)

  /** The end of the backlog that is still in the buffer: the size is counted modulo 64. */
  function Pending(backlog: seq<Byte>): (p: seq<Byte>)
    ensures |p| == |backlog| % BUFFER_SIZE < BUFFER_SIZE
  {
    backlog[|backlog| - |backlog| % BUFFER_SIZE..]
  }

  /** One _write call; `accepts` is the endpoint's answer, no while USB is not configured. With
      nothing pending the packet offered is empty. */
  function Written(l: Link, data: seq<Byte>, accepts: bool): Link
  {
    var b := l.backlog + Onlcr(data);
    if accepts then Link(l.packets + [Pending(b)], []) else Link(l.packets, b)
  }

  datatype Call = Call(data: seq<Byte>, accepts: bool)

  function Run(l: Link, calls: seq<Call>): Link
    decreases |calls|
  {
    if calls == [] then l else Run(Written(l, calls[0].data, calls[0].accepts), calls[1..])
  }

  function Input(calls: seq<Call>): seq<Byte>
  {
    if calls == [] then [] else calls[0].data + Input(calls[1..])
  }

  /** What the host has received, and what it can still get. */
  function Delivered(l: Link): seq<Byte> { Flatten(l.packets) + Pending(l.backlog) }

  /** The translated stream cut where the endpoint accepts a packet; the last piece is still queued. */
  function Pieces(backlog: seq<Byte>, calls: seq<Call>): (p: seq<seq<Byte>>)
    ensures p != []
    decreases |calls|
  {
    if calls == [] then [backlog]
    else
      var b := backlog + Onlcr(calls[0].data);
      if calls[0].accepts then [b] + Pieces([], calls[1..]) else Pieces(b, calls[1..])
  }

  /** Each piece without the whole 64-byte blocks it starts with. */
  function Tails(pieces: seq<seq<Byte>>): (t: seq<seq<Byte>>)
    ensures |t| == |pieces|
  {
    seq(|pieces|, k requires 0 <= k < |pieces| => Pending(pieces[k]))
  }

  /** How many 64-byte blocks the pieces complete. */
  function Blocks(pieces: seq<seq<Byte>>): nat
  {
    if pieces == [] then 0 else |pieces[0]| / BUFFER_SIZE + Blocks(pieces[1..])
  }

  /** No call completes 64 queued bytes. */
  predicate Quiet(backlog: seq<Byte>, calls: seq<Call>)
    decreases |calls|
  {
    calls == [] ||
    (|backlog| + |Onlcr(calls[0].data)| < BUFFER_SIZE &&
     Quiet(if calls[0].accepts then [] else backlog + Onlcr(calls[0].data), calls[1..]))
  }

  lemma {:induction false} FlattenConcat(a: seq<seq<Byte>>, b: seq<seq<Byte>>)
    ensures Flatten(a + b) == Flatten(a) + Flatten(b)
  {
    if a == [] {
      assert a + b == b;
    } else {
      assert (a + b)[1..] == a[1..] + b;
      FlattenConcat(a[1..], b);
    }
  }

  lemma FlattenOne(p: seq<Byte>)
    ensures Flatten([p]) == p
  {
  }

  lemma TailsConcat(a: seq<seq<Byte>>, b: seq<seq<Byte>>)
    ensures Tails(a + b) == Tails(a) + Tails(b)
  {
  }

  /** In every run the translated stream falls into pieces at the packets the endpoint accepts, and
      each packet is its piece without the whole 64-byte blocks in front. */
  lemma {:induction false} OnlyBlocksAreLost(l: Link, calls: seq<Call>)
    ensures var (p, r) := (Pieces(l.backlog, calls), Run(l, calls));
      && Flatten(p) == l.backlog + Onlcr(Input(calls))
      && r.packets == l.packets + Tails(p[..|p| - 1])
      && r.backlog == p[|p| - 1]
    decreases |calls|
  {
    hide Onlcr, Pending, Flatten, Tails;
    if calls == [] {
      assert Onlcr([]) == [] by { EmptyTranslates(); }
      FlattenOne(l.backlog);
      assert Tails([]) == [];
    } else {
      var (c, rest) := (calls[0], calls[1..]);
      var l' := Written(l, c.data, c.accepts);
      var (b, p) := (l.backlog + Onlcr(c.data), Pieces(l'.backlog, rest));
      OnlyBlocksAreLost(l', rest);
      OnlcrConcat(c.data, Input(rest));
      assert b + Onlcr(Input(rest)) == l.backlog + Onlcr(Input(calls));
      if c.accepts {
        FlattenConcat([b], p);
        FlattenOne(b);
        TailsConcat([b], p[..|p| - 1]);
        assert Tails([b]) == [Pending(b)] by { OneTail(b); }
        assert ([b] + p)[..|p|] == [b] + p[..|p| - 1];
      }
    }
  }

  lemma OneTail(b: seq<Byte>)
    ensures Tails([b]) == [Pending(b)]
  {
  }

  /** So what arrives is the concatenation of those ends, what is missing is whole blocks, and
      from power-up nothing else enters into it. */
  lemma DeliveredTails(calls: seq<Call>)
    ensures var (p, r) := (Pieces([], calls), Run(Link([], []), calls));
      && Flatten(p) == Onlcr(Input(calls))
      && Delivered(r) == Flatten(Tails(p))
      && |Delivered(r)| + 64 * Blocks(p) == |Onlcr(Input(calls))|
  {
    hide Onlcr, Pending, Flatten, Tails;
    var p := Pieces([], calls);
    var last := |p| - 1;
    OnlyBlocksAreLost(Link([], []), calls);
    assert [] + Onlcr(Input(calls)) == Onlcr(Input(calls)) && [] + Tails(p[..last]) == Tails(p[..last]);
    assert p == p[..last] + [p[last]];
    TailsConcat(p[..last], [p[last]]);
    OneTail(p[last]);
    FlattenConcat(Tails(p[..last]), [Pending(p[last])]);
    FlattenOne(Pending(p[last]));
    MissingBlocks(p);
  }

  lemma {:induction false} MissingBlocks(p: seq<seq<Byte>>)
    ensures |Flatten(Tails(p))| + BUFFER_SIZE * Blocks(p) == |Flatten(p)|
  {
    if p != [] {
      assert Tails(p)[1..] == Tails(p[1..]);
      MissingBlocks(p[1..]);
    }
  }

  lemma {:induction false} QuietBlocks(backlog: seq<Byte>, calls: seq<Call>)
    requires |backlog| < BUFFER_SIZE
    ensures Quiet(backlog, calls) <==> Blocks(Pieces(backlog, calls)) == 0
    decreases |calls|
  {
    hide Onlcr;
    if calls != [] {
      var b := backlog + Onlcr(calls[0].data);
      if |b| < BUFFER_SIZE {
        QuietBlocks(if calls[0].accepts then [] else b, calls[1..]);
      } else if !calls[0].accepts {
        FirstPieceGrows(b, calls[1..]);
      }
    }
  }

  lemma {:induction false} FirstPieceGrows(backlog: seq<Byte>, calls: seq<Call>)
    ensures |Pieces(backlog, calls)[0]| >= |backlog|
    decreases |calls|
  {
    hide Onlcr;
    if calls != [] && !calls[0].accepts { FirstPieceGrows(backlog + Onlcr(calls[0].data), calls[1..]); }
  }

  lemma {:induction false} QuietTails(p: seq<seq<Byte>>)
    requires Blocks(p) == 0
    ensures Tails(p) == p
  {
    if p != [] {
      hide Pending, Tails;
      QuietTails(p[1..]);
      assert p == [p[0]] + p[1..];
      TailsConcat([p[0]], p[1..]);
      OneTail(p[0]);
      PendingQuiet(p[0]);
    }
  }

  lemma PendingQuiet(b: seq<Byte>)
    requires |b| < BUFFER_SIZE
    ensures Pending(b) == b
  {
  }

  lemma EmptyTranslates()
    ensures Onlcr([]) == []
  {
  }

  /** From power-up everything arrives, translated and in order, exactly when no call completes
      64 queued bytes. */
  lemma StreamConserved(calls: seq<Call>)
    ensures Delivered(Run(Link([], []), calls)) == Onlcr(Input(calls)) <==> Quiet([], calls)
  {
    hide Onlcr, Delivered, Tails;
    DeliveredTails(calls);
    QuietBlocks([], calls);
    if Quiet([], calls) { QuietTails(Pieces([], calls)); }
  }

  /** Sixty-four bytes at once: an empty packet goes out and all of them are gone. */
  lemma FullBlockVanishes(data: seq<Byte>)
    requires |data| == 64 && 0x0a !in data
    ensures Run(Link([], []), [Call(data, true)]) == Link([[]], [])
  {
    TranslatedPlain(data);
    assert [Call(data, true)][1..] == [];
  }

  lemma {:induction false} TranslatedPlain(data: seq<Byte>)
    requires LF !in data
    ensures Onlcr(data) == data
  {
    if data != [] {
      var n := |data| - 1;
      TranslatedPlain(data[..n]);
      assert data[..n] + [data[n]] == data;
    }
  }

  predicate Sized(packets: seq<seq<Byte>>, most: nat)
  {
    forall k :: 0 <= k < |packets| ==> |packets[k]| <= most
  }

  /** No packet holds more than 63 bytes. */
  lemma {:induction false} PacketSizes(l: Link, calls: seq<Call>)
    requires Sized(l.packets, 63)
    ensures Sized(Run(l, calls).packets, 63)
    decreases |calls|
  {
    if calls != [] { PacketSizes(Written(l, calls[0].data, calls[0].accepts), calls[1..]); }
  }

  // ---- with the size counted to 64, as the waits for a full packet expect ----

  /** A byte is queued; a full packet is offered until it is taken. */
  function RepairedPut(l: Link, c: Byte): Link
  {
    var b := l.backlog + [c];
    if |b| == BUFFER_SIZE then Link(l.packets + [b], []) else Link(l.packets, b)
  }

  function RepairedQueue(l: Link, bytes: seq<Byte>): Link
    decreases |bytes|
  {
    if bytes == [] then l else RepairedQueue(RepairedPut(l, bytes[0]), bytes[1..])
  }

  function RepairedWritten(l: Link, data: seq<Byte>, accepts: bool): Link
  {
    var q := RepairedQueue(l, Onlcr(data));
    if accepts then Link(q.packets + [q.backlog], []) else q
  }

  function RepairedRun(l: Link, calls: seq<Call>): Link
    decreases |calls|
  {
    if calls == [] then l else RepairedRun(RepairedWritten(l, calls[0].data, calls[0].accepts), calls[1..])
  }

  predicate Packed(l: Link) { Sized(l.packets, BUFFER_SIZE) && |l.backlog| < BUFFER_SIZE }

  function Queued(l: Link): seq<Byte> { Flatten(l.packets) + l.backlog }

  /** Moving the whole backlog into a packet keeps the bytes and their order. */
  lemma ShipConserves(packets: seq<seq<Byte>>, b: seq<Byte>)
    ensures Queued(Link(packets + [b], [])) == Flatten(packets) + b
  {
    FlattenConcat(packets, [b]);
    FlattenOne(b);
  }

  lemma PutConserves(l: Link, c: Byte)
    requires Packed(l)
    ensures Packed(RepairedPut(l, c)) && Queued(RepairedPut(l, c)) == Queued(l) + [c]
  {
    hide Flatten;
    ShipConserves(l.packets, l.backlog + [c]);
    assert Flatten(l.packets) + (l.backlog + [c]) == Queued(l) + [c];
  }

  lemma {:induction false} QueueConserves(l: Link, bytes: seq<Byte>)
    requires Packed(l)
    ensures Packed(RepairedQueue(l, bytes)) && Queued(RepairedQueue(l, bytes)) == Queued(l) + bytes
    decreases |bytes|
  {
    hide Queued, Packed, RepairedPut;
    if bytes == [] {
      assert Queued(l) + [] == Queued(l);
    } else {
      PutConserves(l, bytes[0]);
      QueueConserves(RepairedPut(l, bytes[0]), bytes[1..]);
      assert Queued(l) + [bytes[0]] + bytes[1..] == Queued(l) + bytes;
    }
  }

  lemma CallConserves(l: Link, data: seq<Byte>, accepts: bool)
    requires Packed(l)
    ensures var r := RepairedWritten(l, data, accepts);
      Packed(r) && Queued(r) == Queued(l) + Onlcr(data)
  {
    hide Onlcr, RepairedQueue, Flatten;
    var q := RepairedQueue(l, Onlcr(data));
    QueueConserves(l, Onlcr(data));
    ShipConserves(q.packets, q.backlog);
  }

  /** Then every run delivers everything, whatever the endpoint answers, in packets of at most 64. */
  lemma {:induction false} RepairedConserves(l: Link, calls: seq<Call>)
    requires Packed(l)
    ensures var r := RepairedRun(l, calls);
      Packed(r) && Queued(r) == Queued(l) + Onlcr(Input(calls))
    decreases |calls|
  {
    hide Onlcr, RepairedWritten, Packed, Queued;
    if calls == [] {
      EmptyTranslates();
      assert Queued(l) + [] == Queued(l);
    } else {
      var (data, rest) := (calls[0].data, calls[1..]);
      CallConserves(l, data, calls[0].accepts);
      RepairedConserves(RepairedWritten(l, data, calls[0].accepts), rest);
      OnlcrConcat(data, Input(rest));
    }
  }

  // ---- the live buffer ----

  class Stream {
    const buffer: array<Byte>
    var rPtr: nat
    var wPtr: nat
    var size: nat
    ghost var link: Link

    /** In every reachable state the read index is 0 and the write index is the size. */
    ghost predicate Valid()
      reads this, buffer
    {
      && buffer.Length == BUFFER_SIZE
      && rPtr == 0 && wPtr == size < BUFFER_SIZE
      && buffer[..size] == Pending(link.backlog)
    }

    constructor ()
      ensures Valid() && fresh(buffer) && link == Link([], [])
    {
      buffer := new Byte[BUFFER_SIZE](_ => 0);
      rPtr, wPtr, size := 0, 0, 0;
      link := Link([], []);
    }

    /** enq("c", 1) */
    method Enq(c: Byte)
      requires Valid()
      modifies this, buffer
      ensures Valid() && link == Link(old(link.packets), old(link.backlog) + [c])
    {
      EnqPending(link.backlog, c);
      ghost var was := buffer[..];
      buffer[wPtr] := c;
      assert buffer[..wPtr + 1] == was[..wPtr] + [c];
      wPtr := (wPtr + 1) % BUFFER_SIZE;
      size := (size + 1) % BUFFER_SIZE;
      link := Link(link.packets, link.backlog + [c]);
    }

    /** Offers what is pending to the endpoint, which reports the bytes it took. */
    method SendPacket(accepts: bool) returns (rval: nat)
      requires Valid()
      modifies this
      ensures Valid() && rval == (if accepts then old(size) else 0)
      ensures var p := Pending(old(link.backlog));
        link == if accepts then Link(old(link.packets) + [p], []) else old(link)
    {
      hide Pending;
      rval := if accepts then size else 0;
      assert buffer[rPtr..rPtr + size] == buffer[..size];
      if accepts {
        link := Link(link.packets + [buffer[rPtr..rPtr + size]], []);
        assert Pending([]) == [];
      }
      if rval != 0 {
        rPtr, wPtr, size := 0, 0, 0;
      }
    }

    /** Translates and queues every byte, then offers one packet. The waits for a full buffer
        (lines 177, 183 and 188) are never entered: the size never equals BUFFER_SIZE. */
    method Write(file: int, data: seq<Byte>, accepts: bool) returns (n: nat)
      requires Valid()
      modifies this, buffer
      ensures Valid() && n == (if file == 0 then |data| else 0)
      ensures link == if file == 0 then Written(old(link), data, accepts) else old(link)
    {
      if file != 0 { return 0; }
      hide Pending, Onlcr;
      assert size != BUFFER_SIZE;
      EmptyTranslates();
      assert link.backlog + [] == link.backlog;
      for todo := 0 to |data|
        invariant Valid()
        invariant link == Link(old(link.packets), old(link.backlog) + Onlcr(data[..todo]))
      {
        OnlcrNext(data, todo);
        if data[todo] == LF {
          Enq(CR);
          assert size != BUFFER_SIZE;
        }
        Enq(data[todo]);
        assert size != BUFFER_SIZE;
        assert link.backlog == old(link.backlog) + Onlcr(data[..todo + 1]);
      }
      assert data[..|data|] == data;
      var _ := SendPacket(accepts);
      n := |data|;
    }
  }

  lemma OnlcrNext(data: seq<Byte>, k: nat)
    requires k < |data|
    ensures Onlcr(data[..k + 1]) == Onlcr(data[..k]) + Translated(data[k])
  {
    assert data[..k + 1][..k] == data[..k];
  }

  /** Queuing one byte: it is appended, unless it completes a block, which leaves nothing. */
  lemma EnqPending(backlog: seq<Byte>, c: Byte)
    ensures Pending(backlog + [c]) ==
            if |Pending(backlog)| + 1 == BUFFER_SIZE then [] else Pending(backlog) + [c]
  {
  }
}
