/** The heap break of app/syscalls.c: _sbrk and _sbrk_r, whose bodies are the same. */
module HeapBreak {
  import opened Wrappers

  const RAM_START := 0x2000_0000    // app/standalone.ld:27
  const RAM_END := 0x2002_0000
  const WORD := 0x1_0000_0000

  /** (x + 7) & ~7 on 32 bits */
  function RoundUp(x: nat): nat { (x + 7) % WORD / 8 * 8 }

  datatype Block = Block(base: nat, size: nat)

  /** The linker's heap region lies in RAM; its ends need not be aligned. */
  predicate Linked(start: nat, end: nat) { RAM_START <= start <= end <= RAM_END }

  /** One request: the new break, and the block granted. */
  function Request(brk: nat, n: nat, end: nat): (nat, Option<Block>)
  {
    var next := RoundUp((brk + n) % WORD);
    if next > end then (brk, None) else (next, Some(Block(brk, n)))
  }

  function Grants(brk: nat, requests: seq<nat>, end: nat): seq<Block>
    decreases |requests|
  {
    if requests == [] then []
    else
      var (brk', b) := Request(brk, requests[0], end);
      (if b.Some? then [b.value] else []) + Grants(brk', requests[1..], end)
  }

  predicate Reasonable(requests: seq<nat>) { forall k :: 0 <= k < |requests| ==> requests[k] < 0x8000_0000 }

  /** A request of at most 2^31 - 1 bytes does not wrap: the break moves up to the next multiple
      of eight past the block, or stays where it is. */
  lemma RequestMoves(brk: nat, n: nat, start: nat, end: nat)
    requires Linked(start, end) && start <= brk <= end && n < 0x8000_0000
    ensures var (next, b) := Request(brk, n, end);
      && (b.Some? <==> (brk + n + 7) / 8 * 8 <= end)
      && if b.Some? then b.value == Block(brk, n) && brk + n <= next <= end && next % 8 == 0 && next < brk + n + 8
         else next == brk
  {
    SmallEnough(brk + n);
    RoundUpFits(brk + n);
    hide RoundUp;
  }

  lemma SmallEnough(x: nat)
    requires x < WORD
    ensures x % WORD == x
  {
  }

  lemma RoundUpFits(x: nat)
    requires x + 7 < WORD
    ensures RoundUp(x) == (x + 7) / 8 * 8 && x <= RoundUp(x) < x + 8 && RoundUp(x) % 8 == 0
  {
    SmallEnough(x + 7);
  }

  /** Blocks in order, apart, between `brk` and `end`, and all but the first aligned. */
  predicate Apart(g: seq<Block>, brk: nat, end: nat)
  {
    && (forall i :: 0 <= i < |g| ==> brk <= g[i].base && g[i].base + g[i].size <= end)
    && (forall i, j :: 0 <= i < j < |g| ==> g[i].base + g[i].size <= g[j].base)
    && (forall i :: 1 <= i < |g| ==> g[i].base % 8 == 0)
    && (brk % 8 == 0 && g != [] ==> g[0].base % 8 == 0)
  }

  lemma ApartFrom(b: Block, g: seq<Block>, next: nat, end: nat)
    requires Apart(g, next, end) && b.base + b.size <= next <= end && next % 8 == 0
    ensures Apart([b] + g, b.base, end)
  {
    var all := [b] + g;
    forall i | 1 <= i < |all| ensures all[i].base >= next && all[i].base + all[i].size <= end && all[i].base % 8 == 0 {
      assert all[i] == g[i - 1];
    }
    forall i, j | 0 <= i < j < |all| ensures all[i].base + all[i].size <= all[j].base {
      if i > 0 { assert all[i] == g[i - 1] && all[j] == g[j - 1]; }
    }
  }

  /** Granted blocks lie in order, apart, inside the heap, and all but the first are aligned. */
  lemma {:induction false} BlocksApart(brk: nat, requests: seq<nat>, start: nat, end: nat)
    requires Linked(start, end) && start <= brk <= end && Reasonable(requests)
    ensures Apart(Grants(brk, requests, end), brk, end)
    decreases |requests|
  {
    if requests != [] {
      hide Request, Apart;
      var (next, b) := Request(brk, requests[0], end);
      RequestMoves(brk, requests[0], start, end);
      BlocksApart(next, requests[1..], start, end);
      if b.Some? {
        ApartFrom(b.value, Grants(next, requests[1..], end), next, end);
      } else {
        assert [] + Grants(next, requests[1..], end) == Grants(next, requests[1..], end);
      }
    } else {
      assert Apart([], brk, end);
    }
  }

  class Heap {
    const start: nat
    const end: nat
    var heapPtr: nat     // 0 until the first call

    constructor (start: nat, end: nat)
      requires Linked(start, end)
      ensures heapPtr == 0 && this.start == start && this.end == end
    {
      this.start, this.end, heapPtr := start, end, 0;
    }

    function Break(): nat
      reads this
    {
      if heapPtr == 0 then start else heapPtr
    }

    /** None stands for (void *) -1. */
    method Sbrk(nbytes: nat) returns (base: Option<nat>)
      requires Linked(start, end) && (heapPtr == 0 || start <= heapPtr <= end) && nbytes < 0x8000_0000
      modifies this
      ensures start <= heapPtr <= end
      ensures var (next, b) := Request(old(Break()), nbytes, end);
        && heapPtr == next
        && base == if b.Some? then Some(b.value.base) else None
    {
      if heapPtr == 0 { heapPtr := start; }
      RequestMoves(heapPtr, nbytes, start, end);
      var newPtr := RoundUp((heapPtr + nbytes) % WORD);
      if newPtr > end { return None; }
      base := Some(heapPtr);
      heapPtr := newPtr;
    }
  }
}
