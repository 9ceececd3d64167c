/**
 * The ticket / compare-and-swap / semaphore queue sketched in app/ring_buf.c, as interleaved
 * atomic steps of any number of producers and one consumer. Values are non-null pointers;
 * None is a NULL slot. Line 22 indexes with `writePosition` where the local is `writepos`;
 * the local is meant.
 */
module RingBuf {
  import opened Wrappers

  const WORD := 0x1_0000_0000_0000_0000   // both positions are uint64_t

  datatype Producer<V> = Idle | Ticketed(slot: nat, value: V) | Stored

  datatype Consumer = Waiting | Granted | Processed

  /** `produced` and `consumed` record the successful swaps and the reads, in order. */
  datatype Queue<V> = Queue(
    slots: seq<Option<V>>, writePosition: nat, semaphore: nat, readPos: nat,
    producers: seq<Producer<V>>, consumer: Consumer,
    produced: seq<V>, consumed: seq<Option<V>>)

  datatype Step<V> =
    | Ticket(p: nat, value: V)   // fetch_and_add
    | Swap(p: nat)               // the swap that succeeds
    | Spin(p: nat)               // the swap that fails
    | Post(p: nat)
    | Wait
    | Read
    | Clear

  function Init<V>(producers: nat, size: nat): Queue<V>
  {
    Queue(seq(size, _ => None), 0, 0, 0, seq(producers, _ => Idle), Waiting, [], [])
  }

  predicate Enabled<V>(q: Queue<V>, s: Step<V>)
  {
    && |q.slots| > 0
    && match s
       case Ticket(p, _) => p < |q.producers| && q.producers[p].Idle?
       case Swap(p) => Aims(q, p) && q.slots[q.producers[p].slot].None?
       case Spin(p) => Aims(q, p) && q.slots[q.producers[p].slot].Some?
       case Post(p) => p < |q.producers| && q.producers[p].Stored?
       case Wait => q.consumer.Waiting? && q.semaphore > 0
       case Read => q.consumer.Granted?
       case Clear => q.consumer.Processed?
  }

  predicate Aims<V>(q: Queue<V>, p: nat)
  {
    p < |q.producers| && q.producers[p].Ticketed? && q.producers[p].slot < |q.slots|
  }

  function Apply<V>(q: Queue<V>, s: Step<V>): Queue<V>
    requires Enabled(q, s)
  {
    match s
    case Ticket(p, v) =>
      q.(producers := q.producers[p := Ticketed(q.writePosition % |q.slots|, v)],
         writePosition := (q.writePosition + 1) % WORD)
    case Swap(p) =>
      var t := q.producers[p];
      q.(slots := q.slots[t.slot := Some(t.value)], producers := q.producers[p := Stored],
         produced := q.produced + [t.value])
    case Spin(_) => q
    case Post(p) => q.(producers := q.producers[p := Idle], semaphore := q.semaphore + 1)
    case Wait => q.(semaphore := q.semaphore - 1, consumer := Granted)
    case Read => q.(consumer := Processed, consumed := q.consumed + [q.slots[q.readPos % |q.slots|]])
    case Clear =>
      q.(slots := q.slots[q.readPos % |q.slots| := None], consumer := Waiting,
         readPos := (q.readPos + 1) % WORD)
  }

  /** The steps can be taken one after the other. */
  predicate Possible<V>(q: Queue<V>, steps: seq<Step<V>>)
    decreases |steps|
  {
    steps == [] || (Enabled(q, steps[0]) && Possible(Apply(q, steps[0]), steps[1..]))
  }

  function After<V>(q: Queue<V>, steps: seq<Step<V>>): Queue<V>
    requires Possible(q, steps)
    decreases |steps|
  {
    if steps == [] then q else After(Apply(q, steps[0]), steps[1..])
  }

  // ---- the invariant ----

  /** Where item number n goes, counter wrap-around included. */
  function Slot(n: nat, size: nat): (s: nat)
    requires size > 0
    ensures s < size
  {
    (n % WORD) % size
  }

  function Pending<V>(ps: seq<Producer<V>>): nat
  {
    if ps == [] then 0 else Pending(ps[1..]) + if ps[0].Stored? then 1 else 0
  }

  lemma {:induction false} PendingUpdate<V>(ps: seq<Producer<V>>, p: nat, x: Producer<V>)
    requires p < |ps|
    ensures Pending(ps[p := x]) ==
      Pending(ps) + (if x.Stored? then 1 else 0) - (if ps[p].Stored? then 1 else 0)
    decreases |ps|
  {
    if p > 0 {
      assert ps[p := x][1..] == ps[1..][p - 1 := x];
      PendingUpdate(ps[1..], p - 1, x);
    } else {
      assert ps[0 := x][1..] == ps[1..];
    }
  }

  function Cleared<V>(q: Queue<V>): int
  {
    |q.consumed| - if q.consumer.Processed? then 1 else 0
  }

  /** Items swapped in and not yet cleared. */
  ghost predicate Live<V>(q: Queue<V>, i: int)
  {
    Cleared(q) <= i < |q.produced|
  }

  ghost predicate Counts<V>(q: Queue<V>)
  {
    && |q.slots| > 0
    && 0 <= Cleared(q)
    && q.readPos == Cleared(q) % WORD
    && |q.produced| == Cleared(q) + q.semaphore + Pending(q.producers) + if q.consumer.Waiting? then 0 else 1
  }

  ghost predicate Contents<V>(q: Queue<V>)
    requires Counts(q)
  {
    && (forall i {:trigger Live(q, i)} :: Live(q, i) ==> q.slots[Slot(i, |q.slots|)] == Some(q.produced[i]))
    && (forall i, j {:trigger Live(q, i), Live(q, j)} ::
          Live(q, i) && Live(q, j) && Slot(i, |q.slots|) == Slot(j, |q.slots|) ==> i == j)
    && (forall k :: 0 <= k < |q.slots| && q.slots[k].Some? ==> Holds(q, k))
  }

  /** Slot k holds a live item. */
  ghost predicate Holds<V>(q: Queue<V>, k: nat)
    requires |q.slots| > 0
  {
    exists i: nat {:trigger Live(q, i)} :: Live(q, i) && Slot(i, |q.slots|) == k
  }

  ghost predicate Order<V>(q: Queue<V>)
  {
    && |q.consumed| <= |q.produced|
    && forall i :: 0 <= i < |q.consumed| ==> q.consumed[i] == Some(q.produced[i])
  }

  /** A producer's ticket is for the slot the next item belongs to. */
  ghost predicate Tickets<V>(q: Queue<V>)
    requires |q.slots| > 0
  {
    && (forall p :: 0 <= p < |q.producers| && q.producers[p].Ticketed? ==>
          q.producers[p].slot == Slot(|q.produced|, |q.slots|))
    && (|q.slots| > 1 && |q.producers| == 1 ==>
          q.writePosition == (|q.produced| + if q.producers[0].Ticketed? then 1 else 0) % WORD)
  }

  ghost predicate Inv<V>(q: Queue<V>)
  {
    && (|q.producers| <= 1 || |q.slots| == 1)
    && Counts(q) && Contents(q) && Order(q) && Tickets(q)
  }

  lemma {:induction false} PendingIdle<V>(n: nat)
    ensures Pending(seq(n, _ => Producer<V>.Idle)) == 0
  {
    if n > 0 {
      var ps := seq(n, _ => Producer<V>.Idle);
      assert ps[1..] == seq(n - 1, _ => Producer<V>.Idle);
      PendingIdle<V>(n - 1);
    }
  }

  lemma InitInv<V>(producers: nat, size: nat)
    requires size > 0 && (producers <= 1 || size == 1)
    ensures Inv(Init<V>(producers, size))
  {
    PendingIdle<V>(producers);
    var q := Init<V>(producers, size);
    assert Cleared(q) == 0 && |q.produced| == 0;
    assert forall i :: !Live(q, i);
  }

  // ---- every step keeps it ----

  lemma TicketKeepsInv<V>(q: Queue<V>, p: nat, v: V)
    requires Inv(q) && Enabled(q, Ticket(p, v))
    ensures Inv(Apply(q, Ticket(p, v)))
  {
    var q' := Apply(q, Ticket(p, v));
    PendingUpdate(q.producers, p, q'.producers[p]);
    assert forall i :: Live(q', i) <==> Live(q, i);
    if |q.slots| > 1 { NextWord(|q.produced|); }
  }

  lemma NextWord(n: nat)
    ensures (n % WORD + 1) % WORD == (n + 1) % WORD
  {
  }

  lemma SwapKeepsInv<V>(q: Queue<V>, p: nat)
    requires Inv(q) && Enabled(q, Swap(p))
    ensures Inv(Apply(q, Swap(p)))
  {
    var q' := Apply(q, Swap(p));
    var (n, size) := (|q.produced|, |q.slots|);
    PendingUpdate(q.producers, p, Stored);
    assert q.producers[p].slot == Slot(n, size);
    assert forall i :: Live(q', i) <==> Live(q, i) || i == n;
    forall i | Live(q, i) ensures Slot(i, size) != Slot(n, size) && q'.produced[i] == q.produced[i] {
      assert q.slots[Slot(i, size)] == Some(q.produced[i]);
    }
    forall k | 0 <= k < |q'.producers| && q'.producers[k].Ticketed?
      ensures q'.producers[k].slot == Slot(n + 1, size)
    {
      assert k != p && size == 1;
    }
  }

  lemma PostKeepsInv<V>(q: Queue<V>, p: nat)
    requires Inv(q) && Enabled(q, Post(p))
    ensures Inv(Apply(q, Post(p)))
  {
    var q' := Apply(q, Post(p));
    PendingUpdate(q.producers, p, Idle);
    assert forall i :: Live(q', i) <==> Live(q, i);
  }

  lemma WaitKeepsInv<V>(q: Queue<V>)
    requires Inv(q) && Enabled(q, Wait)
    ensures Inv(Apply(q, Wait))
  {
    var q' := Apply(q, Wait);
    assert forall i :: Live(q', i) <==> Live(q, i);
  }

  lemma ReadKeepsInv<V>(q: Queue<V>)
    requires Inv(q) && Enabled(q, Read)
    ensures Inv(Apply(q, Read))
    ensures Apply(q, Read).consumed == q.consumed + [Some(q.produced[|q.consumed|])]
  {
    hide Pending;
    var q' := Apply(q, Read);
    assert Live(q, Cleared(q));
    assert q.slots[Slot(Cleared(q), |q.slots|)] == Some(q.produced[Cleared(q)]);
    assert forall i :: Live(q', i) <==> Live(q, i);
  }

  lemma ClearKeepsInv<V>(q: Queue<V>)
    requires Inv(q) && Enabled(q, Clear)
    ensures Inv(Apply(q, Clear))
  {
    var q' := Apply(q, Clear);
    var c := Cleared(q);
    NextWord(c);
    assert Live(q, c);
    assert forall i :: Live(q', i) <==> Live(q, i) && i != c;
    forall i | Live(q', i) ensures Slot(i, |q.slots|) != Slot(c, |q.slots|) {
      assert Live(q, i) && Live(q, c);
    }
  }

  lemma StepKeepsInv<V>(q: Queue<V>, s: Step<V>)
    requires Inv(q) && Enabled(q, s)
    ensures Inv(Apply(q, s))
  {
    match s
    case Ticket(p, v) => TicketKeepsInv(q, p, v);
    case Swap(p) => SwapKeepsInv(q, p);
    case Spin(_) =>
    case Post(p) => PostKeepsInv(q, p);
    case Wait => WaitKeepsInv(q);
    case Read => ReadKeepsInv(q);
    case Clear => ClearKeepsInv(q);
  }

  lemma {:induction false} RunKeepsInv<V>(q: Queue<V>, steps: seq<Step<V>>)
    requires Inv(q) && Possible(q, steps)
    ensures Inv(After(q, steps))
    decreases |steps|
  {
    if steps != [] {
      StepKeepsInv(q, steps[0]);
      RunKeepsInv(Apply(q, steps[0]), steps[1..]);
    }
  }

  // ---- what the queue promises ----

  /** One producer, or one slot: whatever the interleaving, and however often the counters wrap,
      the consumer reads the produced values in order and never a NULL. In every other
      configuration some run breaks that. */
  lemma DeliversInOrder<V(!new)>(producers: nat, size: nat, a: V)
    requires size > 0
    ensures (forall steps: seq<Step<V>> :: Possible(Init(producers, size), steps) ==>
              Order(After(Init(producers, size), steps))) <==> (producers <= 1 || size == 1)
  {
    var q := Init<V>(producers, size);
    if producers <= 1 || size == 1 {
      forall steps: seq<Step<V>> | Possible(q, steps) ensures Order(After(q, steps)) {
        InitInv<V>(producers, size);
        RunKeepsInv(q, steps);
      }
    } else {
      var steps := Overtaking(a);
      OvertakingReadsNull(producers, size, a);
      assert After(q, steps).consumed[0] == None;
      assert Possible(q, steps) && !Order(After(q, steps));
    }
  }

  /** The second producer takes the later ticket but stores first. */
  function Overtaking<V>(a: V): seq<Step<V>>
  {
    [Ticket(0, a), Ticket(1, a), Swap(1), Post(1), Wait, Read]
  }

  lemma OvertakingReadsNull<V>(producers: nat, size: nat, a: V)
    requires producers >= 2 && size >= 2
    ensures var q := Init<V>(producers, size);
      Possible(q, Overtaking(a)) && After(q, Overtaking(a)).consumed == [None]
  {
    var q0 := Init<V>(producers, size);
    var q1 := Apply(q0, Ticket(0, a));
    var q2 := Apply(q1, Ticket(1, a));
    assert q2.producers[1] == Ticketed(1, a);
    var q3 := Apply(q2, Swap(1));
    var q4 := Apply(q3, Post(1));
    var q5 := Apply(q4, Wait);
    var q6 := Apply(q5, Read);
    RunOne(q5, Read, []);
    RunOne(q4, Wait, [Read]);
    RunOne(q3, Post(1), [Wait, Read]);
    RunOne(q2, Swap(1), [Post(1), Wait, Read]);
    RunOne(q1, Ticket(1, a), [Swap(1), Post(1), Wait, Read]);
    RunOne(q0, Ticket(0, a), [Ticket(1, a), Swap(1), Post(1), Wait, Read]);
  }

  lemma RunOne<V>(q: Queue<V>, s: Step<V>, rest: seq<Step<V>>)
    requires Enabled(q, s) && Possible(Apply(q, s), rest)
    ensures Possible(q, [s] + rest) && After(q, [s] + rest) == After(Apply(q, s), rest)
  {
    assert ([s] + rest)[1..] == rest;
  }

  // ---- and that it moves ----

  /** What one producer and the consumer do for one value. */
  function Pass<V>(v: V): seq<Step<V>> { [Ticket(0, v), Swap(0), Post(0), Wait, Read, Clear] }

  function PassAll<V>(values: seq<V>): seq<Step<V>>
  {
    if values == [] then [] else Pass(values[0]) + PassAll(values[1..])
  }

  function Wrapped<V>(values: seq<V>): seq<Option<V>>
  {
    seq(|values|, k requires 0 <= k < |values| => Some(values[k]))
  }

  lemma WrappedFirst<V>(values: seq<V>)
    requires values != []
    ensures Wrapped(values) == [Some(values[0])] + Wrapped(values[1..])
  {
  }

  /** An empty queue at rest, its writer and its reader at the same slot. */
  predicate AtRest<V>(q: Queue<V>)
  {
    && |q.slots| > 0 && (forall k :: 0 <= k < |q.slots| ==> q.slots[k].None?)
    && |q.producers| == 1 && q.producers[0].Idle? && q.consumer.Waiting? && q.semaphore == 0
    && q.writePosition == q.readPos
  }

  /** The producer's steps, when the slot it aims at is free. */
  lemma ProduceOne<V>(q: Queue<V>, v: V)
    requires |q.slots| > 0 && |q.producers| == 1 && q.producers[0].Idle?
    requires q.slots[q.writePosition % |q.slots|].None?
    ensures var steps := [Ticket(0, v), Swap(0), Post(0)];
      && Possible(q, steps)
      && After(q, steps) == q.(slots := q.slots[q.writePosition % |q.slots| := Some(v)],
                               writePosition := (q.writePosition + 1) % WORD,
                               semaphore := q.semaphore + 1, produced := q.produced + [v])
  {
    var q1 := Apply(q, Ticket(0, v));
    var q2 := Apply(q1, Swap(0));
    assert Apply(q2, Post(0)).producers == q.producers;
    RunOne(q2, Post(0), []);
    RunOne(q1, Swap(0), [Post(0)]);
    RunOne(q, Ticket(0, v), [Swap(0), Post(0)]);
  }

  /** The consumer's steps, when the semaphore lets it through. */
  lemma ConsumeOne<V>(q: Queue<V>)
    requires |q.slots| > 0 && q.consumer.Waiting? && q.semaphore > 0
    ensures var steps := [Wait, Read, Clear];
      && Possible(q, steps)
      && After(q, steps) == q.(slots := q.slots[q.readPos % |q.slots| := None], readPos := (q.readPos + 1) % WORD,
                               semaphore := q.semaphore - 1, consumed := q.consumed + [q.slots[q.readPos % |q.slots|]])
  {
    var q1 := Apply(q, Wait);
    var q2 := Apply(q1, Read);
    RunOne(q2, Clear, []);
    RunOne(q1, Read, [Clear]);
    RunOne(q, Wait, [Read, Clear]);
  }

  lemma PassOne<V>(q: Queue<V>, v: V)
    requires AtRest(q)
    ensures Possible(q, Pass(v)) && AtRest(After(q, Pass(v)))
    ensures After(q, Pass(v)).consumed == q.consumed + [Some(v)]
  {
    hide Possible, After;
    var (first, last) := ([Ticket(0, v), Swap(0), Post(0)], [Wait, Read, Clear]);
    ProduceOne(q, v);
    ConsumeOne(After(q, first));
    RunInTwo(q, first, last);
    assert Pass(v) == first + last;
  }

  lemma {:induction false} RunInTwo<V>(q: Queue<V>, a: seq<Step<V>>, b: seq<Step<V>>)
    requires Possible(q, a) && Possible(After(q, a), b)
    ensures Possible(q, a + b) && After(q, a + b) == After(After(q, a), b)
    decreases |a|
  {
    if a == [] {
      assert a + b == b;
    } else {
      assert (a + b)[1..] == a[1..] + b;
      RunInTwo(Apply(q, a[0]), a[1..], b);
    }
  }

  lemma {:induction false} PassesAll<V>(q: Queue<V>, values: seq<V>)
    requires AtRest(q)
    ensures Possible(q, PassAll(values))
    ensures After(q, PassAll(values)).consumed == q.consumed + Wrapped(values)
    decreases |values|
  {
    if values == [] {
      assert Wrapped(values) == [];
    } else {
      hide Pass, AtRest, Possible, After, Wrapped;
      PassOne(q, values[0]);
      PassesAll(After(q, Pass(values[0])), values[1..]);
      RunInTwo(q, Pass(values[0]), PassAll(values[1..]));
      WrappedFirst(values);
      assert q.consumed + ([Some(values[0])] + Wrapped(values[1..])) == q.consumed + [Some(values[0])] + Wrapped(values[1..]);
    }
  }

  /** With one producer and any number of slots, every list of values is what some run delivers. */
  lemma AnyListIsDelivered<V>(size: nat, values: seq<V>)
    requires size > 0
    ensures exists steps: seq<Step<V>> ::
      && Possible(Init(1, size), steps)
      && After(Init(1, size), steps).consumed == seq(|values|, k requires 0 <= k < |values| => Some(values[k]))
  {
    var q := Init<V>(1, size);
    PassesAll(q, values);
    assert q.consumed + Wrapped(values) == Wrapped(values);
    assert Possible(q, PassAll(values));
  }

  /** One producer stores these values while the consumer does nothing. */
  function StoreAll<V>(values: seq<V>): seq<Step<V>>
  {
    if values == [] then [] else [Ticket(0, values[0]), Swap(0), Post(0)] + StoreAll(values[1..])
  }

  /** The first n slots are taken and the rest are free. */
  predicate FilledTo<V>(q: Queue<V>, n: nat)
  {
    && |q.slots| > 0 && n <= |q.slots| && (forall k :: n <= k < |q.slots| ==> q.slots[k].None?)
    && |q.producers| == 1 && q.producers[0].Idle? && q.writePosition == n % WORD
  }

  lemma StoreOne<V>(q: Queue<V>, n: nat, v: V)
    requires FilledTo(q, n) && n < |q.slots| <= WORD
    ensures var steps := [Ticket(0, v), Swap(0), Post(0)];
      && Possible(q, steps) && FilledTo(After(q, steps), n + 1)
      && |After(q, steps).slots| == |q.slots| && After(q, steps).produced == q.produced + [v]
  {
    SmallMod(n, WORD);
    SmallMod(n, |q.slots|);
    hide Possible, After;
    ProduceOne(q, v);
  }

  lemma SmallMod(n: nat, m: nat)
    requires n < m
    ensures n % m == n
  {
  }

  lemma {:induction false} StoresAll<V>(q: Queue<V>, n: nat, values: seq<V>)
    requires FilledTo(q, n) && n + |values| <= |q.slots| <= WORD
    ensures Possible(q, StoreAll(values)) && After(q, StoreAll(values)).produced == q.produced + values
    decreases |values|
  {
    if values != [] {
      assert StoreAll(values) == [Ticket(0, values[0]), Swap(0), Post(0)] + StoreAll(values[1..]);
      hide Possible, After, FilledTo, StoreAll;
      var steps := [Ticket(0, values[0]), Swap(0), Post(0)];
      StoreOne(q, n, values[0]);
      StoresAll(After(q, steps), n + 1, values[1..]);
      RunInTwo(q, steps, StoreAll(values[1..]));
      assert q.produced + [values[0]] + values[1..] == q.produced + values;
    }
  }

  /** Every slot can be used: as many values as there are slots go in before any is read. */
  lemma QueueHolds<V>(size: nat, values: seq<V>)
    requires 0 < size <= 0x1_0000_0000_0000_0000 && |values| <= size
    ensures var q := Init<V>(1, size);
      Possible(q, StoreAll(values)) && After(q, StoreAll(values)).produced == values
  {
    StoresAll(Init<V>(1, size), 0, values);
    assert [] + values == values;
  }

  /** A swap never overwrites an item that has not been consumed and cleared. */
  lemma SwapSparesLive<V>(q: Queue<V>, p: nat, i: nat)
    requires Inv(q) && Enabled(q, Swap(p)) && Live(q, i)
    ensures q.producers[p].slot != Slot(i, |q.slots|)
    ensures Apply(q, Swap(p)).slots[Slot(i, |q.slots|)] == Some(q.produced[i])
  {
  }

  /** The slots of the first n items in flight. */
  ghost function SlotsOf<V>(q: Queue<V>, n: nat): set<nat>
    requires Counts(q)
  {
    if n == 0 then {} else SlotsOf(q, n - 1) + {Slot(Cleared(q) + n - 1, |q.slots|)}
  }

  lemma {:induction false} SlotsDistinct<V>(q: Queue<V>, n: nat)
    requires Inv(q) && n <= |q.produced| - Cleared(q)
    ensures |SlotsOf(q, n)| == n
    ensures forall k :: k in SlotsOf(q, n) ==> k < |q.slots|
    ensures forall i {:trigger Live(q, i)} :: Live(q, i) && i >= Cleared(q) + n ==> Slot(i, |q.slots|) !in SlotsOf(q, n)
  {
    hide Slot, Order, Tickets;
    if n > 0 {
      SlotsDistinct(q, n - 1);
      assert Live(q, Cleared(q) + n - 1);
    }
  }

  lemma {:induction false} BelowBound(s: set<nat>, n: nat)
    requires forall k :: k in s ==> k < n
    ensures |s| <= n
  {
    if n == 0 {
      assert s == {};
    } else {
      BelowBound(s - {n - 1}, n - 1);
      assert s <= (s - {n - 1}) + {n - 1};
      assert |s| <= |s - {n - 1}| + 1;
    }
  }

  /** There are never more items in flight than slots, so the semaphore never counts past them. */
  lemma InFlightBounded<V>(q: Queue<V>)
    requires Inv(q)
    ensures |q.produced| - Cleared(q) <= |q.slots| && q.semaphore <= |q.slots|
  {
    var n := |q.produced| - Cleared(q);
    SlotsDistinct(q, n);
    BelowBound(SlotsOf(q, n), |q.slots|);
  }

  predicate ConsumerStep<V>(s: Step<V>) { s.Wait? || s.Read? || s.Clear? }

  /** The consumer's next step. */
  function NextOf<V>(q: Queue<V>): (s: Step<V>)
    ensures ConsumerStep(s)
  {
    match q.consumer case Waiting => Wait case Granted => Read case Processed => Clear
  }

  /** A producer that spins leaves its consumer able to move. */
  lemma BlockedLeavesConsumerAble<V>(q: Queue<V>)
    requires Inv(q) && |q.producers| == 1 && Enabled(q, Spin(0))
    ensures Enabled(q, NextOf(q))
    ensures Cleared(q) < |q.produced|
  {
    assert q.producers[1..] == [];
    assert Pending(q.producers) == 0;
    assert Holds(q, q.producers[0].slot);
  }

  /** Steps the consumer still owes for the items in flight. */
  function Owed<V>(q: Queue<V>): int
  {
    3 * (|q.produced| - Cleared(q)) -
    match q.consumer case Waiting => 0 case Granted => 1 case Processed => 2
  }

  /** The consumer's steps alone free the slot a producer waits for, in at most three per item
      in flight. */
  lemma {:induction false} ConsumerUnblocks<V>(q: Queue<V>) returns (steps: seq<Step<V>>)
    requires Inv(q) && |q.producers| == 1 && Aims(q, 0)
    ensures Possible(q, steps) && forall i :: 0 <= i < |steps| ==> ConsumerStep(steps[i])
    ensures Enabled(After(q, steps), Swap(0))
    ensures steps == [] || |steps| <= Owed(q)
    decreases Owed(q)
  {
    if Enabled(q, Swap(0)) {
      steps := [];
    } else {
      BlockedLeavesConsumerAble(q);
      var s := NextOf(q);
      StepKeepsInv(q, s);
      var rest := ConsumerUnblocks(Apply(q, s));
      RunOne(q, s, rest);
      steps := [s] + rest;
    }
  }
}
