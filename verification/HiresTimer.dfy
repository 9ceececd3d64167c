/** The 64-bit extension of the 32-bit tick counter, app/hiresTimer.c. */
module HiresTimer {

  const WORD := 0x1_0000_0000

  /** hiresTimer_upperWord and hiresTimer_lastReading */
  datatype Extension = Extension(upper: nat, last: nat)

  /** One call while the true tick count is `count`. On a rollover the code adds one to the upper
      word and then stores the value it had before; a repaired one keeps the sum. */
  function Read(e: Extension, count: nat, repaired: bool): Extension
  {
    var current := count % WORD;
    Extension(if current < e.last && repaired then (e.upper + 1) % WORD else e.upper, current)
  }

  /** What the call returns. */
  function Time(e: Extension): nat { e.upper * WORD + e.last }

  /** The times a run of calls returns; `counts` are the true counts at the calls. */
  function Times(e: Extension, counts: seq<nat>, repaired: bool): (t: seq<nat>)
    ensures |t| == |counts|
    decreases |counts|
  {
    if counts == [] then []
    else var e' := Read(e, counts[0], repaired); [Time(e')] + Times(e', counts[1..], repaired)
  }

  /** Time goes on, and never a whole counter period between two calls. */
  predicate Close(before: nat, counts: seq<nat>)
    decreases |counts|
  {
    counts == [] || (before <= counts[0] < before + WORD && Close(counts[0], counts[1..]))
  }

  lemma Rollover(before: nat, count: nat)
    requires before <= count < before + WORD
    ensures count % WORD < before % WORD ==> count / WORD == before / WORD + 1
    ensures count % WORD >= before % WORD ==> count / WORD == before / WORD
  {
  }

  lemma UpperStep(n: nat)
    ensures (n % WORD + 1) % WORD == (n + 1) % WORD
  {
  }

  /** With the carry kept every call returns the true count, modulo 2^64. */
  lemma {:induction false} RepairedIsExact(before: nat, e: Extension, counts: seq<nat>)
    requires Close(before, counts)
    requires e == Extension((before / WORD) % WORD, before % WORD)
    ensures forall k :: 0 <= k < |counts| ==>
      Times(e, counts, true)[k] == ((counts[k] / WORD) % WORD) * WORD + counts[k] % WORD
    decreases |counts|
  {
    if counts != [] {
      var c := counts[0];
      var e' := Read(e, c, true);
      Rollover(before, c);
      UpperStep(before / WORD);
      assert e' == Extension((c / WORD) % WORD, c % WORD);
      RepairedIsExact(c, e', counts[1..]);
    }
  }

  lemma {:induction false} CloseIsSorted(before: nat, counts: seq<nat>, k: nat)
    requires Close(before, counts) && k < |counts|
    ensures before <= counts[k]
    decreases k
  {
    if k > 0 { CloseIsSorted(counts[0], counts[1..], k - 1); }
  }

  lemma {:induction false} CloseFrom(before: nat, counts: seq<nat>, i: nat)
    requires Close(before, counts) && i < |counts|
    ensures Close(counts[i], counts[i + 1..])
    decreases i
  {
    if i > 0 {
      CloseFrom(counts[0], counts[1..], i - 1);
      assert counts[1..][i..] == counts[i + 1..];
    }
  }

  lemma TwoWords(n: nat)
    requires n < WORD * WORD
    ensures ((n / WORD) % WORD) * WORD + n % WORD == n
  {
  }

  /** So until the count outgrows 64 bits the repaired time is the count and never goes back. */
  lemma RepairedIsMonotone(before: nat, e: Extension, counts: seq<nat>, i: nat, j: nat)
    requires Close(before, counts) && e == Extension((before / WORD) % WORD, before % WORD)
    requires i <= j < |counts| && counts[j] < WORD * WORD
    ensures Times(e, counts, true)[j] == counts[j] && Times(e, counts, true)[i] <= Times(e, counts, true)[j]
  {
    CloseFrom(before, counts, i);
    if i < j {
      CloseIsSorted(counts[i], counts[i + 1..], j - i - 1);
      assert counts[i + 1..][j - i - 1] == counts[j];
    }
    RepairedIsExact(before, e, counts);
    TwoWords(counts[i]);
    TwoWords(counts[j]);
  }

  /** One tick past 2^32 - 1 the time as written starts again from zero. */
  lemma WrittenGoesBack()
    ensures Times(Extension(0, 0), [0xffff_ffff, 0x1_0000_0000], false) == [0xffff_ffff, 0]
    ensures Times(Extension(0, 0), [0xffff_ffff, 0x1_0000_0000], true) == [0xffff_ffff, 0x1_0000_0000]
  {
    var counts := [WORD - 1, WORD];
    assert counts[1..] == [WORD] && counts[1..][1..] == [];
  }

  /** As written the upper word never moves. */
  lemma {:induction false} WrittenIsModulo(e: Extension, counts: seq<nat>)
    ensures forall k :: 0 <= k < |counts| ==> Times(e, counts, false)[k] == e.upper * WORD + counts[k] % WORD
    decreases |counts|
  {
    if counts != [] { WrittenIsModulo(Read(e, counts[0], false), counts[1..]); }
  }

  /** So from start-up a call returns the true count exactly while that fits 32 bits. */
  lemma WrittenIsExactIff(counts: seq<nat>, k: nat)
    requires k < |counts|
    ensures Times(Extension(0, 0), counts, false)[k] == counts[k] <==> counts[k] < 0x1_0000_0000
  {
    WrittenIsModulo(Extension(0, 0), counts);
    FitsIff(counts[k]);
  }

  lemma FitsIff(n: nat)
    ensures n % WORD == n <==> n < WORD
  {
  }

  class Timer {
    var upperWord: nat
    var lastReading: nat

    constructor ()
      ensures upperWord == 0 && lastReading == 0
    {
      upperWord, lastReading := 0, 0;
    }

    method FetchAdd() returns (was: nat)
      requires upperWord < WORD
      modifies this`upperWord
      ensures was == old(upperWord) && upperWord == (old(upperWord) + 1) % WORD
    {
      was := upperWord;
      upperWord := (upperWord + 1) % WORD;
    }

    method GetTime(count: nat) returns (t: nat)
      requires upperWord < WORD
      modifies this
      ensures Extension(upperWord, lastReading) == Read(Extension(old(upperWord), old(lastReading)), count, false)
      ensures t == Time(Extension(upperWord, lastReading)) && upperWord < WORD
    {
      var current := count % WORD;
      if current < lastReading {
        var new_ := FetchAdd();
        upperWord := new_;
      }
      lastReading := current;
      t := upperWord * WORD + current;
    }
  }
}
