/** NUL-terminated text in memory. */
module CStrings {
  import opened Bits

  const NUL: Byte := 0

  ghost predicate Terminated(mem: seq<Byte>, k: nat)
  {
    k < |mem| && NUL in mem[k..]
  }

  /** Where the text that starts at k ends; strlen is that minus k. */
  function StrEnd(mem: seq<Byte>, k: nat): (n: nat)
    requires Terminated(mem, k)
    ensures k <= n < |mem| && mem[n] == NUL && forall i :: k <= i < n ==> mem[i] != NUL
    decreases |mem| - k
  {
    if mem[k] == NUL then k
    else
      assert mem[k..] == [mem[k]] + mem[k + 1..];
      StrEnd(mem, k + 1)
  }

  function Text(mem: seq<Byte>, k: nat): (s: seq<Byte>)
    requires Terminated(mem, k)
    ensures NUL !in s
  {
    mem[k..StrEnd(mem, k)]
  }

  /** Memory that holds `text` and a terminator at k. */
  lemma TextAt(m: seq<Byte>, k: nat, text: seq<Byte>)
    requires NUL !in text && k + |text| < |m|
    requires m[k..k + |text|] == text && m[k + |text|] == NUL
    ensures Terminated(m, k) && StrEnd(m, k) == k + |text| && Text(m, k) == text
  {
  }
}
