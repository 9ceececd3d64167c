/** C's bitwise operators on unsigned values, and the bit strings that go over a serial line. */
module Bits {

  type Byte = x: int | 0 <= x < 256

  function Pow2(n: nat): (p: nat)
    ensures p >= 1
  {
    if n == 0 then 1 else 2 * Pow2(n - 1)
  }

  /** Bit i of x; bit 0 is the least significant one. */
  predicate Bit(x: nat, i: nat)
    decreases i
  {
    if i == 0 then x % 2 == 1 else Bit(x / 2, i - 1)
  }

  function Bool2Int(b: bool): nat { if b then 1 else 0 }

  /** x & y */
  function And(x: nat, y: nat): nat
  {
    if x == 0 || y == 0 then 0
    else Bool2Int(x % 2 == 1 && y % 2 == 1) + 2 * And(x / 2, y / 2)
  }

  /** x | y */
  function Or(x: nat, y: nat): nat
  {
    if x == 0 then y else if y == 0 then x
    else Bool2Int(x % 2 == 1 || y % 2 == 1) + 2 * Or(x / 2, y / 2)
  }

  /** x << k, before any narrowing */
  function Shl(x: nat, k: nat): nat
  {
    if k == 0 then x else 2 * Shl(x, k - 1)
  }

  /** x >> k */
  function Shr(x: nat, k: nat): nat
    decreases k
  {
    if k == 0 then x else Shr(x / 2, k - 1)
  }

  /** Assignment to a uint8_t. */
  function U8(x: nat): Byte { x % 256 }

  /** Assignment to a uint16_t. */
  function U16(x: nat): nat { x % 65536 }

  /** The n low bits of x in the order a most-significant-bit-first line carries them. */
  function BitsOf(x: nat, n: nat): (s: seq<bool>)
    ensures |s| == n
  {
    seq(n, i requires 0 <= i < n => Bit(x, n - 1 - i))
  }

  /** The number a most-significant-bit-first bit string spells. */
  function Value(bits: seq<bool>): (v: nat)
    ensures v < Pow2(|bits|)
  {
    if bits == [] then 0
    else 2 * Value(bits[..|bits| - 1]) + Bool2Int(bits[|bits| - 1])
  }

  lemma {:induction false} ZeroBit(i: nat)
    ensures !Bit(0, i)
  {
    if i > 0 { ZeroBit(i - 1); }
  }

  lemma {:induction false} AndBit(x: nat, y: nat, i: nat)
    ensures Bit(And(x, y), i) == (Bit(x, i) && Bit(y, i))
    decreases i
  {
    ZeroBit(i);
    if i > 0 && x != 0 && y != 0 {
      assert And(x, y) / 2 == And(x / 2, y / 2);
      AndBit(x / 2, y / 2, i - 1);
    }
  }

  lemma {:induction false} OrBit(x: nat, y: nat, i: nat)
    ensures Bit(Or(x, y), i) == (Bit(x, i) || Bit(y, i))
    decreases i
  {
    ZeroBit(i);
    if i > 0 && x != 0 && y != 0 {
      assert Or(x, y) / 2 == Or(x / 2, y / 2);
      OrBit(x / 2, y / 2, i - 1);
    }
  }

  lemma {:induction false} ShlBit(x: nat, k: nat, i: nat)
    ensures Bit(Shl(x, k), i) == (i >= k && Bit(x, i - k))
    decreases k
  {
    if k > 0 && i > 0 {
      assert Shl(x, k) / 2 == Shl(x, k - 1);
      ShlBit(x, k - 1, i - 1);
    }
  }

  lemma {:induction false} ShrBit(x: nat, k: nat, i: nat)
    ensures Bit(Shr(x, k), i) == Bit(x, i + k)
    decreases k
  {
    if k > 0 { ShrBit(x / 2, k - 1, i); }
  }

  lemma ModStep(x: nat, p: nat)
    requires p > 0
    ensures (x % (2 * p)) / 2 == (x / 2) % p && (x % (2 * p)) % 2 == x % 2
  {
    var q, r := x / (2 * p), x % (2 * p);
    assert x == (2 * p) * q + r;
    assert (2 * p) * q == 2 * (p * q);
    assert x / 2 == p * q + r / 2;
    assert 0 <= r / 2 < p;
    ModUnique(x / 2, p, q, r / 2);
  }

  lemma ModUnique(x: nat, p: nat, q: nat, r: nat)
    requires p > 0 && x == p * q + r && r < p
    ensures x % p == r && x / p == q
  {
    var d := x / p;
    if d > q {
      MulMono(p, q + 1, d);
    } else if d < q {
      MulMono(p, d + 1, q);
    }
  }

  lemma MulMono(p: nat, a: nat, b: nat)
    requires a <= b
    ensures p * a <= p * b
  {
  }

  /** Narrowing to n bits keeps the n low bits and clears the others. */
  lemma {:induction false} ModBit(x: nat, n: nat, i: nat)
    ensures Bit(x % Pow2(n), i) == (i < n && Bit(x, i))
    decreases n
  {
    if n == 0 {
      ZeroBit(i);
    } else {
      ModStep(x, Pow2(n - 1));
      if i > 0 { ModBit(x / 2, n - 1, i - 1); }
    }
  }

  /** Sending the n low bits of x and reading them back gives x modulo 2^n. */
  lemma {:induction false} ValueOfBits(x: nat, n: nat)
    ensures Value(BitsOf(x, n)) == x % Pow2(n)
    decreases n
  {
    if n > 0 {
      var s := BitsOf(x, n);
      assert s[..n - 1] == BitsOf(x / 2, n - 1) by {
        forall i | 0 <= i < n - 1 ensures s[i] == Bit(x / 2, n - 2 - i) {
          assert s[i] == Bit(x, n - 1 - i);
        }
      }
      ValueOfBits(x / 2, n - 1);
      ModStep(x, Pow2(n - 1));
      assert s[n - 1] == Bit(x, 0);
    }
  }

  lemma PowersOfTwo()
    ensures Pow2(3) == 8 && Pow2(8) == 256 && Pow2(9) == 512 && Pow2(16) == 65536
  {
  }
}
