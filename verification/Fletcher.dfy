/** The streaming Fletcher checksum of app/usbcmdio.h, what it computes and what it detects. */
module Fletcher {
  import opened Bits

  datatype Sums = Sums(c1: nat, c2: nat)

  function Fold(x: nat): nat { if x > 254 then x - 255 else x }

  function Step(s: Sums, b: Byte): Sums
  {
    var c1 := Fold(s.c1 + b);
    Sums(c1, Fold(s.c2 + c1))
  }

  lemma U16Fits(x: nat)
    requires x < 65536
    ensures U16(x) == x
  {
  }

  /** How far a byte moved. */
  function Change(from: int, to: int): int { to - from }

  /** The state after feeding `data` from zero. */
  function Stream(data: seq<Byte>): Sums
  {
    if data == [] then Sums(0, 0) else Step(Stream(data[..|data| - 1]), data[|data| - 1])
  }

  /** The 16-bit value stored in the packet. */
  function Checksum(data: seq<Byte>): nat
  {
    Stream(data).c2 * 256 + Stream(data).c1
  }

  /** FLETCHER_CHECKSUM: two uint16_t updated in place. */
  class FletcherChecksum {
    var checksum1: nat
    var checksum2: nat

    constructor ()
      ensures checksum1 == 0 && checksum2 == 0
    {
      checksum1, checksum2 := 0, 0;
    }

    function State(): Sums
      reads this
    {
      Sums(checksum1, checksum2)
    }

    method Fletch(b: Byte)
      requires checksum1 < 255 && checksum2 < 255
      modifies this
      ensures checksum1 < 255 && checksum2 < 255
      ensures State() == Step(old(State()), b)
    {
      U16Fits(checksum1 + b);
      checksum1 := U16(checksum1 + b);
      if checksum1 > 254 { checksum1 := checksum1 - 255; }
      U16Fits(checksum2 + checksum1);
      checksum2 := U16(checksum2 + checksum1);
      if checksum2 > 254 { checksum2 := checksum2 - 255; }
    }
  }

  // ---- what the two sums are ----

  function Sum(data: seq<Byte>): nat
  {
    if data == [] then 0 else data[0] + Sum(data[1..])
  }

  /** The first byte counts |data| times, the last one once. */
  function WeightedSum(data: seq<Byte>): nat
  {
    if data == [] then 0 else |data| * data[0] + WeightedSum(data[1..])
  }

  lemma {:induction false} SumConcat(a: seq<Byte>, b: seq<Byte>)
    ensures Sum(a + b) == Sum(a) + Sum(b)
    ensures WeightedSum(a + b) == WeightedSum(a) + |b| * Sum(a) + WeightedSum(b)
    decreases |a|
  {
    if a == [] {
      assert a + b == b;
    } else {
      assert (a + b)[1..] == a[1..] + b;
      SumConcat(a[1..], b);
      Distribute(a[0], |a|, |b|);
      Distribute(|b|, a[0], Sum(a[1..]));
    }
  }

  lemma Distribute(x: int, y: int, z: int)
    ensures x * (y + z) == x * y + x * z
    ensures (y + z) * x == y * x + z * x
  {
  }

  lemma FoldIsMod(s: nat, x: nat)
    requires x <= 255
    ensures Fold(s % 255 + x) == (s + x) % 255
  {
  }

  /** One conditional subtraction per step is enough: the sums are the true ones modulo 255. */
  lemma {:induction false} StreamMeaning(data: seq<Byte>)
    ensures Stream(data).c1 == Sum(data) % 255
    ensures Stream(data).c2 == WeightedSum(data) % 255
    decreases |data|
  {
    if data != [] {
      var front, x := data[..|data| - 1], data[|data| - 1];
      assert data == front + [x];
      assert [x][1..] == [];
      SumConcat(front, [x]);
      StreamMeaning(front);
      StepMod(Sum(front), WeightedSum(front), x);
    }
  }

  lemma StepMod(s: nat, w: nat, x: Byte)
    ensures Step(Sums(s % 255, w % 255), x) == Sums((s + x) % 255, (w + (s + x)) % 255)
  {
    FoldIsMod(s, x);
    FoldIsMod(w, (s + x) % 255);
    ModAddRight(w, s + x);
  }

  lemma Mod255(x: int, q: int, r: int)
    requires x == 255 * q + r && 0 <= r < 255
    ensures x % 255 == r
  {
  }

  lemma MultipleDrops(k: int, x: int)
    ensures (255 * k + x) % 255 == x % 255
  {
    Mod255(255 * k + x, k + x / 255, x % 255);
  }

  lemma ModAddRight(x: int, y: int)
    ensures (x + y % 255) % 255 == (x + y) % 255
  {
  }

  lemma ModAdd(x: int, y: int)
    ensures (x % 255 + y % 255) % 255 == (x + y) % 255
  {
  }

  lemma ModMul(k: int, x: int)
    ensures (k * (x % 255)) % 255 == (k * x) % 255
  {
    var q, r := x / 255, x % 255;
    assert 255 * q + r == x;
    Regroup(k, 255, q, r);
    MultipleDrops(k * q, k * r);
  }

  /** The state of two packets in a row, from the state of each and the second one's length. */
  function Join(s: Sums, t: Sums, n: nat): Sums
  {
    Sums((s.c1 + t.c1) % 255, (s.c2 + n * s.c1 + t.c2) % 255)
  }

  lemma StreamConcat(a: seq<Byte>, b: seq<Byte>)
    ensures Stream(a + b) == Join(Stream(a), Stream(b), |b|)
  {
    hide Stream, Sum, WeightedSum, Join;
    var (sa, wa, sb, wb, w) := (Sum(a), WeightedSum(a), Sum(b), WeightedSum(b), WeightedSum(a + b));
    var (s, t, n) := (Stream(a), Stream(b), |b|);
    assert s == Sums(sa % 255, wa % 255) by { StreamMeaning(a); }
    assert t == Sums(sb % 255, wb % 255) by { StreamMeaning(b); }
    assert Stream(a + b) == Sums((sa + sb) % 255, w % 255) by {
      SumConcat(a, b);
      StreamMeaning(a + b);
    }
    assert Join(s, t, n) == Sums((sa + sb) % 255, w % 255) by {
      SumConcat(a, b);
      JoinMod(sa, wa, sb, wb, n, w);
    }
  }

  lemma JoinMod(sa: nat, wa: nat, sb: nat, wb: nat, n: nat, w: nat)
    requires w == wa + n * sa + wb
    ensures Join(Sums(sa % 255, wa % 255), Sums(sb % 255, wb % 255), n) == Sums((sa + sb) % 255, w % 255)
  {
    ModAdd(sa, sb);
    ModMul(n, sa);
    ModAddThree(wa, n * sa, wb, n * (sa % 255));
  }

  lemma ModAddThree(x: int, y: int, z: int, y': int)
    requires y % 255 == y' % 255
    ensures (x + y + z) % 255 == (x % 255 + y' + z % 255) % 255
  {
  }

  // ---- what it detects ----

  /** Equal checksums mean congruent sums, and the other way round. */
  lemma CollisionIffCongruent(a: seq<Byte>, b: seq<Byte>)
    ensures Checksum(a) == Checksum(b) <==>
      (Sum(a) - Sum(b)) % 255 == 0 && (WeightedSum(a) - WeightedSum(b)) % 255 == 0
  {
    hide Stream, Sum, WeightedSum;
    var (s, t) := (Stream(a), Stream(b));
    assert s == Sums(Sum(a) % 255, WeightedSum(a) % 255) by { StreamMeaning(a); }
    assert t == Sums(Sum(b) % 255, WeightedSum(b) % 255) by { StreamMeaning(b); }
    assert Checksum(a) == Checksum(b) <==> s == t by {
      assert s.c1 < 256 && t.c1 < 256;
      PackedEqual(s, t);
    }
    Congruent(Sum(a), Sum(b));
    Congruent(WeightedSum(a), WeightedSum(b));
  }

  lemma Congruent(x: int, y: int)
    ensures x % 255 == y % 255 <==> (x - y) % 255 == 0
  {
  }

  lemma PackedEqual(s: Sums, t: Sums)
    requires s.c1 < 256 && t.c1 < 256
    ensures s.c2 * 256 + s.c1 == t.c2 * 256 + t.c1 <==> s == t
  {
  }

  lemma {:induction false} SumUpdate(a: seq<Byte>, i: nat, x: Byte)
    requires i < |a|
    ensures Sum(a[i := x]) == Sum(a) + Change(a[i], x)
    ensures WeightedSum(a[i := x]) == WeightedSum(a) + (|a| - i) * Change(a[i], x)
    decreases |a|
  {
    if i == 0 {
      assert a[0 := x][1..] == a[1..];
      assert |a| * x == |a| * a[0] + |a| * Change(a[0], x);
    } else {
      assert a[i := x][1..] == a[1..][i - 1 := x];
      SumUpdate(a[1..], i - 1, x);
    }
  }

  predicate AgreeExcept(a: seq<Byte>, b: seq<Byte>, i: nat, j: nat)
  {
    |a| == |b| && forall k :: 0 <= k < |a| && k != i && k != j ==> a[k] == b[k]
  }

  /** Exactly which changes of at most two bytes go unnoticed. */
  lemma TwoByteCollisions(a: seq<Byte>, b: seq<Byte>, i: nat, j: nat)
    requires i < j < |a| && AgreeExcept(a, b, i, j)
    ensures Checksum(a) == Checksum(b) <==>
      (Change(a[i], b[i]) + Change(a[j], b[j])) % 255 == 0 && ((j - i) * Change(a[i], b[i])) % 255 == 0
  {
    hide Stream, Sum, WeightedSum, Checksum;
    var (di, dj, n) := (Change(a[i], b[i]), Change(a[j], b[j]), |a|);
    var c := a[i := b[i]];
    assert b == c[j := b[j]];
    SumUpdate(a, i, b[i]);
    SumUpdate(c, j, b[j]);
    CollisionIffCongruent(b, a);
    WeightsCollide(n - j, j - i, di, dj, (n - i) * di + (n - j) * dj);
  }

  lemma WeightsCollide(u: int, k: int, di: int, dj: int, w: int)
    requires w == (u + k) * di + u * dj
    ensures (di + dj) % 255 == 0 ==> w % 255 == (k * di) % 255
  {
    var (s, kd) := (di + dj, k * di);
    var us := u * s;
    assert w == us + kd by { SplitWeights(u, k, di, dj); }
    if s % 255 == 0 {
      assert us % 255 == 0 by { ScaledMultiple(u, s); }
      ModAddRight(kd, us);
    }
  }

  lemma SplitWeights(u: int, k: int, di: int, dj: int)
    ensures (u + k) * di + u * dj == u * (di + dj) + k * di
  {
  }

  lemma ScaledMultiple(u: int, s: int)
    requires s % 255 == 0
    ensures (u * s) % 255 == 0
  {
    assert s == 255 * (s / 255);
    Regroup(u, 255, s / 255, 0);
    MultipleDrops(u * (s / 255), 0);
  }

  lemma Regroup(k: int, p: int, v: int, e: int)
    ensures k * (p * v + e) == p * (k * v) + k * e
  {
  }

  /** 255 is 3 * 5 * 17. */
  predicate CoprimeTo255(k: nat) { k % 3 != 0 && k % 5 != 0 && k % 17 != 0 }

  lemma EuclidStep(p: nat, k: nat, d: int)
    requires p == 3 || p == 5 || p == 17
    requires k % p != 0 && (k * d) % p == 0
    ensures d % p == 0
  {
    ReduceFactor(p, k, d);
    var e := d % p;
    Commute(k, e);
    ReduceFactor(p, e, k);
    SmallProducts(p, k % p, e);
  }

  lemma Commute(x: int, y: int)
    ensures x * y == y * x
  {
  }

  lemma ReduceFactor(p: nat, k: int, d: int)
    requires p == 3 || p == 5 || p == 17
    ensures (k * d) % p == (k * (d % p)) % p
  {
    var v, e := d / p, d % p;
    assert p * v + e == d;
    Regroup(k, p, v, e);
    assert k * d == p * (k * v) + k * e;
    DropMultiple(p, k * v, k * e);
  }

  lemma DropMultiple(p: nat, m: int, x: int)
    requires p == 3 || p == 5 || p == 17
    ensures (p * m + x) % p == x % p
  {
    if p == 3 { Drop3(m, x); } else if p == 5 { Drop5(m, x); } else { Drop17(m, x); }
  }

  lemma Drop3(m: int, x: int) ensures (3 * m + x) % 3 == x % 3 { }

  lemma Drop5(m: int, x: int) ensures (5 * m + x) % 5 == x % 5 { }

  lemma Drop17(m: int, x: int) ensures (17 * m + x) % 17 == x % 17 { }

  lemma SmallProducts(p: nat, r: nat, e: nat)
    requires p == 3 || p == 5 || p == 17
    requires 0 < r < p && e < p && (e * r) % p == 0
    ensures e == 0
  {
    if e != 0 { SmallProduct(p, e, r); }
  }

  lemma SmallProduct(p: nat, x: nat, y: nat)
    requires p == 3 || p == 5 || p == 17
    requires 0 < x < p && 0 < y < p
    ensures (x * y) % p != 0
  {
    if p == 17 {
      if x == 1 {} else if x == 2 {} else if x == 3 {} else if x == 4 {} else if x == 5 {} else if x == 6 {}
      else if x == 7 {} else if x == 8 {} else if x == 9 {} else if x == 10 {} else if x == 11 {} else if x == 12 {}
      else if x == 13 {} else if x == 14 {} else if x == 15 {} else { assert x == 16; }
    } else if p == 5 {
      if x == 1 {} else if x == 2 {} else if x == 3 {} else { assert x == 4; }
    } else {
      if x == 1 {} else { assert x == 2; }
    }
  }

  /**
   * At distance coprime to 255, so in particular for neighbours, a change of at most two bytes
   * is missed only when both bytes keep their value modulo 255.
   */
  lemma TwoByteDetection(a: seq<Byte>, b: seq<Byte>, i: nat, j: nat)
    requires i < j < |a| && AgreeExcept(a, b, i, j) && CoprimeTo255(j - i)
    ensures Checksum(a) == Checksum(b) <==> Change(a[i], b[i]) % 255 == 0 && Change(a[j], b[j]) % 255 == 0
  {
    TwoByteCollisions(a, b, i, j);
    CoprimeCancels(j - i, Change(a[i], b[i]));
    ModAdd(Change(a[i], b[i]), Change(a[j], b[j]));
  }

  lemma CoprimeCancels(k: nat, d: int)
    requires CoprimeTo255(k)
    ensures (k * d) % 255 == 0 <==> d % 255 == 0
  {
    if (k * d) % 255 == 0 {
      Factors(k * d);
      EuclidStep(3, k, d);
      EuclidStep(5, k, d);
      EuclidStep(17, k, d);
      Factors(d);
    }
    if d % 255 == 0 { ScaledMultiple(k, d); }
  }

  lemma Factors(x: int)
    ensures x % 255 == 0 <==> x % 3 == 0 && x % 5 == 0 && x % 17 == 0
  {
    var a, b, c := x / 3, x / 5, x / 17;
    if x == 3 * a && x == 5 * b && x == 17 * c {
      var m := 2 * a - 3 * b;
      assert x == 15 * m;
      assert x == 255 * (8 * c - 7 * m);
    }
    if x % 255 == 0 {
      var q := x / 255;
      assert x == 3 * (85 * q) && x == 5 * (51 * q) && x == 17 * (15 * q);
    }
  }

  /** A single changed byte is missed only when 0 and 255 are confused. */
  lemma OneByteDetection(a: seq<Byte>, i: nat, x: Byte)
    requires i < |a|
    ensures Checksum(a) == Checksum(a[i := x]) <==> x == a[i] || {x, a[i]} == {0, 255}
  {
    var d := Change(a[i], x);
    SumUpdate(a, i, x);
    CollisionIffCongruent(a[i := x], a);
    if d % 255 == 0 {
      ScaledMultiple(|a| - i, d);
      assert d == 0 || d == 255 || d == -255;
    }
    if {x, a[i]} == {0, 255} {
      assert x in {0, 255} && a[i] in {0, 255} && 0 in {x, a[i]} && 255 in {x, a[i]};
    }
  }
}
