/** Powers, division and order: the integer facts that the codecs and the big integers share. */
module Arithmetic {

  function Pow(b: nat, n: nat): nat { if n == 0 then 1 else b * Pow(b, n - 1) }

  function Pow2(n: nat): nat { Pow(2, n) }

  lemma {:induction false} PowPositive(b: nat, n: nat)
    requires b > 0
    ensures Pow(b, n) > 0
  {
    if n > 0 { PowPositive(b, n - 1); }
  }

  lemma PositivePow2(n: nat)
    ensures Pow2(n) > 0
  {
    PowPositive(2, n);
  }

  lemma {:induction false} PowAdd(b: nat, m: nat, n: nat)
    ensures Pow(b, m + n) == Pow(b, m) * Pow(b, n)
  {
    if m > 0 {
      PowAdd(b, m - 1, n);
      MulAssoc(b, Pow(b, m - 1), Pow(b, n));
    }
  }

  lemma NextPow2(n: nat)
    ensures Pow2(n + 1) == 2 * Pow2(n)
  {
  }

  lemma Pow2Add(m: nat, n: nat)
    ensures Pow2(m + n) == Pow2(m) * Pow2(n)
  {
    PowAdd(2, m, n);
  }

  lemma MulAssoc(x: int, y: int, z: int)
    ensures x * (y * z) == (x * y) * z
  {
  }

  lemma MulComm(x: int, y: int)
    ensures x * y == y * x
  {
  }

  lemma MulMono(k: nat, x: int, y: int)
    requires x <= y
    ensures k * x <= k * y
  {
  }

  lemma MulOrder(k: nat, x: int, y: int)
    requires k * x < k * y
    ensures x < y
  {
    if y <= x { MulMono(k, y, x); }
  }

  /** Division and remainder by k are the only q and r with x == r + k * q and r below k. */
  lemma DivideOff(r: nat, k: nat, q: int)
    requires r < k
    ensures (r + k * q) / k == q && (r + k * q) % k == r
  {
    var d := (r + k * q) / k;
    assert k * (d + 1) == k * d + k && k * (q + 1) == k * q + k;
    MulOrder(k, d, q + 1);
    MulOrder(k, q, d + 1);
  }

  /** The number of bits of v: zero for zero, otherwise the position of the highest bit plus one. */
  function BitLength(v: nat): (n: nat) { if v == 0 then 0 else 1 + BitLength(v / 2) }

  lemma {:induction false} BitLengthIs(v: nat)
    ensures v < Pow2(BitLength(v)) && (v > 0 ==> Pow2(BitLength(v) - 1) <= v)
    ensures v == 0 <==> BitLength(v) == 0
  {
    if v > 0 {
      BitLengthIs(v / 2);
    }
  }

  lemma {:induction false} Pow2Mono(m: nat, n: nat)
    requires m <= n
    ensures Pow2(m) <= Pow2(n)
  {
    if m < n { Pow2Mono(m, n - 1); }
  }

  lemma BitLengthUnique(v: nat, n: nat)
    requires v < Pow2(n) && (n > 0 ==> Pow2(n - 1) <= v)
    ensures BitLength(v) == n
  {
    BitLengthIs(v);
    var b := BitLength(v);
    if b < n { Pow2Mono(b, n - 1); }
    if n < b { Pow2Mono(n, b - 1); }
    PowPositive(2, if n > 0 then n - 1 else 0);
  }

  // ---------- Bytes ----------

  lemma SameByte(b: bv8)
    ensures (b as int) as bv8 == b
    ensures b as int == 255 <==> b == 255
  {
  }

  lemma NextByte(b: bv8)
    requires b != 255
    ensures (b + 1) as int == b as int + 1
  {
  }

  lemma {:induction false} ByteFor(n: nat) returns (b: bv8)
    requires n < 256
    ensures b as int == n
  {
    b := 0;
    if n > 0 {
      b := ByteFor(n - 1);
      SameByte(b);
      NextByte(b);
      b := b + 1;
    }
  }

  /** A number below 256 as a byte and back. */
  lemma ByteValue(n: nat)
    requires n < 256
    ensures (n as bv8) as int == n
  {
    var b := ByteFor(n);
    SameByte(b);
  }
}
