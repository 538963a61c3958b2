/** Numbers as little-endian limbs of 32 bits: what the array of limbs in base_uint stands for. */
module UintValue {
  import opened Arithmetic

  const B := 0x1_0000_0000

  type Limb = x: int | 0 <= x < B

  type Uint64 = x: int | 0 <= x < 0x1_0000_0000_0000_0000

  /** The weight of limb n. */
  function W(n: nat): (w: nat)
    ensures w > 0
  {
    PowPositive(B, n);
    Pow(B, n)
  }

  /** The value of the n lowest limbs. */
  function Val(s: seq<Limb>, n: nat): nat
    requires n <= |s|
  {
    if n == 0 then 0 else Val(s, n - 1) + s[n - 1] * W(n - 1)
  }

  function Value(s: seq<Limb>): nat { Val(s, |s|) }

  lemma ValStep(s: seq<Limb>, n: nat)
    requires n <= |s|
    ensures n < |s| ==> Val(s, n + 1) == Val(s, n) + s[n] * W(n)
    ensures Val(s, 0) == 0
  {
  }

  lemma WStep(n: nat)
    ensures W(n + 1) == B * W(n) && W(0) == 1
  {
  }

  lemma WAdd(m: nat, n: nat)
    ensures W(m + n) == W(m) * W(n)
  {
    PowAdd(B, m, n);
  }

  lemma {:induction false} WIsPow2(n: nat)
    ensures W(n) == Pow2(32 * n)
  {
    if n > 0 {
      WIsPow2(n - 1);
      PowAdd(2, 32, 32 * (n - 1));
      Pow2Values();
    }
  }

  lemma Pow2Values()
    ensures Pow2(8) == 0x100 && Pow2(16) == 0x1_0000 && Pow2(24) == 0x100_0000 && Pow2(32) == B
    ensures Pow2(15) == 0x8000 && Pow2(23) == 0x80_0000
  {
    assert Pow2(8) == 0x100;
    PowAdd(2, 8, 8);
    PowAdd(2, 8, 16);
    PowAdd(2, 16, 16);
    PowAdd(2, 7, 8);
    assert Pow2(7) == 0x80;
    PowAdd(2, 7, 16);
  }

  lemma Limit(x: int, w: nat)
    requires 0 <= x < B && w > 0
    ensures 0 <= x * w && x * w + w <= B * w
  {
    MulMono(w, x + 1, B);
  }

  lemma {:induction false} ValBound(s: seq<Limb>, n: nat)
    requires n <= |s|
    ensures Val(s, n) < W(n)
  {
    hide W;
    WStep(0);
    if n > 0 {
      ValBound(s, n - 1);
      WStep(n - 1);
      Limit(s[n - 1], W(n - 1));
    }
  }

  lemma {:induction false} SameVal(s: seq<Limb>, t: seq<Limb>, n: nat)
    requires n <= |s| && n <= |t| && s[..n] == t[..n]
    ensures Val(s, n) == Val(t, n)
  {
    if n > 0 {
      assert s[..n - 1] == s[..n][..n - 1] == t[..n][..n - 1] == t[..n - 1];
      assert s[n - 1] == s[..n][n - 1] == t[..n][n - 1] == t[n - 1];
      SameVal(s, t, n - 1);
    }
  }

  lemma {:induction false} ZeroVal(s: seq<Limb>, n: nat)
    requires n <= |s| && forall j | 0 <= j < n :: s[j] == 0
    ensures Val(s, n) == 0
  {
    if n > 0 { ZeroVal(s, n - 1); }
  }

  /** Splitting x into a limb and a carry does not change its worth. */
  lemma Carry(x: nat, w: nat)
    ensures (x % B) * w + (x / B) * (B * w) == x * w
  {
    var q, r := x / B, x % B;
    assert x == q * B + r;
    MulAssoc(q, B, w);
    assert x * w == (q * B) * w + r * w;
  }

  /** The limbs left once the carry past the last one is dropped. */
  lemma Dropped(r: nat, m: nat, q: nat, total: int)
    requires r < m && total == r + q * m
    ensures total >= 0 && r == total % m
  {
    MulComm(q, m);
    MulMono(m, 0, q);
    DivideOff(r, m, q);
  }

  // ---------- Order ----------

  /** The highest limb in which two numbers differ decides. */
  lemma {:induction false} HighestDecides(s: seq<Limb>, t: seq<Limb>, i: nat, n: nat)
    requires i < n <= |s| == |t| && s[i] < t[i] && forall j | i < j < n :: s[j] == t[j]
    ensures Val(s, n) < Val(t, n)
  {
    hide W;
    if i < n - 1 {
      HighestDecides(s, t, i, n - 1);
    } else {
      ValBound(s, i);
      MulMono(W(i), s[i] + 1, t[i]);
    }
  }

  lemma {:induction false} HighZero(s: seq<Limb>, i: nat, n: nat)
    requires i <= n <= |s| && forall j | i <= j < n :: s[j] == 0
    ensures Val(s, n) == Val(s, i)
  {
    hide W;
    if i < n { HighZero(s, i, n - 1); }
  }

  // ---------- Bitwise or ----------

  /** The | of two words. */
  function Or(x: nat, y: nat): nat
    decreases x + y
  {
    if x == 0 || y == 0 then x + y else 2 * Or(x / 2, y / 2) + if x % 2 == 1 || y % 2 == 1 then 1 else 0
  }

  /** Bits of a number below 2^s are added by | to a multiple of 2^s. */
  lemma {:induction false} OrAdds(q: nat, y: nat, s: nat)
    requires y < Pow2(s)
    ensures Or(Pow2(s) * q, y) == Pow2(s) * q + y == Or(y, Pow2(s) * q)
  {
    if s > 0 {
      OrAdds(q, y / 2, s - 1);
      MulAssoc(2, Pow2(s - 1), q);
    }
  }
}
