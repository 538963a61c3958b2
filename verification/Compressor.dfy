/** The compact form of amounts: trailing zeros become an exponent. */
module Compressor {
  import opened Arithmetic

  const WORD := 0x1_0000_0000_0000_0000

  type Uint64 = x: int | 0 <= x < WORD

  /** 247500000 coins of 100000000 units. */
  const MAX_MONEY := 24750000000000000

  // ---------- As functions on all naturals ----------

  /** Divide by ten while it goes, up to nine times. */
  function Strip(n: nat, e: nat): (nat, nat)
    requires n > 0 && e <= 9
    decreases 9 - e
  {
    if n % 10 == 0 && e < 9 then Strip(n / 10, e + 1) else (n, e)
  }

  function Packed(m: nat, e: nat): int {
    if e < 9 then 1 + (m / 10 * 9 + m % 10 - 1) * 10 + e else 1 + (m - 1) * 10 + 9
  }

  function Compressed(n: nat): int {
    if n == 0 then 0 else Packed(Strip(n, 0).0, Strip(n, 0).1)
  }

  /** The exponent and the rest that a positive code stands for. */
  function Unpacked(x: nat): (nat, nat)
    requires x > 0
  {
    var e, y := (x - 1) % 10, (x - 1) / 10;
    (if e < 9 then y / 9 * 10 + y % 9 + 1 else y + 1, e)
  }

  function Decompressed(x: nat): nat {
    if x == 0 then 0 else Unpacked(x).0 * Pow(10, Unpacked(x).1)
  }

  /** A number without trailing zeros, unless nine of them have been taken off already. */
  predicate Stripped(m: nat, e: nat) { m > 0 && e <= 9 && (e < 9 ==> m % 10 != 0) }

  lemma {:induction false} StripIs(n: nat, e: nat)
    requires n > 0 && e <= 9
    ensures var (m, f) := Strip(n, e);
            Stripped(m, f) && f >= e && m * Pow(10, f - e) == n
    decreases 9 - e
  {
    if n % 10 == 0 && e < 9 {
      StripIs(n / 10, e + 1);
      var (m, f) := Strip(n / 10, e + 1);
      assert Pow(10, f - e) == 10 * Pow(10, f - e - 1);
      MulAssoc(m, 10, Pow(10, f - e - 1));
      assert m * (10 * Pow(10, f - e - 1)) == 10 * (m * Pow(10, f - e - 1)) by { MulComm(m, 10); MulAssoc(10, m, Pow(10, f - e - 1)); }
    } else {
      assert Pow(10, 0) == 1;
    }
  }

  lemma TenMore(m: nat, k: nat)
    requires k > 0
    ensures m * Pow(10, k) == 10 * (m * Pow(10, k - 1)) && m * Pow(10, 0) == m
  {
    var p := Pow(10, k - 1);
    MulAssoc(m, 10, p);
    MulComm(m, 10);
    MulAssoc(10, m, p);
  }

  lemma {:induction false} StripUndoes(m: nat, e: nat, k: nat)
    requires Stripped(m, e) && k <= e
    ensures m * Pow(10, k) > 0 && Strip(m * Pow(10, k), e - k) == (m, e)
    decreases k
  {
    hide Pow;
    TenMore(m, k + 1);
    if k > 0 {
      TenMore(m, k);
      StripUndoes(m, e, k - 1);
      DivideOff(0, 10, m * Pow(10, k - 1));
    }
  }

  lemma UnpackPacked(m: nat, e: nat)
    requires Stripped(m, e)
    ensures Packed(m, e) > 0 && Unpacked(Packed(m, e)) == (m, e)
  {
    var y := if e < 9 then m / 10 * 9 + m % 10 - 1 else m - 1;
    DivideOff(e, 10, y);
    if e < 9 { DivideOff(m % 10 - 1, 9, m / 10); }
  }

  lemma PackUnpacked(x: nat)
    requires x > 0
    ensures Stripped(Unpacked(x).0, Unpacked(x).1) && Packed(Unpacked(x).0, Unpacked(x).1) == x
  {
    var e, y := (x - 1) % 10, (x - 1) / 10;
    if e < 9 { DivideOff(y % 9 + 1, 10, y / 9); }
  }

  /** No amount is lost. */
  lemma DecompressCompressed(n: nat)
    ensures Compressed(n) >= 0 && Decompressed(Compressed(n)) == n
  {
    if n > 0 {
      StripIs(n, 0);
      UnpackPacked(Strip(n, 0).0, Strip(n, 0).1);
    }
  }

  /** No code is wasted: every one is that of some amount. */
  lemma CompressDecompressed(x: nat)
    ensures Compressed(Decompressed(x)) == x
  {
    if x > 0 {
      PackUnpacked(x);
      var (m, e) := Unpacked(x);
      StripUndoes(m, e, e);
    }
  }

  lemma {:induction false} TenTimes(e: nat)
    ensures Pow(10, e) >= 1 && (e > 0 ==> Pow(10, e) >= 10)
  {
    if e > 0 { TenTimes(e - 1); }
  }

  /** A code is never more than nine times the amount. */
  lemma CompressedBound(n: nat)
    ensures 0 <= Compressed(n) <= 9 * n
  {
    if n > 0 {
      var (m, e) := Strip(n, 0);
      StripIs(n, 0);
      TenTimes(e);
      MulMono(m, if e > 0 then 10 else 1, Pow(10, e));
    }
  }

  /** Nothing overflows 64 bits up to the maximum amount of money, nor up to eighty times as much. */
  lemma FitsForMoney(n: nat)
    requires n <= 80 * 24750000000000000
    ensures 0 <= Compressed(n) < 0x1_0000_0000_0000_0000 && n < 0x1_0000_0000_0000_0000 && Decompressed(Compressed(n)) == n
  {
    CompressedBound(n);
    DecompressCompressed(n);
  }

  // ---------- In 64-bit words ----------

  /** Unsigned 64-bit arithmetic wraps around. */
  function Wrap(x: int): (r: Uint64)
    ensures r == x % 0x1_0000_0000_0000_0000
  {
    x % WORD
  }

  lemma WrapIs(x: int)
    ensures 0 <= x < WORD ==> Wrap(x) == x
  {
    if 0 <= x < WORD { DivideOff(x, WORD, 0); }
  }

  method CompressAmount(n0: Uint64) returns (x: Uint64)
    ensures x == Compressed(n0) % 0x1_0000_0000_0000_0000
    ensures n0 <= 80 * 24750000000000000 ==> x == Compressed(n0)
  {
    hide Strip, Packed, Wrap;
    if n0 <= 80 * MAX_MONEY { FitsForMoney(n0); }
    WrapIs(Compressed(n0));
    if n0 == 0 { return 0; }
    var n: Uint64, e := n0, 0;
    while n % 10 == 0 && e < 9
      invariant n > 0 && 0 <= e <= 9 && Strip(n, e) == Strip(n0, 0)
      decreases 9 - e
    {
      StripStep(n, e);
      n := n / 10;
      e := e + 1;
    }
    StripStep(n, e);
    PackedIs(n, e);
    if e < 9 {
      var d := n % 10;
      assert 1 <= d <= 9;
      n := n / 10;
      return Wrap(1 + (n * 9 + d - 1) * 10 + e);
    } else {
      return Wrap(1 + (n - 1) * 10 + 9);
    }
  }

  lemma StripStep(n: nat, e: nat)
    requires n > 0 && e <= 9
    ensures n % 10 == 0 && e < 9 ==> n / 10 > 0 && Strip(n, e) == Strip(n / 10, e + 1)
    ensures !(n % 10 == 0 && e < 9) ==> Strip(n, e) == (n, e)
  {
  }

  lemma PackedIs(m: nat, e: nat)
    ensures e < 9 ==> Packed(m, e) == 1 + (m / 10 * 9 + m % 10 - 1) * 10 + e
    ensures e >= 9 ==> Packed(m, e) == 1 + (m - 1) * 10 + 9
  {
  }

  method DecompressAmount(x0: Uint64) returns (n: Uint64)
    ensures n == Decompressed(x0) % 0x1_0000_0000_0000_0000
    ensures Decompressed(x0) < WORD ==> n == Decompressed(x0)
  {
    hide Pow;
    WrapIs(Decompressed(x0));
    if x0 == 0 { return 0; }
    var x: Uint64 := x0 - 1;
    var e := x % 10;
    x := x / 10;
    n := 0;
    if e < 9 {
      var d := x % 9 + 1;
      x := x / 9;
      n := x * 10 + d;
    } else {
      n := x + 1;
    }
    ghost var m, f, total := n, e, n * Pow(10, e);
    assert (m, f) == Unpacked(x0);
    ghost var k := 0;
    while e != 0
      invariant 0 <= e <= f && total == n * Pow(10, e) + k * WORD
      decreases e
    {
      ghost var q := n * 10 / WORD;
      TimesTen(n, e, k, q);
      n := Wrap(n * 10);
      e := e - 1;
      k := k + q * Pow(10, e);
    }
    NoMoreTens(n, k, total);
  }

  lemma NoMoreTens(n: Uint64, k: int, total: int)
    requires total == n * Pow(10, 0) + k * WORD
    ensures Wrap(total) == n
  {
    assert Pow(10, 0) == 1;
    DivideOff(n, WORD, k);
  }

  lemma TimesTen(n: nat, e: nat, k: int, q: int)
    requires e > 0 && q == n * 10 / WORD
    ensures n * Pow(10, e) + k * WORD == (n * 10 % WORD) * Pow(10, e - 1) + (k + q * Pow(10, e - 1)) * WORD
  {
    var p := Pow(10, e - 1);
    assert n * Pow(10, e) == (n * 10) * p by { MulAssoc(n, 10, p); }
    assert n * 10 == n * 10 % WORD + WORD * q;
    var r := n * 10 % WORD;
    assert (r + WORD * q) * p == r * p + (WORD * q) * p;
    MulAssoc(WORD, q, p);
    MulComm(WORD, q * p);
  }
}
