/** Why shift-and-subtract division leaves the floor quotient and the remainder. */
module UintDivision {
  import opened Arithmetic
  import opened UintValue

  /** All bits below e are zero. */
  ghost predicate Clear(s: seq<Limb>, e: nat) {
    forall m | 0 <= m < |s| && 32 * m < e :: s[m] % Pow2Of(if e - 32 * m < 32 then e - 32 * m else 32) == 0
  }

  function Pow2Of(n: nat): (p: nat)
    ensures p > 0 && p == Pow2(n)
  {
    PowPositive(2, n);
    Pow2(n)
  }

  lemma ZeroIsClear(s: seq<Limb>, e: nat)
    requires Value(s) == 0
    ensures Clear(s, e)
  {
    hide Pow2;
    forall m | 0 <= m < |s| && 32 * m < e ensures s[m] == 0 {
      if s[m] != 0 { LimbCounts(s, m, |s|); }
    }
  }

  lemma {:induction false} LimbCounts(s: seq<Limb>, m: nat, n: nat)
    requires m < n <= |s| && s[m] != 0
    ensures Val(s, n) > 0
  {
    hide W;
    if m < n - 1 { LimbCounts(s, m, n - 1); } else { MulMono(W(m), 1, s[m]); }
  }

  lemma {:induction false} UpdateVal(s: seq<Limb>, m: nat, x: Limb, n: nat)
    requires m < |s| && n <= |s|
    ensures Val(s[m := x], n) == Val(s, n) + if m < n then (x - s[m]) * W(m) else 0
  {
    hide W;
    if n > 0 { UpdateVal(s, m, x, n - 1); }
  }

  /** Setting bit e, with it and everything below it zero before, adds 2^e. */
  lemma SetBit(s: seq<Limb>, e: nat)
    requires e < 32 * |s| && Clear(s, e + 1)
    ensures var m, p := e / 32, Pow2(e % 32);
            && Or(s[m], p) < B
            && Value(s[m := Or(s[m], p)]) == Value(s) + Pow2(e)
            && Clear(s[m := Or(s[m], p)], e)
  {
    hide Pow2, W, Or, Val;
    var m, t := e / 32, e % 32;
    var p := Pow2(t);
    assert s[m] % Pow2Of(t + 1) == 0;
    FreeBit(s[m], t);
    UpdateVal(s, m, s[m] + p, |s|);
    WIsPow2(m);
    Pow2Sum(32 * m, t);
    MulComm(W(m), p);
    var s' := s[m := s[m] + p];
    forall j | 0 <= j < |s| && 32 * j < e ensures s'[j] % Pow2Of(if e - 32 * j < 32 then e - 32 * j else 32) == 0 {
      assert s[j] % Pow2Of(if e + 1 - 32 * j < 32 then e + 1 - 32 * j else 32) == 0;
    }
  }

  lemma Pow2Sum(m: nat, n: nat)
    ensures Pow2(m + n) == Pow2(m) * Pow2(n) && Pow2(n + 1) == 2 * Pow2(n)
  {
    PowAdd(2, m, n);
  }

  lemma FreeBit(x: Limb, t: nat)
    requires t < 32 && x % Pow2Of(t + 1) == 0
    ensures Or(x, Pow2(t)) == x + Pow2(t) < B && (x + Pow2(t)) % Pow2Of(t) == 0
  {
    hide Pow2, Or;
    var p, q := Pow2(t), x / Pow2Of(t + 1);
    Pow2Sum(0, t);
    assert x == Pow2(t + 1) * q == 2 * p * q;
    PositivePow2(t);
    OrAdds(q, p, t + 1);
    RoomAbove(t, q);
    OddMultiple(p, q);
  }

  lemma RoomAbove(t: nat, q: nat)
    requires t < 32 && 2 * Pow2(t) * q < B
    ensures 2 * Pow2(t) * q + Pow2(t) < B
  {
    hide Pow2;
    var p, r := Pow2(t), Pow2(31 - t);
    PositivePow2(t);
    Pow2Sum(31 - t, t);
    Pow2Sum(0, 31);
    Pow2Values();
    assert B == (2 * p) * r by { MulComm(r, p); MulAssoc(2, p, r); }
    MulOrder(2 * p, q, r);
    MulMono(2 * p, q + 1, r);
  }

  lemma OddMultiple(p: nat, q: nat)
    requires p > 0
    ensures (2 * p * q + p) % p == 0
  {
    assert 2 * p * q + p == 0 + p * (2 * q + 1) by { MulAssoc(2, p, q); }
    DivideOff(0, p, 2 * q + 1);
  }

  /** Aligning the divisor with the dividend loses nothing and leaves at most one subtraction per bit. */
  lemma Aligned(n: nat, d: nat, m: nat)
    requires 0 < d && n < W(m) && BitLength(d) <= BitLength(n)
    ensures var shift := BitLength(n) - BitLength(d);
            && d * Pow2(shift) < W(m) && (d * Pow2(shift)) % W(m) == d * Pow2(shift)
            && n < d * Pow2(shift + 1) && shift < 32 * m
  {
    hide Pow2, W, BitLength;
    var a, b := BitLength(n), BitLength(d);
    BitLengthIs(n);
    BitLengthIs(d);
    AlignedBits(n, d, b, a - b);
    WIsPow2(m);
    if 32 * m < a { Pow2Mono(32 * m, a - 1); }
    Pow2Mono(a, 32 * m);
    DivideOff(d * Pow2(a - b), W(m), 0);
  }

  lemma AlignedBits(n: nat, d: nat, b: nat, shift: nat)
    requires b > 0 && Pow2(b - 1) <= d < Pow2(b) && n < Pow2(b + shift)
    ensures d * Pow2(shift) < Pow2(b + shift) && n < d * Pow2(shift + 1)
  {
    hide Pow2;
    Pow2Sum(b, shift);
    Pow2Sum(0, b - 1);
    Pow2Sum(0, shift);
    PositivePow2(shift);
    ScaleBoth(d, Pow2(b - 1), Pow2(shift));
  }

  lemma ScaleBoth(d: nat, half: nat, p: nat)
    requires half <= d < 2 * half && p > 0
    ensures d * p < (2 * half) * p <= d * (2 * p)
  {
    MulMono(p, d + 1, 2 * half);
    MulMono(p, half, d);
    assert (2 * half) * p == 2 * (half * p) && d * (2 * p) == 2 * (d * p);
  }

  lemma HalveShifted(d: nat, shift: nat)
    requires shift > 0
    ensures d * Pow2(shift) / 2 == d * Pow2(shift - 1)
  {
    var p := Pow2(shift - 1);
    assert d * (2 * p) == 2 * (d * p);
  }

  /** One round of the division loop. */
  lemma Round(n: nat, num: nat, q: nat, d: nat, shift: nat)
    requires num + q * d == n && num < d * Pow2(shift + 1)
    ensures var div := d * Pow2(shift);
            if num >= div then (num - div) + (q + Pow2(shift)) * d == n && num - div < div else num < div
  {
    hide Pow2;
    Pow2Sum(0, shift);
    var p := Pow2(shift);
    assert d * (2 * p) == d * p + d * p;
    assert (q + p) * d == q * d + d * p;
  }

  lemma QuotientIs(n: nat, num: nat, q: nat, d: nat)
    requires num + q * d == n && num < d
    ensures q == n / d && num == n % d
  {
    MulComm(q, d);
    DivideOff(num, d, q);
  }
}
