/** Why moving limbs, and bits across limbs, multiplies and divides by a power of two. */
module UintShift {
  import opened Arithmetic
  import opened UintValue
  import opened UintLemmas

  /** a << s, as a 32-bit word. */
  function Lo(a: Limb, s: nat): Limb
    requires s <= 32
  {
    a * Pow2(s) % B
  }

  /** a >> (32 - s), the bits that Lo loses. */
  function Hi(a: Limb, s: nat): nat
    requires s <= 32
  {
    PowPositive(2, 32 - s);
    a / Pow2(32 - s)
  }

  lemma WordIs(s: nat)
    requires s <= 32
    ensures Pow2(32 - s) * Pow2(s) == B && Pow2(s) > 0 && Pow2(32 - s) > 0
  {
    PowAdd(2, 32 - s, s);
    Pow2Values();
    PowPositive(2, s);
    PowPositive(2, 32 - s);
  }

  lemma LimbShift(a: Limb, s: nat)
    requires s <= 32 && Pow2(32 - s) > 0
    ensures Lo(a, s) == Pow2(s) * (a % Pow2(32 - s)) && Hi(a, s) < Pow2(s)
    ensures Hi(a, s) * B + Lo(a, s) == a * Pow2(s)
  {
    hide Pow2;
    WordIs(s);
    SplitLimb(a, Pow2(s), Pow2(32 - s));
  }

  lemma SplitLimb(a: Limb, p: nat, r: nat)
    requires r * p == B && p > 0 && r > 0
    ensures a * p % B == p * (a % r) && a / r < p && (a / r) * B + p * (a % r) == a * p
  {
    var q, m := a / r, a % r;
    assert a == m + r * q;
    assert a * p == p * m + q * (r * p) by {
      assert (m + r * q) * p == m * p + (r * q) * p;
      MulComm(r, q);
      MulAssoc(q, r, p);
    }
    MulMono(p, m + 1, r);
    MulComm(r, p);
    MulMono(p, 0, m);
    DivideOff(p * m, B, q);
    MulOrder(r, q, p);
  }

  /** Two parts of a limb, neither touching the bits of the other. */
  lemma Joined(hi: nat, lo: Limb, c: nat, s: nat)
    requires s <= 32 && hi < Pow2(s) && lo == Pow2(s) * c
    ensures Or(hi, lo) == Or(lo, hi) == hi + lo < B
  {
    hide Pow2, Or;
    OrAdds(c, hi, s);
    WordIs(s);
    Fits(hi, c, Pow2(s), Pow2(32 - s));
  }

  lemma Fits(hi: nat, c: nat, p: nat, r: nat)
    requires hi < p && p * c < B == r * p
    ensures hi + p * c < B
  {
    MulComm(r, p);
    MulOrder(p, c, r);
    MulMono(p, c + 1, r);
  }

  lemma OrZero(x: nat)
    ensures Or(0, x) == x == Or(x, 0)
  {
  }

  // ---------- Left ----------

  /** Limb m once the first n limbs of a have been moved k limbs and s bits up. */
  function LeftLimb(a: seq<Limb>, k: nat, s: nat, n: nat, m: nat): nat
    requires s <= 32 && n <= |a|
  {
    (if k <= m && m - k < n then Lo(a[m - k], s) else 0) + (if k + 1 <= m && m - k - 1 < n then Hi(a[m - k - 1], s) else 0)
  }

  lemma {:induction false} LeftVal(a: seq<Limb>, t: seq<Limb>, k: nat, s: nat, n: nat)
    requires s <= 32 && k + n <= |a| == |t| && forall m | 0 <= m < |a| :: t[m] == LeftLimb(a, k, s, |a|, m)
    ensures Val(t, k + n) + (if n > 0 then Hi(a[n - 1], s) * W(k + n) else 0) == Pow2(s) * W(k) * Val(a, n)
  {
    hide W, Pow2, Lo, Hi;
    WordIs(s);
    if n == 0 {
      ZeroVal(t, k);
    } else {
      LeftVal(a, t, k, s, n - 1);
      LimbShift(a[n - 1], s);
      assert t[k + n - 1] == LeftLimb(a, k, s, |a|, k + n - 1);
      WStep(k + n - 1);
      WAdd(k, n - 1);
      var w, p := W(k + n - 1), Pow2(s);
      LeftValStep(a[n - 1], Hi(a[n - 1], s), Lo(a[n - 1], s), if n > 1 then Hi(a[n - 2], s) else 0, p, w, W(k), W(n - 1), Val(a, n - 1));
    }
  }

  lemma LeftValStep(x: nat, hi: nat, lo: nat, before: nat, p: nat, w: nat, wk: nat, wn: nat, v: nat)
    requires hi * B + lo == x * p && w == wk * wn
    ensures (lo + before) * w + hi * (B * w) == before * w + p * wk * (x * wn)
    ensures p * wk * v + p * wk * (x * wn) == p * wk * (v + x * wn)
  {
    assert hi * (B * w) + lo * w == (x * p) * w by { MulAssoc(hi, B, w); }
    assert (x * p) * w == p * wk * (x * wn) by {
      MulComm(x, p);
      MulAssoc(p, x, w);
      MulAssoc(x, wk, wn);
      MulComm(x, wk);
      MulAssoc(wk, x, wn);
      MulAssoc(p, wk, x * wn);
    }
  }

  lemma LeftShiftedIn(a: seq<Limb>, t: seq<Limb>, k: nat, s: nat)
    requires s < 32 && k <= |a| == |t| && forall m | 0 <= m < |a| :: t[m] == LeftLimb(a, k, s, |a|, m)
    ensures Congruent(Value(t), Value(a) * Pow2(32 * k + s), W(|a|))
  {
    hide W, Pow2, Lo, Hi, Congruent, Val, LeftLimb;
    var M, n := W(|a|), |a|;
    Shift2(k, s);
    LeftVal(a, t, k, s, n - k);
    CutOff(a, n - k, n);
    WAdd(n - k, k);
    CongruentTimes(Val(a, n), Val(a, n - k), Pow2(s), W(n - k), W(k));
    var h := if n - k > 0 then Hi(a[n - k - 1], s) else 0;
    Reorder(Pow2(s), W(k), Val(a, n - k));
    Reorder(Pow2(s), W(k), Val(a, n));
    CongruentFlip(Pow2(s) * Val(a, n) * W(k), Pow2(s) * Val(a, n - k) * W(k), M);
    CongruentBy(Value(t), Value(t) + h * M, M, -h);
    CongruentChain(Value(t), Value(t) + h * M, Value(a) * Pow2(32 * k + s), M);
  }

  /** Shifting left by shift bits multiplies by 2^shift, modulo 2^BITS. */
  lemma LeftShifted(a: seq<Limb>, t: seq<Limb>, k: nat, s: nat)
    requires s < 32 && |a| == |t| && forall m | 0 <= m < |a| :: t[m] == LeftLimb(a, k, s, |a|, m)
    ensures Value(t) == (Value(a) * Pow2(32 * k + s)) % W(|a|)
  {
    hide W, Pow2, Lo, Hi, Congruent, Val, LeftLimb;
    ValBound(t, |a|);
    if k <= |a| {
      LeftShiftedIn(a, t, k, s);
    } else {
      Shift2(k, s);
      AllBelow(a, t, k, s);
      var M, rest := W(|a|), W(k - |a|);
      WAdd(|a|, k - |a|);
      TimesModulus(Value(a), Pow2(s), M, rest);
      CongruentBy(0, Value(a) * Pow2(32 * k + s), M, -(Value(a) * (Pow2(s) * rest)));
    }
    CongruentRemainder(Value(t), Value(a) * Pow2(32 * k + s), W(|a|));
  }

  lemma Shift2(k: nat, s: nat)
    ensures Pow2(32 * k + s) == Pow2(s) * W(k)
  {
    PowAdd(2, 32 * k, s);
    WIsPow2(k);
    MulComm(Pow2(s), W(k));
  }

  lemma Reorder(p: int, w: int, v: int)
    ensures p * w * v == p * v * w == v * (p * w)
  {
    MulAssoc(p, w, v);
    MulAssoc(p, v, w);
    MulComm(w, v);
    MulComm(v, p * w);
  }

  lemma TimesModulus(v: int, p: int, m: int, r: int)
    ensures v * (p * (m * r)) == (v * (p * r)) * m
  {
    MulComm(m, r);
    MulAssoc(p, r, m);
    MulAssoc(v, p * r, m);
  }

  lemma AllBelow(a: seq<Limb>, t: seq<Limb>, k: nat, s: nat)
    requires s < 32 && |a| == |t| < k && forall m | 0 <= m < |a| :: t[m] == LeftLimb(a, k, s, |a|, m)
    ensures Value(t) == 0
  {
    ZeroVal(t, |t|);
  }

  // ---------- Right ----------

  /** Limb m once the first n limbs of a have been moved k limbs and s bits down. */
  function RightLimb(a: seq<Limb>, k: nat, s: nat, n: nat, m: nat): nat
    requires s <= 32 && n <= |a|
  {
    (if m + k < n then Hi(a[m + k], 32 - s) else 0) + (if m + k + 1 < n then Lo(a[m + k + 1], 32 - s) else 0)
  }

  /** What limb j loses when shifted down by s bits. */
  function Lost(a: seq<Limb>, s: nat, j: nat): nat
  {
    PowPositive(2, s);
    if j < |a| then a[j] % Pow2(s) else 0
  }

  lemma {:induction false} RightVal(a: seq<Limb>, t: seq<Limb>, k: nat, s: nat, n: nat)
    requires s <= 32 && k + n <= |a| == |t| && forall m | 0 <= m < |a| :: t[m] == RightLimb(a, k, s, |a|, m)
    ensures Pow2(s) * Val(t, n) + Lost(a, s, k) == Val(a[k..], n) + Lost(a, s, k + n) * W(n)
  {
    hide W, Pow2;
    WordIs(s);
    WStep(0);
    if n > 0 {
      RightVal(a, t, k, s, n - 1);
      assert t[n - 1] == RightLimb(a, k, s, |a|, n - 1) && a[k..][n - 1] == a[k + n - 1];
      WStep(n - 1);
      RightLimbIs(a, k + n - 1, s, t[n - 1]);
      RightValStep(Pow2(s), t[n - 1], a[k + n - 1], Lost(a, s, k + n - 1), Lost(a, s, k + n), W(n - 1), Val(t, n - 1));
    }
  }

  lemma RightLimbIs(a: seq<Limb>, j: nat, s: nat, t: nat)
    requires s <= 32 && j < |a| && t == Hi(a[j], 32 - s) + if j + 1 < |a| then Lo(a[j + 1], 32 - s) else 0
    ensures Pow2(s) * t == a[j] - Lost(a, s, j) + Lost(a, s, j + 1) * B
  {
    hide Pow2;
    WordIs(s);
    assert Hi(a[j], 32 - s) == a[j] / Pow2(s) by { assert 32 - (32 - s) == s; }
    var p, r := Pow2(s), Pow2(32 - s);
    var lo := if j + 1 < |a| then Lo(a[j + 1], 32 - s) else 0;
    if j + 1 < |a| { LimbShift(a[j + 1], 32 - s); }
    assert lo == r * Lost(a, s, j + 1);
    assert p * (r * Lost(a, s, j + 1)) == Lost(a, s, j + 1) * B by {
      MulAssoc(p, r, Lost(a, s, j + 1));
      MulComm(p, r);
    }
    assert p * t == p * (a[j] / p) + p * lo;
  }

  lemma RightValStep(p: nat, t: nat, x: nat, lost: nat, lostNext: nat, w: nat, v: nat)
    requires p * t == x - lost + lostNext * B
    ensures p * (v + t * w) == p * v + x * w - lost * w + lostNext * (B * w)
  {
    assert p * (v + t * w) == p * v + (p * t) * w by { MulAssoc(p, t, w); }
    assert (x - lost + lostNext * B) * w == x * w - lost * w + (lostNext * B) * w;
    MulAssoc(lostNext, B, w);
  }

  lemma {:induction false} CutLow(a: seq<Limb>, k: nat, n: nat)
    requires k + n <= |a|
    ensures Val(a, k + n) == Val(a, k) + W(k) * Val(a[k..], n)
  {
    hide W;
    if n > 0 {
      CutLow(a, k, n - 1);
      assert a[k..][n - 1] == a[k + n - 1];
      WAdd(k, n - 1);
      var v, x, w := Val(a[k..], n - 1), a[k + n - 1], W(n - 1);
      assert W(k) * (v + x * w) == W(k) * v + x * (W(k) * w) by {
        MulAssoc(x, W(k), w);
        MulComm(x, W(k));
        MulAssoc(W(k), x, w);
      }
    }
  }

  /** Shifting right by shift bits divides by 2^shift, rounding down. */
  lemma RightShifted(a: seq<Limb>, t: seq<Limb>, k: nat, s: nat)
    requires s < 32 && |a| == |t| && forall m | 0 <= m < |a| :: t[m] == RightLimb(a, k, s, |a|, m)
    ensures Pow2(32 * k + s) > 0 && Value(t) == Value(a) / Pow2(32 * k + s)
  {
    hide W, Pow2, Val, RightLimb;
    var n := |a|;
    Shift2(k, s);
    PowPositive(2, 32 * k + s);
    PositivePow2(32 * k + s);
    PositivePow2(s);
    if k <= n {
      RightVal(a, t, k, s, n - k);
      CutLow(a, k, n - k);
      Vanish(a, t, k, s);
      ValBound(a, k);
      Quotient(Val(a, k), W(k), Lost(a, s, k), Pow2(s), Value(t), Val(a[k..], n - k));
    } else {
      Vanish(a, t, k, s);
      WAdd(n, k - n);
      ValBound(a, n);
      MulMono(W(n), 1, W(k - n));
      MulMono(W(k), 1, Pow2(s));
      MulComm(W(k), Pow2(s));
      DivideOff(Value(a), Pow2(32 * k + s), 0);
    }
  }

  lemma Vanish(a: seq<Limb>, t: seq<Limb>, k: nat, s: nat)
    requires s < 32 && |a| == |t| && forall m | 0 <= m < |a| :: t[m] == RightLimb(a, k, s, |a|, m)
    ensures k <= |a| ==> Value(t) == Val(t, |a| - k)
    ensures k > |a| ==> Value(t) == 0
  {
    hide Hi, Lo, Pow2, W;
    if k <= |a| { HighZero(t, |a| - k, |a|); } else { HighZero(t, 0, |a|); }
  }

  lemma Quotient(low: nat, w: nat, lost: nat, p: nat, q: nat, tail: nat)
    requires low < w && lost < p && p * q + lost == tail
    ensures (low + w * tail) / (p * w) == q
  {
    var r := low + w * lost;
    MulMono(w, lost + 1, p);
    MulComm(w, p);
    assert low + w * tail == r + (p * w) * q by {
      assert w * (p * q + lost) == w * (p * q) + w * lost;
      MulAssoc(w, p, q);
    }
    DivideOff(r, p * w, q);
  }
}
