/** Why the loops of base_uint compute sums, products, shifts and quotients modulo 2^BITS. */
module UintLemmas {
  import opened Arithmetic
  import opened UintValue

  // ---------- Congruence ----------

  /** x and y differ by a multiple of m. */
  ghost predicate Congruent(x: int, y: int, m: nat) {
    exists q: int :: x == y + q * m
  }

  lemma CongruentBy(x: int, y: int, m: nat, q: int)
    requires x == y + q * m
    ensures Congruent(x, y, m)
  {
  }

  lemma CongruentChain(x: int, y: int, z: int, m: nat)
    requires Congruent(x, y, m) && Congruent(y, z, m)
    ensures Congruent(x, z, m)
  {
    var q :| x == y + q * m;
    var r :| y == z + r * m;
    assert x == z + (q + r) * m;
  }

  lemma CongruentRemainder(x: nat, y: int, m: nat)
    requires x < m && Congruent(x, y, m)
    ensures x == y % m
  {
    var q :| x == y + q * m;
    assert y == x + m * (-q) by { MulComm(q, m); }
    DivideOff(x, m, -q);
  }

  // ---------- Complement ----------

  lemma {:induction false} FlipVal(s: seq<Limb>, t: seq<Limb>, n: nat)
    requires n <= |s| == |t| && forall i | 0 <= i < n :: t[i] == B - 1 - s[i]
    ensures Val(t, n) == W(n) - 1 - Val(s, n)
  {
    hide W;
    WStep(0);
    if n > 0 {
      FlipVal(s, t, n - 1);
      WStep(n - 1);
      assert t[n - 1] * W(n - 1) == B * W(n - 1) - W(n - 1) - s[n - 1] * W(n - 1);
    }
  }

  // ---------- Multiplication ----------

  /** One step of schoolbook multiplication. */
  lemma MulStep(carry: nat, p: nat, a: nat, b: nat, wi: nat, wj: nat)
    ensures var n := carry + p + a * b;
            (n % B) * (wi * wj) + (n / B) * (B * (wi * wj)) == carry * (wi * wj) + p * (wi * wj) + (a * (b * wi)) * wj
  {
    var n, w := carry + p + a * b, wi * wj;
    Carry(n, w);
    assert (a * (b * wi)) * wj == (a * b) * w by {
      MulAssoc(a, b, wi);
      MulAssoc(a * b, wi, wj);
    }
    assert n * w == carry * w + p * w + (a * b) * w;
  }

  lemma NoOverflow(carry: nat, p: nat, a: nat, b: nat)
    requires carry < B && p < B && a < B && b < B
    ensures carry + p + a * b < B * B
  {
    MulMono(a, b, B - 1);
    MulMono(B - 1, a, B - 1);
    MulComm(a, B - 1);
  }

  /** Cutting the multiplicand off where it no longer fits changes the product by a multiple of 2^BITS. */
  lemma {:induction false} CutOff(b: seq<Limb>, n: nat, k: nat)
    requires n <= k <= |b|
    ensures Congruent(Val(b, k), Val(b, n), W(n))
  {
    hide W;
    if n == k {
      CongruentBy(Val(b, k), Val(b, n), W(n), 0);
    } else {
      CutOff(b, n, k - 1);
      WAdd(n, k - 1 - n);
      var x := b[k - 1];
      MulAssoc(x, W(k - 1 - n), W(n));
      MulComm(W(n), W(k - 1 - n));
      CongruentBy(Val(b, k), Val(b, k - 1), W(n), x * W(k - 1 - n));
      CongruentChain(Val(b, k), Val(b, k - 1), Val(b, n), W(n));
    }
  }

  lemma CongruentTimes(x: int, y: int, k: int, m: nat, l: nat)
    requires Congruent(x, y, m)
    ensures Congruent(k * x * l, k * y * l, m * l)
  {
    var q :| x == y + q * m;
    assert k * x * l == k * y * l + (k * q) * (m * l) by {
      assert k * x == k * y + k * (q * m);
      MulAssoc(k, q, m);
      MulAssoc(k * q, m, l);
    }
    CongruentBy(k * x * l, k * y * l, m * l, k * q);
  }

  /** One row of schoolbook multiplication, the carry out of the last limb being dropped. */
  lemma RowDone(a: Limb, b: seq<Limb>, j: nat, now: int, before: int, sofar: int, carry: nat, all: nat)
    requires j <= |b|
    requires now + carry * W(|b|) == before + a * Val(b, |b| - j) * W(j)
    requires Congruent(before, sofar * all, W(|b|)) && all == Val(b, |b|)
    ensures Congruent(now, (sofar + a * W(j)) * all, W(|b|))
  {
    hide W, Congruent, Val;
    var n := |b|;
    var cut, full := a * Val(b, n - j) * W(j), a * all * W(j);
    CutOff(b, n - j, n);
    WAdd(n - j, j);
    CongruentTimes(Val(b, n), Val(b, n - j), a, W(n - j), W(j));
    ThreeFactors(sofar, a, W(j), all);
    AddRow(now, before, carry, cut, full, sofar * all, W(n));
  }

  lemma AddRow(now: int, before: int, carry: int, cut: int, full: int, target: int, m: nat)
    requires now + carry * m == before + cut && Congruent(before, target, m) && Congruent(full, cut, m)
    ensures Congruent(now, target + full, m)
  {
    var q :| before == target + q * m;
    var r :| full == cut + r * m;
    assert now == target + full + (q - r - carry) * m;
  }

  lemma ThreeFactors(s: int, a: int, w: int, b: int)
    ensures (s + a * w) * b == s * b + a * b * w
  {
    assert (a * w) * b == a * b * w by {
      MulAssoc(a, w, b);
      MulComm(w, b);
      MulAssoc(a, b, w);
    }
  }

  lemma CongruentFlip(x: int, y: int, m: nat)
    requires Congruent(x, y, m)
    ensures Congruent(y, x, m)
  {
    var q :| x == y + q * m;
    CongruentBy(y, x, m, -q);
  }
}
