/** Zerocoin denominations: counts of coins, their value, and why taking the largest coins first
    is complete and uses the fewest coins, bounded holdings or not. */
module Denominations {
  import opened Arithmetic

  const COIN := 100000000

  const ZQ_ERROR := 0

  /** Smallest first; each divides the next. */
  const DENOMS: seq<int> := [1, 5, 10, 50, 100, 500, 1000, 5000]

  const N := 8

  /** ZerocoinDenominationToAmount. */
  function ToAmount(denom: int): int { if denom in DENOMS then COIN * denom else 0 }

  /** A count of coins for each denomination. */
  type Counts = map<int, int>

  ghost predicate Full(m: Counts) {
    forall i | 0 <= i < N :: DENOMS[i] in m && m[DENOMS[i]] >= 0
  }

  ghost predicate Within(m: Counts, held: Counts) {
    Full(m) && Full(held) && forall i | 0 <= i < N :: m[DENOMS[i]] <= held[DENOMS[i]]
  }

  function D(i: nat): (d: int)
    requires i < N
    ensures d > 0
  {
    COIN * DENOMS[i]
  }

  function Count(m: Counts, i: nat): int
    requires i < N
  {
    if DENOMS[i] in m then m[DENOMS[i]] else 0
  }

  /** The value of the coins of the n smallest denominations. */
  function Value(m: Counts, n: nat): int
    requires n <= N
  {
    if n == 0 then 0 else Value(m, n - 1) + Count(m, n - 1) * D(n - 1)
  }

  function CoinsIn(m: Counts, n: nat): int
    requires n <= N
  {
    if n == 0 then 0 else CoinsIn(m, n - 1) + Count(m, n - 1)
  }

  function Ratio(i: nat): (r: nat)
    requires 0 < i < N
  {
    DENOMS[i] / DENOMS[i - 1]
  }

  lemma Chain(i: nat)
    requires 0 < i < N
    ensures D(i) == Ratio(i) * D(i - 1) && Ratio(i) >= 2
  {
  }

  // ---------- Greedy ----------

  /** How many of h coins of value d fit into rem. */
  function Take(h: int, d: int, rem: int): (k: nat)
    requires d > 0
    ensures k * d <= rem || k == 0
    ensures h >= 0 ==> k <= h
    ensures k < h ==> rem < (k + 1) * d
  {
    if rem < d || h <= 0 then 0 else if rem / d <= h then rem / d else h
  }

  /** What is left of rem after taking, largest first, all that fits of the n smallest denominations. */
  function GreedyRem(held: Counts, n: nat, rem: int): int
    requires n <= N
  {
    if n == 0 then rem else GreedyRem(held, n - 1, rem - Take(Count(held, n - 1), D(n - 1), rem) * D(n - 1))
  }

  /** The coins so taken of denomination i. */
  function GreedyCount(held: Counts, n: nat, rem: int, i: nat): (k: nat)
    requires n <= N && i < N
  {
    if i >= n then 0
    else
      var k := Take(Count(held, n - 1), D(n - 1), rem);
      if i == n - 1 then k else GreedyCount(held, n - 1, rem - k * D(n - 1), i)
  }

  /** The result of greedy selection, as getSpendCoins returns it. */
  function Greedy(held: Counts, rem: int): (m: Counts)
  {
    map i | 0 <= i < N :: DENOMS[i] := GreedyCount(held, N, rem, i)
  }

  function GreedyCoins(held: Counts, n: nat, rem: int): nat
    requires n <= N
  {
    if n == 0 then 0
    else
      var k := Take(Count(held, n - 1), D(n - 1), rem);
      k + GreedyCoins(held, n - 1, rem - k * D(n - 1))
  }

  // ---------- Values ----------

  lemma {:induction false} SameValue(a: Counts, b: Counts, n: nat)
    requires n <= N && forall i | 0 <= i < n :: Count(a, i) == Count(b, i)
    ensures Value(a, n) == Value(b, n) && CoinsIn(a, n) == CoinsIn(b, n)
  {
    if n > 0 { SameValue(a, b, n - 1); }
  }

  lemma {:induction false} ValueNotNegative(m: Counts, n: nat)
    requires n <= N && Full(m)
    ensures Value(m, n) >= 0 && CoinsIn(m, n) >= 0
  {
    if n > 0 {
      ValueNotNegative(m, n - 1);
      MulMono(D(n - 1), 0, Count(m, n - 1));
    }
  }

  function Minus(a: Counts, b: Counts): (m: Counts)
  {
    map i | 0 <= i < N :: DENOMS[i] := Count(a, i) - Count(b, i)
  }

  lemma MinusAt(a: Counts, b: Counts, i: nat)
    requires i < N
    ensures Count(Minus(a, b), i) == Count(a, i) - Count(b, i)
  {
    assert DENOMS[i] in Minus(a, b);
  }

  lemma {:induction false} MinusValue(a: Counts, b: Counts, n: nat)
    requires n <= N
    ensures Value(Minus(a, b), n) == Value(a, n) - Value(b, n) && CoinsIn(Minus(a, b), n) == CoinsIn(a, n) - CoinsIn(b, n)
  {
    if n > 0 {
      MinusValue(a, b, n - 1);
      MinusAt(a, b, n - 1);
      Distribute(Count(a, n - 1), Count(b, n - 1), D(n - 1));
    }
  }

  lemma Distribute(x: int, y: int, d: int)
    ensures (x - y) * d == x * d - y * d
  {
  }

  lemma WithinMinus(a: Counts, b: Counts, held: Counts)
    requires Within(b, a) && Within(a, held)
    ensures Within(Minus(a, b), held)
  {
    forall i | 0 <= i < N ensures DENOMS[i] in Minus(a, b) && 0 <= Minus(a, b)[DENOMS[i]] <= held[DENOMS[i]] {
      MinusAt(a, b, i);
      assert b[DENOMS[i]] <= a[DENOMS[i]] && a[DENOMS[i]] <= held[DENOMS[i]];
    }
  }

  const NO_COINS: Counts := map i | 0 <= i < N :: DENOMS[i] := 0

  lemma NoCoins()
    ensures Full(NO_COINS) && forall i | 0 <= i < N :: Count(NO_COINS, i) == 0
  {
    forall i | 0 <= i < N ensures DENOMS[i] in NO_COINS && NO_COINS[DENOMS[i]] == 0 {}
  }

  // ---------- Completeness ----------

  lemma {:induction false} ZeroValue(m: Counts, n: nat)
    requires n <= N && forall i | 0 <= i < n :: Count(m, i) == 0
    ensures Value(m, n) == 0 && CoinsIn(m, n) == 0
  {
    if n > 0 { ZeroValue(m, n - 1); }
  }

  /** Only `top` coins, all of denomination n. */
  lemma AddTop(y: Counts, n: nat, top: int)
    requires n < N && forall i | n <= i < N :: Count(y, i) == 0
    ensures var x := y[DENOMS[n] := top];
            && Value(x, n + 1) == Value(y, n) + top * D(n) && CoinsIn(x, n + 1) == CoinsIn(y, n) + top
            && (forall i | 0 <= i < N :: Count(x, i) == if i == n then top else Count(y, i))
            && (forall i | 0 <= i < N && DENOMS[i] in y :: DENOMS[i] in x)
  {
    var x := y[DENOMS[n] := top];
    forall i | 0 <= i < N ensures Count(x, i) == if i == n then top else Count(y, i) {
      assert i != n ==> DENOMS[i] != DENOMS[n];
    }
    SameValue(x, y, n);
  }

  lemma FullIs(m: Counts)
    ensures Full(m) <==> forall i | 0 <= i < N :: DENOMS[i] in m && Count(m, i) >= 0
  {
  }

  lemma WithinIs(m: Counts, held: Counts)
    requires Full(m) && Full(held)
    ensures Within(m, held) <==> forall i | 0 <= i < N :: Count(m, i) <= Count(held, i)
  {
    if forall i | 0 <= i < N :: Count(m, i) <= Count(held, i) {
      forall i | 0 <= i < N ensures m[DENOMS[i]] <= held[DENOMS[i]] { assert Count(m, i) <= Count(held, i); }
    }
    if Within(m, held) {
      forall i | 0 <= i < N ensures Count(m, i) <= Count(held, i) { assert m[DENOMS[i]] <= held[DENOMS[i]]; }
    }
  }

  lemma ValueStep(m: Counts, n: nat)
    requires 0 < n <= N
    ensures Value(m, n) == Value(m, n - 1) + Count(m, n - 1) * D(n - 1)
    ensures CoinsIn(m, n) == CoinsIn(m, n - 1) + Count(m, n - 1)
  {
  }

  /** Out of coins below denomination n worth at least k of it, some make exactly k of it: each
      denomination divides the next. At least k coins, naturally. */
  lemma {:induction false} Extract(s: Counts, n: nat, k: nat) returns (x: Counts)
    requires n < N && Full(s) && Value(s, n) >= k * D(n)
    ensures Within(x, s) && Value(x, n) == k * D(n) && CoinsIn(x, n) >= k
    ensures forall i | n <= i < N :: Count(x, i) == 0
  {
    hide NO_COINS, Within, Full, D, Ratio, Value, CoinsIn;
    NoCoins();
    FullIs(s);
    FullIs(NO_COINS);
    if n == 0 {
      ZeroValue(s, 0);
      ZeroValue(NO_COINS, 0);
      x := NO_COINS;
    } else {
      Chain(n);
      var t, c, d := k * Ratio(n), Count(s, n - 1), D(n - 1);
      MulAssoc(k, Ratio(n), d);
      MulMono(k, 1, Ratio(n));
      Distribute(t, c, d);
      ValueStep(s, n);
      var y := NO_COINS;
      ZeroValue(NO_COINS, n - 1);
      if c < t { y := Extract(s, n - 1, t - c); }
      FullIs(y);
      var top := if c < t then c else t;
      AddTop(y, n - 1, top);
      x := y[DENOMS[n - 1] := top];
      WithinFull(y, s);
      if c < t { WithinIs(y, s); }
    }
    FullIs(x);
    WithinIs(x, s);
  }

  lemma WithinFull(m: Counts, held: Counts)
    requires Within(m, held) || m == NO_COINS
    ensures Full(m)
  {
    NoCoins();
  }

  /** If any of the held coins make exactly rem, greedy selection does, and with no more coins. */
  lemma {:induction false} GreedyCompletes(s: Counts, held: Counts, n: nat, rem: int)
    requires n <= N && Within(s, held) && Value(s, n) == rem
    ensures GreedyRem(held, n, rem) == 0 && GreedyCoins(held, n, rem) <= CoinsIn(s, n)
  {
    hide D, Within, Full, Take, Value, CoinsIn, Count;
    SubWithin(s, held);
    FullIs(s);
    FullIs(held);
    WithinIs(s, held);
    if n == 0 {
      ZeroValue(s, 0);
    } else {
      ValueStep(s, n);
      var d, c, h := D(n - 1), Count(s, n - 1), Count(held, n - 1);
      var g := Take(h, d, rem);
      ValueNotNegative(s, n - 1);
      TakesNoLess(h, d, rem, c);
      Distribute(g, c, d);
      TakeFits(h, d, rem);
      var x := Extract(s, n - 1, g - c);
      MinusValue(s, x, n - 1);
      WithinMinus(s, x, held);
      GreedyCompletes(Minus(s, x), held, n - 1, rem - g * d);
    }
  }

  lemma SubWithin(s: Counts, held: Counts)
    requires Within(s, held)
    ensures Within(s, s) && Full(s) && Full(held)
  {
  }

  lemma TakeFits(h: int, d: int, rem: int)
    requires d > 0
    ensures Take(h, d, rem) * d <= rem || Take(h, d, rem) == 0
  {
  }

  lemma TakesNoLess(h: int, d: int, rem: int, c: int)
    requires d > 0 && 0 <= c <= h && c * d <= rem
    ensures c <= Take(h, d, rem)
  {
    var g := Take(h, d, rem);
    if g < c { MulMono(d, g + 1, c); }
  }

  // ---------- What greedy selection returns ----------

  lemma {:induction false} GreedyBounds(held: Counts, n: nat, rem: int, i: nat)
    requires n <= N && i < N && Count(held, i) >= 0
    ensures 0 <= GreedyCount(held, n, rem, i) <= Count(held, i)
  {
    if n > 0 { GreedyBounds(held, n - 1, rem - Take(Count(held, n - 1), D(n - 1), rem) * D(n - 1), i); }
  }

  lemma {:induction false} GreedyValue(held: Counts, n: nat, rem: int, m: Counts)
    requires n <= N && forall i | 0 <= i < n :: Count(m, i) == GreedyCount(held, n, rem, i)
    ensures Value(m, n) == rem - GreedyRem(held, n, rem) && CoinsIn(m, n) == GreedyCoins(held, n, rem)
  {
    hide D, Take;
    if n > 0 {
      var r := rem - Take(Count(held, n - 1), D(n - 1), rem) * D(n - 1);
      forall i | 0 <= i < n - 1 ensures Count(m, i) == GreedyCount(held, n - 1, r, i) {
        assert Count(m, i) == GreedyCount(held, n, rem, i);
      }
      assert Count(m, n - 1) == GreedyCount(held, n, rem, n - 1);
      GreedyValue(held, n - 1, r, m);
    }
  }

  lemma GreedyAt(held: Counts, rem: int, i: nat)
    requires i < N
    ensures DENOMS[i] in Greedy(held, rem) && Count(Greedy(held, rem), i) == GreedyCount(held, N, rem, i)
  {
  }

  lemma GreedyIs(held: Counts, rem: int)
    requires Full(held)
    ensures Within(Greedy(held, rem), held)
    ensures Value(Greedy(held, rem), N) == rem - GreedyRem(held, N, rem)
    ensures CoinsIn(Greedy(held, rem), N) == GreedyCoins(held, N, rem)
  {
    hide Greedy, GreedyCount, GreedyRem, GreedyCoins, Within, Full, Value, CoinsIn;
    var m := Greedy(held, rem);
    FullIs(held);
    forall i | 0 <= i < N ensures DENOMS[i] in m && Count(m, i) == GreedyCount(held, N, rem, i) && 0 <= Count(m, i) <= Count(held, i) {
      GreedyAt(held, rem, i);
      GreedyBounds(held, N, rem, i);
    }
    FullIs(m);
    WithinIs(m, held);
    GreedyValue(held, N, rem, m);
  }

  /** Greedy selection meets the amount exactly whenever any choice of the held coins does, and then
      with the fewest coins. */
  lemma GreedyIsComplete(held: Counts, rem: int)
    requires Full(held)
    ensures GreedyRem(held, N, rem) == 0 <==> exists s :: Within(s, held) && Value(s, N) == rem
    ensures forall s | Within(s, held) && Value(s, N) == rem :: CoinsIn(Greedy(held, rem), N) <= CoinsIn(s, N)
  {
    hide Greedy, GreedyRem, GreedyCoins, Within, Full, Value, CoinsIn;
    GreedyIs(held, rem);
    forall s | Within(s, held) && Value(s, N) == rem
      ensures GreedyRem(held, N, rem) == 0 && CoinsIn(Greedy(held, rem), N) <= CoinsIn(s, N)
    {
      GreedyCompletes(s, held, N, rem);
    }
  }

  // ---------- Change ----------

  /** As many coins of every denomination as one could want for v. */
  function Plenty(v: int): (m: Counts)
  {
    map i | 0 <= i < N :: DENOMS[i] := if v < 0 then 0 else v
  }

  /** The coins that getChange gives for v. */
  function Change(v: int): Counts { Greedy(Plenty(v), v) }

  function ChangeCount(v: int): int { CoinsIn(Change(v), N) }

  lemma PlentyAt(v: int)
    ensures Full(Plenty(v)) && forall i | 0 <= i < N :: Count(Plenty(v), i) == if v < 0 then 0 else v
  {
    forall i | 0 <= i < N ensures DENOMS[i] in Plenty(v) && Plenty(v)[DENOMS[i]] == if v < 0 then 0 else v {}
  }

  lemma {:induction false} SmallValue(m: Counts, n: nat, i: nat)
    requires Full(m) && i < n <= N
    ensures Count(m, i) <= Value(m, n)
  {
    ValueNotNegative(m, n - 1);
    FullIs(m);
    MulMono(Count(m, n - 1), 1, D(n - 1));
    if i < n - 1 { SmallValue(m, n - 1, i); }
  }

  /** Every denomination is a whole number of coins, so parts of a coin never matter. */
  lemma PartsDoNotMatter(h: int, n: nat, rem: int)
    requires n < N
    ensures Take(h, D(n), rem) == Take(h, D(n), rem - rem % COIN)
    ensures (rem - Take(h, D(n), rem) * D(n)) % COIN == rem % COIN
  {
    hide Take;
    var x, r, q, k := DENOMS[n], rem % COIN, rem / COIN, Take(h, D(n), rem);
    assert rem == r + COIN * q;
    MulAssoc(COIN, x, k);
    assert rem - k * D(n) == r + COIN * (q - x * k);
    DivideOff(r, COIN, q - x * k);
    TakeWhole(h, x, q, r);
  }

  lemma TakeWhole(h: int, x: int, q: int, r: nat)
    requires x > 0 && r < COIN
    ensures Take(h, COIN * x, r + COIN * q) == Take(h, COIN * x, COIN * q)
  {
    hide Take;
    var k, j := Take(h, COIN * x, r + COIN * q), Take(h, COIN * x, COIN * q);
    TakeIsLargest(h, COIN * x, r + COIN * q, j);
    TakeIsLargest(h, COIN * x, r + COIN * q, k);
    TakeIsLargest(h, COIN * x, COIN * q, k);
    TakeIsLargest(h, COIN * x, COIN * q, j);
    assert k * (COIN * x) == COIN * (x * k) && j * (COIN * x) == COIN * (x * j);
    if k > 0 {
      MulOrder(COIN, x * k, q + 1);
      MulMono(COIN, x * k, q);
    }
  }

  lemma TakeIsLargest(h: int, d: int, rem: int, k: nat)
    requires d > 0
    ensures k == 0 || (k <= h && k * d <= rem) <==> k <= Take(h, d, rem)
  {
    var g := Take(h, d, rem);
    if k <= g { MulMono(d, k, g); } else { MulMono(d, g + 1, k); }
  }

  lemma {:induction false} ChangeRem(v: int, n: nat, rem: int)
    requires n <= N && rem <= v
    ensures v < 0 ==> GreedyRem(Plenty(v), n, rem) == rem
    ensures v >= 0 && n > 0 && rem >= 0 ==> GreedyRem(Plenty(v), n, rem) == rem % COIN
  {
    hide D, Plenty, Take;
    if n > 0 {
      PlentyAt(v);
      var h, d := Count(Plenty(v), n - 1), D(n - 1);
      var k := Take(h, d, rem);
      PartsDoNotMatter(h, n - 1, rem);
      TakeIsLargest(h, d, rem, k);
      MulMono(d, 0, k);
      MulComm(d, k);
      ChangeRem(v, n - 1, rem - k * d);
      if n == 1 && v >= 0 && rem >= 0 { TakeAll(v, rem); FirstDenom(); }
    }
  }

  lemma FirstDenom()
    ensures D(0) == COIN
  {
  }

  lemma {:induction false} WholeCoins(held: Counts, n: nat, rem: int)
    requires n <= N
    ensures GreedyCoins(held, n, rem) == GreedyCoins(held, n, rem - rem % COIN)
  {
    hide D, Take;
    if n > 0 {
      var h, d := Count(held, n - 1), D(n - 1);
      var k := Take(h, d, rem);
      PartsDoNotMatter(h, n - 1, rem);
      WholeCoins(held, n - 1, rem - k * d);
      assert rem - rem % COIN - k * d == (rem - k * d) - (rem - k * d) % COIN;
    }
  }

  lemma TakeAll(v: int, rem: int)
    requires 0 <= rem <= v
    ensures rem - Take(v, COIN, rem) * COIN == rem % COIN
  {
  }

  /** No way of paying out the same whole coins takes fewer. */
  lemma ChangeIsLeast(v: int, s: Counts)
    requires Full(s) && Value(s, N) == (if v < 0 then 0 else v - v % COIN)
    ensures ChangeCount(v) <= CoinsIn(s, N)
  {
    hide Greedy, GreedyRem, GreedyCoins, Within, Full, Value, CoinsIn, D;
    PlentyAt(v);
    GreedyIs(Plenty(v), v);
    SubWithin(Change(v), Plenty(v));
    ChangeRem(v, N, v);
    ValueNotNegative(s, N);
    FullIs(s);
    if v < 0 {
      CoinsAndValue(Change(v), N);
    } else {
      forall i | 0 <= i < N ensures Count(s, i) <= Count(Plenty(v), i) { SmallValue(s, N, i); }
      WithinIs(s, Plenty(v));
      GreedyCompletes(s, Plenty(v), N, v - v % COIN);
      WholeCoins(Plenty(v), N, v);
    }
  }

  lemma {:induction false} CoinsAndValue(m: Counts, n: nat)
    requires n <= N && Full(m)
    ensures Value(m, n) == 0 <==> CoinsIn(m, n) == 0
    ensures Value(m, n) >= CoinsIn(m, n) * COIN
  {
    if n > 0 {
      CoinsAndValue(m, n - 1);
      ValueNotNegative(m, n - 1);
      FullIs(m);
      var c, d := Count(m, n - 1), D(n - 1);
      MulMono(c, COIN, d);
    }
  }

  /** Change adds up to the whole coins in v, and no other way of paying them out takes fewer coins. */
  lemma ChangeIs(v: int)
    ensures Full(Change(v)) && Value(Change(v), N) == if v < 0 then 0 else v - v % COIN
    ensures ChangeCount(v) >= 0 && (ChangeCount(v) == 0 <==> v < COIN)
    ensures forall s | Full(s) && Value(s, N) == Value(Change(v), N) :: ChangeCount(v) <= CoinsIn(s, N)
  {
    hide Greedy, GreedyRem, GreedyCoins, Value, CoinsIn, D;
    PlentyAt(v);
    GreedyIs(Plenty(v), v);
    SubWithin(Change(v), Plenty(v));
    ChangeRem(v, N, v);
    ValueNotNegative(Change(v), N);
    forall s | Full(s) && Value(s, N) == Value(Change(v), N) ensures ChangeCount(v) <= CoinsIn(s, N) {
      ChangeIsLeast(v, s);
    }
    CoinsAndValue(Change(v), N);
  }
}
