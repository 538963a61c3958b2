/** The denominations as numbers, and what selection comes to at single mints and at the example of minimizeChange. */
module MintLaws {
  import opened Denominations
  import opened MintChoice
  import opened ChangeMaking
  import opened MintSelection
  import opened ZerocoinChange

  /** One coin, and from there on five times and twice as much in turn: the eighth is five thousand. */
  lemma DenominationsAre()
    ensures |DENOMS| == N == 8 && DENOMS[0] == 1 && DENOMS[7] == 5000
    ensures forall i | 0 < i < N :: DENOMS[i] == DENOMS[i - 1] * if i % 2 == 1 then 5 else 2
    ensures forall d :: ToAmount(d) == if d in {1, 5, 10, 50, 100, 500, 1000, 5000} then 100_000_000 * d else 0
  {
  }

  lemma Listed(d: int) returns (i: nat)
    requires d in {1, 5, 10, 50, 100, 500, 1000, 5000}
    ensures i < N && DENOMS[i] == d && D(i) == 100_000_000 * d
  {
    i := if d == 1 then 0 else if d == 5 then 1 else if d == 10 then 2 else if d == 50 then 3
         else if d == 100 then 4 else if d == 500 then 5 else if d == 1000 then 6 else 7;
  }

  /** One unused mint of any denomination pays exactly its value, alone, under any limit but zero. */
  lemma OneMintPays(d: int, id: nat, maxSpends: int)
    requires d in {1, 5, 10, 50, 100, 500, 1000, 5000} && maxSpends != 0 && -0x8000_0000 <= maxSpends
    ensures var mints := [Mint(d, false, id)];
            && Exact(mints, 100_000_000 * d) && Least(mints, 100_000_000 * d) == 1
            && Payable(mints, maxSpends, 100_000_000 * d)
  {
    hide UnusedCounts, Greedy, Value, CoinsIn, Full, Within, GreedyRem, D;
    var i := Listed(d);
    var mints, target := [Mint(d, false, id)], 100_000_000 * d;
    var c := [true];
    assert Choice(mints, c) && ChoiceValue(mints, c, 1) == ToAmount(d) == target by { DenominationsAre(); }
    assert ChoiceSize(c, 1) == 1;
    ExactIffSomeChoice(mints, target);
    UnusedCountsAt(mints);
    GreedyIs(UnusedCounts(mints), target);
    SubWithin(Greedy(UnusedCounts(mints), target), UnusedCounts(mints));
    ValueNotNegative(Greedy(UnusedCounts(mints), target), N);
    CoinsAndValue(Greedy(UnusedCounts(mints), target), N);
  }

  /** A used mint, or a mint of no denomination, pays nothing but zero. */
  lemma WorthlessMint(m: Mint, target: int)
    requires m.isUsed || m.denom !in {1, 5, 10, 50, 100, 500, 1000, 5000}
    ensures Exact([m], target) <==> target == 0
  {
    DenominationsAre();
    if Exact([m], target) {
      var c :| Choice([m], c) && ChoiceValue([m], c, |c|) == target;
      assert ChoiceValue([m], c, 1) == ChoiceValue([m], c, 0) + if c[0] then ToAmount(m.denom) else 0;
    }
    assert Choice([m], [false]) && ChoiceValue([m], [false], 1) == 0;
  }

  /** Change of one denomination's value is one coin of it. */
  lemma ChangeIsOneCoin(d: int)
    requires d in {1, 5, 10, 50, 100, 500, 1000, 5000}
    ensures ChangeCount(100_000_000 * d) == 1 && d in Change(100_000_000 * d) && Change(100_000_000 * d)[d] == 1
  {
    hide Greedy, Value, Full, Within, Change, OneCoin, CoinsIn, D;
    var i := Listed(d);
    var v := 100_000_000 * d;
    ChangeIs(v);
    OneCoinValue(i);
    assert v % COIN == 0 by { WholeDenom(i); }
    NoMoreThanOne(i);
    var j := TheOneCoin(Change(v), N);
    FullIs(Change(v));
    SameDenom(i, j);
  }

  lemma SameDenom(i: nat, j: nat)
    requires i < N && j < N && D(i) == D(j)
    ensures DENOMS[i] == DENOMS[j]
  {
  }

  lemma NoMoreThanOne(i: nat)
    requires i < N
    ensures CoinsIn(OneCoin(i), N) == 1
  {
    hide D, NO_COINS, Count;
    NoCoins();
    ZeroValue(NO_COINS, N);
    Update(NO_COINS, N, i, 1);
  }

  /** A single coin is of one denomination, whose value it has. */
  lemma {:induction false} TheOneCoin(m: Counts, n: nat) returns (j: nat)
    requires n <= N && Full(m) && CoinsIn(m, n) == 1
    ensures j < n && Count(m, j) == 1 && Value(m, n) == D(j)
  {
    hide D;
    CoinsAndValue(m, n - 1);
    ValueNotNegative(m, n - 1);
    FullIs(m);
    if Count(m, n - 1) == 0 { j := TheOneCoin(m, n - 1); } else { j := n - 1; }
  }

  /** A negative limit on the number of mints, as an int converted to size_t, is no limit. */
  lemma NegativeLimit(mints: seq<Mint>, maxSpends: int, target: int)
    requires -0x8000_0000 <= maxSpends < 0 && |mints| <= 0x7fff_ffff_ffff_ffff
    ensures Payable(mints, maxSpends, target) <==> Exact(mints, target)
  {
    hide Greedy, UnusedCounts, CoinsIn, Exact;
    PayableIs(mints, maxSpends, target);
    if Exact(mints, target) {
      ExactIffSomeChoice(mints, target);
      assert Least(mints, target) <= |mints| by { NoMoreThanAll(mints, target); }
    }
  }

  lemma NoMoreThanAll(mints: seq<Mint>, target: int)
    requires Exact(mints, target)
    ensures Least(mints, target) <= |mints|
  {
    hide Greedy, UnusedCounts, CoinsIn;
    var c :| Choice(mints, c) && ChoiceValue(mints, c, |c|) == target;
    ExactIffSomeChoice(mints, target);
    AtMostAll(c, |c|);
  }

  lemma {:induction false} AtMostAll(c: seq<bool>, n: nat)
    requires n <= |c|
    ensures ChoiceSize(c, n) <= n
  {
    if n > 0 { AtMostAll(c, n - 1); }
  }

  // ---------- The order of the mints ----------

  /** Denominations from the n-th up, largest first. */
  ghost predicate Falls(p: seq<Mint>, n: nat)
    requires n <= N
  {
    && (forall i | 0 <= i < |p| && n < N :: p[i].denom >= DENOMS[n])
    && (forall i, j | 0 <= i < j < |p| :: p[i].denom >= p[j].denom)
  }

  lemma FallsOn(p: seq<Mint>, q: seq<Mint>, n: nat)
    requires n < N && Falls(p, n + 1) && (forall m | m in q :: m.denom == DENOMS[n]) && (n == N - 1 ==> p == [])
    ensures Falls(p + q, n)
  {
    var r := p + q;
    forall i | 0 <= i < |r| ensures r[i].denom >= DENOMS[n] && (i >= |p| ==> r[i].denom == DENOMS[n]) {
      if i >= |p| { assert r[i] == q[i - |p|] && q[i - |p|] in q; }
    }
  }

  /** getSpends returns the larger denominations first. */
  lemma {:induction false} SpendsFall(mints: seq<Mint>, used: Counts, n: nat)
    requires n <= N && Servable(mints, used)
    ensures forall i, j | 0 <= i < j < |Spends(mints, used, n)| :: Spends(mints, used, n)[i].denom >= Spends(mints, used, n)[j].denom
    ensures Falls(Spends(mints, used, n), n)
    decreases N - n
  {
    hide Unused, Pick, Rounds, Servable;
    ServableIs(mints, used);
    if n < N {
      SpendsFall(mints, used, n + 1);
      FallsOn(Spends(mints, used, n + 1), Rounds(mints, DENOMS[n], Count(used, n)), n);
    }
  }

  /** Within a denomination the first pass goes over the list in order. */
  lemma {:induction false} PickInOrder(mints: seq<Mint>, d: int, k: nat, n: nat) returns (at: seq<nat>)
    requires n <= |mints|
    ensures var p := Pick(mints, d, k, n);
            && |at| == |p| && (forall i | 0 <= i < |p| :: at[i] < n && p[i] == mints[at[i]])
            && (forall i, j | 0 <= i < j < |p| :: at[i] < at[j])
  {
    at := [];
    if n > 0 {
      at := PickInOrder(mints, d, k, n - 1);
      if Spendable(mints[n - 1], d) && |at| < k { at := at + [n - 1]; }
    }
  }

  // ---------- The example of minimizeChange ----------

  /** Denominations that are not held, or too large, do not matter. */
  lemma {:induction false} OnlyBelow(held: Counts, k: nat, n: nat, rem: int, i: nat)
    requires k <= n <= N && i < N && forall j | k <= j < N :: Count(held, j) <= 0 || rem < D(j)
    ensures GreedyRem(held, n, rem) == GreedyRem(held, k, rem) && GreedyCount(held, n, rem, i) == GreedyCount(held, k, rem, i)
  {
    hide D, Count;
    if k < n {
      assert Take(Count(held, n - 1), D(n - 1), rem) == 0;
      OnlyBelow(held, k, n - 1, rem, i);
    }
  }

  lemma GreedyStep(held: Counts, n: nat, rem: int, i: nat)
    requires n < N && i < N
    ensures var k := Take(Count(held, n), D(n), rem);
            && GreedyRem(held, n + 1, rem) == GreedyRem(held, n, rem - k * D(n))
            && GreedyCount(held, n + 1, rem, i) == if i > n then 0 else if i == n then k else GreedyCount(held, n, rem - k * D(n), i)
    ensures GreedyRem(held, 0, rem) == rem && GreedyCount(held, 0, rem, i) == 0
  {
  }

  ghost predicate Holds(m: Counts, ones: int, fives: int, tens: int) {
    Full(m) && forall i | 0 <= i < N :: Count(m, i) == if i == 0 then ones else if i == 1 then fives else if i == 2 then tens else 0
  }

  lemma HoldsIs(m: Counts, ones: int, fives: int, tens: int)
    requires Full(m)
    ensures Holds(m, ones, fives, tens) <==>
              forall i | 0 <= i < N :: Count(m, i) == if i == 0 then ones else if i == 1 then fives else if i == 2 then tens else 0
  {
  }

  /** Greedy selection among ones, fives and tens. */
  lemma Selection(held: Counts, rem: int, ones: int, fives: int, tens: int)
    requires Full(held) && forall j | 3 <= j < N :: Count(held, j) <= 0 || rem < D(j)
    requires tens == Take(Count(held, 2), 10 * COIN, rem) && fives == Take(Count(held, 1), 5 * COIN, rem - tens * (10 * COIN))
    requires ones == Take(Count(held, 0), COIN, rem - tens * (10 * COIN) - fives * (5 * COIN))
    ensures Holds(Greedy(held, rem), ones, fives, tens)
    ensures GreedyRem(held, N, rem) == rem - tens * (10 * COIN) - fives * (5 * COIN) - ones * COIN
  {
    hide Greedy, GreedyRem, GreedyCount, Take, Count, Full, Within, Holds;
    assert D(0) == COIN && D(1) == 5 * COIN && D(2) == 10 * COIN;
    var r2 := rem - tens * (10 * COIN);
    var r1 := r2 - fives * (5 * COIN);
    GreedyIs(held, rem);
    SubWithin(Greedy(held, rem), held);
    forall i | 0 <= i < N
      ensures Count(Greedy(held, rem), i) == if i == 0 then ones else if i == 1 then fives else if i == 2 then tens else 0
      ensures GreedyRem(held, N, rem) == r1 - ones * COIN
    {
      GreedyAt(held, rem, i);
      OnlyBelow(held, 3, N, rem, i);
      GreedyStep(held, 2, rem, i);
      GreedyStep(held, 1, r2, i);
      GreedyStep(held, 0, r1, i);
      GreedyStep(held, 0, r1 - ones * COIN, i);
    }
    HoldsIs(Greedy(held, rem), ones, fives, tens);
  }

  lemma HeldValue(m: Counts, ones: int, fives: int, tens: int)
    requires Holds(m, ones, fives, tens)
    ensures Full(m) && Value(m, N) == COIN * ones + 5 * COIN * fives + 10 * COIN * tens
  {
    hide Full, Count, Value;
    SmallCoins(m, 3, N, 0);
    assert D(0) == COIN && D(1) == 5 * COIN && D(2) == 10 * COIN;
    ValueStep(m, 1);
    ValueStep(m, 2);
    ValueStep(m, 3);
    ZeroValue(m, 0);
  }

  lemma Nine()
    ensures Holds(Change(9 * COIN), 4, 1, 0)
  {
    hide Greedy, GreedyRem, Full, Count, Plenty, Holds;
    PlentyAt(9 * COIN);
    assert forall j | 3 <= j < N :: 9 * COIN < D(j);
    Selection(Plenty(9 * COIN), 9 * COIN, 4, 1, 0);
  }

  lemma FillTwentySix(held: Counts)
    requires Holds(held, 0, 1, 4)
    ensures Holds(Filled(held, 10, 26 * COIN), 0, 1, 2) && Missing(held, 10, 26 * COIN) == COIN
  {
    hide Greedy, GreedyRem, Full, Count, UpTo;
    UpToAt(held, 10);
    HoldsIs(UpTo(held, 10), 0, 1, 4);
    Selection(UpTo(held, 10), 26 * COIN - 1, 0, 1, 2);
  }

  lemma TopUpTwentySix(held: Counts, filled: Counts)
    requires Holds(held, 0, 1, 4) && Holds(filled, 0, 1, 2)
    ensures Holds(TopUp(held, filled, COIN, 0), 0, 1, 3)
  {
    hide Full, Count, TopUp, Holds, D;
    var t := filled[DENOMS[2] := 3];
    HoldsAt(held, 0, 1, 4);
    HoldsAt(filled, 0, 1, 2);
    assert D(0) == COIN && D(2) == 10 * COIN by { OnesAndTens(); }
    TopUpStep(held, filled, COIN, 0);
    TopUpStep(held, filled, COIN, 1);
    TopUpStep(held, filled, COIN, 2);
    Update(filled, N, 2, 3);
    FullIs(filled);
    FullIs(t);
    HoldsIs(t, 0, 1, 3);
  }

  lemma OnesAndTens()
    ensures D(0) == COIN && D(2) == 10 * COIN
  {
  }

  lemma HoldsAt(m: Counts, ones: int, fives: int, tens: int)
    requires Holds(m, ones, fives, tens)
    ensures Full(m) && forall i | 0 <= i < N :: Count(m, i) == if i == 0 then ones else if i == 1 then fives else if i == 2 then tens else 0
  {
  }

  lemma TopUpStep(held: Counts, used: Counts, missing: int, i: nat)
    requires i < N && missing >= 0
    ensures TopUp(held, used, missing, i) ==
              if TopsUp(held, used, missing, i) then used[DENOMS[i] := Count(used, i) + 1] else TopUp(held, used, missing, i + 1)
  {
  }

  /** What tops up is the smallest coin that can. */
  lemma {:induction false} TopUpTakesSmallest(held: Counts, used: Counts, missing: int, i: nat, j: nat)
    requires i <= j < N && missing >= 0 && TopsUp(held, used, missing, j) && forall k | i <= k < j :: !TopsUp(held, used, missing, k)
    ensures TopUp(held, used, missing, i) == used[DENOMS[j] := Count(used, j) + 1]
    decreases j - i
  {
    hide TopsUp, Count;
    if i < j { TopUpTakesSmallest(held, used, missing, i + 1, j); }
  }

  /** 26 out of one 5 and four 10s: filling up takes the 5 and two 10s, a third 10 tops up, and the 5, which
      would come back as change, is taken out again. */
  lemma TwentySix(held: Counts)
    requires Holds(held, 0, 1, 4)
    ensures Holds(Filled(held, 10, 26 * COIN), 0, 1, 2) && Missing(held, 10, 26 * COIN) == COIN
    ensures AltAmount(held, 10, 26 * COIN) == 30 * COIN && Holds(Alt(held, 10, 26 * COIN), 0, 0, 3)
  {
    hide Greedy, GreedyRem, Full, Count, Value, TopUp, Filled, Missing, Change, Overlap;
    FillTwentySix(held);
    var filled := Filled(held, 10, 26 * COIN);
    TopUpTwentySix(held, filled);
    var topped := TopUp(held, filled, COIN, 0);
    HeldValue(topped, 0, 1, 3);
    Nine();
    var over := Overlap(Change(9 * COIN), topped);
    OverlapIs(Change(9 * COIN), topped);
    SubWithin(over, topped);
    HoldsIs(over, 0, 1, 0);
    HeldValue(over, 0, 1, 0);
    Selection(held, 30 * COIN, 0, 0, 3);
  }
}
