/** minimizeChange and calculateChange: cover an amount that cannot be met exactly. */
module ZerocoinChange {
  import opened Arithmetic
  import opened Denominations
  import opened ChangeMaking
  import opened ZerocoinSpends

  /** The next denomination below this one that is held, or ZQ_ERROR. */
  method GetNextLowerDenomHeld(thisDenom: int, held: Counts) returns (nextValue: int)
    requires Full(held)
    ensures forall i | 0 <= i < N && nextValue < DENOMS[i] < thisDenom :: Count(held, i) == 0
    ensures nextValue == ZQ_ERROR || exists i :: 0 <= i < N && nextValue == DENOMS[i] < thisDenom && Count(held, i) > 0
    ensures forall i | 0 <= i < N && DENOMS[i] == thisDenom :: nextValue == LargestHeld(held, i)
  {
    nextValue := ZQ_ERROR;
    for n := N downto 0
      invariant forall i | n <= i < N && DENOMS[i] < thisDenom :: Count(held, i) == 0
      invariant forall i | n <= i < N && DENOMS[i] == thisDenom :: LargestHeld(held, i) == LargestHeld(held, n)
    {
      if DENOMS[n] < thisDenom && held[DENOMS[n]] != 0 {
        assert forall i | 0 <= i < N :: DENOMS[i] > DENOMS[n] ==> i > n;
        return DENOMS[n];
      }
    }
  }

  /** Grab coins of one denomination while they are worth less than what remains and are held. */
  method GrabBelow(used0: Counts, coin: int, value: int, limit: int, rem0: int, amount0: int)
    returns (used: Counts, rem: int, amount: int)
    requires coin in used0 && used0[coin] == 0 && value > 0 && limit >= 0
    ensures var k := Take(limit, value, rem0 - 1);
            used == used0[coin := k] && rem == rem0 - k * value && amount == amount0 + rem0 - rem
  {
    hide Take;
    used, rem, amount := used0, rem0, amount0;
    while true
      invariant coin in used && 0 <= used[coin] <= limit && used == used0[coin := used[coin]]
      invariant rem == rem0 - used[coin] * value && amount == amount0 + rem0 - rem
      invariant used[coin] == 0 || rem >= 1
      decreases limit - used[coin]
    {
      if rem > value && used[coin] < limit {
        used := used[coin := used[coin] + 1];
        rem := rem - value;
        amount := amount + value;
      }
      if !(rem > value && used[coin] < limit) { break; }
    }
    TakeIs(limit, value, rem0 - 1, used[coin]);
    assert used0[coin := used[coin]] == used;
  }

  /** First stage of minimizeChange: fill up to just below the target, largest coins first. */
  method FillBelow(maxDenom: int, target: int, held: Counts) returns (used: Counts, rem: int, amount: int)
    requires Full(held)
    ensures used == Filled(held, maxDenom, target) && rem == Missing(held, maxDenom, target) && amount == target - rem
  {
    hide Greedy, Selecting, D, Take, UpTo, GreedyRem, GreedyCount, Count, Within;
    ghost var up := UpTo(held, maxDenom);
    UpToAt(held, maxDenom);
    rem, amount := target, 0;
    used := NoneSelected(up, target - 1);
    for n := N downto 0
      invariant Selecting(up, target - 1, n, rem - 1, used) && used.Keys == Greedy(up, target - 1).Keys
      invariant amount == target - rem
    {
      SelectingAt(up, target - 1, n + 1, rem - 1, used, n);
      if DENOMS[n] <= maxDenom {
        SelectBelow(held, maxDenom, target, n, rem, used);
        used, rem, amount := GrabBelow(used, DENOMS[n], D(n), held[DENOMS[n]], rem, amount);
      } else {
        SkipOne(up, target - 1, n + 1, rem - 1, used);
      }
    }
    Selected(up, target - 1, rem - 1, used);
  }

  lemma SelectBelow(held: Counts, maxDenom: int, target: int, n: nat, rem: int, m: Counts)
    requires n < N && Full(held) && DENOMS[n] <= maxDenom
    requires Selecting(UpTo(held, maxDenom), target - 1, n + 1, rem - 1, m)
    ensures var k := Take(held[DENOMS[n]], D(n), rem - 1);
            Selecting(UpTo(held, maxDenom), target - 1, n, rem - k * D(n) - 1, m[DENOMS[n] := k])
  {
    hide Selecting, D, Take, UpTo;
    UpToAt(held, maxDenom);
    SelectOne(UpTo(held, maxDenom), target - 1, n + 1, rem - 1, m, Take(held[DENOMS[n]], D(n), rem - 1));
  }

  lemma SkipOne(held: Counts, target: int, n: nat, rem: int, m: Counts)
    requires 0 < n <= N && Selecting(held, target, n, rem, m) && Count(held, n - 1) == 0
    ensures Selecting(held, target, n - 1, rem, m)
  {
    SelectOne(held, target, n, rem, m, 0);
    assert m == m[DENOMS[n - 1] := 0];
  }

  /** Second stage: top up with the smallest coin worth more than what is missing. */
  method TopUpOnce(held: Counts, used0: Counts, rem0: int, amount0: int) returns (used: Counts, rem: int, amount: int)
    requires Within(used0, held)
    ensures used == TopUp(held, used0, rem0, 0)
    ensures amount == amount0 + Value(used, N) - Value(used0, N)
  {
    hide Within, Full, Value, D, TopsUp;
    used, rem, amount := used0, rem0, amount0;
    SubWithin(used0, held);
    for i := 0 to N
      invariant used == used0 && rem == rem0 && amount == amount0
      invariant TopUp(held, used0, rem0, 0) == TopUp(held, used0, rem0, i)
    {
      TopsUpIs(held, used, rem, i);
      FullIs(used0);
      FullIs(held);
      if D(i) > rem && used[DENOMS[i]] < held[DENOMS[i]] {
        Update(used, N, i, used[DENOMS[i]] + 1);
        used := used[DENOMS[i] := used[DENOMS[i]] + 1];
        rem := rem - D(i);
        amount := amount + D(i);
      }
      if rem < 0 { return; }
    }
  }

  /** The inner loop of the overlap removal: one denomination. */
  method DropOverlap(change0: Counts, used0: Counts, coin: int, value: int, amount0: int)
    returns (change: Counts, used: Counts, amount: int)
    requires coin in change0 && coin in used0 && change0[coin] >= 0 && used0[coin] >= 0
    ensures var k := Min(change0[coin], used0[coin]);
            change == change0[coin := change0[coin] - k] && used == used0[coin := used0[coin] - k] && amount == amount0 - k * value
  {
    change, used, amount := change0, used0, amount0;
    ghost var k := 0;
    while true
      invariant coin in change && coin in used && 0 <= k <= Min(change0[coin], used0[coin])
      invariant change == change0[coin := change0[coin] - k] && used == used0[coin := used0[coin] - k]
      invariant amount == amount0 - k * value
      decreases used[coin]
    {
      if change[coin] != 0 && used[coin] != 0 {
        used := used[coin := used[coin] - 1];
        change := change[coin := change[coin] - 1];
        amount := amount - value;
        k := k + 1;
      }
      if !(change[coin] != 0 && used[coin] != 0) { break; }
    }
  }

  /** Take out the coins that would be spent only to come back as change. */
  method RemoveOverlap(change0: Counts, used0: Counts, amount0: int) returns (amount: int)
    requires Full(change0) && Full(used0)
    ensures amount == amount0 - Value(Overlap(change0, used0), N)
  {
    hide D, Full, Overlap;
    var change, used := change0, used0;
    amount := amount0;
    ghost var over := Overlap(change0, used0);
    OverlapIs(change0, used0);
    FullIs(change0);
    FullIs(used0);
    for i := 0 to N
      invariant amount == amount0 - Value(over, i)
      invariant forall j | i <= j < N :: DENOMS[j] in change && DENOMS[j] in used && Count(change, j) == Count(change0, j) && Count(used, j) == Count(used0, j)
    {
      assert forall j | i < j < N :: DENOMS[j] != DENOMS[i];
      change, used, amount := DropOverlap(change, used, DENOMS[i], D(i), amount);
    }
  }

  /** minimizeChange: spend more coins to get less change. */
  method MinimizeChange(maxSpends: int, changeCount: int, nextToMaxDenom: int, target: int, held: Counts, used0: Counts)
    returns (count: int, used: Counts)
    requires Full(held)
    ensures var alt := Alt(held, nextToMaxDenom, target);
            var altCount := ChangeCount(Value(alt, N) - target);
            if altCount < changeCount && CoinsIn(alt, N) <= maxSpends then used == alt && count == altCount
            else used == used0 && count == changeCount
  {
    hide Within, Full, Value, CoinsIn, Greedy, TopUp, Filled, Missing, Overlap, Change;
    var rem, amount;
    FilledIs(held, nextToMaxDenom, target);
    used, rem, amount := FillBelow(nextToMaxDenom, target, held);
    TopUpIs(held, used, rem, 0);
    used, rem, amount := TopUpOnce(held, used, rem, amount);
    var change := GetChange(amount - target);
    SubWithin(used, held);
    ChangeIs(amount - target);
    amount := RemoveOverlap(change, used, amount);
    used := GetSpendCoins(amount, held);
    AltIs(held, nextToMaxDenom, target);
    FullIs(used);
    WithinFull(used, held);
    var coins := GetNumberOfCoinsUsed(used);
    change := GetChange(amount - target);
    ChangeIs(amount - target);
    FullIs(change);
    count := GetNumberOfCoinsUsed(change);
    if !(count < changeCount && coins <= maxSpends) {
      used, count := used0, changeCount;
    }
  }

  // ---------- calculateChange ----------

  /** Where paying over the odds, largest denomination first, stands: see Selecting. */
  ghost predicate Paying(held: Counts, target: int, n: nat, rem: int, m: Counts)
    requires n <= N
  {
    && (forall i | 0 <= i < N :: DENOMS[i] in m)
    && (forall i | n <= i < N :: m[DENOMS[i]] == PayCount(held, N, target, i))
    && (forall i | 0 <= i < n :: m[DENOMS[i]] == 0 && PayCount(held, N, target, i) == PayCount(held, n, rem, i))
    && PayRem(held, N, target) == PayRem(held, n, rem)
  }

  lemma PayOne(held: Counts, target: int, n: nat, rem: int, m: Counts)
    requires n < N && Paying(held, target, n + 1, rem, m) && Full(held)
    ensures DENOMS[n] in m && m[DENOMS[n]] == 0 && Count(m, n) == 0
    ensures var k := Reach(held[DENOMS[n]], D(n), rem);
            Paying(held, target, n, rem - k * D(n), m[DENOMS[n] := k])
  {
    hide D, Full;
    FullIs(held);
    assert PayCount(held, N, target, n) == Reach(Count(held, n), D(n), rem);
    assert forall i | 0 <= i < N :: i != n ==> DENOMS[i] != DENOMS[n];
  }

  lemma Paid(held: Counts, target: int, n: nat, rem: int, m: Counts)
    requires n <= N && Paying(held, target, n, rem, m) && m.Keys == NO_COINS.Keys && (n == 0 || rem <= 0)
    ensures m == Pay(held, target)
  {
    forall d | d in m ensures m[d] == Pay(held, target)[d] {
      var i :| 0 <= i < N && d == DENOMS[i];
    }
  }

  lemma PayStart(held: Counts, target: int)
    ensures Paying(held, target, N, target, NO_COINS) && Value(NO_COINS, N) == 0 && CoinsIn(NO_COINS, N) == 0
  {
    NoCoins();
    ZeroValue(NO_COINS, N);
  }

  /** The inner loop of the second branch: grab coins of one denomination until the target is reached. */
  method GrabUntil(used0: Counts, coin: int, value: int, limit: int, rem0: int, coins0: int, amount0: int)
    returns (used: Counts, rem: int, coins: int, amount: int)
    requires coin in used0 && used0[coin] == 0 && value > 0 && limit >= 0
    ensures var k := Reach(limit, value, rem0);
            used == used0[coin := k] && rem == rem0 - k * value && coins == coins0 + k && amount == amount0 + k * value
  {
    hide Reach;
    used, rem, coins, amount := used0, rem0, coins0, amount0;
    while true
      invariant coin in used && 0 <= used[coin] <= limit && used == used0[coin := used[coin]]
      invariant rem == rem0 - used[coin] * value && amount == amount0 + rem0 - rem && coins == coins0 + used[coin]
      invariant used[coin] == 0 || rem + value > 0
      invariant rem > 0 && limit > 0 ==> used[coin] < limit
      decreases limit - used[coin]
    {
      if limit != 0 && rem > 0 {
        used := used[coin := used[coin] + 1];
        amount := amount + value;
        rem := rem - value;
        coins := coins + 1;
      }
      if !(rem > 0 && used[coin] < limit) { break; }
    }
    ReachIs(limit, value, rem0, used[coin]);
    assert used0[coin := used[coin]] == used;
  }

  lemma ReachIs(h: int, d: int, rem: int, k: nat)
    requires d > 0 && 0 <= k <= h && (k == 0 || rem - k * d + d > 0) && (k == h || rem - k * d <= 0)
    ensures k == Reach(h, d, rem)
  {
    var g := Reach(h, d, rem);
    if g < k { MulMono(d, g, k - 1); }
    if k < g { MulMono(d, k, g - 1); }
  }

  ghost predicate PayingSoFar(held: Counts, target: int, n: nat, rem: int, used: Counts, coins: int, amount: int)
    requires n <= N
  {
    && Paying(held, target, n, rem, used) && used.Keys == NO_COINS.Keys
    && coins == CoinsIn(used, N) && amount == Value(used, N)
  }

  lemma PayNext(held: Counts, target: int, n: nat, rem: int, m: Counts, coins: int, amount: int)
    requires n < N && PayingSoFar(held, target, n + 1, rem, m, coins, amount) && Full(held)
    ensures DENOMS[n] in m && m[DENOMS[n]] == 0
    ensures var k := Reach(held[DENOMS[n]], D(n), rem);
            PayingSoFar(held, target, n, rem - k * D(n), m[DENOMS[n] := k], coins + k, amount + k * D(n))
  {
    hide D, Reach, Value, CoinsIn, Paying, Count;
    var k := Reach(held[DENOMS[n]], D(n), rem);
    PayOne(held, target, n, rem, m);
    Update(m, N, n, k);
    assert m[DENOMS[n] := k].Keys == m.Keys;
  }

  method PayOver(target: int, held: Counts) returns (used: Counts, coins: int, amount: int)
    requires Full(held)
    ensures used == Pay(held, target) && coins == CoinsIn(used, N) && amount == Value(used, N)
  {
    hide PayingSoFar, D, Pay, Reach, Value, CoinsIn, Count;
    var rem := target;
    used := NoneSelected(held, target);
    coins, amount := 0, 0;
    PaidStart(held, target, used);
    for n := N downto 0
      invariant PayingSoFar(held, target, n, rem, used, coins, amount)
    {
      PayNext(held, target, n, rem, used, coins, amount);
      used, rem, coins, amount := GrabUntil(used, DENOMS[n], D(n), held[DENOMS[n]], rem, coins, amount);
      if rem < 0 {
        PaidAll(held, target, n, rem, used, coins, amount);
        return;
      }
    }
    PaidAll(held, target, 0, rem, used, coins, amount);
  }

  lemma PaidStart(held: Counts, target: int, used: Counts)
    requires used == NO_COINS
    ensures PayingSoFar(held, target, N, target, used, 0, 0)
  {
    hide Paying, Value, CoinsIn;
    PayStart(held, target);
  }

  lemma PaidAll(held: Counts, target: int, n: nat, rem: int, used: Counts, coins: int, amount: int)
    requires n <= N && PayingSoFar(held, target, n, rem, used, coins, amount) && (n == 0 || rem <= 0)
    ensures used == Pay(held, target) && coins == CoinsIn(used, N) && amount == Value(used, N)
  {
    hide Paying, Value, CoinsIn;
    Paid(held, target, n, rem, used);
  }

  /** The smallest held denomination worth more than the target. */
  ghost predicate SmallestOver(held: Counts, target: int, i: nat)
    requires i < N
  {
    D(i) > target && Count(held, i) > 0 && forall j | 0 <= j < i :: D(j) <= target || Count(held, j) <= 0
  }

  /** No held coin is worth more than the target. */
  ghost predicate NoneOver(held: Counts, target: int) {
    forall j | 0 <= j < N :: D(j) <= target || Count(held, j) <= 0
  }

  method FindSmallestOver(target: int, held: Counts) returns (found: bool, i: nat)
    requires Full(held)
    ensures found ==> i < N && SmallestOver(held, target, i)
    ensures !found <==> NoneOver(held, target)
  {
    for n := 0 to N
      invariant forall j | 0 <= j < n :: D(j) <= target || Count(held, j) <= 0
    {
      if target < D(n) && held[DENOMS[n]] != 0 { return true, n; }
    }
    return false, 0;
  }

  function OneCoin(i: nat): Counts
    requires i < N
  {
    NO_COINS[DENOMS[i] := 1]
  }

  lemma OneCoinValue(i: nat)
    requires i < N
    ensures Value(OneCoin(i), N) == D(i)
    ensures Full(OneCoin(i)) && forall j | 0 <= j < N :: Count(OneCoin(i), j) == if j == i then 1 else 0
  {
    hide Full, Value, CoinsIn, D, NO_COINS, Count;
    NoCoins();
    ZeroValue(NO_COINS, N);
    Update(NO_COINS, N, i, 1);
    assert Count(NO_COINS, i) == 0;
    assert Value(OneCoin(i), N) == 0 + (1 - 0) * D(i);
    FullIs(NO_COINS);
    FullIs(OneCoin(i));
  }

  lemma SmallestOverIs(held: Counts, target: int, i: nat)
    requires i < N && SmallestOver(held, target, i)
    ensures D(i) > target && Count(held, i) >= 1
  {
  }

  lemma OneCoinIs(held: Counts, target: int, i: nat)
    requires i < N && Full(held) && SmallestOver(held, target, i)
    ensures Full(OneCoin(i)) && Within(OneCoin(i), held) && Value(OneCoin(i), N) == D(i) > target
    ensures Value(held, N) >= target
  {
    hide Within, Full, Value, CoinsIn, D, OneCoin, Count, SmallestOver;
    SmallestOverIs(held, target, i);
    OneCoinValue(i);
    FullIs(held);
    WithinIs(OneCoin(i), held);
    WithinValue(OneCoin(i), held, N);
  }

  /** What minimizeChange returns, if it returns less change, covers the target in either branch. */
  lemma LessChangeCovers(held: Counts, maxDenom: int, target: int, i: nat)
    requires Full(held) && i < N && SmallestOver(held, target, i) && maxDenom < DENOMS[i]
    ensures Within(Alt(held, maxDenom, target), held) && Value(Alt(held, maxDenom, target), N) >= target
  {
    hide Within, Full, Value, Alt, AltAmount, CanTopUp, D;
    AltIs(held, maxDenom, target);
    if target > 0 { BigCoinTopsUp(held, maxDenom, target, i); }
  }

  lemma LessChangeThanPayingCovers(held: Counts, maxDenom: int, target: int)
    requires Full(held) && Value(held, N) >= target
    requires forall i | 0 <= i < N && DENOMS[i] > maxDenom :: Count(held, i) == 0
    requires ChangeCount(Value(Alt(held, maxDenom, target), N) - target) < ChangeCount(Value(Pay(held, target), N) - target)
    ensures Value(Alt(held, maxDenom, target), N) >= target
  {
    hide Within, Full, Value, Alt, AltAmount, CanTopUp, PayRem, Pay, Change, ChangeCount;
    AltIs(held, maxDenom, target);
    PayIs(held, target);
    PayCovers(held, N, target);
    ChangeIs(Value(Alt(held, maxDenom, target), N) - target);
    ChangeIs(Value(Pay(held, target), N) - target);
    if target > 0 && PayRem(held, N, target) < 0 { OvershootTopsUp(held, maxDenom, target); }
  }

  /** The alternative of minimizeChange is within the limit and leaves less than a coin of change. */
  ghost predicate Settles(held: Counts, maxDenom: int, maxSpends: int, target: int) {
    Value(Alt(held, maxDenom, target), N) - target < COIN && CoinsIn(Alt(held, maxDenom, target), N) <= maxSpends
  }

  lemma LargestHeldBelow(held: Counts, n: nat)
    requires n < N
    ensures LargestHeld(held, n) < DENOMS[n]
  {
  }

  /** Pay with the smallest single coin that is enough, or else with something that makes less change. */
  method ChangeFromOneCoin(maxSpends: int, fMinimizeChange: bool, target: int, held: Counts, i: nat)
    returns (count: int, used: Counts)
    requires Full(held) && i < N && SmallestOver(held, target, i)
    ensures Within(used, held) && Value(used, N) >= target
    ensures count == ChangeCount(Value(used, N) - target) <= ChangeCount(D(i) - target)
    ensures !fMinimizeChange ==> used == OneCoin(i)
    ensures count == 0 <==>
              D(i) - target < COIN || (fMinimizeChange && Settles(held, LargestHeld(held, i), maxSpends, target))
  {
    hide Within, Full, Value, CoinsIn, D, Alt, Change, SmallestOver, LargestHeld;
    OneCoinIs(held, target, i);
    used := OneCoin(i);
    var change := GetChange(D(i) - target);
    ChangeIs(D(i) - target);
    FullIs(change);
    count := GetNumberOfCoinsUsed(change);
    if fMinimizeChange {
      var nextToMaxDenom := GetNextLowerDenomHeld(DENOMS[i], held);
      ChangeIs(Value(Alt(held, nextToMaxDenom, target), N) - target);
      LargestHeldBelow(held, i);
      var newCount;
      newCount, used := MinimizeChange(maxSpends, count, nextToMaxDenom, target, held, used);
      if newCount < count {
        LessChangeCovers(held, nextToMaxDenom, target, i);
        return newCount, used;
      }
      used := OneCoin(i);
    }
  }

  /** No single coin is enough: pay over the odds, or fill up and top up, whichever is wanted. */
  method ChangeFromManyCoins(maxSpends: int, fMinimizeChange: bool, target: int, held: Counts)
    returns (count: int, used: Counts)
    requires Full(held)
    ensures Within(used, held) && count == ChangeCount(Value(used, N) - target)
    ensures Value(used, N) >= target <==> Value(held, N) >= target
    ensures fMinimizeChange ==> count <= ChangeCount(Value(Pay(held, target), N) - target)
    ensures !fMinimizeChange ==> CoinsIn(used, N) <= CoinsIn(Pay(held, target), N)
    ensures count == 0 <==>
              || Value(Pay(held, target), N) - target < COIN
              || (Settles(held, LargestHeld(held, N), maxSpends, target)
                  && (fMinimizeChange || CoinsIn(Alt(held, LargestHeld(held, N), target), N) <= CoinsIn(Pay(held, target), N)))
  {
    hide LargestHeld, Within, Value, CoinsIn, D, Alt, AltAmount, Pay, PayRem, Change;
    var coins, amount;
    used, coins, amount := PayOver(target, held);
    PayIs(held, target);
    WithinValue(used, held, N);
    if Value(held, N) >= target { PayCovers(held, N, target); }
    var change := GetChange(amount - target);
    ChangeIs(amount - target);
    var maxChangeCount := GetNumberOfCoinsUsed(change);
    var maxDenomHeld := GetMaxDenomHeld(held);
    ChangeIs(Value(Alt(held, maxDenomHeld, target), N) - target);
    var minUsed;
    count, minUsed := MinimizeChange(maxSpends, maxChangeCount, maxDenomHeld, target, held, used);
    if minUsed != used {
      AltIs(held, maxDenomHeld, target);
      WithinValue(minUsed, held, N);
      if Value(held, N) >= target { LessChangeThanPayingCovers(held, maxDenomHeld, target); }
    }
    SubWithin(minUsed, held);
    var spends := GetNumberOfCoinsUsed(minUsed);
    if !fMinimizeChange && coins < spends { return maxChangeCount, used; }
    used := minUsed;
  }

  /** When calculateChange returns a count of zero: a single coin, or else paying the largest coins
      first, goes less than a coin over the target or does not reach it, or the alternative
      that is preferred to it does. */
  ghost predicate NoChange(maxSpends: int, fMinimizeChange: bool, target: int, held: Counts) {
    if NoneOver(held, target) then
      || Value(Pay(held, target), N) - target < COIN
      || (Settles(held, LargestHeld(held, N), maxSpends, target)
          && (fMinimizeChange || CoinsIn(Alt(held, LargestHeld(held, N), target), N) <= CoinsIn(Pay(held, target), N)))
    else
      exists i | 0 <= i < N && SmallestOver(held, target, i) ::
        D(i) - target < COIN || (fMinimizeChange && Settles(held, LargestHeld(held, i), maxSpends, target))
  }

  /** calculateChange: whenever the holdings cover the target, held coins are chosen that cover it, and
      the number returned is the number of coins given back. */
  method CalculateChange(maxSpends: int, fMinimizeChange: bool, target: int, held: Counts)
    returns (count: int, used: Counts)
    requires Full(held)
    ensures Within(used, held)
    ensures Value(used, N) >= target <==> Value(held, N) >= target
    ensures count == ChangeCount(Value(used, N) - target)
    ensures forall i | 0 <= i < N && SmallestOver(held, target, i) ::
              && count <= ChangeCount(D(i) - target)
              && (!fMinimizeChange ==> used == OneCoin(i))
    ensures count == 0 <==> NoChange(maxSpends, fMinimizeChange, target, held)
  {
    hide Within, Full, Value, CoinsIn, D, Pay, Alt, Change, ChangeCount, LargestHeld, Settles;
    var found, i := FindSmallestOver(target, held);
    if found {
      OneCoinIs(held, target, i);
      assert forall j | 0 <= j < N && SmallestOver(held, target, j) :: j == i;
      count, used := ChangeFromOneCoin(maxSpends, fMinimizeChange, target, held, i);
    } else {
      count, used := ChangeFromManyCoins(maxSpends, fMinimizeChange, target, held);
    }
  }
}
