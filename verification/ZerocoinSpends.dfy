/** Choosing the zerocoin mints to spend: exact selection, change, and fewer change coins. */
module ZerocoinSpends {
  import opened Arithmetic
  import opened Denominations

  method GetNumberOfCoinsUsed(m: Counts) returns (count: int)
    requires forall i | 0 <= i < N :: DENOMS[i] in m
    ensures count == CoinsIn(m, N)
  {
    count := 0;
    for i := 0 to N
      invariant count == CoinsIn(m, i)
    {
      count := count + m[DENOMS[i]];
    }
  }

  /** The largest held among the n smallest denominations, or ZQ_ERROR. */
  function LargestHeld(held: Counts, n: nat): int
    requires n <= N
  {
    if n == 0 then ZQ_ERROR else if Count(held, n - 1) > 0 then DENOMS[n - 1] else LargestHeld(held, n - 1)
  }

  /** The largest denomination held, or ZQ_ERROR. */
  method GetMaxDenomHeld(held: Counts) returns (maxDenom: int)
    requires Full(held)
    ensures forall i | 0 <= i < N :: DENOMS[i] > maxDenom ==> Count(held, i) == 0
    ensures maxDenom == ZQ_ERROR || exists i :: 0 <= i < N && maxDenom == DENOMS[i] && Count(held, i) > 0
    ensures maxDenom == LargestHeld(held, N)
  {
    maxDenom := ZQ_ERROR;
    for n := N downto 0
      invariant forall i | n <= i < N :: Count(held, i) == 0
      invariant LargestHeld(held, N) == LargestHeld(held, n)
    {
      if held[DENOMS[n]] != 0 {
        assert forall i | 0 <= i < N :: DENOMS[i] > DENOMS[n] ==> i > n;
        return DENOMS[n];
      }
    }
  }

  /** Where a selection loop that runs from the largest denomination down stands: denominations from
      n up are decided as greedy selection decides them, and rem is left for the rest. */
  ghost predicate Selecting(held: Counts, target: int, n: nat, rem: int, m: Counts)
    requires n <= N
  {
    && (forall i | 0 <= i < N :: DENOMS[i] in m)
    && (forall i | n <= i < N :: m[DENOMS[i]] == GreedyCount(held, N, target, i))
    && (forall i | 0 <= i < n :: m[DENOMS[i]] == 0 && GreedyCount(held, N, target, i) == GreedyCount(held, n, rem, i))
    && GreedyRem(held, N, target) == GreedyRem(held, n, rem)
  }

  lemma SelectOne(held: Counts, target: int, n: nat, rem: int, m: Counts, k: int)
    requires 0 < n <= N && Selecting(held, target, n, rem, m) && k == Take(Count(held, n - 1), D(n - 1), rem)
    ensures Selecting(held, target, n - 1, rem - k * D(n - 1), m[DENOMS[n - 1] := k])
  {
    hide D, Take, Count;
    assert GreedyCount(held, N, target, n - 1) == k;
    assert forall i | 0 <= i < N :: i != n - 1 ==> DENOMS[i] != DENOMS[n - 1];
  }

  lemma Selected(held: Counts, target: int, rem: int, m: Counts)
    requires Selecting(held, target, 0, rem, m) && m.Keys == Greedy(held, target).Keys
    ensures m == Greedy(held, target) && rem == GreedyRem(held, N, target)
  {
    forall d | d in m ensures m[d] == Greedy(held, target)[d] {
      var i :| 0 <= i < N && d == DENOMS[i];
    }
  }

  lemma TakeIs(h: int, d: int, rem: int, k: nat)
    requires d > 0 && (k == 0 || (k <= h && k * d <= rem)) && (k >= h || rem - k * d < d)
    ensures k == Take(h, d, rem)
  {
    TakeIsLargest(h, d, rem, k);
    TakeIsLargest(h, d, rem, k + 1);
  }

  method NoneSelected(ghost held: Counts, ghost target: int) returns (m: Counts)
    ensures Selecting(held, target, N, target, m) && m.Keys == Greedy(held, target).Keys && m == NO_COINS
  {
    m := map[];
    for i := 0 to N
      invariant m.Keys == set j | 0 <= j < i :: DENOMS[j]
      invariant forall j | 0 <= j < i :: DENOMS[j] in m && m[DENOMS[j]] == 0
    {
      m := m[DENOMS[i] := 0];
    }
    assert m.Keys == Greedy(held, target).Keys && m == NO_COINS;
  }

  /** The inner loop of getSpendCoins: grab coins of one denomination while they fit and are held. */
  method GrabHeld(used0: Counts, coin: int, value: int, limit: int, rem0: int) returns (used: Counts, rem: int)
    requires coin in used0 && used0[coin] == 0 && value > 0 && limit >= 0
    ensures used == used0[coin := Take(limit, value, rem0)] && rem == rem0 - Take(limit, value, rem0) * value
  {
    hide Take;
    used, rem := used0, rem0;
    while true
      invariant coin in used && 0 <= used[coin] <= limit && rem == rem0 - used[coin] * value && used == used0[coin := used[coin]]
      invariant used[coin] == 0 || used[coin] * value <= rem0
      decreases limit - used[coin]
    {
      if rem >= value && used[coin] < limit {
        used := used[coin := used[coin] + 1];
        rem := rem - value;
      }
      if !(rem >= value && used[coin] < limit) { break; }
    }
    TakeIs(limit, value, rem0, used[coin]);
  }

  /** The inner loop of getChange: no limit. */
  method GrabAny(change0: Counts, coin: int, value: int, rem0: int, ghost limit: int) returns (change: Counts, rem: int)
    requires coin in change0 && change0[coin] == 0 && value > 0 && limit >= 0 && limit >= rem0
    ensures change == change0[coin := Take(limit, value, rem0)] && rem == rem0 - Take(limit, value, rem0) * value
  {
    hide Take;
    change, rem := change0, rem0;
    while true
      invariant coin in change && 0 <= change[coin] && rem == rem0 - change[coin] * value && change == change0[coin := change[coin]]
      invariant change[coin] == 0 || change[coin] * value <= rem0
      decreases rem
    {
      if rem >= value {
        change := change[coin := change[coin] + 1];
        rem := rem - value;
      }
      if !(rem >= value) { break; }
    }
    MulMono(change[coin], 1, value);
    TakeIs(limit, value, rem0, change[coin]);
  }

  /** getSpendCoins: meet the amount, largest coins first, out of what is held. */
  method GetSpendCoins(target: int, held: Counts) returns (used: Counts)
    requires Full(held)
    ensures used == Greedy(held, target)
  {
    hide Greedy, Selecting, D, Take;
    var rem := target;
    used := NoneSelected(held, target);
    for n := N downto 0
      invariant Selecting(held, target, n, rem, used) && used.Keys == Greedy(held, target).Keys
    {
      SelectingAt(held, target, n + 1, rem, used, n);
      SelectOne(held, target, n + 1, rem, used, Take(Count(held, n), D(n), rem));
      used, rem := GrabHeld(used, DENOMS[n], D(n), held[DENOMS[n]], rem);
    }
    Selected(held, target, rem, used);
  }

  lemma SelectingAt(held: Counts, target: int, n: nat, rem: int, m: Counts, i: nat)
    requires n <= N && i < n && Selecting(held, target, n, rem, m)
    ensures DENOMS[i] in m && m[DENOMS[i]] == 0
  {
  }

  /** getChange: like getSpendCoins, but with no limit on any denomination. */
  method GetChange(target: int) returns (change: Counts)
    ensures change == Change(target)
  {
    hide Greedy, Selecting, D, Take, Plenty;
    ghost var held := Plenty(target);
    PlentyAt(target);
    var rem := target;
    change := NoneSelected(held, target);
    for n := N downto 0
      invariant rem <= target && Selecting(held, target, n, rem, change) && change.Keys == Greedy(held, target).Keys
    {
      SelectingAt(held, target, n + 1, rem, change, n);
      SelectOne(held, target, n + 1, rem, change, Take(Count(held, n), D(n), rem));
      MulMono(D(n), 0, Take(Count(held, n), D(n), rem));
      change, rem := GrabAny(change, DENOMS[n], D(n), rem, Count(held, n));
    }
    Selected(held, target, rem, change);
  }
}
