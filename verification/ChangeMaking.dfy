/** The arithmetic behind minimizeChange and calculateChange: filling up to just below the target,
    topping up, taking overlap out again, and paying over the odds. */
module ChangeMaking {
  import opened Arithmetic
  import opened Denominations

  /** Only the denominations up to maxDenom. */
  function UpTo(held: Counts, maxDenom: int): Counts {
    map i | 0 <= i < N :: DENOMS[i] := if DENOMS[i] <= maxDenom then Count(held, i) else 0
  }

  lemma UpToAt(held: Counts, maxDenom: int)
    requires Full(held)
    ensures forall i | 0 <= i < N :: Count(UpTo(held, maxDenom), i) == if DENOMS[i] <= maxDenom then Count(held, i) else 0
    ensures Full(UpTo(held, maxDenom)) && Within(UpTo(held, maxDenom), held)
  {
    var m := UpTo(held, maxDenom);
    forall i | 0 <= i < N
      ensures DENOMS[i] in m && m[DENOMS[i]] == (if DENOMS[i] <= maxDenom then Count(held, i) else 0) && 0 <= m[DENOMS[i]] <= held[DENOMS[i]]
    {
      assert held[DENOMS[i]] >= 0;
    }
  }

  /** What is still missing after filling up to just below the target. */
  function Missing(held: Counts, maxDenom: int, target: int): int {
    GreedyRem(UpTo(held, maxDenom), N, target - 1) + 1
  }

  function Filled(held: Counts, maxDenom: int, target: int): Counts {
    Greedy(UpTo(held, maxDenom), target - 1)
  }

  lemma FilledIs(held: Counts, maxDenom: int, target: int)
    requires Full(held)
    ensures Within(Filled(held, maxDenom, target), held)
    ensures Value(Filled(held, maxDenom, target), N) == target - Missing(held, maxDenom, target)
    ensures target > 0 ==> 0 < Missing(held, maxDenom, target) <= target
    ensures target <= 0 ==> Missing(held, maxDenom, target) == target
    ensures forall i | 0 <= i < N && DENOMS[i] > maxDenom :: Count(Filled(held, maxDenom, target), i) == 0
  {
    hide Greedy, GreedyRem, Value, UpTo;
    var up := UpTo(held, maxDenom);
    UpToAt(held, maxDenom);
    GreedyIs(up, target - 1);
    RemainderBounds(up, N, target - 1);
    FullIs(held);
    FullIs(up);
    WithinIs(Filled(held, maxDenom, target), up);
    forall i | 0 <= i < N ensures Count(Filled(held, maxDenom, target), i) <= Count(up, i) {}
    FullIs(Filled(held, maxDenom, target));
    WithinIs(Filled(held, maxDenom, target), held);
  }

  lemma {:induction false} RemainderBounds(held: Counts, n: nat, rem: int)
    requires n <= N
    ensures GreedyRem(held, n, rem) <= rem
    ensures rem >= 0 ==> GreedyRem(held, n, rem) >= 0
    ensures rem < 0 ==> GreedyRem(held, n, rem) == rem
  {
    hide D, Take;
    if n > 0 {
      var h, d := Count(held, n - 1), D(n - 1);
      var k := Take(h, d, rem);
      TakeIsLargest(h, d, rem, k);
      TakeIsLargest(h, d, rem, 1);
      MulMono(d, 0, k);
      TakeNothing(h, d, rem);
      RemainderBounds(held, n - 1, rem - k * d);
    }
  }

  lemma TakeNothing(h: int, d: int, rem: int)
    requires d > 0
    ensures rem < d ==> Take(h, d, rem) == 0
  {
  }

  /** A coin not used yet that is worth more than what is missing. */
  predicate TopsUp(held: Counts, used: Counts, missing: int, i: nat)
    requires i < N
  {
    D(i) > missing && Count(used, i) < Count(held, i)
  }

  /** Add the smallest coin that tops up; the search starts at denomination i and gives up after one
      denomination when nothing is missing. */
  function TopUp(held: Counts, used: Counts, missing: int, i: nat): Counts
    requires i <= N
    decreases N - i
  {
    if i == N then used
    else if TopsUp(held, used, missing, i) then used[DENOMS[i] := Count(used, i) + 1]
    else if missing < 0 then used
    else TopUp(held, used, missing, i + 1)
  }

  lemma {:induction false} Update(m: Counts, n: nat, i: nat, c: int)
    requires n <= N && i < N
    ensures Value(m[DENOMS[i] := c], n) == Value(m, n) + if i < n then (c - Count(m, i)) * D(i) else 0
    ensures CoinsIn(m[DENOMS[i] := c], n) == CoinsIn(m, n) + if i < n then c - Count(m, i) else 0
    ensures forall j | 0 <= j < N :: Count(m[DENOMS[i] := c], j) == if j == i then c else Count(m, j)
  {
    hide D;
    forall j | 0 <= j < N ensures Count(m[DENOMS[i] := c], j) == if j == i then c else Count(m, j) {
      assert j != i ==> DENOMS[i] != DENOMS[j];
    }
    if n > 0 {
      Update(m, n - 1, i, c);
      Distribute(c, Count(m, i), D(i));
    }
  }

  /** Topping up never takes a coin that is not held and, if some coin tops up, adds exactly one, worth
      more than what is missing. */
  lemma {:induction false} TopUpIs(held: Counts, used: Counts, missing: int, i: nat)
    requires i <= N && Within(used, held)
    ensures var t := TopUp(held, used, missing, i);
            && Within(t, held) && Value(t, N) >= Value(used, N)
            && (t == used || (CoinsIn(t, N) == CoinsIn(used, N) + 1 && Value(t, N) > Value(used, N) + missing))
            && (missing >= 0 && (exists j :: i <= j < N && TopsUp(held, used, missing, j)) ==> t != used)
    decreases N - i
  {
    hide Within, Full, Value, CoinsIn, TopsUp, D;
    SubWithin(used, held);
    WithinIs(used, held);
    FullIs(held);
    FullIs(used);
    if i < N {
      if TopsUp(held, used, missing, i) {
        var t := used[DENOMS[i] := Count(used, i) + 1];
        TopsUpIs(held, used, missing, i);
        Update(used, N, i, Count(used, i) + 1);
        FullIs(t);
        WithinIs(t, held);
      } else if missing >= 0 {
        TopUpIs(held, used, missing, i + 1);
      }
    }
  }

  lemma TopsUpIs(held: Counts, used: Counts, missing: int, i: nat)
    requires i < N
    ensures TopsUp(held, used, missing, i) <==> D(i) > missing && Count(used, i) < Count(held, i)
  {
  }

  // ---------- Overlap ----------

  function Min(x: int, y: int): int { if x < y then x else y }

  /** The coins that are both spent and given back. */
  function Overlap(a: Counts, b: Counts): (m: Counts)
  {
    map i | 0 <= i < N :: DENOMS[i] := Min(Count(a, i), Count(b, i))
  }

  lemma OverlapIs(a: Counts, b: Counts)
    requires Full(a) && Full(b)
    ensures Within(Overlap(a, b), a) && Within(Overlap(a, b), b)
    ensures forall i | 0 <= i < N :: Count(Overlap(a, b), i) == Min(Count(a, i), Count(b, i))
  {
    var m := Overlap(a, b);
    forall i | 0 <= i < N ensures DENOMS[i] in m && 0 <= m[DENOMS[i]] && m[DENOMS[i]] == Min(a[DENOMS[i]], b[DENOMS[i]]) {
      assert a[DENOMS[i]] >= 0 && b[DENOMS[i]] >= 0;
    }
  }

  lemma {:induction false} WithinValue(a: Counts, b: Counts, n: nat)
    requires n <= N && Within(a, b)
    ensures Value(a, n) <= Value(b, n)
  {
    hide D, Within;
    SubWithin(a, b);
    WithinIs(a, b);
    if n > 0 {
      WithinValue(a, b, n - 1);
      MulMono(D(n - 1), Count(a, n - 1), Count(b, n - 1));
    }
  }

  /** Removing from what is spent the coins that would come back as change conserves the rest: it
      still covers the target if it did before, and the held coins can pay exactly that amount. */
  lemma OverlapRemoved(held: Counts, used: Counts, target: int)
    requires Within(used, held)
    ensures var over := Overlap(Change(Value(used, N) - target), used);
            var left := Value(used, N) - Value(over, N);
            && (Value(used, N) >= target ==> left >= target)
            && Within(Greedy(held, left), held) && Value(Greedy(held, left), N) == left
  {
    hide Within, Full, Value, Greedy, GreedyRem, Overlap, Plenty;
    var v := Value(used, N) - target;
    var over := Overlap(Change(v), used);
    SubWithin(used, held);
    ChangeIs(v);
    OverlapIs(Change(v), used);
    WithinValue(over, Change(v), N);
    MinusValue(used, over, N);
    WithinMinus(used, over, held);
    GreedyCompletes(Minus(used, over), held, N, Value(used, N) - Value(over, N));
    GreedyIs(held, Value(used, N) - Value(over, N));
  }

  // ---------- The alternative that minimizeChange tries ----------

  function AltAmount(held: Counts, maxDenom: int, target: int): int {
    var topped := TopUp(held, Filled(held, maxDenom, target), Missing(held, maxDenom, target), 0);
    Value(topped, N) - Value(Overlap(Change(Value(topped, N) - target), topped), N)
  }

  function Alt(held: Counts, maxDenom: int, target: int): Counts {
    Greedy(held, AltAmount(held, maxDenom, target))
  }

  ghost predicate CanTopUp(held: Counts, maxDenom: int, target: int) {
    exists i :: 0 <= i < N && TopsUp(held, Filled(held, maxDenom, target), Missing(held, maxDenom, target), i)
  }

  /** The alternative spends held coins only, meets its own amount exactly although it is selected
      greedily, and covers the target if anything topped it up. */
  lemma AltIs(held: Counts, maxDenom: int, target: int)
    requires Full(held)
    ensures Within(Alt(held, maxDenom, target), held)
    ensures Value(Alt(held, maxDenom, target), N) == AltAmount(held, maxDenom, target)
    ensures target <= 0 || CanTopUp(held, maxDenom, target) ==> AltAmount(held, maxDenom, target) >= target
  {
    hide Within, Full, Value, Greedy, GreedyRem, TopUp, TopsUp, Filled, Missing, Overlap, Change;
    var filled, missing := Filled(held, maxDenom, target), Missing(held, maxDenom, target);
    FilledIs(held, maxDenom, target);
    TopUpIs(held, filled, missing, 0);
    var topped := TopUp(held, filled, missing, 0);
    OverlapRemoved(held, topped, target);
    SubWithin(topped, held);
    ValueNotNegative(topped, N);
  }

  // ---------- Paying over the odds ----------

  /** How many of h coins of value d it takes to reach rem, or all of them. */
  function Reach(h: int, d: int, rem: int): (k: nat)
    requires d > 0
    ensures h >= 0 ==> k <= h
    ensures k > 0 ==> rem > (k - 1) * d
    ensures k < h ==> rem <= k * d
  {
    if rem <= 0 || h <= 0 then 0 else Min(h, (rem + d - 1) / d)
  }

  /** What is left of rem (below zero: overpaid) after paying with the largest coins first until it is reached. */
  function PayRem(held: Counts, n: nat, rem: int): int
    requires n <= N
  {
    if n == 0 || rem <= 0 then rem else PayRem(held, n - 1, rem - Reach(Count(held, n - 1), D(n - 1), rem) * D(n - 1))
  }

  function PayCount(held: Counts, n: nat, rem: int, i: nat): nat
    requires n <= N && i < N
  {
    if i >= n || rem <= 0 then 0
    else
      var k := Reach(Count(held, n - 1), D(n - 1), rem);
      if i == n - 1 then k else PayCount(held, n - 1, rem - k * D(n - 1), i)
  }

  function Pay(held: Counts, target: int): (m: Counts)
  {
    map i | 0 <= i < N :: DENOMS[i] := PayCount(held, N, target, i)
  }

  /** It reaches the target whenever the holdings do. */
  lemma {:induction false} PayCovers(held: Counts, n: nat, rem: int)
    requires n <= N && Full(held) && Value(held, n) >= rem
    ensures PayRem(held, n, rem) <= 0
  {
    hide D, Reach;
    if n > 0 && rem > 0 {
      var k, h, d := Reach(Count(held, n - 1), D(n - 1), rem), Count(held, n - 1), D(n - 1);
      FullIs(held);
      ValueNotNegative(held, n - 1);
      PayCovers(held, n - 1, rem - k * d);
    }
  }

  lemma {:induction false} PayBounds(held: Counts, n: nat, rem: int, i: nat)
    requires n <= N && i < N && Count(held, i) >= 0
    ensures PayCount(held, n, rem, i) <= Count(held, i)
  {
    if n > 0 && rem > 0 { PayBounds(held, n - 1, rem - Reach(Count(held, n - 1), D(n - 1), rem) * D(n - 1), i); }
  }

  lemma {:induction false} PayValue(held: Counts, n: nat, rem: int, m: Counts)
    requires n <= N && forall i | 0 <= i < n :: Count(m, i) == PayCount(held, n, rem, i)
    ensures Value(m, n) == if rem <= 0 then 0 else rem - PayRem(held, n, rem)
  {
    hide D, Reach;
    if rem <= 0 {
      ZeroValue(m, n);
    } else if n > 0 {
      var r := rem - Reach(Count(held, n - 1), D(n - 1), rem) * D(n - 1);
      forall i | 0 <= i < n - 1 ensures Count(m, i) == PayCount(held, n - 1, r, i) {
        assert Count(m, i) == PayCount(held, n, rem, i);
      }
      assert Count(m, n - 1) == PayCount(held, n, rem, n - 1);
      PayValue(held, n - 1, r, m);
    }
  }

  lemma PayAt(held: Counts, rem: int, i: nat)
    requires i < N
    ensures DENOMS[i] in Pay(held, rem) && Count(Pay(held, rem), i) == PayCount(held, N, rem, i)
  {
  }

  lemma PayIs(held: Counts, target: int)
    requires Full(held)
    ensures Within(Pay(held, target), held)
    ensures Value(Pay(held, target), N) == if target <= 0 then 0 else target - PayRem(held, N, target)
  {
    hide Pay, PayCount, PayRem, Within, Full, Value;
    var m := Pay(held, target);
    FullIs(held);
    forall i | 0 <= i < N ensures DENOMS[i] in m && Count(m, i) == PayCount(held, N, target, i) && Count(m, i) <= Count(held, i) {
      PayAt(held, target, i);
      PayBounds(held, N, target, i);
    }
    FullIs(m);
    WithinIs(m, held);
    PayValue(held, N, target, m);
  }

  /** Filling up to rem leaves a coin of denomination i, worth more than what is then missing to rem + 1. */
  ghost predicate Room(held: Counts, n: nat, rem: int, i: nat)
    requires n <= N
  {
    i < n && GreedyCount(held, n, rem, i) < Count(held, i) && D(i) > GreedyRem(held, n, rem) + 1
  }

  lemma RoomBelow(held: Counts, n: nat, rem: int, i: nat)
    requires 0 < n <= N && Room(held, n - 1, rem - Take(Count(held, n - 1), D(n - 1), rem) * D(n - 1), i)
    ensures Room(held, n, rem, i)
  {
    hide D, Take, Count;
  }

  lemma RoomAtTop(held: Counts, n: nat, rem: int)
    requires 0 < n <= N && Take(Count(held, n - 1), D(n - 1), rem) < Count(held, n - 1)
    requires rem - Take(Count(held, n - 1), D(n - 1), rem) * D(n - 1) + 1 < D(n - 1)
    ensures Room(held, n, rem, n - 1)
  {
    hide D, Take, Count;
    RemainderBounds(held, n - 1, rem - Take(Count(held, n - 1), D(n - 1), rem) * D(n - 1));
  }

  /** If paying overshoots, filling up to just below the target leaves a coin that tops it up: the
      one that overshot. This is why minimizeChange never comes back with too little. */
  lemma {:induction false} OvershootLeavesRoom(held: Counts, n: nat, rem: nat)
    requires 0 < n <= N && Full(held) && PayRem(held, n, rem + 1) < 0
    ensures exists i :: Room(held, n, rem, i)
  {
    hide D, Reach, Take, Count, Full, Room;
    var h, d := Count(held, n - 1), D(n - 1);
    FullIs(held);
    ReachAndTake(h, d, rem + 1);
    var k := Reach(h, d, rem + 1);
    if rem + 1 - k * d < 0 {
      RoomAtTop(held, n, rem);
    } else {
      OvershootLeavesRoom(held, n - 1, rem - k * d);
      var i :| Room(held, n - 1, rem - k * d, i);
      RoomBelow(held, n, rem, i);
    }
  }

  lemma ReachAndTake(h: int, d: int, rem: int)
    requires d > 0 && h >= 0 && rem > 0
    ensures var k, g := Reach(h, d, rem), Take(h, d, rem - 1);
            && (rem - k * d > 0 ==> g == k)
            && (rem - k * d < 0 ==> g == k - 1 && g < h && rem - g * d < d)
  {
    var k, g := Reach(h, d, rem), Take(h, d, rem - 1);
    TakeIsLargest(h, d, rem - 1, k);
    if k > 0 { TakeIsLargest(h, d, rem - 1, k - 1); }
    if rem - k * d > 0 { TakeIsLargest(h, d, rem - 1, k + 1); }
  }

  // ---------- When the alternative covers the target ----------

  /** Nothing above the limit is used, so a held coin above both the limit and the target tops up. */
  lemma BigCoinTopsUp(held: Counts, maxDenom: int, target: int, i: nat)
    requires Full(held) && target > 0 && i < N && Count(held, i) > 0 && D(i) > target && DENOMS[i] > maxDenom
    ensures CanTopUp(held, maxDenom, target)
  {
    hide Within, Full, Value, Filled, Missing, D;
    FilledIs(held, maxDenom, target);
    assert TopsUp(held, Filled(held, maxDenom, target), Missing(held, maxDenom, target), i);
  }

  lemma {:induction false} SameGreedy(a: Counts, b: Counts, n: nat, rem: int)
    requires n <= N && forall i | 0 <= i < N :: Count(a, i) == Count(b, i)
    ensures GreedyRem(a, n, rem) == GreedyRem(b, n, rem)
    ensures forall i | 0 <= i < N :: GreedyCount(a, n, rem, i) == GreedyCount(b, n, rem, i)
  {
    hide D, Take;
    if n > 0 { SameGreedy(a, b, n - 1, rem - Take(Count(a, n - 1), D(n - 1), rem) * D(n - 1)); }
  }

  /** With no limit on the denominations, overpaying means that some coin tops up. */
  lemma OvershootTopsUp(held: Counts, maxDenom: int, target: int)
    requires Full(held) && target > 0 && PayRem(held, N, target) < 0
    requires forall i | 0 <= i < N && DENOMS[i] > maxDenom :: Count(held, i) == 0
    ensures CanTopUp(held, maxDenom, target)
  {
    hide Within, Full, Value, D, GreedyCount, GreedyRem, PayRem, UpTo, Greedy;
    OvershootLeavesRoom(held, N, target - 1);
    UpToAt(held, maxDenom);
    SameGreedy(UpTo(held, maxDenom), held, N, target - 1);
    var i :| Room(held, N, target - 1, i);
    GreedyAt(UpTo(held, maxDenom), target - 1, i);
    assert TopsUp(held, Filled(held, maxDenom, target), Missing(held, maxDenom, target), i);
  }
}
