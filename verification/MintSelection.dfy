/** getIdealSpends, getSpends and SelectMintsFromList: from an amount to the mints that pay it. */
module MintSelection {
  import opened Arithmetic
  import opened Denominations
  import opened MintChoice
  import opened ChangeMaking
  import opened ZerocoinSpends
  import opened ZerocoinChange

  // ---------- getIdealSpends ----------

  /** One denomination: take unused mints of it while they fit. */
  method TakeMints(mints: seq<Mint>, coin: int, value: int, used0: Counts, rem0: int) returns (used: Counts, rem: int)
    requires coin in used0 && value > 0
    ensures var k := Take(Unused(mints, coin, |mints|), value, rem0);
            used == used0[coin := used0[coin] + k] && rem == rem0 - k * value
  {
    hide Take;
    used, rem := used0, rem0;
    ghost var k: nat, spent: int := 0, 0;
    for j := 0 to |mints|
      invariant used == used0[coin := used0[coin] + k] && rem == rem0 - spent && spent == k * value
      invariant k <= Unused(mints, coin, j) <= Unused(mints, coin, |mints|)
      invariant k == 0 || rem >= 0
      invariant k == Unused(mints, coin, j) || rem < value
    {
      UnusedGrows(mints, coin, j + 1);
      if mints[j].isUsed { continue; }
      if rem >= value && coin == mints[j].denom {
        used := used[coin := used[coin] + 1];
        rem := rem - value;
        NextMultiple(k, value);
        k, spent := k + 1, spent + value;
      }
      if rem < value { break; }
    }
    TakeIs(Unused(mints, coin, |mints|), value, rem0, k);
  }

  lemma NextMultiple(k: int, value: int)
    ensures (k + 1) * value == k * value + value
  {
  }

  lemma {:induction false} UnusedGrows(mints: seq<Mint>, d: int, n: nat)
    requires n <= |mints|
    ensures Unused(mints, d, n) <= Unused(mints, d, |mints|)
    decreases |mints| - n
  {
    if n < |mints| { UnusedGrows(mints, d, n + 1); }
  }

  /** Where getIdealSpends stands: see Selecting; what it started from is kept underneath. */
  ghost predicate Adding(held: Counts, target: int, base: Counts, n: nat, rem: int, used: Counts)
    requires n <= N
  {
    && used.Keys == base.Keys && (forall i | 0 <= i < N :: DENOMS[i] in base)
    && (forall i | n <= i < N :: used[DENOMS[i]] == base[DENOMS[i]] + GreedyCount(held, N, target, i))
    && (forall i | 0 <= i < n :: used[DENOMS[i]] == base[DENOMS[i]] && GreedyCount(held, N, target, i) == GreedyCount(held, n, rem, i))
    && GreedyRem(held, N, target) == GreedyRem(held, n, rem)
  }

  lemma AddOne(held: Counts, target: int, base: Counts, n: nat, rem: int, used: Counts)
    requires n < N && Adding(held, target, base, n + 1, rem, used)
    ensures DENOMS[n] in used
    ensures var k := Take(Count(held, n), D(n), rem);
            Adding(held, target, base, n, rem - k * D(n), used[DENOMS[n] := used[DENOMS[n]] + k])
  {
    hide D, Take, Count;
    assert DENOMS[n] in base;
    assert GreedyCount(held, N, target, n) == Take(Count(held, n), D(n), rem);
    assert forall i | 0 <= i < N :: i != n ==> DENOMS[i] != DENOMS[n];
  }

  lemma Added(held: Counts, target: int, used0: Counts, rem: int, used: Counts)
    requires Adding(held, target, Inserted(used0), 0, rem, used)
    ensures forall i | 0 <= i < N :: DENOMS[i] in used && Count(used, i) == Count(used0, i) + Count(Greedy(held, target), i)
    ensures used0 == map[] ==> used == Greedy(held, target)
    ensures rem == GreedyRem(held, N, target)
  {
    hide GreedyCount;
    forall i | 0 <= i < N ensures DENOMS[i] in used && Count(used, i) == Count(used0, i) + Count(Greedy(held, target), i) {
      GreedyAt(held, target, i);
    }
    if used0 == map[] {
      assert used.Keys == Greedy(held, target).Keys;
      forall d | d in used ensures used[d] == Greedy(held, target)[d] {
        var i :| 0 <= i < N && d == DENOMS[i];
      }
    }
  }

  /** std::map::insert: denominations already there keep their counts. */
  function Inserted(used0: Counts): (m: Counts)
    ensures forall i | 0 <= i < N :: DENOMS[i] in m && m[DENOMS[i]] == Count(used0, i)
    ensures m.Keys == NO_COINS.Keys + used0.Keys
  {
    NO_COINS + used0
  }

  /** getIdealSpends says whether some set of unused mints adds up to exactly the target, and then
      takes such a set with the fewest mints. What a given map of used coins already holds is kept and
      added to. */
  method GetIdealSpends(target: int, mints: seq<Mint>, used0: Counts) returns (exact: bool, used: Counts)
    ensures exact <==> Exact(mints, target)
    ensures forall i | 0 <= i < N :: DENOMS[i] in used && Count(used, i) == Count(used0, i) + Count(Greedy(UnusedCounts(mints), target), i)
    ensures used0 == map[] ==> used == Greedy(UnusedCounts(mints), target)
    ensures exact ==> Value(Greedy(UnusedCounts(mints), target), N) == target
  {
    hide Greedy, GreedyRem, Adding, D, Take, UnusedCounts, Exact, Value, Full, Count, Inserted;
    ghost var held := UnusedCounts(mints);
    UnusedCountsAt(mints);
    var rem := target;
    used := Inserted(used0);
    assert Adding(held, target, Inserted(used0), N, rem, used) by { NothingAdded(held, target, used0); }
    for n := N downto 0
      invariant Adding(held, target, Inserted(used0), n, rem, used)
    {
      AddOne(held, target, Inserted(used0), n, rem, used);
      used, rem := TakeMints(mints, DENOMS[n], D(n), used, rem);
    }
    Added(held, target, used0, rem, used);
    ExactIffSomeChoice(mints, target);
    GreedyIs(held, target);
    exact := rem == 0;
  }

  lemma NothingAdded(held: Counts, target: int, used0: Counts)
    ensures Adding(held, target, Inserted(used0), N, target, Inserted(used0))
  {
  }

  // ---------- getSpends ----------

  function Coin(d: int, id: nat): Mint { Mint(d, false, id) }

  /** The first k of the unused mints of denomination d, among the first n mints. */
  function Pick(mints: seq<Mint>, d: int, k: nat, n: nat): (p: seq<Mint>)
    requires n <= |mints|
    ensures |p| == if k < Unused(mints, d, n) then k else Unused(mints, d, n)
    ensures forall m | m in p :: Spendable(m, d)
  {
    if n == 0 then []
    else
      var p := Pick(mints, d, k, n - 1);
      if Spendable(mints[n - 1], d) && |p| < k then p + [mints[n - 1]] else p
  }

  /** The mints taken for a count of k: pass after pass over the list, which marks no mint as taken. */
  function Rounds(mints: seq<Mint>, d: int, k: nat): (p: seq<Mint>)
    requires k > 0 ==> Unused(mints, d, |mints|) > 0
    ensures |p| == k && forall m | m in p :: Spendable(m, d)
    decreases k
  {
    if k == 0 then []
    else
      var p := Pick(mints, d, k, |mints|);
      p + Rounds(mints, d, k - |p|)
  }

  /** No count is negative, and for every positive one there is an unused mint. */
  ghost predicate Servable(mints: seq<Mint>, used: Counts) {
    Full(used) && forall i | 0 <= i < N :: Count(used, i) > 0 ==> Unused(mints, DENOMS[i], |mints|) > 0
  }

  lemma ServableIs(mints: seq<Mint>, used: Counts)
    requires Servable(mints, used)
    ensures Full(used)
    ensures forall i | 0 <= i < N ::
              && DENOMS[i] in used && 0 <= used[DENOMS[i]] == Count(used, i)
              && (Count(used, i) > 0 ==> Unused(mints, DENOMS[i], |mints|) > 0)
  {
    hide Unused;
    CountsOf(used);
  }

  /** The mints that getSpends returns for the denominations from n up, largest first. */
  ghost function Spends(mints: seq<Mint>, used: Counts, n: nat): (p: seq<Mint>)
    requires n <= N && Servable(mints, used)
    decreases N - n
  {
    ServableIs(mints, used);
    if n == N then [] else Spends(mints, used, n + 1) + Rounds(mints, DENOMS[n], Count(used, n))
  }

  function MintsValue(p: seq<Mint>): int {
    if p == [] then 0 else MintsValue(p[..|p| - 1]) + ToAmount(p[|p| - 1].denom)
  }

  lemma {:induction false} MintsValueOf(p: seq<Mint>, q: seq<Mint>, i: nat)
    requires i < N && forall m | m in q :: m.denom == DENOMS[i]
    ensures MintsValue(p + q) == MintsValue(p) + |q| * D(i)
  {
    hide ToAmount, D;
    DenomAmount(DENOMS[i]);
    if q == [] {
      assert p + q == p;
    } else {
      var r := q[..|q| - 1];
      assert (p + q)[..|p + q| - 1] == p + r;
      MintsValueOf(p, r, i);
      Distribute(|q|, 1, D(i));
    }
  }

  /** How many mints one pass takes for a count of k, of u unused ones; a negative count is not zero either. */
  function Taken(k: int, u: nat): nat { if 0 <= k < u then k else u }

  /** The for loop of getSpends: one pass over the list for one denomination, whatever the count. */
  method OnePass(mints: seq<Mint>, i: nat, used0: Counts, selected0: seq<Mint>, value0: int)
    returns (used: Counts, selected: seq<Mint>, value: int)
    requires i < N && DENOMS[i] in used0
    ensures var t := Taken(used0[DENOMS[i]], Unused(mints, DENOMS[i], |mints|));
            && used == used0[DENOMS[i] := used0[DENOMS[i]] - t]
            && selected == selected0 + Pick(mints, DENOMS[i], t, |mints|)
            && value == value0 + t * D(i)
  {
    hide D;
    var coin := DENOMS[i];
    used, selected, value := used0, selected0, value0;
    ghost var t := Taken(used0[coin], Unused(mints, coin, |mints|));
    ghost var p, worth := [], 0;
    for j := 0 to |mints|
      invariant p == Pick(mints, coin, t, j) && |p| <= t
      invariant coin in used && used == used0[coin := used0[coin] - |p|] && selected == selected0 + p
      invariant value == value0 + worth && worth == |p| * D(i)
    {
      if mints[j].isUsed { continue; }
      UnusedGrows(mints, coin, j + 1);
      if coin == mints[j].denom && used[coin] != 0 {
        selected := selected + [mints[j]];
        value := value + D(i);
        used := used[coin := used[coin] - 1];
        assert selected0 + p + [mints[j]] == selected0 + (p + [mints[j]]);
        NextMultiple(|p|, D(i));
        p, worth := p + [mints[j]], worth + D(i);
      }
    }
  }

  lemma NextRound(mints: seq<Mint>, d: int, k: nat)
    requires Unused(mints, d, |mints|) > 0
    ensures var t := Taken(k, Unused(mints, d, |mints|));
            t <= k && (k > 0 ==> t > 0) && Rounds(mints, d, k) == Pick(mints, d, t, |mints|) + Rounds(mints, d, k - t)
  {
    var u := Unused(mints, d, |mints|);
    if k >= u { PickAll(mints, d, k, |mints|); }
    if k == 0 { assert Pick(mints, d, 0, |mints|) == []; }
  }

  lemma {:induction false} PickAll(mints: seq<Mint>, d: int, k: nat, n: nat)
    requires n <= |mints| && Unused(mints, d, n) <= k && Unused(mints, d, n) <= Unused(mints, d, |mints|)
    ensures Pick(mints, d, k, n) == Pick(mints, d, Unused(mints, d, |mints|), n)
  {
    if n > 0 { PickAll(mints, d, k, n - 1); }
  }

  /** The do-while loop of getSpends for one denomination. */
  method SpendOneDenom(mints: seq<Mint>, i: nat, used0: Counts, selected0: seq<Mint>, value0: int)
    returns (used: Counts, selected: seq<Mint>, value: int)
    requires i < N && DENOMS[i] in used0 && used0[DENOMS[i]] >= 0
    requires used0[DENOMS[i]] > 0 ==> Unused(mints, DENOMS[i], |mints|) > 0
    ensures used == used0[DENOMS[i] := 0]
    ensures selected == selected0 + Rounds(mints, DENOMS[i], used0[DENOMS[i]])
    ensures value == value0 + used0[DENOMS[i]] * D(i)
  {
    hide D, Pick, Rounds, Unused;
    var coin := DENOMS[i];
    used, selected, value := used0, selected0, value0;
    ghost var k := used0[coin];
    NoRounds(mints, coin);
    var first := true;
    while first || used[coin] != 0
      invariant coin in used && 0 <= used[coin] <= k && used == used0[coin := used[coin]]
      invariant selected + Rounds(mints, coin, used[coin]) == selected0 + Rounds(mints, coin, k)
      invariant value == value0 + (k - used[coin]) * D(i)
      decreases first, used[coin]
    {
      ghost var c, selected1 := used[coin], selected;
      RoundOrNothing(mints, coin, c);
      used, selected, value := OnePass(mints, i, used, selected, value);
      Distribute(k - c, used[coin] - c, D(i));
      assert selected1 + (Pick(mints, coin, c - used[coin], |mints|) + Rounds(mints, coin, used[coin]))
          == selected1 + Pick(mints, coin, c - used[coin], |mints|) + Rounds(mints, coin, used[coin]);
      first := false;
    }
  }

  lemma NoRounds(mints: seq<Mint>, d: int)
    ensures Rounds(mints, d, 0) == []
  {
  }

  lemma RoundOrNothing(mints: seq<Mint>, d: int, k: nat)
    requires k > 0 ==> Unused(mints, d, |mints|) > 0
    ensures var t := Taken(k, Unused(mints, d, |mints|));
            t <= k && (k > 0 ==> t > 0) && Rounds(mints, d, k) == Pick(mints, d, t, |mints|) + Rounds(mints, d, k - t)
  {
    if Unused(mints, d, |mints|) > 0 { NextRound(mints, d, k); }
  }

  // ---------- When the loops of getSpends end ----------

  /** What is left of a count of k after n passes. */
  function Left(k: int, u: nat, n: nat): int
    decreases n
  {
    if n == 0 then k else Left(k - Taken(k, u), u, n - 1)
  }

  lemma {:induction false} LeftIs(k: int, u: nat, n: nat)
    ensures k < 0 ==> Left(k, u, n) < 0
    ensures u == 0 ==> Left(k, u, n) == k
    ensures k == 0 || (k > 0 && u > 0 && n >= k) ==> Left(k, u, n) == 0
    decreases n
  {
    if n > 0 { LeftIs(k - Taken(k, u), u, n - 1); }
  }

  /** The do-while loop reaches a count of zero. */
  ghost predicate Ends(k: int, u: nat) { exists n: nat :: n > 0 && Left(k, u, n) == 0 }

  lemma EndsIff(k: int, u: nat)
    ensures Ends(k, u) <==> k == 0 || (k > 0 && u > 0)
  {
    LeftIs(k, u, if k > 0 then k else 1);
    forall n: nat | n > 0 && Left(k, u, n) == 0 ensures k == 0 || (k > 0 && u > 0) { LeftIs(k, u, n); }
  }

  /** The loops end if and only if no count is negative and every positive one has an unused mint. */
  lemma LoopsEndIff(mints: seq<Mint>, used: Counts)
    requires forall i | 0 <= i < N :: DENOMS[i] in used
    ensures (forall i | 0 <= i < N :: Ends(Count(used, i), Unused(mints, DENOMS[i], |mints|))) <==> Servable(mints, used)
  {
    hide Unused, Ends;
    FullIs(used);
    forall i | 0 <= i < N { EndsIff(Count(used, i), Unused(mints, DENOMS[i], |mints|)); }
  }

  /** getSpends: turn counts into mints. */
  method GetSpends(mints: seq<Mint>, used0: Counts) returns (selected: seq<Mint>, value: int, used: Counts)
    requires Servable(mints, used0)
    ensures selected == Spends(mints, used0, 0) && value == Value(used0, N)
    ensures forall i | 0 <= i < N :: Count(used, i) == 0
  {
    hide D, Spends, Value, UnusedCounts, Full, Within, Pick, Rounds, Unused, Servable;
    ServableIs(mints, used0);
    used, selected, value := used0, [], 0;
    NoSpends(mints, used0);
    for n := N downto 0
      invariant selected == Spends(mints, used0, n) && value == Value(used0, N) - Value(used0, n)
      invariant forall i | 0 <= i < n :: DENOMS[i] in used && used[DENOMS[i]] == used0[DENOMS[i]]
      invariant forall i | n <= i < N :: Count(used, i) == 0
    {
      assert forall i | 0 <= i < N && i != n :: DENOMS[i] != DENOMS[n];
      MoreSpends(mints, used0, n);
      Update(used, N, n, 0);
      ghost var next := used[DENOMS[n] := 0];
      forall i | n <= i < N ensures Count(next, i) == 0 { assert i == n || Count(used, i) == 0; }
      used, selected, value := SpendOneDenom(mints, n, used, selected, value);
    }
    NoSpends(mints, used0);
  }

  lemma WithinIsServable(mints: seq<Mint>, used: Counts)
    requires Within(used, UnusedCounts(mints))
    ensures Servable(mints, used)
  {
    hide UnusedCounts, Unused;
    UnusedCountsAt(mints);
    SubWithin(used, UnusedCounts(mints));
    WithinIs(used, UnusedCounts(mints));
  }

  lemma CountsOf(m: Counts)
    requires Full(m)
    ensures forall i | 0 <= i < N :: DENOMS[i] in m && 0 <= m[DENOMS[i]] == Count(m, i)
  {
  }

  lemma NoSpends(mints: seq<Mint>, used: Counts)
    requires Servable(mints, used)
    ensures Spends(mints, used, N) == [] && Value(used, 0) == CoinsIn(used, 0) == 0
  {
  }

  lemma MoreSpends(mints: seq<Mint>, used: Counts, n: nat)
    requires n < N && Servable(mints, used)
    ensures DENOMS[n] in used && 0 <= used[DENOMS[n]] == Count(used, n)
    ensures used[DENOMS[n]] > 0 ==> Unused(mints, DENOMS[n], |mints|) > 0
    ensures Spends(mints, used, n) == Spends(mints, used, n + 1) + Rounds(mints, DENOMS[n], used[DENOMS[n]])
    ensures Value(used, n + 1) == Value(used, n) + used[DENOMS[n]] * D(n)
  {
    hide D, Unused, Rounds;
    ServableIs(mints, used);
  }

  lemma {:induction false} PickIsFrom(mints: seq<Mint>, d: int, k: nat, n: nat)
    requires n <= |mints|
    ensures multiset(Pick(mints, d, k, n)) <= multiset(mints[..n])
  {
    if n > 0 {
      PickIsFrom(mints, d, k, n - 1);
      assert mints[..n] == mints[..n - 1] + [mints[n - 1]];
    }
  }

  ghost predicate From(p: seq<Mint>, mints: seq<Mint>) {
    multiset(p) <= multiset(mints) && forall m | m in p :: !m.isUsed
  }

  /** No mint is selected twice: what is appended is of another denomination. */
  lemma Appended(p: seq<Mint>, q: seq<Mint>, mints: seq<Mint>, d: int)
    requires From(p, mints) && From(q, mints) && (forall m | m in p :: m.denom != d) && (forall m | m in q :: m.denom == d)
    ensures From(p + q, mints)
  {
    forall m ensures multiset(p + q)[m] <= multiset(mints)[m] {
      if m in q { assert m !in p; } else { assert m !in multiset(q); }
    }
  }

  /** The mints that getSpends returns are unused ones of the list. */
  lemma {:induction false} SpendsAreListed(mints: seq<Mint>, used: Counts, n: nat)
    requires n <= N && Servable(mints, used)
    ensures forall m: Mint | m in Spends(mints, used, n) :: m in mints && !m.isUsed && forall i | 0 <= i < n :: m.denom != DENOMS[i]
    decreases N - n
  {
    hide D, Unused, Full, Spends, Rounds, Servable;
    if n == N {
      NoSpends(mints, used);
    } else {
      MoreSpends(mints, used, n);
      SpendsAreListed(mints, used, n + 1);
      RoundsAreListed(mints, DENOMS[n], used[DENOMS[n]]);
      assert forall i | 0 <= i < n :: DENOMS[i] != DENOMS[n];
    }
  }

  /** They are worth the counts asked for. */
  lemma {:induction false} SpendsIs(mints: seq<Mint>, used: Counts, n: nat)
    requires n <= N && Servable(mints, used)
    ensures MintsValue(Spends(mints, used, n)) == Value(used, N) - Value(used, n)
    ensures |Spends(mints, used, n)| == CoinsIn(used, N) - CoinsIn(used, n)
    decreases N - n
  {
    hide D, Unused, Full, CoinsIn, Value, Spends, Rounds, Servable;
    if n == N {
      NoSpends(mints, used);
    } else {
      MoreSpends(mints, used, n);
      SpendsIs(mints, used, n + 1);
      ValueStep(used, n + 1);
      MintsValueOf(Spends(mints, used, n + 1), Rounds(mints, DENOMS[n], used[DENOMS[n]]), n);
    }
  }

  lemma {:induction false} RoundsAreListed(mints: seq<Mint>, d: int, k: nat)
    requires k > 0 ==> Unused(mints, d, |mints|) > 0
    ensures forall m | m in Rounds(mints, d, k) :: m in mints && Spendable(m, d)
    decreases k
  {
    hide Unused;
    if k > 0 {
      var p := Pick(mints, d, k, |mints|);
      PickFrom(mints, d, k);
      forall m | m in p ensures m in mints { assert m in multiset(p); }
      RoundsAreListed(mints, d, k - |p|);
    }
  }

  /** Up to as many as there are, the mints of one denomination are taken once. */
  lemma OneRound(mints: seq<Mint>, d: int, k: nat)
    requires k <= Unused(mints, d, |mints|)
    ensures Rounds(mints, d, k) == Pick(mints, d, k, |mints|)
  {
  }

  lemma {:induction false} UnusedAppend(p: seq<Mint>, q: seq<Mint>, d: int)
    ensures Unused(p + q, d, |p + q|) == Unused(p, d, |p|) + Unused(q, d, |q|)
  {
    if q == [] {
      assert p + q == p;
    } else {
      var r := q[..|q| - 1];
      assert p + q == (p + r) + [q[|q| - 1]];
      UnusedAppend(p, r, d);
      UnusedPrefix(p + q, p + r, d, |p + r|);
      UnusedPrefix(q, r, d, |r|);
    }
  }

  lemma {:induction false} UnusedPrefix(p: seq<Mint>, q: seq<Mint>, d: int, n: nat)
    requires n <= |p| && n <= |q| && p[..n] == q[..n]
    ensures Unused(p, d, n) == Unused(q, d, n)
  {
    if n > 0 {
      assert p[..n][n - 1] == q[..n][n - 1] && p[..n][..n - 1] == q[..n][..n - 1] && p[..n - 1] == p[..n][..n - 1] && q[..n - 1] == q[..n][..n - 1];
      UnusedPrefix(p, q, d, n - 1);
    }
  }

  lemma WithoutOne(q: seq<Mint>, m: Mint, d: int) returns (r: seq<Mint>)
    requires m in q
    ensures multiset(q) == multiset(r) + multiset{m} && |r| == |q| - 1
    ensures Unused(q, d, |q|) == Unused(r, d, |r|) + Unused([m], d, 1)
  {
    var j :| 0 <= j < |q| && q[j] == m;
    var a, b := q[..j], q[j + 1..];
    assert q == a + ([m] + b);
    r := a + b;
    UnusedAppend(a, [m] + b, d);
    UnusedAppend([m], b, d);
    UnusedAppend(a, b, d);
  }

  /** Taking mints from a list without repetition, one cannot take more of a denomination than it has. */
  lemma {:induction false} NoMoreThanListed(p: seq<Mint>, q: seq<Mint>, d: int)
    requires multiset(p) <= multiset(q)
    ensures Unused(p, d, |p|) <= Unused(q, d, |q|)
  {
    hide Unused;
    if p != [] {
      var r, m := p[..|p| - 1], p[|p| - 1];
      assert p == r + [m];
      assert m in multiset(p);
      assert m in multiset(q);
      var q' := WithoutOne(q, m, d);
      assert multiset(p) == multiset(r) + multiset{m};
      assert multiset(r) == multiset(p) - multiset{m} && multiset(q') == multiset(q) - multiset{m};
      NoMoreThanListed(r, q', d);
      UnusedAppend(r, [m], d);
    } else {
      NothingUnused(d);
    }
  }

  lemma NothingUnused(d: int)
    ensures Unused([], d, 0) == 0
  {
  }

  lemma {:induction false} AllOrNone(p: seq<Mint>, d: int, e: int, n: nat)
    requires n <= |p| && forall m | m in p :: Spendable(m, e)
    ensures Unused(p, d, n) == if d == e then n else 0
  {
    if n > 0 {
      assert p[n - 1] in p;
      AllOrNone(p, d, e, n - 1);
    }
  }

  /** How many mints of each denomination getSpends returns. */
  lemma {:induction false} SpendsCount(mints: seq<Mint>, used: Counts, n: nat, i: nat)
    requires n <= N && i < N && Servable(mints, used)
    ensures var p := Spends(mints, used, n); Unused(p, DENOMS[i], |p|) == if i < n then 0 else Count(used, i)
    decreases N - n
  {
    hide Rounds, Spends, Servable, Full;
    if n == N {
      NoSpends(mints, used);
    } else {
      MoreSpends(mints, used, n);
      SpendsCount(mints, used, n + 1, i);
      var p, q := Spends(mints, used, n + 1), Rounds(mints, DENOMS[n], used[DENOMS[n]]);
      UnusedAppend(p, q, DENOMS[i]);
      AllOrNone(q, DENOMS[i], DENOMS[n], |q|);
      assert i != n ==> DENOMS[i] != DENOMS[n];
    }
  }

  lemma {:induction false} SpendsFrom(mints: seq<Mint>, used: Counts, n: nat)
    requires n <= N && Within(used, UnusedCounts(mints)) && Servable(mints, used)
    ensures From(Spends(mints, used, n), mints)
    decreases N - n
  {
    hide UnusedCounts, Full, Within, Unused, From, Spends, Pick, Rounds, Servable;
    if n == N {
      NoSpends(mints, used);
      NothingFrom(mints);
    } else {
      MoreSpends(mints, used, n);
      var d, k := DENOMS[n], used[DENOMS[n]];
      var p, q := Spends(mints, used, n + 1), Rounds(mints, d, k);
      SpendsFrom(mints, used, n + 1);
      SpendsAreListed(mints, used, n + 1);
      WithinUnused(mints, used, n);
      OneRound(mints, d, k);
      PickFrom(mints, d, k);
      forall m | m in p ensures m.denom != d { assert forall i | 0 <= i < n + 1 :: m.denom != DENOMS[i]; }
      Appended(p, q, mints, d);
    }
  }

  lemma WithinUnused(mints: seq<Mint>, used: Counts, i: nat)
    requires i < N && Within(used, UnusedCounts(mints))
    ensures Count(used, i) <= Unused(mints, DENOMS[i], |mints|)
  {
    hide UnusedCounts, Unused;
    UnusedCountsAt(mints);
    SubWithin(used, UnusedCounts(mints));
    WithinIs(used, UnusedCounts(mints));
  }

  /** No mint is returned twice if and only if no count is more than the unused mints of its denomination. */
  lemma SpendsOnce(mints: seq<Mint>, used: Counts)
    requires Servable(mints, used)
    ensures From(Spends(mints, used, 0), mints) <==> Within(used, UnusedCounts(mints))
  {
    hide UnusedCounts, Full, Within, Unused, Spends, Servable;
    var p := Spends(mints, used, 0);
    ServableIs(mints, used);
    UnusedCountsAt(mints);
    WithinIs(used, UnusedCounts(mints));
    if From(p, mints) {
      forall i | 0 <= i < N ensures Count(used, i) <= Count(UnusedCounts(mints), i) {
        SpendsCount(mints, used, 0, i);
        NoMoreThanListed(p, mints, DENOMS[i]);
      }
    }
    if Within(used, UnusedCounts(mints)) { SpendsFrom(mints, used, 0); }
  }

  lemma TwoOfOne(mints: seq<Mint>, used: Counts)
    requires mints == [Coin(1, 0)] && used == NO_COINS[1 := 2]
    ensures Servable(mints, used) && Value(used, N) == 2 * COIN && CoinsIn(used, N) == 2 && Count(used, 0) == 2
    ensures Unused(mints, 1, |mints|) == 1
  {
    hide Value, CoinsIn, NO_COINS, Count, Full;
    NoCoins();
    ZeroValue(NO_COINS, N);
    Update(NO_COINS, N, 0, 2);
    FullIs(NO_COINS);
    FullIs(used);
    assert Unused(mints, 1, 1) == 1;
    assert DENOMS[0] == 1 && D(0) == COIN;
  }

  /** One mint and a count of two: the mint is returned twice, and its value counted twice. */
  lemma SpentTwice()
    ensures var mints, used := [Coin(1, 0)], NO_COINS[1 := 2];
            && Servable(mints, used) && Spends(mints, used, 0) == [Coin(1, 0), Coin(1, 0)]
            && Value(used, N) == 2 * COIN && !From(Spends(mints, used, 0), mints)
  {
    hide Spends, Value, CoinsIn, From, Rounds, Servable, NO_COINS, Within, UnusedCounts;
    var mints, used := [Coin(1, 0)], NO_COINS[1 := 2];
    TwoOfOne(mints, used);
    SpendsIs(mints, used, 0);
    SpendsAreListed(mints, used, 0);
    NoSpends(mints, used);
    var p := Spends(mints, used, 0);
    assert p[0] in p && p[1] in p;
    SpendsOnce(mints, used);
    if Within(used, UnusedCounts(mints)) { WithinUnused(mints, used, 0); }
  }

  lemma NothingFrom(mints: seq<Mint>)
    ensures From([], mints)
  {
  }

  lemma PickFrom(mints: seq<Mint>, d: int, k: nat)
    ensures From(Pick(mints, d, k, |mints|), mints) && forall m | m in Pick(mints, d, k, |mints|) :: m.denom == d
  {
    PickIsFrom(mints, d, k, |mints|);
    assert mints[..|mints|] == mints;
  }

  // ---------- SelectMintsFromList ----------

  /** The conversion of an int to size_t. */
  function AsSize(n: int): int { if n < 0 then n + 0x1_0000_0000_0000_0000 else n }

  lemma {:induction false} WholeValue(m: Counts, n: nat)
    requires n <= N
    ensures Value(m, n) % COIN == 0
  {
    if n > 0 {
      WholeValue(m, n - 1);
      assert D(n - 1) == COIN * DENOMS[n - 1];
      var q := Value(m, n - 1) / COIN;
      assert Value(m, n) == COIN * q + Count(m, n - 1) * (COIN * DENOMS[n - 1]);
      MulAssoc(COIN, DENOMS[n - 1], Count(m, n - 1));
      DivideOff(0, COIN, q + DENOMS[n - 1] * Count(m, n - 1));
    }
  }

  /** An amount that mints can pay exactly, out of what is held, is an exact payment. */
  lemma PaidExactly(mints: seq<Mint>, used: Counts)
    requires Within(used, UnusedCounts(mints))
    ensures Exact(mints, Value(used, N))
  {
    hide Within, Value, UnusedCounts, ChoiceValue;
    CountsToChoice(mints, used);
  }

  lemma WithinWithin(a: Counts, b: Counts, c: Counts)
    requires Within(a, b) && Within(b, c)
    ensures Within(a, c)
  {
    forall i | 0 <= i < N ensures a[DENOMS[i]] <= c[DENOMS[i]] { assert a[DENOMS[i]] <= b[DENOMS[i]]; }
  }

  /** An exact payment that mints within the limit make. */
  ghost predicate Payable(mints: seq<Mint>, maxSpends: int, target: int) {
    Exact(mints, target) && Least(mints, target) <= AsSize(maxSpends)
  }

  lemma PayableIs(mints: seq<Mint>, maxSpends: int, target: int)
    ensures Payable(mints, maxSpends, target) <==> Exact(mints, target) && Least(mints, target) <= AsSize(maxSpends)
  {
  }

  lemma PaidWithinLimit(mints: seq<Mint>, maxSpends: int, used: Counts)
    requires Within(used, UnusedCounts(mints)) && CoinsIn(used, N) <= maxSpends
    ensures Payable(mints, maxSpends, Value(used, N))
  {
    hide Within, Full, Value, UnusedCounts, CoinsIn, GreedyRem, Greedy, Exact;
    PaidExactly(mints, used);
    UnusedCountsAt(mints);
    GreedyIsComplete(UnusedCounts(mints), Value(used, N));
    GreedyIs(UnusedCounts(mints), Value(used, N));
    SubWithin(Greedy(UnusedCounts(mints), Value(used, N)), UnusedCounts(mints));
    ValueNotNegative(Greedy(UnusedCounts(mints), Value(used, N)), N);
  }

  /** A whole-coin target cannot be hit exactly by an alternative within the limit, or it would have been paid. */
  lemma SettledIsPayable(mints: seq<Mint>, maxSpends: int, target: int, held: Counts, maxDenom: int)
    requires Within(held, UnusedCounts(mints)) && target % COIN == 0
    requires Settles(held, maxDenom, maxSpends, target) && Value(Alt(held, maxDenom, target), N) >= target
    ensures Payable(mints, maxSpends, target)
  {
    hide Within, Full, Value, UnusedCounts, CoinsIn, Alt, AltAmount, Payable;
    var alt := Alt(held, maxDenom, target);
    SubWithin(held, UnusedCounts(mints));
    AltIs(held, maxDenom, target);
    WithinWithin(alt, held, UnusedCounts(mints));
    WholeValue(alt, N);
    PaidWithinLimit(mints, maxSpends, alt);
  }

  /** Paying the largest coins first overpays a whole-coin target by nothing or by a coin at least. */
  lemma WholePay(held: Counts, target: int)
    requires Full(held) && Value(held, N) >= target && target % COIN == 0
    ensures PayRem(held, N, target) == 0 <==> Value(Pay(held, target), N) - target < COIN
    ensures PayRem(held, N, target) == 0 ==> Value(Pay(held, target), N) == target
  {
    hide Full, Value, Pay;
    PayIs(held, target);
    PayCovers(held, N, target);
    WholeValue(Pay(held, target), N);
    assert target <= 0 ==> PayRem(held, N, target) == target;
  }

  lemma {:induction false} NothingAboveLargest(held: Counts, n: nat)
    requires n <= N && Full(held)
    ensures forall i | 0 <= i < n && DENOMS[i] > LargestHeld(held, n) :: Count(held, i) == 0
  {
    if n > 0 {
      NothingAboveLargest(held, n - 1);
      assert held[DENOMS[n - 1]] >= 0;
    }
  }

  /** The alternative to paying the largest coins first reaches the target if it leaves less change. */
  lemma SettlesAfterPaying(held: Counts, maxSpends: int, target: int)
    requires Full(held) && Value(held, N) >= target && Value(Pay(held, target), N) - target >= COIN
    requires Settles(held, LargestHeld(held, N), maxSpends, target)
    ensures Value(Alt(held, LargestHeld(held, N), target), N) >= target
  {
    hide Full, Value, Pay, Alt, AltAmount, Change, ChangeCount, CoinsIn, LargestHeld, Count;
    var maxDenom := LargestHeld(held, N);
    NothingAboveLargest(held, N);
    ChangeIs(Value(Alt(held, maxDenom, target), N) - target);
    ChangeIs(Value(Pay(held, target), N) - target);
    LessChangeThanPayingCovers(held, maxDenom, target);
  }

  lemma WholeDenom(i: nat)
    requires i < N
    ensures D(i) % COIN == 0
  {
    DivideOff(0, COIN, DENOMS[i]);
  }

  /** A whole-coin target that is covered gets no change exactly when no held coin is worth more
      and paying the largest coins first happens to hit it. */
  lemma WholeTargets(mints: seq<Mint>, maxSpends: int, fMinimizeChange: bool, target: int, held: Counts)
    requires Within(held, UnusedCounts(mints)) && target % COIN == 0 && Value(held, N) >= target
    requires !Payable(mints, maxSpends, target)
    ensures NoChange(maxSpends, fMinimizeChange, target, held) <==> NoneOver(held, target) && PayRem(held, N, target) == 0
    ensures NoneOver(held, target) && PayRem(held, N, target) == 0 ==> Exact(mints, target)
  {
    hide Within, Full, Value, UnusedCounts, CoinsIn, Alt, Pay, PayRem, Payable, Settles, LargestHeld, SmallestOver, D, Exact;
    SubWithin(held, UnusedCounts(mints));
    if NoneOver(held, target) {
      WholePay(held, target);
      if PayRem(held, N, target) == 0 {
        PayIs(held, target);
        WithinWithin(Pay(held, target), held, UnusedCounts(mints));
        PaidExactly(mints, Pay(held, target));
      } else if Settles(held, LargestHeld(held, N), maxSpends, target) {
        SettlesAfterPaying(held, maxSpends, target);
        SettledIsPayable(mints, maxSpends, target, held, LargestHeld(held, N));
      }
    } else {
      forall i | 0 <= i < N && SmallestOver(held, target, i)
        ensures D(i) - target >= COIN && !Settles(held, LargestHeld(held, i), maxSpends, target)
      {
        SmallestOverIs(held, target, i);
        WholeDenom(i);
        LargestHeldBelow(held, i);
        LessChangeCovers(held, LargestHeld(held, i), target, i);
        if Settles(held, LargestHeld(held, i), maxSpends, target) {
          SettledIsPayable(mints, maxSpends, target, held, LargestHeld(held, i));
        }
      }
    }
  }

  // ---------- Two targets that are covered but come to nothing ----------

  /** Denominations that are not held do not matter. */
  lemma {:induction false} SmallCoins(held: Counts, k: nat, n: nat, target: int)
    requires k <= n <= N && forall i | k <= i < N :: Count(held, i) == 0
    ensures Value(held, n) == Value(held, k) && GreedyCoins(held, n, target) == GreedyCoins(held, k, target)
    ensures PayRem(held, n, target) == PayRem(held, k, target)
  {
    hide D, Count;
    if k < n {
      assert Take(Count(held, n - 1), D(n - 1), target) == 0 && Reach(Count(held, n - 1), D(n - 1), target) == 0;
      SmallCoins(held, k, n - 1, target);
    }
  }

  lemma TenTenTenAndOnes(held: Counts)
    requires Full(held) && forall i | 0 <= i < N :: Count(held, i) == if i == 0 then 5 else if i == 2 then 3 else 0
    ensures Value(held, N) == 35 * COIN && NoneOver(held, 32 * COIN)
    ensures PayRem(held, N, 32 * COIN) == 0 && CoinsIn(Greedy(held, 32 * COIN), N) == 5
  {
    hide Greedy, CoinsIn;
    SmallCoins(held, 3, N, 32 * COIN);
    GreedyIs(held, 32 * COIN);
    assert D(0) == COIN && D(1) == 5 * COIN && D(2) == 10 * COIN;
    assert Value(held, 1) == 5 * COIN && Value(held, 3) == Value(held, 2) + 30 * COIN;
    assert NoneOver(held, 32 * COIN);
    assert Take(3, 10 * COIN, 32 * COIN) == 3 && Take(0, 5 * COIN, 2 * COIN) == 0 && Take(5, COIN, 2 * COIN) == 2;
    assert GreedyCoins(held, 1, 2 * COIN) == 2;
    assert GreedyCoins(held, 2, 2 * COIN) == 2;
    assert Reach(3, 10 * COIN, 32 * COIN) == 3 && Reach(0, 5 * COIN, 2 * COIN) == 0 && Reach(5, COIN, 2 * COIN) == 2;
    assert PayRem(held, 1, 2 * COIN) == 0;
    assert PayRem(held, 2, 2 * COIN) == 0;
  }

  /** 32 coins out of three 10s and five 1s, with at most four spends: five mints pay it exactly. */
  lemma OverTheLimit(fMinimizeChange: bool)
    ensures var mints := [Coin(10, 0), Coin(10, 1), Coin(10, 2), Coin(1, 3), Coin(1, 4), Coin(1, 5), Coin(1, 6), Coin(1, 7)];
            var held := UnusedCounts(mints);
            && Value(held, N) > 32 * COIN && Exact(mints, 32 * COIN) && Least(mints, 32 * COIN) == 5 > AsSize(4)
            && NoneOver(held, 32 * COIN) && PayRem(held, N, 32 * COIN) == 0
            && !Payable(mints, 4, 32 * COIN) && NoChange(4, fMinimizeChange, 32 * COIN, held)
  {
    hide Exact, NoChange, UnusedCounts, Payable, NoneOver, PayRem, Greedy, CoinsIn, Value, Full;
    var mints := [Coin(10, 0), Coin(10, 1), Coin(10, 2), Coin(1, 3), Coin(1, 4), Coin(1, 5), Coin(1, 6), Coin(1, 7)];
    UnusedCountsAt(mints);
    assert Unused(mints, 10, 3) == 3 && Unused(mints, 1, 3) == 0;
    TenTenTenAndOnes(UnusedCounts(mints));
    PayableIs(mints, 4, 32 * COIN);
    WithinItself(mints);
    WholeTargets(mints, 4, fMinimizeChange, 32 * COIN, UnusedCounts(mints));
  }

  lemma WithinItself(mints: seq<Mint>)
    ensures Within(UnusedCounts(mints), UnusedCounts(mints))
  {
    UnusedCountsAt(mints);
  }

  /** Mints are worth whole coins. */
  lemma ExactIsWhole(mints: seq<Mint>, target: int)
    requires Exact(mints, target)
    ensures target % COIN == 0
  {
    hide UnusedCounts, Value, Greedy, GreedyRem, Exact;
    ExactIffSomeChoice(mints, target);
    UnusedCountsAt(mints);
    GreedyIs(UnusedCounts(mints), target);
    WholeValue(Greedy(UnusedCounts(mints), target), N);
  }

  lemma TwoOnes(held: Counts)
    requires Full(held) && forall i | 0 <= i < N :: Count(held, i) == if i == 0 then 2 else 0
    ensures Value(held, N) == Value(Pay(held, 3 * COIN / 2), N) == 2 * COIN && NoneOver(held, 3 * COIN / 2)
  {
    hide Pay;
    SmallCoins(held, 1, N, 3 * COIN / 2);
    assert Reach(2, COIN, 3 * COIN / 2) == 2 && PayRem(held, 1, 3 * COIN / 2) == 3 * COIN / 2 - 2 * COIN;
    PayIs(held, 3 * COIN / 2);
  }

  /** One and a half coins out of two 1s: the half coin over is less than any change. */
  lemma HalfACoin(maxSpends: int, fMinimizeChange: bool)
    ensures var mints, target := [Coin(1, 0), Coin(1, 1)], 3 * COIN / 2;
            var held := UnusedCounts(mints);
            && Value(held, N) > target && !Payable(mints, maxSpends, target)
            && NoChange(maxSpends, fMinimizeChange, target, held)
  {
    hide Exact, UnusedCounts, Payable, Pay, NoneOver, Value, Full, Settles;
    var mints, target := [Coin(1, 0), Coin(1, 1)], 3 * COIN / 2;
    UnusedCountsAt(mints);
    assert Unused(mints, 1, 2) == 2;
    TwoOnes(UnusedCounts(mints));
    if Exact(mints, target) { ExactIsWhole(mints, target); }
    PayableIs(mints, maxSpends, target);
  }

  lemma ServableWithin(mints: seq<Mint>, held: Counts, used: Counts)
    requires Servable(mints, held) && Within(used, held)
    ensures Servable(mints, used)
  {
    hide Unused;
    SubWithin(used, held);
    WithinIs(used, held);
  }

  /** SelectMintsFromList. Whatever is selected is unused and is worth the value reported. An exact
      payment is made, with the fewest mints, if one within the limit exists. Otherwise change is given,
      as getChange counts it, for the counts `spent`; mints are then selected twice exactly if these
      are more than the unused mints of the list, which the holdings given may be. A count of zero means
      that nothing is selected. A whole-coin target that is covered by mints of the list comes to nothing
      exactly if the only exact payments are over the limit, no held coin is worth more than the target,
      and paying the largest coins first hits it. The value reported is then that of the payment not made. */
  method SelectMintsFromList(target: int, value0: int, maxSpends: int, fMinimizeChange: bool, mints: seq<Mint>, held: Counts)
    returns (selected: seq<Mint>, value: int, coinsReturned: int, neededSpends: int, ghost spent: Counts)
    requires Servable(mints, held)
    ensures forall m | m in selected :: m in mints && !m.isUsed
    ensures From(selected, mints) <==> Payable(mints, maxSpends, target) || coinsReturned == 0 || Within(spent, UnusedCounts(mints))
    ensures Payable(mints, maxSpends, target) ==>
              && coinsReturned == 0 && neededSpends == 0
              && |selected| == Least(mints, target) && MintsValue(selected) == value == target
    ensures !Payable(mints, maxSpends, target) ==>
              && neededSpends == (if Exact(mints, target) then Least(mints, target) else 0)
              && (coinsReturned == 0 <==> NoChange(maxSpends, fMinimizeChange, target, held))
              && (coinsReturned == 0 ==> selected == [] && value == if Exact(mints, target) then target else value0)
              && (coinsReturned != 0 ==>
                    && Within(spent, held) && |selected| == CoinsIn(spent, N) && MintsValue(selected) == value == Value(spent, N)
                    && value >= target + COIN && coinsReturned == ChangeCount(value - target))
    ensures !Payable(mints, maxSpends, target) && Value(held, N) < target ==> coinsReturned == 0
    ensures Within(held, UnusedCounts(mints)) ==> From(selected, mints)
    ensures Within(held, UnusedCounts(mints)) && target % COIN == 0 && Value(held, N) >= target ==>
              (!Payable(mints, maxSpends, target) && coinsReturned == 0 <==>
               && Exact(mints, target) && Least(mints, target) > AsSize(maxSpends)
               && NoneOver(held, target) && PayRem(held, N, target) == 0)
  {
    hide D, UnusedCounts, Full, Within, Unused, From, CoinsIn, Value, Spends, Pick, Rounds, Greedy, GreedyRem, GreedyCoins, Exact, Change,
      NoChange, NoneOver, Pay, Alt, Settles, Payable, Servable;
    var exact, used := GetIdealSpends(target, mints, map[]);
    UnusedCountsAt(mints);
    GreedyIs(UnusedCounts(mints), target);
    NothingFrom(mints);
    selected, value, neededSpends := [], value0, 0;
    PayableIs(mints, maxSpends, target);
    spent := used;
    if exact {
      coinsReturned := 0;
      WithinIsServable(mints, used);
      Selected(mints, used);
      selected, value, used := GetSpends(mints, used);
      if |selected| <= AsSize(maxSpends) { return; }
      neededSpends := |selected|;
    }
    assert !Payable(mints, maxSpends, target);
    ServableIs(mints, held);
    coinsReturned, used := CalculateChange(maxSpends, fMinimizeChange, target, held);
    spent := used;
    ServableWithin(mints, held, used);
    ChangeIs(Value(used, N) - target);
    if Within(held, UnusedCounts(mints)) {
      WithinWithin(used, held, UnusedCounts(mints));
      if target % COIN == 0 && Value(held, N) >= target { WholeTargets(mints, maxSpends, fMinimizeChange, target, held); }
    }
    WholeValue(used, N);
    if coinsReturned == 0 {
      selected := [];
    } else {
      Selected(mints, used);
      selected, value, used := GetSpends(mints, used);
    }
  }

  lemma Selected(mints: seq<Mint>, used: Counts)
    requires Servable(mints, used)
    ensures var p := Spends(mints, used, 0);
            && MintsValue(p) == Value(used, N) && |p| == CoinsIn(used, N) && (forall m | m in p :: m in mints && !m.isUsed)
            && (From(p, mints) <==> Within(used, UnusedCounts(mints)))
  {
    hide Spends, Value, CoinsIn, Servable, From, Within, UnusedCounts;
    SpendsIs(mints, used, 0);
    SpendsAreListed(mints, used, 0);
    SpendsOnce(mints, used);
    NoSpends(mints, used);
  }

  // ---------- Holdings that the list cannot serve ----------

  lemma OnlyFives(m: Counts, held: Counts, k: nat)
    requires Full(held) && Within(m, held) && forall i | 0 <= i < N :: Count(held, i) == if i == 1 then k else 0
    ensures Value(m, N) == Count(m, 1) * (5 * COIN) && 0 <= Count(m, 1) <= k
  {
    hide Full, Within, Count;
    SubWithin(m, held);
    FullIs(m);
    WithinIs(m, held);
    SmallCoins(m, 2, N, 0);
    assert Value(m, 1) == Count(m, 0) * D(0);
    assert Value(m, 2) == Count(m, 0) * D(0) + Count(m, 1) * D(1) && D(1) == 5 * COIN;
  }

  lemma TwoFives(held: Counts, maxSpends: int, fMinimizeChange: bool)
    requires Full(held) && forall i | 0 <= i < N :: Count(held, i) == if i == 1 then 2 else 0
    ensures !NoChange(maxSpends, fMinimizeChange, 6 * COIN, held)
  {
    hide Full, Within, Pay, Alt, AltAmount, LargestHeld, Value;
    PayIs(held, 6 * COIN);
    WithinHeld(held);
    OnlyFives(held, held, 2);
    PayCovers(held, N, 6 * COIN);
    OnlyFives(Pay(held, 6 * COIN), held, 2);
    var maxDenom := LargestHeld(held, N);
    AltIs(held, maxDenom, 6 * COIN);
    OnlyFives(Alt(held, maxDenom, 6 * COIN), held, 2);
    if Settles(held, maxDenom, maxSpends, 6 * COIN) { SettlesAfterPaying(held, maxSpends, 6 * COIN); }
    assert NoneOver(held, 6 * COIN);
  }

  lemma WithinHeld(held: Counts)
    requires Full(held)
    ensures Within(held, held)
  {
  }

  lemma OneFiveListed(mints: seq<Mint>, held: Counts)
    requires mints == [Coin(5, 0)] && held == NO_COINS[5 := 2]
    ensures Full(held) && forall i | 0 <= i < N :: Count(held, i) == if i == 1 then 2 else 0
    ensures forall i | 0 <= i < N :: Unused(mints, DENOMS[i], |mints|) == if i == 1 then 1 else 0
  {
    hide Full, NO_COINS, Count, Unused, Value, CoinsIn;
    NoCoins();
    assert held == NO_COINS[DENOMS[1] := 2];
    Update(NO_COINS, N, 1, 2);
    FullIs(NO_COINS);
    FullIs(held);
    forall i | 0 <= i < N ensures DENOMS[i] in held && Count(held, i) >= 0 { assert DENOMS[i] in NO_COINS; }
    UnusedFive(mints);
  }

  lemma UnusedFive(mints: seq<Mint>)
    requires mints == [Coin(5, 0)]
    ensures forall i | 0 <= i < N :: Unused(mints, DENOMS[i], |mints|) == if i == 1 then 1 else 0
  {
    forall i | 0 <= i < N ensures Unused(mints, DENOMS[i], 1) == if i == 1 then 1 else 0 {}
  }

  /** A holding of two 5s where the list has one: to pay six coins the one mint is selected twice. */
  lemma HeldTwice(maxSpends: int, fMinimizeChange: bool)
    ensures var mints, held, target := [Coin(5, 0)], NO_COINS[5 := 2], 6 * COIN;
            && Servable(mints, held) && !Payable(mints, maxSpends, target) && !NoChange(maxSpends, fMinimizeChange, target, held)
            && forall spent | Within(spent, held) && Value(spent, N) >= target :: !Within(spent, UnusedCounts(mints))
  {
    hide Full, Value, CoinsIn, NO_COINS, Count, Exact, Payable, NoChange, Within, UnusedCounts;
    var mints, held, target := [Coin(5, 0)], NO_COINS[5 := 2], 6 * COIN;
    OneFiveListed(mints, held);
    UnusedCountsAt(mints);
    TwoFives(held, maxSpends, fMinimizeChange);
    forall spent | Within(spent, held) && Value(spent, N) >= target ensures !Within(spent, UnusedCounts(mints)) {
      if Within(spent, UnusedCounts(mints)) { OnlyFives(spent, UnusedCounts(mints), 1); }
    }
    PayableIs(mints, maxSpends, target);
    if Exact(mints, target) {
      ExactIffSomeChoice(mints, target);
      GreedyIs(UnusedCounts(mints), target);
      OnlyFives(Greedy(UnusedCounts(mints), target), UnusedCounts(mints), 1);
    }
  }
}
