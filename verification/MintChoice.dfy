/** Lists of zerocoin mints, the choices that can be made from them, and their value. */
module MintChoice {
  import opened Denominations

  /** CMintMeta; id stands for the serial, public coin and stake hashes. */
  datatype Mint = Mint(denom: int, isUsed: bool, id: nat)

  predicate Spendable(m: Mint, d: int) { !m.isUsed && m.denom == d }

  /** How many of the first n mints are unused and of denomination d. */
  function Unused(mints: seq<Mint>, d: int, n: nat): (k: nat)
    requires n <= |mints|
    ensures k <= n
  {
    if n == 0 then 0 else Unused(mints, d, n - 1) + if Spendable(mints[n - 1], d) then 1 else 0
  }

  function UnusedCounts(mints: seq<Mint>): Counts {
    map i | 0 <= i < N :: DENOMS[i] := Unused(mints, DENOMS[i], |mints|)
  }

  lemma UnusedCountsAt(mints: seq<Mint>)
    ensures Full(UnusedCounts(mints)) && UnusedCounts(mints).Keys == NO_COINS.Keys
    ensures forall i | 0 <= i < N :: DENOMS[i] in UnusedCounts(mints) && Count(UnusedCounts(mints), i) == Unused(mints, DENOMS[i], |mints|)
  {
    forall i | 0 <= i < N ensures DENOMS[i] in UnusedCounts(mints) && UnusedCounts(mints)[DENOMS[i]] == Unused(mints, DENOMS[i], |mints|) {}
  }

  // ---------- Choices ----------

  /** A choice among the first n mints, of unused ones only. */
  ghost predicate Choice(mints: seq<Mint>, c: seq<bool>) {
    |c| == |mints| && forall j | 0 <= j < |c| :: c[j] ==> !mints[j].isUsed
  }

  function ChoiceValue(mints: seq<Mint>, c: seq<bool>, n: nat): int
    requires n <= |c| == |mints|
  {
    if n == 0 then 0 else ChoiceValue(mints, c, n - 1) + if c[n - 1] then ToAmount(mints[n - 1].denom) else 0
  }

  function Chosen(mints: seq<Mint>, c: seq<bool>, d: int, n: nat): nat
    requires n <= |c| == |mints|
  {
    if n == 0 then 0 else Chosen(mints, c, d, n - 1) + if c[n - 1] && mints[n - 1].denom == d then 1 else 0
  }

  function ChosenCounts(mints: seq<Mint>, c: seq<bool>, n: nat): Counts
    requires n <= |c| == |mints|
  {
    map i | 0 <= i < N :: DENOMS[i] := Chosen(mints, c, DENOMS[i], n)
  }

  lemma ChosenCountsAt(mints: seq<Mint>, c: seq<bool>, n: nat)
    requires n <= |c| == |mints|
    ensures Full(ChosenCounts(mints, c, n))
    ensures forall i | 0 <= i < N :: Count(ChosenCounts(mints, c, n), i) == Chosen(mints, c, DENOMS[i], n)
  {
    forall i | 0 <= i < N ensures DENOMS[i] in ChosenCounts(mints, c, n) && ChosenCounts(mints, c, n)[DENOMS[i]] == Chosen(mints, c, DENOMS[i], n) {}
  }

  lemma DenomAmount(d: int)
    ensures (exists i :: 0 <= i < N && DENOMS[i] == d) <==> d in DENOMS
    ensures forall i | 0 <= i < N && DENOMS[i] == d :: ToAmount(d) == D(i)
    ensures d !in DENOMS ==> ToAmount(d) == 0
  {
  }

  /** One coin more of denomination i, or none. */
  lemma {:induction false} OneMore(a: Counts, b: Counts, n: nat, d: int)
    requires n <= N && forall i | 0 <= i < N :: Count(b, i) == Count(a, i) + if DENOMS[i] == d then 1 else 0
    ensures Value(b, n) == Value(a, n) + if exists i :: 0 <= i < n && DENOMS[i] == d then ToAmount(d) else 0
    ensures CoinsIn(a, n) <= CoinsIn(b, n) <= CoinsIn(a, n) + 1
    ensures (forall i | 0 <= i < n :: DENOMS[i] != d) ==> CoinsIn(a, n) == CoinsIn(b, n)
  {
    hide D, ToAmount;
    if n > 0 {
      OneMore(a, b, n - 1, d);
      DenomAmount(d);
      if DENOMS[n - 1] == d {
        assert forall i | 0 <= i < n - 1 :: DENOMS[i] != DENOMS[n - 1];
        Distribute(Count(b, n - 1), 1, D(n - 1));
      }
    }
  }

  lemma {:induction false} ChosenBounds(mints: seq<Mint>, c: seq<bool>, d: int, n: nat)
    requires Choice(mints, c) && n <= |c|
    ensures Chosen(mints, c, d, n) <= Unused(mints, d, n)
  {
    if n > 0 { ChosenBounds(mints, c, d, n - 1); }
  }

  function ChoiceSize(c: seq<bool>, n: nat): nat
    requires n <= |c|
  {
    if n == 0 then 0 else ChoiceSize(c, n - 1) + if c[n - 1] then 1 else 0
  }

  lemma {:induction false} ChosenValue(mints: seq<Mint>, c: seq<bool>, n: nat)
    requires n <= |c| == |mints|
    ensures Value(ChosenCounts(mints, c, n), N) == ChoiceValue(mints, c, n)
    ensures CoinsIn(ChosenCounts(mints, c, n), N) <= ChoiceSize(c, n)
  {
    hide ToAmount, D, Value, ChosenCounts, CoinsIn;
    ChosenCountsAt(mints, c, n);
    if n == 0 {
      ZeroValue(ChosenCounts(mints, c, 0), N);
    } else {
      ChosenCountsAt(mints, c, n - 1);
      ChosenValue(mints, c, n - 1);
      DenomAmount(mints[n - 1].denom);
      if c[n - 1] {
        OneMore(ChosenCounts(mints, c, n - 1), ChosenCounts(mints, c, n), N, mints[n - 1].denom);
      } else {
        SameValue(ChosenCounts(mints, c, n - 1), ChosenCounts(mints, c, n), N);
      }
    }
  }

  /** A choice of mints is a choice of counts within what is unused. */
  lemma ChoiceToCounts(mints: seq<Mint>, c: seq<bool>)
    requires Choice(mints, c)
    ensures Within(ChosenCounts(mints, c, |c|), UnusedCounts(mints))
    ensures Value(ChosenCounts(mints, c, |c|), N) == ChoiceValue(mints, c, |c|)
    ensures CoinsIn(ChosenCounts(mints, c, |c|), N) <= ChoiceSize(c, |c|)
  {
    hide Value, ChosenCounts, UnusedCounts, Full, Within;
    ChosenValue(mints, c, |c|);
    ChosenCountsAt(mints, c, |c|);
    UnusedCountsAt(mints);
    forall i | 0 <= i < N ensures Chosen(mints, c, DENOMS[i], |c|) <= Unused(mints, DENOMS[i], |mints|) {
      ChosenBounds(mints, c, DENOMS[i], |c|);
    }
    WithinIs(ChosenCounts(mints, c, |c|), UnusedCounts(mints));
  }

  /** The choice that takes, of every denomination, the first s of the unused mints. */
  function First(mints: seq<Mint>, s: Counts, n: nat): (c: seq<bool>)
    requires n <= |mints|
    ensures |c| == n
  {
    if n == 0 then []
    else
      var m := mints[n - 1];
      First(mints, s, n - 1) + [!m.isUsed && m.denom in s && Unused(mints, m.denom, n - 1) < s[m.denom]]
  }

  lemma {:induction false} FirstAt(mints: seq<Mint>, s: Counts, n: nat, j: nat)
    requires j < n <= |mints|
    ensures var m := mints[j]; First(mints, s, n)[j] == (!m.isUsed && m.denom in s && Unused(mints, m.denom, j) < s[m.denom])
  {
    if j < n - 1 { FirstAt(mints, s, n - 1, j); }
  }

  lemma FirstIsChoice(mints: seq<Mint>, s: Counts)
    ensures Choice(mints, First(mints, s, |mints|))
  {
    forall j | 0 <= j < |mints| ensures First(mints, s, |mints|)[j] ==> !mints[j].isUsed { FirstAt(mints, s, |mints|, j); }
  }

  lemma {:induction false} FirstChosen(mints: seq<Mint>, s: Counts, d: int, n: nat)
    requires n <= |mints| && d in s && s[d] >= 0
    ensures var u := Unused(mints, d, n);
            Chosen(mints, First(mints, s, |mints|), d, n) == if u < s[d] then u else s[d]
  {
    if n > 0 {
      FirstChosen(mints, s, d, n - 1);
      FirstAt(mints, s, |mints|, n - 1);
    }
  }

  lemma CountsToChoice(mints: seq<Mint>, s: Counts)
    requires Within(s, UnusedCounts(mints))
    ensures var c := First(mints, s, |mints|); Choice(mints, c) && ChoiceValue(mints, c, |c|) == Value(s, N)
  {
    hide Value, ChosenCounts, First, CoinsIn;
    var c := First(mints, s, |mints|);
    FirstIsChoice(mints, s);
    ChosenValue(mints, c, |mints|);
    ChosenCountsAt(mints, c, |mints|);
    UnusedCountsAt(mints);
    SubWithin(s, UnusedCounts(mints));
    WithinIs(s, UnusedCounts(mints));
    forall i | 0 <= i < N ensures Count(s, i) == Count(ChosenCounts(mints, c, |mints|), i) {
      FirstChosen(mints, s, DENOMS[i], |mints|);
    }
    SameValue(s, ChosenCounts(mints, c, |mints|), N);
  }

  /** Some unused mints add up to exactly the target. */
  ghost predicate Exact(mints: seq<Mint>, target: int) {
    exists c :: Choice(mints, c) && ChoiceValue(mints, c, |c|) == target
  }

  /** How many mints greedy selection takes. */
  function Least(mints: seq<Mint>, target: int): int {
    CoinsIn(Greedy(UnusedCounts(mints), target), N)
  }

  /** Greedy selection meets the target exactly if and only if some choice of unused mints does, and
      then no such choice has fewer mints. */
  lemma ExactIffSomeChoice(mints: seq<Mint>, target: int)
    ensures GreedyRem(UnusedCounts(mints), N, target) == 0 <==> Exact(mints, target)
    ensures forall c | Choice(mints, c) && ChoiceValue(mints, c, |c|) == target :: Least(mints, target) <= ChoiceSize(c, |c|)
  {
    hide Value, ChosenCounts, First, GreedyRem, Within, UnusedCounts, ChoiceValue, ChoiceSize, Full, Greedy, CoinsIn;
    UnusedCountsAt(mints);
    GreedyIsComplete(UnusedCounts(mints), target);
    if GreedyRem(UnusedCounts(mints), N, target) == 0 {
      var s :| Within(s, UnusedCounts(mints)) && Value(s, N) == target;
      CountsToChoice(mints, s);
    }
    forall c | Choice(mints, c) && ChoiceValue(mints, c, |c|) == target
      ensures GreedyRem(UnusedCounts(mints), N, target) == 0 && Least(mints, target) <= ChoiceSize(c, |c|)
    {
      ChoiceToCounts(mints, c);
    }
  }
}
