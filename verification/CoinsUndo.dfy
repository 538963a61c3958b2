/** Spending an output and taking the spend back: CCoins::Spend and the undo data it fills in. */
module CoinsUndo {
  import opened Coins

  /** CTxInUndo */
  datatype InUndo = InUndo(txout: TxOut, coinBase: bool, coinStake: bool, height: int, version: int)

  predicate CanSpend(c: Coins, n: nat) { n < |c.vout| && !c.vout[n].IsNull() }

  /** The coins without output n. */
  function Spent(c: Coins, n: nat): Coins
    requires CanSpend(c, n)
  {
    c.(vout := c.vout[n := NULL_OUT]).Cleanup()
  }

  /** The undo data: the output and, if it was the last one, what else is known of the transaction. */
  function UndoOf(c: Coins, n: nat): InUndo
    requires CanSpend(c, n)
  {
    if Spent(c, n).vout == [] then InUndo(c.vout[n], c.coinBase, c.coinStake, c.height, c.version)
    else InUndo(c.vout[n], false, false, 0, 0)
  }

  /** CCoins::Spend */
  method Spend(c0: Coins, n: nat, undo0: InUndo) returns (ok: bool, c: Coins, undo: InUndo)
    ensures ok <==> CanSpend(c0, n)
    ensures ok <==> n < |c0.vout| && c0.vout[n].value != -1
    ensures ok ==> c == Spent(c0, n) && undo == UndoOf(c0, n)
    ensures ok ==> undo == if c.vout == [] then InUndo(c0.vout[n], c0.coinBase, c0.coinStake, c0.height, c0.version)
                           else InUndo(c0.vout[n], false, false, 0, 0)
    ensures ok ==> c == c0.(vout := c.vout) && |c.vout| <= |c0.vout| && (c.vout != [] ==> c.vout[|c.vout| - 1].value != -1)
    ensures !ok ==> c == c0 && undo == undo0
  {
    c, undo := c0, undo0;
    if n >= |c.vout| { return false, c, undo; }
    if c.vout[n].IsNull() { return false, c, undo; }
    undo := InUndo(c.vout[n], false, false, 0, 0);
    c := c.(vout := c.vout[n := NULL_OUT]);
    c := Clean(c);
    if |c.vout| == 0 { undo := undo.(height := c.height, coinBase := c.coinBase, coinStake := c.coinStake, version := c.version); }
    ok := true;
  }

  /** CCoins::Cleanup */
  method Clean(c0: Coins) returns (c: Coins)
    ensures c == c0.Cleanup()
  {
    c := c0;
    while |c.vout| > 0 && c.vout[|c.vout| - 1].IsNull()
      invariant c == c0.(vout := c.vout) && Trim(c.vout) == Trim(c0.vout)
      decreases |c.vout|
    {
      c := c.(vout := c.vout[..|c.vout| - 1]);
    }
  }

  /** Spending output n leaves every other output as it was and cannot be repeated. */
  lemma SpentOnce(c: Coins, n: nat)
    requires CanSpend(c, n)
    ensures !CanSpend(Spent(c, n), n)
    ensures forall m: nat | m != n :: CanSpend(Spent(c, n), m) <==> CanSpend(c, m)
    ensures forall m: nat | m != n && CanSpend(c, m) :: m < |Spent(c, n).vout| && Spent(c, n).vout[m] == c.vout[m]
  {
    var v := c.vout[n := NULL_OUT];
    var t := Trim(v);
    assert Spent(c, n).vout == t && NULL_OUT.IsNull();
    forall m: nat | m < |t| ensures t[m] == v[m] {}
    forall m: nat | m != n && CanSpend(c, m) ensures m < |t| && t[m] == c.vout[m] {
      assert !v[m].IsNull();
    }
  }

  /** std::vector::resize, to at least n + 1 outputs. */
  function Widened(v: seq<TxOut>, n: nat): (w: seq<TxOut>)
    ensures |w| == if |v| < n + 1 then n + 1 else |v|
    ensures forall i | 0 <= i < |w| :: w[i] == if i < |v| then v[i] else NULL_OUT
  {
    if |v| < n + 1 then v + seq(n + 1 - |v|, i => NULL_OUT) else v
  }

  /** What DisconnectBlock does with one input's undo data; it does not look at the coinstake flag. */
  function Restored(c: Coins, n: nat, undo: InUndo): Coins {
    var d := if undo.height != 0 then EMPTY_COINS.(coinBase := undo.coinBase, height := undo.height, version := undo.version) else c;
    d.(vout := Widened(d.vout, n)[n := undo.txout]).Cleanup()
  }

  /** As every modification leaves coins: trimmed, and with spent outputs blank. */
  predicate Normal(c: Coins) {
    c.IsTrimmed() && forall i | 0 <= i < |c.vout| && c.vout[i].IsNull() :: c.vout[i] == NULL_OUT
  }

  lemma TrimOfTrimmed(v: seq<TxOut>)
    requires v != [] ==> !v[|v| - 1].IsNull()
    ensures Trim(v) == v
  {
  }

  /** The outputs come back exactly. */
  lemma OutputsComeBack(c: Coins, n: nat)
    requires Normal(c) && CanSpend(c, n)
    ensures Trim(Widened(Spent(c, n).vout, n)[n := c.vout[n]]) == c.vout
    ensures Spent(c, n).vout == [] ==> Trim(Widened([], n)[n := c.vout[n]]) == c.vout
  {
    var v := c.vout[n := NULL_OUT];
    var t := Trim(v);
    var w := Widened(t, n)[n := c.vout[n]];
    if n < |c.vout| - 1 {
      assert !v[|v| - 1].IsNull();
      TrimOfTrimmed(v);
    }
    forall i | 0 <= i < |w| && i < |c.vout| ensures w[i] == c.vout[i] {
      if |t| <= i && i != n { assert v[i].IsNull() && v[i] == c.vout[i]; }
    }
    assert w == c.vout;
    TrimOfTrimmed(c.vout);
  }

  /** Taking a spend back restores the coins, unless the output was the last one of a coinstake
      transaction above height zero: the undo data has the flag, but it is not put back. */
  lemma UndoRestores(c: Coins, n: nat)
    requires Normal(c) && CanSpend(c, n)
    ensures Restored(Spent(c, n), n, UndoOf(c, n)) == c <==> Spent(c, n).vout != [] || c.height == 0 || !c.coinStake
  {
    hide Trim, Widened;
    OutputsComeBack(c, n);
  }

  /** The same when the spent coins have been dropped from every cache and the database since: above
      height zero nothing else is lost. */
  lemma UndoRestoresMissing(c: Coins, n: nat)
    requires Normal(c) && CanSpend(c, n) && Spent(c, n).vout == []
    ensures Restored(EMPTY_COINS, n, UndoOf(c, n)) == c <==>
            if c.height != 0 then !c.coinStake else c.(vout := []) == Coins(false, false, [], 0, 0)
  {
    hide Trim, Widened;
    OutputsComeBack(c, n);
  }

  /** The empty first output that marks a coinstake, when it is the only output left: spent and put
      back, it is a coinstake's no longer. */
  lemma UndoForgetsStake()
    ensures var c := Coins(false, true, [TxOut(0, [])], 1, 1);
            && Normal(c) && CanSpend(c, 0)
            && Restored(Spent(c, 0), 0, UndoOf(c, 0)) == c.(coinStake := false) != c
  {
    var c := Coins(false, true, [TxOut(0, [])], 1, 1);
    assert Spent(c, 0).vout == Trim([NULL_OUT]) == [];
    OutputsComeBack(c, 0);
  }
}
