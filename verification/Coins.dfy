/** CCoins: the unspent outputs of one transaction. */
module Coins {

  datatype TxOut = TxOut(value: int, script: seq<nat>) {
    predicate IsNull() { value == -1 }
  }

  const NULL_OUT := TxOut(-1, [])

  datatype Coins = Coins(coinBase: bool, coinStake: bool, vout: seq<TxOut>, height: int, version: int) {

    /** Nothing is left to spend. */
    predicate IsPruned() { forall i | 0 <= i < |vout| :: vout[i].IsNull() }

    /** No spent output at the end: the form Cleanup leaves. */
    predicate IsTrimmed() { |vout| > 0 ==> !vout[|vout| - 1].IsNull() }

    function Cleanup(): Coins { this.(vout := Trim(vout)) }
  }

  const EMPTY_COINS := Coins(false, false, [], 0, 0)

  function Trim(q: seq<TxOut>): (r: seq<TxOut>)
    ensures r <= q
    ensures |r| > 0 ==> !r[|r| - 1].IsNull()
    ensures forall i | |r| <= i < |q| :: q[i].IsNull()
  {
    if |q| > 0 && q[|q| - 1].IsNull() then Trim(q[..|q| - 1]) else q
  }

  /** A trimmed transaction is pruned just when it has no outputs at all, which is what HaveCoins tests. */
  lemma TrimmedPruned(c: Coins)
    requires c.IsTrimmed()
    ensures c.IsPruned() <==> c.vout == []
  {
    if c.vout != [] { assert !c.vout[|c.vout| - 1].IsNull(); }
  }
}
