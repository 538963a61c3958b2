/** What the stack of caches shows and keeps, and what a mask byte says, in terms of the outputs themselves: an output
    with the value -1 is spent. */
module CoinsLaws {
  import opened Arithmetic
  import opened Coins
  import opened CoinsLayers
  import CoinsStream

  /** Coins are known under a txid exactly if they have an output that is not spent in the highest layer that has
      an entry, or in the database if none has. */
  lemma {:induction false} FlatIff(cs: seq<Cache>, db: Db, t: Txid, i: nat)
    requires i <= |cs| && forall j | 0 <= j < i :: t !in cs[j]
    ensures i < |cs| && t in cs[i] ==>
              (t in Flat(cs, db) <==> exists k :: 0 <= k < |cs[i][t].coins.vout| && cs[i][t].coins.vout[k].value != -1)
    ensures i == |cs| ==>
              (t in Flat(cs, db) <==> t in db && exists k :: 0 <= k < |db[t].vout| && db[t].vout[k].value != -1)
    ensures i < |cs| && t in cs[i] && t in Flat(cs, db) ==> Flat(cs, db)[t] == cs[i][t].coins
    ensures i == |cs| && t in Flat(cs, db) ==> Flat(cs, db)[t] == db[t]
    decreases i
  {
    hide Flat;
    FlatAt(cs, db, t);
    if i > 0 {
      FlatIff(cs[1..], db, t, i - 1);
      FlatAt(cs[1..], db, t);
      assert GetCoins(cs, db, t) == GetCoins(cs[1..], db, t);
    }
    if i < |cs| && t in cs[i] { PrunedIff(cs[i][t].coins); }
    if i == |cs| && t in db { PrunedIff(db[t]); }
  }

  lemma PrunedIff(c: Coins)
    ensures c.IsPruned() <==> !exists k :: 0 <= k < |c.vout| && c.vout[k].value != -1
  {
    if !c.IsPruned() {
      var k :| 0 <= k < |c.vout| && !c.vout[k].IsNull();
      assert c.vout[k].value != -1;
    }
  }

  ghost predicate AllSpent(c: Coins) { forall k | 0 <= k < |c.vout| :: c.vout[k].value == -1 }

  lemma AllSpentIs(c: Coins)
    ensures AllSpent(c) <==> c.IsPruned()
    ensures AllSpent(c) <==> c.Cleanup().IsPruned()
  {
    CleanupPruned(c);
    PrunedIff(c);
  }

  // ---------- What a cache keeps ----------

  /** A fetch adds copies of one txid only, to be written nowhere, and fresh exactly if they are spent. */
  lemma {:induction false} FetchIsClean(cs: seq<Cache>, db: Db, t: Txid, i: nat, u: Txid)
    requires i < |cs| && u in Fetch(cs, db, t)[i]
    ensures if u in cs[i] then Fetch(cs, db, t)[i][u] == cs[i][u]
            else var en := Fetch(cs, db, t)[i][u]; u == t && !en.dirty && (en.isFresh <==> AllSpent(en.coins))
    decreases i
  {
    if t !in cs[0] {
      if i > 0 { FetchIsClean(cs[1..], db, t, i - 1, u); }
      if GetCoins(cs[1..], db, t).Some? { AllSpentIs(GetCoins(cs[1..], db, t).value); }
    }
  }

  /** Releasing a modifier touches its own txid only; the entry goes exactly if it is fresh and now spent. */
  lemma ReleaseKeeps(cs: seq<Cache>, t: Txid, c: Coins, u: Txid)
    requires cs != [] && t in cs[0]
    ensures Release(cs, t, c)[1..] == cs[1..]
    ensures u != t ==> (u in Release(cs, t, c)[0] <==> u in cs[0]) && (u in cs[0] ==> Release(cs, t, c)[0][u] == cs[0][u])
    ensures t in Release(cs, t, c)[0] <==> !(cs[0][t].isFresh && AllSpent(c))
  {
    AllSpentIs(c);
  }

  /** A child's dirty entry replaces the parent's coins, and is dropped if it is spent and the parent has none or a
      fresh one; what arrives is dirty, and fresh unless the parent had an entry that was not. */
  lemma BatchKeeps(c: Cache, child: Cache, r: Cache, t: Txid)
    requires BatchWritten(c, child, r)
    ensures !(t in child && child[t].dirty) ==> (t in r <==> t in c) && (t in c ==> r[t] == c[t])
    ensures t in child && child[t].dirty ==>
              && (t !in r <==> AllSpent(child[t].coins) && (t in c ==> c[t].isFresh))
              && (t in r ==> r[t].coins == child[t].coins && r[t].dirty && (r[t].isFresh <==> (t in c ==> c[t].isFresh)))
  {
    assert At(r, t) == if t in child then WriteEntry(At(c, t), child[t]) else At(c, t);
    if t in child { AllSpentIs(child[t].coins); }
    AtIs(c, c, t);
  }

  // ---------- Mask bytes ----------

  predicate Left(vout: seq<TxOut>, i: nat) { i < |vout| && vout[i].value != -1 }

  /** Mask byte b has bit i, counted from the lowest, for output 2 + 8b + i. */
  lemma MaskByteIs(vout: seq<TxOut>, b: nat)
    ensures CoinsStream.MaskByte(vout, b) ==
              (if Left(vout, 2 + 8 * b) then 1 else 0) + (if Left(vout, 3 + 8 * b) then 2 else 0)
              + (if Left(vout, 4 + 8 * b) then 4 else 0) + (if Left(vout, 5 + 8 * b) then 8 else 0)
              + (if Left(vout, 6 + 8 * b) then 16 else 0) + (if Left(vout, 7 + 8 * b) then 32 else 0)
              + (if Left(vout, 8 + 8 * b) then 64 else 0) + (if Left(vout, 9 + 8 * b) then 128 else 0)
  {
    hide CoinsStream.MaskBits, CoinsStream.Flag, Left;
    BitsNext(vout, b, 0, 1);
    BitsNext(vout, b, 1, 2);
    BitsNext(vout, b, 2, 4);
    BitsNext(vout, b, 3, 8);
    BitsNext(vout, b, 4, 16);
    BitsNext(vout, b, 5, 32);
    BitsNext(vout, b, 6, 64);
    BitsNext(vout, b, 7, 128);
  }

  lemma BitsNext(vout: seq<TxOut>, b: nat, p: nat, w: nat)
    requires p < 8 && w == [1, 2, 4, 8, 16, 32, 64, 128][p]
    ensures CoinsStream.MaskBits(vout, b, p + 1) == CoinsStream.MaskBits(vout, b, p) + if Left(vout, 2 + p + 8 * b) then w else 0
    ensures CoinsStream.MaskBits(vout, b, 0) == 0
  {
    Weight(p, w);
    assert CoinsStream.Flag(vout, b, p) <==> Left(vout, 2 + p + 8 * b);
    assert CoinsStream.MaskBits(vout, b, p + 1) ==
           CoinsStream.MaskBits(vout, b, p) + CoinsStream.Bit(CoinsStream.Flag(vout, b, p)) * Pow2(p);
  }

  lemma Weight(p: nat, w: nat)
    requires p < 8 && w == [1, 2, 4, 8, 16, 32, 64, 128][p]
    ensures Pow2(p) == w
  {
    assert Pow2(3) == 8 && Pow2(7) == 128;
  }

  // ---------- The stored form ----------

  /** The outputs that are left, in order. */
  lemma {:induction false} OutputsInOrder(vout: seq<TxOut>, n: nat) returns (at: seq<nat>)
    requires n <= |vout|
    ensures var r := CoinsStream.Outputs(vout, n);
            && |at| == |r| && (forall k | 0 <= k < |r| :: at[k] < n && r[k] == CoinsStream.Output(vout[at[k]]))
            && (forall i, j | 0 <= i < j < |r| :: at[i] < at[j])
    ensures forall i | 0 <= i < n :: vout[i].value != -1 <==> i in at
  {
    at := [];
    if n > 0 {
      at := OutputsInOrder(vout, n - 1);
      if !vout[n - 1].IsNull() { at := at + [n - 1]; }
    }
  }

  /** Version, code word, mask, outputs, height. */
  lemma LayoutIs(c: Coins, w: seq<CoinsStream.Item>, mask: seq<CoinsStream.Item>, outs: seq<CoinsStream.Item>)
    requires CoinsStream.Encodes(c, w) && |w| == 3 + |mask| + |outs|
    requires outs == CoinsStream.Outputs(c.vout, |c.vout|) && mask == w[2..2 + |mask|]
    ensures exists code :: w == [CoinsStream.Varint(c.version), CoinsStream.Varint(code)] + mask + outs + [CoinsStream.Varint(c.height)]
    ensures forall b | 0 <= b < |mask| :: mask[b] == CoinsStream.Byte(CoinsStream.MaskByte(c.vout, b))
  {
    hide CoinsStream.Outputs, CoinsStream.MaskBits, CoinsStream.CodeWord, CoinsStream.MaskSize, CoinsStream.NonzeroBytes;
    var code := w[1].n;
    var v := [CoinsStream.Varint(c.version), CoinsStream.Varint(code)] + mask + outs + [CoinsStream.Varint(c.height)];
    assert w[2 + |mask|..2 + |mask| + |outs|] == outs;
    forall i | 0 <= i < |w| ensures w[i] == v[i] {
      if 2 <= i < 2 + |mask| { assert mask[i - 2] == w[2..2 + |mask|][i - 2]; }
      else if 2 + |mask| <= i < |w| - 1 { assert outs[i - 2 - |mask|] == w[2 + |mask|..2 + |mask| + |outs|][i - 2 - |mask|]; }
    }
    assert w == v;
  }
}
