/** CCoinsViewDB and CCoinsViewCache: the database and the caches stacked on it, updated in place. */
module CoinsView {
  import opened Results
  import opened Coins
  import opened CoinsLayers

  class CoinsViewDB {
    var coins: Db
    var bestBlock: nat

    constructor (coins: Db, bestBlock: nat)
      ensures this.coins == coins && this.bestBlock == bestBlock
    {
      this.coins := coins;
      this.bestBlock := bestBlock;
    }

    /** Store the dirty entries, erasing pruned ones; the best block only if one is given. */
    method BatchWrite(child: Cache, hashBlock: nat)
      modifies this
      ensures DbWritten(old(coins), child, coins)
      ensures bestBlock == if hashBlock != 0 then hashBlock else old(bestBlock)
    {
      var todo := child.Keys;
      while todo != {}
        invariant todo <= child.Keys && bestBlock == old(bestBlock)
        invariant forall t :: At(coins, t) ==
                    if t in child && t !in todo && child[t].dirty then Unspent(Some(child[t].coins)) else At(old(coins), t)
      {
        var t :| t in todo;
        if child[t].dirty {
          if child[t].coins.IsPruned() { coins := coins - {t}; } else { coins := coins[t := child[t].coins]; }
        }
        todo := todo - {t};
      }
      if hashBlock != 0 { bestBlock := hashBlock; }
    }
  }

  ghost function CachesOf(st: seq<CoinsViewCache>): (r: seq<Cache>)
    reads st
    ensures |r| == |st|
  {
    if st == [] then [] else [st[0].cacheCoins] + CachesOf(st[1..])
  }

  ghost function HashesOf(st: seq<CoinsViewCache>): (r: seq<nat>)
    reads st
    ensures |r| == |st|
  {
    if st == [] then [] else [st[0].hashBlock] + HashesOf(st[1..])
  }

  class CoinsViewCache {
    const base: CoinsViewCache?
    const db: CoinsViewDB
    var hasModifier: bool
    var hashBlock: nat
    var cacheCoins: Cache

    /** This cache and all those below it. */
    ghost const stack: seq<CoinsViewCache>

    ghost predicate WellStacked()
      decreases |stack|
    {
      && stack == [this] + (if base == null then [] else base.stack)
      && (base != null ==> base.db == db && this !in base.stack && base.WellStacked())
    }

    ghost predicate Valid()
      reads stack, db
    {
      WellStacked() && Inv(CachesOf(stack), db.coins)
    }

    /** What the whole stack, down to the database, stands for. */
    ghost function Coins(): map<Txid, Coins>
      reads stack, db
    {
      Flat(CachesOf(stack), db.coins)
    }

    ghost function Best(): nat
      reads stack, db
    {
      BestBlock(HashesOf(stack), db.bestBlock)
    }

    /** A cache straight on the database, or on top of another cache. */
    constructor (db: CoinsViewDB, base: CoinsViewCache?)
      requires if base == null then forall t | t in db.coins :: db.coins[t].IsTrimmed() else base.Valid() && base.db == db
      ensures Valid() && fresh(this) && this.base == base && this.db == db && !hasModifier
      ensures stack == [this] + if base == null then [] else base.stack
      ensures Coins() == if base == null then Flat([], db.coins) else base.Coins()
      ensures Best() == if base == null then db.bestBlock else base.Best()
    {
      this.db := db;
      this.base := base;
      hasModifier, hashBlock, cacheCoins := false, 0, map[];
      stack := [this] + if base == null then [] else base.stack;
      new;
      ghost var below := Below();
      EmptyOnTop(CachesOf(below), HashesOf(below), db.coins, db.bestBlock);
    }

    /** The layers below this one. */
    ghost function Below(): seq<CoinsViewCache> { if base == null then [] else base.stack }

    lemma Layers()
      requires WellStacked()
      ensures stack[1..] == Below() && this !in Below() && |Below()| < |stack|
      ensures CachesOf(stack) == [cacheCoins] + CachesOf(Below())
      ensures HashesOf(stack) == [hashBlock] + HashesOf(Below())
      ensures CachesOf(stack)[0] == cacheCoins && HashesOf(stack)[0] == hashBlock
      ensures this in stack && CachesOf(stack)[1..] == CachesOf(Below()) && HashesOf(stack)[1..] == HashesOf(Below())
      ensures Best() == if hashBlock != 0 then hashBlock else BestBlock(HashesOf(Below()), db.bestBlock)
      ensures base == null ==> CachesOf(Below()) == [] && HashesOf(Below()) == [] && CachesOf(stack) == [cacheCoins]
    {
    }

    lemma BaseIsValid()
      requires Valid() && base != null
      ensures base.Valid()
    {
      Layers();
      InvBelow(CachesOf(stack), db.coins);
    }

    /** base->GetCoins. */
    method BaseGetCoins(t: Txid) returns (found: bool, c: Coins)
      requires Valid()
      modifies Below()
      ensures Inv(CachesOf(Below()), db.coins) && CachesOf(Below()) == Fetch(old(CachesOf(Below())), db.coins, t)
      ensures HashesOf(Below()) == old(HashesOf(Below()))
      ensures found <==> CoinsLayers.GetCoins(old(CachesOf(Below())), db.coins, t).Some?
      ensures found ==> c == CoinsLayers.GetCoins(old(CachesOf(Below())), db.coins, t).value
      decreases |stack|, 0
    {
      InvBelow(CachesOf(stack), db.coins);
      assert CachesOf(stack)[1..] == CachesOf(Below());
      c := EMPTY_COINS;
      if base == null {
        found := t in db.coins;
        if found { c := db.coins[t]; }
      } else {
        found := base.FetchCoins(t);
        if found { c := base.cacheCoins[t].coins; }
      }
    }

    /** FetchCoins on a txid that this layer does not have. */
    method Pull(t: Txid) returns (found: bool)
      requires Valid() && t !in cacheCoins
      modifies stack
      ensures hasModifier == old(hasModifier) && hashBlock == old(hashBlock) && HashesOf(Below()) == old(HashesOf(Below()))
      ensures CachesOf(Below()) == Fetch(old(CachesOf(Below())), db.coins, t)
      ensures found <==> CoinsLayers.GetCoins(old(CachesOf(Below())), db.coins, t).Some?
      ensures cacheCoins ==
              match CoinsLayers.GetCoins(old(CachesOf(Below())), db.coins, t)
              case None => old(cacheCoins)
              case Some(c) => old(cacheCoins)[t := Entry(c, false, c.IsPruned())]
      decreases |stack|, 1
    {
      hide Inv, Fetch, CoinsLayers.GetCoins, CachesOf, HashesOf;
      Layers();
      var tmp;
      found, tmp := BaseGetCoins(t);
      if !found { return; }
      cacheCoins := cacheCoins[t := Entry(tmp, false, false)];
      if tmp.IsPruned() {
        // Nothing unspent below, so Inv allows the flag.
        cacheCoins := cacheCoins[t := cacheCoins[t].(isFresh := true)];
      }
      assert cacheCoins == old(cacheCoins)[t := Entry(tmp, false, tmp.IsPruned())];
    }

    /** Every layer down to the one that has the coins takes a copy. */
    method FetchCoins(t: Txid) returns (found: bool)
      requires Valid()
      modifies stack
      ensures Valid() && CachesOf(stack) == Fetch(old(CachesOf(stack)), db.coins, t)
      ensures Coins() == old(Coins()) && HashesOf(stack) == old(HashesOf(stack)) && hasModifier == old(hasModifier)
      ensures found <==> t in cacheCoins
      ensures found <==> CoinsLayers.GetCoins(old(CachesOf(stack)), db.coins, t).Some?
      ensures found ==> cacheCoins[t].coins == CoinsLayers.GetCoins(old(CachesOf(stack)), db.coins, t).value
      decreases |stack|, 2
    {
      hide Inv, Flat, Fetch, CachesOf, HashesOf;
      ghost var cs, below, d := CachesOf(stack), CachesOf(Below()), db.coins;
      Layers();
      FetchKeepsInv(cs, d, t);
      FetchKeepsFlat(cs, d, t);
      FetchUnfold(cacheCoins, below, d, t);
      ghost var c0 := cacheCoins;
      GetOnTop(cacheCoins, below, d, t);
      if t in cacheCoins { return true; }
      found := Pull(t);
      ghost var below1 := CachesOf(Below());
      FetchIs(c0, below, cacheCoins, below1, d, t);
      Layers();
    }

    /** GetCoins and AccessCoins: a pruned result stands for nothing unspent. */
    method GetCoins(t: Txid) returns (found: bool, c: Coins)
      requires Valid()
      modifies stack
      ensures Valid() && Coins() == old(Coins()) && HashesOf(stack) == old(HashesOf(stack)) && hasModifier == old(hasModifier)
      ensures (if found then Unspent(Some(c)) else None) == if t in Coins() then Some(Coins()[t]) else None
    {
      hide Inv, Flat, Fetch, CachesOf, HashesOf;
      FlatAt(CachesOf(stack), db.coins, t);
      c := EMPTY_COINS;
      found := FetchCoins(t);
      if found { c := cacheCoins[t].coins; }
    }

    /** HaveCoins tests for outputs, not for unspent ones; for the trimmed coins of a view that is the same. */
    method HaveCoins(t: Txid) returns (have: bool)
      requires Valid()
      modifies stack
      ensures Valid() && Coins() == old(Coins()) && HashesOf(stack) == old(HashesOf(stack)) && hasModifier == old(hasModifier)
      ensures have <==> t in Coins()
    {
      hide Inv, Flat, Fetch, CachesOf, HashesOf;
      FlatAt(CachesOf(stack), db.coins, t);
      if CoinsLayers.GetCoins(CachesOf(stack), db.coins, t).Some? {
        GetIsTrimmed(CachesOf(stack), db.coins, t);
        TrimmedPruned(CoinsLayers.GetCoins(CachesOf(stack), db.coins, t).value);
      }
      var found := FetchCoins(t);
      have := found && cacheCoins[t].coins.vout != [];
    }

    /** The entry for a txid in this layer, fetched if it is not there; without coins below it is an empty one. */
    method FetchEntry(t: Txid)
      requires Valid()
      modifies stack
      ensures hasModifier == old(hasModifier) && hashBlock == old(hashBlock) && HashesOf(Below()) == old(HashesOf(Below()))
      ensures t in old(cacheCoins) ==> cacheCoins == old(cacheCoins) && CachesOf(Below()) == old(CachesOf(Below()))
      ensures t !in old(cacheCoins) ==>
                && CachesOf(Below()) == Fetch(old(CachesOf(Below())), db.coins, t)
                && cacheCoins ==
                   match CoinsLayers.GetCoins(old(CachesOf(Below())), db.coins, t)
                   case None => old(cacheCoins)[t := Entry(EMPTY_COINS, false, true)]
                   case Some(d) => old(cacheCoins)[t := Entry(d, false, d.IsPruned())]
    {
      hide Inv, Fetch, CoinsLayers.GetCoins, CachesOf, HashesOf;
      Layers();
      if t in cacheCoins { return; }
      var en := Entry(EMPTY_COINS, false, false);
      var found, c := BaseGetCoins(t);
      if !found {
        // Lookup below is None.
        en := Entry(EMPTY_COINS, false, true);
      } else if c.IsPruned() {
        // Pruned coins below also make Lookup None.
        en := Entry(c, false, true);
      } else {
        en := Entry(c, false, false);
      }
      cacheCoins := cacheCoins[t := en];
    }

    /** Mark it, and let nobody else open one. */
    method OpenEntry(t: Txid)
      requires Valid()
      modifies stack
      ensures WellStacked() && hasModifier && HashesOf(stack) == old(HashesOf(stack))
      ensures CachesOf(stack) == Modify(old(CachesOf(stack)), db.coins, t)
    {
      hide Inv, Fetch, Modify, CoinsLayers.GetCoins, CachesOf, HashesOf;
      ghost var c0, below0 := cacheCoins, CachesOf(Below());
      Layers();
      FetchEntry(t);
      ghost var c1, below1 := cacheCoins, CachesOf(Below());
      ModifyIs(c0, below0, c1, below1, db.coins, t);
      cacheCoins := cacheCoins[t := cacheCoins[t].(dirty := true)];
      hasModifier := true;
      Layers();
      assert CachesOf(Below()) == below1;
    }

    /** Open an entry for modification; `c` is what the modifier starts from. */
    method ModifyCoins(t: Txid) returns (c: Coins)
      requires Valid() && !hasModifier
      modifies stack
      ensures Valid() && hasModifier && t in cacheCoins && cacheCoins[t].dirty
      ensures Coins() == old(Coins()) && HashesOf(stack) == old(HashesOf(stack))
      ensures Unspent(Some(c)) == if t in Coins() then Some(Coins()[t]) else None
      ensures CachesOf(stack) == Modify(old(CachesOf(stack)), db.coins, t) && c == cacheCoins[t].coins
    {
      hide Inv, Flat, Fetch, Modify, CoinsLayers.GetCoins, Lookup, CachesOf, HashesOf, Unspent;
      ghost var cs, d := CachesOf(stack), db.coins;
      Layers();
      ModifyStep(cs, d, t);
      SameFlat(cs, d, Modify(cs, d, t), d);
      FlatAt(cs, d, t);
      OpenEntry(t);
      Layers();
      c := cacheCoins[t].coins;
    }

    /** The modifier is destroyed, having left `c` in the entry. */
    method ReleaseModifier(t: Txid, c: Coins)
      requires Valid() && hasModifier && t in cacheCoins && cacheCoins[t].dirty
      modifies this
      ensures Valid() && !hasModifier && HashesOf(stack) == old(HashesOf(stack))
      ensures Coins() == if c.IsPruned() then old(Coins()) - {t} else old(Coins())[t := c.Cleanup()]
      ensures CachesOf(stack) == Release(old(CachesOf(stack)), t, c)
    {
      hide Inv, Flat, Fetch, CachesOf, HashesOf;
      ghost var cs, d := CachesOf(stack), db.coins;
      Layers();
      ReleaseStep(cs, d, t, c);
      ReleaseFlat(cs, d, t, c);
      hasModifier := false;
      cacheCoins := cacheCoins[t := cacheCoins[t].(coins := c.Cleanup())];
      if cacheCoins[t].isFresh && cacheCoins[t].coins.IsPruned() {
        cacheCoins := cacheCoins - {t};
      }
      Layers();
      assert CachesOf(Below()) == cs[1..];
      assert CachesOf(stack)[0] == Release(cs, t, c)[0];
      assert CachesOf(stack) == Release(cs, t, c);
    }

    /** The body of the loop of BatchWrite: take over one entry of the cache above, if it is dirty. */
    method WriteBack(t: Txid, en: Entry)
      requires en.dirty && t !in cacheCoins && !en.coins.IsPruned() ==> en.isFresh
      modifies this`cacheCoins
      ensures forall u :: At(cacheCoins, u) == if u == t then WriteEntry(At(old(cacheCoins), t), en) else At(old(cacheCoins), u)
    {
      if en.dirty {
        if t !in cacheCoins {
          if !en.coins.IsPruned() {
            assert en.isFresh;
            cacheCoins := cacheCoins[t := Entry(en.coins, true, true)];
          }
        } else {
          if cacheCoins[t].isFresh && en.coins.IsPruned() {
            cacheCoins := cacheCoins - {t};
          } else {
            cacheCoins := cacheCoins[t := Entry(en.coins, true, cacheCoins[t].isFresh)];
          }
        }
      }
    }

    /** Take over the dirty entries of the cache above. */
    method BatchWrite(child: Cache, hash: nat)
      requires WellStacked() && !hasModifier && Inv([child] + CachesOf(stack), db.coins)
      modifies this
      ensures Valid() && !hasModifier && hashBlock == hash && BatchWritten(old(cacheCoins), child, cacheCoins)
    {
      hide Inv, CoinsLayers.GetCoins, At, WriteEntry, CachesOf, WellStacked;
      Layers();
      ghost var c0, cs := cacheCoins, CachesOf(stack);
      var todo := child.Keys;
      while todo != {}
        invariant todo <= child.Keys && hashBlock == old(hashBlock) && !hasModifier
        invariant forall t :: At(cacheCoins, t) ==
                    if t in child && t !in todo then WriteEntry(At(c0, t), child[t]) else At(c0, t)
      {
        var t :| t in todo;
        AtIs(cacheCoins, c0, t);
        if child[t].dirty && t !in cacheCoins && !child[t].coins.IsPruned() { MissingMeansFresh([child] + cs, db.coins, t); }
        WriteBack(t, child[t]);
        todo := todo - {t};
      }
      hashBlock := hash;
      FlushStep([child] + cs, db.coins, cacheCoins);
      Layers();
      assert ([child] + cs)[2..] == CachesOf(Below());
    }

    /** Push every modification down to the base and forget them here. */
    method Flush()
      requires Valid() && !hasModifier && (base != null ==> !base.hasModifier)
      modifies this, db, if base == null then {} else {base}
      ensures Valid() && !hasModifier && cacheCoins == map[] && hashBlock == old(hashBlock)
      ensures Coins() == old(Coins())
      ensures base != null ==> base.Valid() && base.Coins() == old(Coins()) && base.hashBlock == hashBlock && db.coins == old(db.coins)
      ensures base != null && hashBlock != 0 ==> base.Best() == old(Best())
      ensures base != null ==> BatchWritten(old(base.cacheCoins), old(cacheCoins), base.cacheCoins)
      ensures base == null ==> Flat([], db.coins) == old(Coins()) && DbWritten(old(db.coins), old(cacheCoins), db.coins)
      ensures base == null ==> db.bestBlock == old(Best())
    {
      hide Inv, Flat, CoinsLayers.GetCoins, CachesOf, HashesOf;
      ghost var cs, d := CachesOf(stack), db.coins;
      Layers();
      if base != null {
        base.Layers();
        assert cs[1] == base.cacheCoins && cs[2..] == CachesOf(base.Below());
        base.BatchWrite(cacheCoins, hashBlock);
        FlushFlat(cs, d, base.cacheCoins);
        base.Layers();
        assert [map[], base.cacheCoins] + cs[2..] == [map[]] + ([base.cacheCoins] + cs[2..]);
      } else {
        db.BatchWrite(cacheCoins, hashBlock);
        FlushToDbFlat(cacheCoins, d, db.coins);
        FlushBestBlockToDb(hashBlock, old(db.bestBlock));
      }
      cacheCoins := map[];
      Layers();
    }

    method GetBestBlock() returns (h: nat)
      requires Valid()
      modifies stack
      ensures Valid() && CachesOf(stack) == old(CachesOf(stack)) && h == Best() == old(Best())
      ensures hasModifier == old(hasModifier)
      decreases |stack|
    {
      hide Inv, Flat, CoinsLayers.GetCoins, CachesOf, HashesOf;
      Layers();
      if hashBlock == 0 {
        if base == null {
          hashBlock := db.bestBlock;
        } else {
          BaseIsValid();
          hashBlock := base.GetBestBlock();
        }
      }
      h := hashBlock;
      Layers();
    }

    method SetBestBlock(h: nat)
      requires Valid()
      modifies this
      ensures Valid() && Coins() == old(Coins()) && hasModifier == old(hasModifier)
      ensures hashBlock == h && cacheCoins == old(cacheCoins)
      ensures Best() == if h != 0 then h else BestBlock(HashesOf(Below()), db.bestBlock)
    {
      hide Inv, Flat, CoinsLayers.GetCoins, CachesOf, HashesOf;
      Layers();
      hashBlock := h;
      Layers();
    }
  }
}
