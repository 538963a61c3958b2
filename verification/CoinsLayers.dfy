/** A stack of write-back caches over a database, as values: what each operation does to the
    layers, and that together they are one flat map from transaction ids to unspent coins. */
module CoinsLayers {
  import opened Results
  import opened Coins

  type Txid = nat

  /** CCoinsCacheEntry. Dirty: maybe different from the parent view. Fresh: the parent view has
      nothing unspent under this id. */
  datatype Entry = Entry(coins: Coins, dirty: bool, isFresh: bool)

  type Cache = map<Txid, Entry>
  type Db = map<Txid, Coins>

  /** Drop coins that are pruned: the reader cannot tell them from absent ones. */
  function Unspent(c: Option<Coins>): Option<Coins> {
    if c.Some? && !c.value.IsPruned() then c else None
  }

  // ---------- Reading ----------

  /** GetCoins through a stack, top first. */
  function GetCoins(cs: seq<Cache>, db: Db, t: Txid): Option<Coins> {
    if cs == [] then if t in db then Some(db[t]) else None
    else if t in cs[0] then Some(cs[0][t].coins)
    else GetCoins(cs[1..], db, t)
  }

  function Lookup(cs: seq<Cache>, db: Db, t: Txid): Option<Coins> { Unspent(GetCoins(cs, db, t)) }

  /** The layers after a read: every layer above the one that had the coins keeps a copy. */
  function Fetch(cs: seq<Cache>, db: Db, t: Txid): (r: seq<Cache>)
    ensures |r| == |cs|
  {
    if cs == [] || t in cs[0] then cs
    else
      var below := Fetch(cs[1..], db, t);
      match GetCoins(cs[1..], db, t)
      case None => [cs[0]] + below
      case Some(c) => [cs[0][t := Entry(c, false, c.IsPruned())]] + below
  }

  // ---------- The invariant ----------

  /** What holds of one entry of a layer, given the layers below it. */
  predicate EntryOk(en: Entry, t: Txid, below: seq<Cache>, db: Db) {
    && en.coins.IsTrimmed()
    && (en.isFresh ==> Lookup(below, db, t) == None)
    && (!en.dirty ==> Unspent(Some(en.coins)) == Lookup(below, db, t))
    && (!en.isFresh && below != [] ==> t in below[0])
  }

  ghost predicate LayerOk(c: Cache, below: seq<Cache>, db: Db) {
    forall t | t in c :: EntryOk(c[t], t, below, db)
  }

  ghost predicate Inv(cs: seq<Cache>, db: Db) {
    && (forall t | t in db :: db[t].IsTrimmed())
    && forall i | 0 <= i < |cs| :: LayerOk(cs[i], cs[i + 1..], db)
  }

  // ---------- The flat map ----------

  function Ids(cs: seq<Cache>, db: Db): set<Txid> {
    if cs == [] then db.Keys else cs[0].Keys + Ids(cs[1..], db)
  }

  /** The one map that the stack stands for. */
  function Flat(cs: seq<Cache>, db: Db): map<Txid, Coins> {
    map t | t in Ids(cs, db) && Lookup(cs, db, t).Some? :: Lookup(cs, db, t).value
  }

  lemma {:induction false} IdsCover(cs: seq<Cache>, db: Db, t: Txid)
    ensures GetCoins(cs, db, t).Some? <==> t in Ids(cs, db)
  {
    if cs != [] && t !in cs[0] { IdsCover(cs[1..], db, t); }
  }

  lemma FlatAt(cs: seq<Cache>, db: Db, t: Txid)
    ensures t in Flat(cs, db) <==> Lookup(cs, db, t).Some?
    ensures t in Flat(cs, db) ==> Flat(cs, db)[t] == Lookup(cs, db, t).value
  {
    IdsCover(cs, db, t);
  }

  lemma SameFlat(cs: seq<Cache>, db: Db, cs': seq<Cache>, db': Db)
    requires forall t :: Lookup(cs', db', t) == Lookup(cs, db, t)
    ensures Flat(cs', db') == Flat(cs, db)
  {
    forall t ensures t in Flat(cs', db') <==> t in Flat(cs, db) {
      FlatAt(cs, db, t);
      FlatAt(cs', db', t);
    }
  }

  // ---------- Fetches change nothing that can be seen ----------

  lemma {:induction false} FetchKeepsGet(cs: seq<Cache>, db: Db, t: Txid, u: Txid)
    ensures GetCoins(Fetch(cs, db, t), db, u) == GetCoins(cs, db, u)
  {
    if cs != [] && t !in cs[0] {
      FetchKeepsGet(cs[1..], db, t, u);
      assert Fetch(cs, db, t)[1..] == Fetch(cs[1..], db, t);
    }
  }

  lemma FetchUnfold(c: Cache, below: seq<Cache>, db: Db, t: Txid)
    ensures t in c ==> Fetch([c] + below, db, t) == [c] + below
    ensures t !in c ==>
              Fetch([c] + below, db, t) ==
              match GetCoins(below, db, t)
              case None => [c] + Fetch(below, db, t)
              case Some(d) => [c[t := Entry(d, false, d.IsPruned())]] + Fetch(below, db, t)
  {
    assert ([c] + below)[1..] == below;
  }

  lemma FetchIs(c0: Cache, below0: seq<Cache>, c1: Cache, below1: seq<Cache>, db: Db, t: Txid)
    requires t !in c0 && below1 == Fetch(below0, db, t)
    requires c1 == match GetCoins(below0, db, t)
                   case None => c0
                   case Some(d) => c0[t := Entry(d, false, d.IsPruned())]
    ensures [c1] + below1 == Fetch([c0] + below0, db, t)
    ensures t in c1 <==> GetCoins(below0, db, t).Some?
    ensures t in c1 ==> c1[t].coins == GetCoins(below0, db, t).value
  {
    hide Fetch, GetCoins;
    FetchUnfold(c0, below0, db, t);
  }

  lemma FetchCaches(cs: seq<Cache>, db: Db, t: Txid)
    requires cs != []
    ensures var r := Fetch(cs, db, t);
            && (t in r[0] <==> GetCoins(cs, db, t).Some?)
            && (t in r[0] ==> r[0][t].coins == GetCoins(cs, db, t).value)
            && cs[0].Keys <= r[0].Keys && r[0].Keys <= cs[0].Keys + {t}
            && (forall u | u in cs[0] :: r[0][u] == cs[0][u])
  {
  }

  lemma {:induction false} FetchKeepsInv(cs: seq<Cache>, db: Db, t: Txid)
    requires Inv(cs, db)
    ensures Inv(Fetch(cs, db, t), db)
  {
    if cs != [] && t !in cs[0] {
      InvBelow(cs, db);
      FetchKeepsInv(cs[1..], db, t);
      var r := Fetch(cs, db, t);
      assert r[1..] == Fetch(cs[1..], db, t);
      forall u | u in r[0] ensures EntryOk(r[0][u], u, r[1..], db) {
        FetchKeepsGet(cs[1..], db, t, u);
        if cs[1..] != [] { FetchCaches(cs[1..], db, t); }
        if u in cs[0] { assert EntryOk(cs[0][u], u, cs[1..], db); } else { GetIsTrimmed(cs[1..], db, t); }
      }
      InvOnTop(r[0], r[1..], db);
    }
  }

  lemma InvBelow(cs: seq<Cache>, db: Db)
    requires cs != [] && Inv(cs, db)
    ensures Inv(cs[1..], db) && LayerOk(cs[0], cs[1..], db)
  {
    forall i | 0 <= i < |cs[1..]| ensures LayerOk(cs[1..][i], cs[1..][i + 1..], db) {
      assert LayerOk(cs[i + 1], cs[i + 2..], db);
      assert cs[1..][i + 1..] == cs[i + 2..];
    }
    assert LayerOk(cs[0], cs[1..], db);
  }

  lemma InvOnTop(c: Cache, cs: seq<Cache>, db: Db)
    requires Inv(cs, db) && LayerOk(c, cs, db)
    ensures Inv([c] + cs, db)
  {
    var r := [c] + cs;
    forall i | 0 <= i < |r| ensures LayerOk(r[i], r[i + 1..], db) {
      if i == 0 { assert r[1..] == cs; } else { assert r[i + 1..] == cs[i..] && LayerOk(cs[i - 1], cs[i..], db); }
    }
  }

  lemma {:induction false} GetIsTrimmed(cs: seq<Cache>, db: Db, t: Txid)
    requires Inv(cs, db) && GetCoins(cs, db, t).Some?
    ensures GetCoins(cs, db, t).value.IsTrimmed()
  {
    if cs != [] {
      InvBelow(cs, db);
      if t in cs[0] { assert EntryOk(cs[0][t], t, cs[1..], db); } else { GetIsTrimmed(cs[1..], db, t); }
    }
  }

  lemma GetOnTop(c: Cache, cs: seq<Cache>, db: Db, t: Txid)
    ensures GetCoins([c] + cs, db, t) == if t in c then Some(c[t].coins) else GetCoins(cs, db, t)
  {
    assert ([c] + cs)[1..] == cs;
  }

  // ---------- ModifyCoins and the modifier's release ----------

  /** The layers once an entry is open for modification in the top one. */
  function Modify(cs: seq<Cache>, db: Db, t: Txid): seq<Cache>
    requires cs != []
  {
    if t in cs[0] then [cs[0][t := cs[0][t].(dirty := true)]] + cs[1..]
    else
      var below := Fetch(cs[1..], db, t);
      match GetCoins(cs[1..], db, t)
      case None => [cs[0][t := Entry(EMPTY_COINS, true, true)]] + below
      case Some(c) => [cs[0][t := Entry(c, true, c.IsPruned())]] + below
  }

  lemma ModifyUnfold(c: Cache, below: seq<Cache>, db: Db, t: Txid)
    ensures t in c ==> Modify([c] + below, db, t) == [c[t := c[t].(dirty := true)]] + below
    ensures t !in c ==>
              Modify([c] + below, db, t) ==
              match GetCoins(below, db, t)
              case None => [c[t := Entry(EMPTY_COINS, true, true)]] + Fetch(below, db, t)
              case Some(d) => [c[t := Entry(d, true, d.IsPruned())]] + Fetch(below, db, t)
  {
    assert ([c] + below)[1..] == below;
  }

  /** Fetched, if need be, and marked. */
  lemma ModifyIs(c0: Cache, below0: seq<Cache>, c1: Cache, below1: seq<Cache>, db: Db, t: Txid)
    requires t in c0 ==> c1 == c0 && below1 == below0
    requires t !in c0 ==>
               && below1 == Fetch(below0, db, t)
               && c1 == match GetCoins(below0, db, t)
                        case None => c0[t := Entry(EMPTY_COINS, false, true)]
                        case Some(d) => c0[t := Entry(d, false, d.IsPruned())]
    ensures t in c1 && [c1[t := c1[t].(dirty := true)]] + below1 == Modify([c0] + below0, db, t)
  {
    hide Fetch, GetCoins;
    ModifyUnfold(c0, below0, db, t);
    if t !in c0 {
      match GetCoins(below0, db, t)
      case None => assert c1[t := c1[t].(dirty := true)] == c0[t := Entry(EMPTY_COINS, true, true)];
      case Some(d) => assert c1[t := c1[t].(dirty := true)] == c0[t := Entry(d, true, d.IsPruned())];
    }
  }

  lemma ModifyStep(cs: seq<Cache>, db: Db, t: Txid)
    requires cs != [] && Inv(cs, db)
    ensures Inv(Modify(cs, db, t), db)
    ensures forall u :: Lookup(Modify(cs, db, t), db, u) == Lookup(cs, db, u)
    ensures var r := Modify(cs, db, t);
            t in r[0] && r[0][t].dirty && Unspent(Some(r[0][t].coins)) == Lookup(cs, db, t)
  {
    var below := if t in cs[0] then cs[1..] else Fetch(cs[1..], db, t);
    var r := Modify(cs, db, t);
    InvBelow(cs, db);
    FetchKeepsInv(cs[1..], db, t);
    if t !in cs[0] && GetCoins(cs[1..], db, t).Some? { GetIsTrimmed(cs[1..], db, t); }
    assert [r[0]] + below == r && [cs[0]] + cs[1..] == cs;
    forall u ensures Lookup(r, db, u) == Lookup(cs, db, u) {
      GetOnTop(r[0], below, db, u);
      GetOnTop(cs[0], cs[1..], db, u);
      FetchKeepsGet(cs[1..], db, t, u);
    }
    forall u | u in r[0] ensures EntryOk(r[0][u], u, below, db) {
      FetchKeepsGet(cs[1..], db, t, u);
      if below != [] && t !in cs[0] { FetchCaches(cs[1..], db, t); }
      if u in cs[0] { assert EntryOk(cs[0][u], u, cs[1..], db); }
    }
    InvOnTop(r[0], below, db);
  }

  /** The modifier goes away: the new coins are trimmed, and an entry that nobody needs is erased. */
  function Release(cs: seq<Cache>, t: Txid, c: Coins): seq<Cache>
    requires cs != [] && t in cs[0]
  {
    var en := cs[0][t].(coins := c.Cleanup());
    [if en.isFresh && en.coins.IsPruned() then cs[0] - {t} else cs[0][t := en]] + cs[1..]
  }

  lemma ReleaseStep(cs: seq<Cache>, db: Db, t: Txid, c: Coins)
    requires cs != [] && Inv(cs, db) && t in cs[0] && cs[0][t].dirty
    ensures Inv(Release(cs, t, c), db)
    ensures forall u :: Lookup(Release(cs, t, c), db, u) ==
                        if u == t then Unspent(Some(c.Cleanup())) else Lookup(cs, db, u)
  {
    var r := Release(cs, t, c);
    assert r[1..] == cs[1..];
    InvBelow(cs, db);
    assert EntryOk(cs[0][t], t, cs[1..], db);
    forall u | u in r[0] ensures EntryOk(r[0][u], u, cs[1..], db) {
      assert EntryOk(cs[0][u], u, cs[1..], db);
    }
    InvOnTop(r[0], cs[1..], db);
    assert [r[0]] + cs[1..] == r;
  }

  // ---------- BatchWrite and Flush ----------

  /** What BatchWrite does with one entry of the child. */
  function WriteEntry(us: Option<Entry>, en: Entry): Option<Entry> {
    if !en.dirty then us
    else if us.None? then if en.coins.IsPruned() then None else Some(Entry(en.coins, true, true))
    else if us.value.isFresh && en.coins.IsPruned() then None
    else Some(Entry(en.coins, true, us.value.isFresh))
  }

  function At<V>(m: map<Txid, V>, t: Txid): Option<V> { if t in m then Some(m[t]) else None }

  /** `r` is the parent cache `c` after the entries `child` were written to it, in any order. */
  ghost predicate BatchWritten(c: Cache, child: Cache, r: Cache) {
    forall t :: At(r, t) == if t in child then WriteEntry(At(c, t), child[t]) else At(c, t)
  }

  lemma AtIs(c: Cache, d: Cache, t: Txid)
    requires At(c, t) == At(d, t)
    ensures t in c <==> t in d
    ensures t in c ==> c[t] == d[t]
  {
  }

  /** BatchWrite of the database: pruned coins are erased, others stored. */
  ghost predicate DbWritten(db: Db, child: Cache, r: Db) {
    forall t :: At(r, t) == if t in child && child[t].dirty then Unspent(Some(child[t].coins)) else At(db, t)
  }

  /** The assertion inside BatchWrite: coins the parent does not have are fresh in the child. */
  lemma MissingMeansFresh(cs: seq<Cache>, db: Db, t: Txid)
    requires |cs| >= 2 && Inv(cs, db) && t in cs[0] && t !in cs[1]
    ensures cs[0][t].isFresh && Lookup(cs[1..], db, t) == None
  {
    InvBelow(cs, db);
    assert EntryOk(cs[0][t], t, cs[1..], db);
  }

  lemma FlushedEntry(cs: seq<Cache>, db: Db, r: Cache, t: Txid)
    requires |cs| >= 2 && Inv(cs, db) && BatchWritten(cs[1], cs[0], r)
    ensures Lookup([r] + cs[2..], db, t) == Lookup(cs, db, t)
    ensures t in r ==> EntryOk(r[t], t, cs[2..], db)
  {
    InvBelow(cs, db);
    InvBelow(cs[1..], db);
    assert cs[1..][1..] == cs[2..] && [cs[0]] + cs[1..] == cs && [cs[1]] + cs[2..] == cs[1..];
    GetOnTop(r, cs[2..], db, t);
    GetOnTop(cs[0], cs[1..], db, t);
    GetOnTop(cs[1], cs[2..], db, t);
    assert At(r, t) == if t in cs[0] then WriteEntry(At(cs[1], t), cs[0][t]) else At(cs[1], t);
    if t in cs[0] { assert EntryOk(cs[0][t], t, cs[1..], db); }
    if t in cs[1] { assert EntryOk(cs[1][t], t, cs[2..], db); }
  }

  /** Flushing the top layer into the next: seen through the next, everything is as it was seen
      through the top before. */
  lemma FlushStep(cs: seq<Cache>, db: Db, r: Cache)
    requires |cs| >= 2 && Inv(cs, db) && BatchWritten(cs[1], cs[0], r)
    ensures Inv([r] + cs[2..], db) && Inv([map[], r] + cs[2..], db)
    ensures forall t :: Lookup([r] + cs[2..], db, t) == Lookup(cs, db, t)
    ensures forall t :: Lookup([map[], r] + cs[2..], db, t) == Lookup(cs, db, t)
  {
    InvBelow(cs, db);
    InvBelow(cs[1..], db);
    assert cs[1..][1..] == cs[2..];
    forall t ensures Lookup([r] + cs[2..], db, t) == Lookup(cs, db, t) && (t in r ==> EntryOk(r[t], t, cs[2..], db)) {
      FlushedEntry(cs, db, r, t);
    }
    InvOnTop(r, cs[2..], db);
    InvOnTop(map[], [r] + cs[2..], db);
    assert [map[]] + ([r] + cs[2..]) == [map[], r] + cs[2..];
    forall t ensures Lookup([map[], r] + cs[2..], db, t) == Lookup([r] + cs[2..], db, t) {
      assert ([map[], r] + cs[2..])[1..] == [r] + cs[2..];
    }
  }

  /** Flushing the last layer into the database. */
  lemma FlushToDb(c: Cache, db: Db, r: Db)
    requires Inv([c], db) && DbWritten(db, c, r)
    ensures Inv([], r) && Inv([map[]], r)
    ensures forall t :: Lookup([], r, t) == Lookup([c], db, t) && Lookup([map[]], r, t) == Lookup([c], db, t)
  {
    InvBelow([c], db);
    var empty: Cache := map[];
    forall t ensures Lookup([], r, t) == Lookup([c], db, t) && Lookup([empty], r, t) == Lookup([c], db, t)
        && (t in r ==> r[t].IsTrimmed()) {
      GetOnTop(c, [], db, t);
      GetOnTop(empty, [], r, t);
      assert [c] + [] == [c] && [empty] + [] == [empty] && [c][1..] == [];
      assert At(r, t) == if t in c && c[t].dirty then Unspent(Some(c[t].coins)) else At(db, t);
      if t in c { assert EntryOk(c[t], t, [c][1..], db); }
    }
    InvOnTop(map[], [], r);
  }

  // ---------- Best block ----------

  /** GetBestBlock through a stack: the first layer that has one, else the database's. */
  function BestBlock(hs: seq<nat>, db: nat): nat {
    if hs == [] then db else if hs[0] != 0 then hs[0] else BestBlock(hs[1..], db)
  }

  /** A flush hands the top layer's hash down as it is. The best block seen through the base is then
      what was seen through the child before exactly when the child had set one, or the base had
      nothing of its own to lose. */
  lemma FlushBestBlock(hs: seq<nat>, db: nat)
    requires |hs| >= 2
    ensures BestBlock([hs[0]] + hs[2..], db) == BestBlock(hs, db) <==>
            hs[0] != 0 || hs[1] == 0 || hs[1] == BestBlock(hs[2..], db)
  {
    assert hs[1..][1..] == hs[2..] && ([hs[0]] + hs[2..])[1..] == hs[2..];
  }

  lemma FlushBestBlockToDb(h: nat, db: nat)
    ensures (if h != 0 then h else db) == BestBlock([h], db)
  {
    assert [h][1..] == [];
  }

  // ---------- The flat map, step by step ----------

  lemma FetchKeepsFlat(cs: seq<Cache>, db: Db, t: Txid)
    ensures Flat(Fetch(cs, db, t), db) == Flat(cs, db)
  {
    forall u ensures Lookup(Fetch(cs, db, t), db, u) == Lookup(cs, db, u) { FetchKeepsGet(cs, db, t, u); }
    SameFlat(cs, db, Fetch(cs, db, t), db);
  }

  lemma EmptyOnTop(cs: seq<Cache>, hs: seq<nat>, db: Db, best: nat)
    requires Inv(cs, db)
    ensures Inv([map[]] + cs, db) && Flat([map[]] + cs, db) == Flat(cs, db)
    ensures BestBlock([0] + hs, best) == BestBlock(hs, best)
  {
    InvOnTop(map[], cs, db);
    forall t ensures Lookup([map[]] + cs, db, t) == Lookup(cs, db, t) { GetOnTop(map[], cs, db, t); }
    SameFlat(cs, db, [map[]] + cs, db);
    assert ([0] + hs)[1..] == hs;
  }

  lemma CleanupPruned(c: Coins)
    ensures c.Cleanup().IsPruned() <==> c.IsPruned()
  {
    assert forall i | 0 <= i < |c.Cleanup().vout| :: c.Cleanup().vout[i] == c.vout[i];
  }

  lemma ReleaseFlat(cs: seq<Cache>, db: Db, t: Txid, c: Coins)
    requires cs != [] && Inv(cs, db) && t in cs[0] && cs[0][t].dirty
    ensures Flat(Release(cs, t, c), db) == if c.IsPruned() then Flat(cs, db) - {t} else Flat(cs, db)[t := c.Cleanup()]
  {
    ReleaseStep(cs, db, t, c);
    CleanupPruned(c);
    forall u ensures At(Flat(Release(cs, t, c), db), u) ==
        if u == t then Unspent(Some(c.Cleanup())) else At(Flat(cs, db), u) {
      FlatAt(cs, db, u);
      FlatAt(Release(cs, t, c), db, u);
    }
    SameMap(Flat(Release(cs, t, c), db), if c.IsPruned() then Flat(cs, db) - {t} else Flat(cs, db)[t := c.Cleanup()]);
  }

  lemma SameMap(m: Db, n: Db)
    requires forall u :: At(m, u) == At(n, u)
    ensures m == n
  {
    forall u ensures u in m <==> u in n { assert At(m, u) == At(n, u); }
    forall u | u in m ensures m[u] == n[u] { assert At(m, u) == At(n, u); }
  }

  lemma FlushFlat(cs: seq<Cache>, db: Db, r: Cache)
    requires |cs| >= 2 && Inv(cs, db) && BatchWritten(cs[1], cs[0], r)
    ensures Inv([r] + cs[2..], db) && Inv([map[], r] + cs[2..], db)
    ensures Flat([r] + cs[2..], db) == Flat(cs, db) && Flat([map[], r] + cs[2..], db) == Flat(cs, db)
  {
    FlushStep(cs, db, r);
    SameFlat(cs, db, [r] + cs[2..], db);
    SameFlat(cs, db, [map[], r] + cs[2..], db);
  }

  lemma FlushToDbFlat(c: Cache, db: Db, r: Db)
    requires Inv([c], db) && DbWritten(db, c, r)
    ensures Inv([], r) && Inv([map[]], r)
    ensures Flat([], r) == Flat([c], db) && Flat([map[]], r) == Flat([c], db)
  {
    FlushToDb(c, db, r);
    SameFlat([c], db, [], r);
    SameFlat([c], db, [map[]], r);
  }
}
