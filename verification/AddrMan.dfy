/** CAddrMan: the indexes, updated in place. Random draws and the clock are parameters. */
module AddrMan {
  import opened Arithmetic
  import opened AddrManState
  import opened AddrManSteps
  import opened AddrManSpec
  import opened AddrManMoves
  import opened AddrManStream
  import opened AddrManTheorems
  import opened AddrManLoad
  import opened AddrManRead

  ghost function SlotSpace(m: nat, n: nat): set<Slot> {
    set b: nat, p: nat | b < m && p < n :: Slot(b, p)
  }

  /** The occupied slots of a bucket array. */
  ghost function TableOf(a: array2<int>): Table
    reads a
  {
    map sl | sl in SlotSpace(a.Length0, a.Length1) && a[sl.bucket, sl.pos] != -1 :: a[sl.bucket, sl.pos]
  }

  lemma TableAt(a: array2<int>, b: nat, p: nat)
    requires b < a.Length0 && p < a.Length1
    ensures Slot(b, p) in TableOf(a) <==> a[b, p] != -1
    ensures a[b, p] != -1 ==> TableOf(a)[Slot(b, p)] == a[b, p]
  {
    assert Slot(b, p) in SlotSpace(a.Length0, a.Length1);
  }

  method WriteSlot(a: array2<int>, b: nat, p: nat, id: int)
    requires b < a.Length0 && p < a.Length1
    modifies a
    ensures a[b, p] == id
    ensures TableOf(a) == if id == -1 then old(TableOf(a)) - {Slot(b, p)} else old(TableOf(a))[Slot(b, p) := id]
  {
    a[b, p] := id;
    assert Slot(b, p) in SlotSpace(a.Length0, a.Length1);
    assert forall sl | sl in SlotSpace(a.Length0, a.Length1) && sl != Slot(b, p) ::
        a[sl.bucket, sl.pos] == old(a[sl.bucket, sl.pos]);
  }

  /** The n-th bucket of a round that starts at a random one. */
  function Rotated(n: nat, rnd: nat): (b: nat)
    ensures b < NEW_BUCKET_COUNT
  {
    (n + rnd % NEW_BUCKET_COUNT) % NEW_BUCKET_COUNT
  }

  lemma RotatedHits(b: nat, rnd: nat)
    requires b < NEW_BUCKET_COUNT
    ensures exists m :: 0 <= m < NEW_BUCKET_COUNT && Rotated(m, rnd) == b
  {
    var m := (b - rnd % NEW_BUCKET_COUNT) % NEW_BUCKET_COUNT;
    assert Rotated(m, rnd) == b;
  }

  class AddrMan {
    const env: Env
    var key: nat
    var idCount: int
    var mapInfo: map<int, Info>
    var mapAddr: map<NetAddr, int>
    var vRandom: seq<int>
    var nTried: int
    const vvTried: array2<int>
    var nNew: int
    const vvNew: array2<int>

    ghost predicate Shape() {
      && vvTried.Length0 == TRIED_BUCKET_COUNT && vvTried.Length1 == BUCKET_SIZE
      && vvNew.Length0 == NEW_BUCKET_COUNT && vvNew.Length1 == BUCKET_SIZE
      && vvTried != vvNew
    }

    ghost function S(): State
      reads this, vvTried, vvNew
    {
      State(key, idCount, mapInfo, mapAddr, vRandom, nTried, TableOf(vvTried), nNew, TableOf(vvNew))
    }

    ghost predicate Valid()
      reads this, vvTried, vvNew
    {
      Shape() && AddrManState.Valid(env, S())
    }

    ghost function View(): View
      requires Valid()
      reads this, vvTried, vvNew
    {
      ViewOf(S())
    }

    /** Clear on a fresh object: `key` is the random key drawn for it. */
    constructor (env: Env, key: nat)
      ensures Valid() && fresh(vvTried) && fresh(vvNew)
      ensures this.env == env && this.key == key && View() == map[] && mapInfo == map[] && mapAddr == map[]
      ensures vvTried.Length0 == 256 && vvNew.Length0 == 1024 && vvTried.Length1 == vvNew.Length1 == 64
    {
      this.env := env;
      this.key := key;
      idCount, nTried, nNew := 0, 0, 0;
      mapInfo, mapAddr, vRandom := map[], map[], [];
      vvTried := new int[TRIED_BUCKET_COUNT, BUCKET_SIZE];
      vvNew := new int[NEW_BUCKET_COUNT, BUCKET_SIZE];
      new;
      Clear(key);
    }

    method Find(a: NetAddr) returns (found: bool, id: int)
      requires Shape() && AddrConsistent(mapInfo, mapAddr)
      ensures found <==> a in mapAddr
      ensures found ==> id == mapAddr[a] && id in mapInfo
    {
      if a !in mapAddr { return false, -1; }
      id := mapAddr[a];
      found := id in mapInfo;
    }

    method Create(a: Address, source: NetAddr) returns (id: int)
      requires Shape()
      modifies this
      ensures S() == AddrManSteps.Create(old(S()), a, source) && id == old(idCount)
      ensures idCount == id + 1 && vRandom == old(vRandom) + [id]
    {
      id := idCount;
      idCount := idCount + 1;
      mapInfo := mapInfo[id := Info(a.service, a.services, a.nTime, 0, source, 0, 0, 0, false, -1)];
      mapAddr := mapAddr[a.service.addr := id];
      mapInfo := mapInfo[id := mapInfo[id].(randomPos := |vRandom|)];
      vRandom := vRandom + [id];
    }

    method SwapRandom(p: nat, q: nat)
      requires Shape() && p < |vRandom| && q < |vRandom| && vRandom[p] in mapInfo && vRandom[q] in mapInfo
      modifies this
      ensures S() == AddrManSteps.SwapRandom(old(S()), p, q)
    {
      if p == q { return; }
      var id1, id2 := vRandom[p], vRandom[q];
      mapInfo := mapInfo[id1 := mapInfo[id1].(randomPos := q)];
      mapInfo := mapInfo[id2 := mapInfo[id2].(randomPos := p)];
      vRandom := vRandom[p := id2];
      vRandom := vRandom[q := id1];
    }

    method Delete(id: int)
      requires Shape() && id in mapInfo && !mapInfo[id].inTried && mapInfo[id].refCount == 0
      requires 0 <= mapInfo[id].randomPos < |vRandom| && vRandom[mapInfo[id].randomPos] == id
      requires vRandom[|vRandom| - 1] in mapInfo
      modifies this
      ensures S() == AddrManSteps.Delete(old(S()), id)
    {
      SwapRandom(mapInfo[id].randomPos, |vRandom| - 1);
      vRandom := vRandom[..|vRandom| - 1];
      mapAddr := mapAddr - {mapInfo[id].service.addr};
      mapInfo := mapInfo - {id};
      nNew := nNew - 1;
    }

    /** Free a slot of the new table, deleting an entry that was only there. */
    method ClearNew(b: nat, p: nat, ghost loose: set<int>)
      requires Shape() && Consistent(env, S(), loose)
      requires b < NEW_BUCKET_COUNT && p < BUCKET_SIZE
      modifies this, vvNew
      ensures Cleared(env, old(S()), S(), loose, Slot(b, p)) && vvNew[b, p] == -1
    {
      hide AddrConsistent, RandomConsistent, NewConsistent, TriedConsistent, EntriesConsistent, ViewOf, ClearSlot;
      ghost var s := S();
      TableAt(vvNew, b, p);
      if vvNew[b, p] != -1 {
        var id := vvNew[b, p];
        ReleaseStep(env, s, loose, Slot(b, p));
        assert mapInfo[id].refCount > 0;
        mapInfo := mapInfo[id := mapInfo[id].(refCount := mapInfo[id].refCount - 1)];
        WriteSlot(vvNew, b, p, -1);
        assert S() == Release(s, Slot(b, p));
        if mapInfo[id].refCount == 0 {
          ReleasedAndDeleted(env, s, loose, Slot(b, p));
          Delete(id);
        } else {
          ReleasedOnly(env, s, loose, Slot(b, p));
        }
      } else {
        NotOccupied(env, s, loose, Slot(b, p));
      }
    }

    /** The first half of MakeTried: take the entry out of every new bucket. */
    method LeaveNewBuckets(id: int)
      requires Shape() && Consistent(env, S(), {}) && id in mapInfo && !mapInfo[id].inTried
      modifies this, vvNew
      ensures Stripping(env, old(S()), S(), id) && mapInfo[id].refCount == 0
    {
      hide AddrConsistent, RandomConsistent, TriedConsistent, EntriesConsistent, Stripping;
      ghost var s0 := S();
      StripStart(env, s0, id);
      for bucket := 0 to NEW_BUCKET_COUNT
        invariant id in mapInfo && mapInfo[id].service == s0.info[id].service && key == s0.key
        invariant Stripping(env, s0, S(), id)
        invariant forall sl | sl in SlotsOf(S().newTable, id) :: sl.bucket >= bucket
      {
        ghost var s := S();
        var pos := env.Position(key, true, bucket, mapInfo[id].service);
        StripFits(env, s0, s, id);
        TableAt(vvNew, bucket, pos);
        if vvNew[bucket, pos] == id {
          StripStep(env, s0, s, id, Slot(bucket, pos));
          WriteSlot(vvNew, bucket, pos, -1);
          mapInfo := mapInfo[id := mapInfo[id].(refCount := mapInfo[id].refCount - 1)];
          assert S() == Release(s, Slot(bucket, pos));
        }
      }
      StripFits(env, s0, S(), id);
      StripEnd(env, s0, S(), id);
    }

    /** Evict the entry in a tried slot and enter it into the new table again. */
    method MoveBack(b: nat, p: nat, ghost loose: set<int>)
      requires Shape() && Consistent(env, S(), loose)
      requires b < TRIED_BUCKET_COUNT && p < BUCKET_SIZE && vvTried[b, p] != -1
      requires Slot(b, p) in S().triedTable && vvTried[b, p] in mapInfo && mapInfo[vvTried[b, p]].service.addr in mapAddr
      modifies this, vvNew, vvTried
      ensures Demoted(env, old(S()), S(), loose, Slot(b, p), old(mapInfo[vvTried[b, p]].service.addr))
      ensures vvTried[b, p] == -1
    {
      hide AddrConsistent, RandomConsistent, NewConsistent, TriedConsistent, EntriesConsistent, ViewOf, ClearSlot,
        Demote, TableOf, SlotsOf, NewIds, TriedIds;
      ghost var s, sl := S(), Slot(b, p);
      TableAt(vvTried, b, p);
      var idEvict := vvTried[b, p];
      EvictStep(env, s, loose, sl);
      ViewAt(s, idEvict);
      assert idEvict in mapInfo;
      mapInfo := mapInfo[idEvict := mapInfo[idEvict].(inTried := false)];
      WriteSlot(vvTried, b, p, -1);
      nTried := nTried - 1;
      ghost var s1 := S();
      assert s1 == Evict(s, sl);

      var uBucket := env.NewBucket(key, mapInfo[idEvict].service.addr, mapInfo[idEvict].source);
      var uPos := env.Position(key, true, uBucket, mapInfo[idEvict].service);
      ClearNew(uBucket, uPos, loose + {idEvict});
      assert vvNew[uBucket, uPos] == -1;
      ghost var s2, nsl := S(), Slot(uBucket, uPos);
      EvictedSurvives(env, s, s1, s2, loose, sl, idEvict, nsl);
      DemoteStep(env, s, s1, s2, loose, sl, idEvict, nsl);

      mapInfo := mapInfo[idEvict := mapInfo[idEvict].(refCount := 1)];
      assert mapInfo == Occupy(s2, nsl, idEvict).info;
      WriteSlot(vvNew, uBucket, uPos, idEvict);
      nNew := nNew + 1;
      assert S() == Occupy(s2, nsl, idEvict).(nNew := s2.nNew + 1);
    }

    method MakeTried(id: int)
      requires Valid() && id in mapInfo && !mapInfo[id].inTried
      requires mapInfo[id].service.addr in View()
      modifies this, vvNew, vvTried
      ensures Valid() && key == old(key)
      ensures var a := old(mapInfo[id].service.addr);
              View() == PlaceTried(env, key, old(View())[a := old(View())[a].(place := New({}))], a)
    {
      hide AddrConsistent, RandomConsistent, NewConsistent, TriedConsistent, EntriesConsistent, ViewOf, ClearSlot,
        PlaceTried, TableOf, NewIds, TriedIds;
      ghost var s0 := S();
      ViewAt(s0, id);
      IdsAreNotNegative(s0, {}, id);
      LeaveNewBuckets(id);
      ghost var s1 := S();
      nNew := nNew - 1;
      assert mapInfo[id].refCount == 0;
      ghost var s2 := S();
      CountersAside(env, s1, s2, {id});

      var kBucket := env.TriedBucket(key, mapInfo[id].service);
      var kPos := env.Position(key, false, kBucket, mapInfo[id].service);
      ghost var sl := Slot(kBucket, kPos);
      TableAt(vvTried, kBucket, kPos);
      if vvTried[kBucket, kPos] != -1 {
        SlotEntry(env, s2, sl);
        MoveBack(kBucket, kPos, {id});
      }
      assert vvTried[kBucket, kPos] == -1;
      ghost var t := S();
      MadeTried(env, s0, s1, t, sl, id);

      WriteSlot(vvTried, kBucket, kPos, id);
      nTried := nTried + 1;
      mapInfo := mapInfo[id := mapInfo[id].(inTried := true)];
      assert S() == Promote(t, sl, id);
    }

    /** Whether the entry sits in the new bucket b. */
    predicate InBucket(id: int, s: Service, b: nat)
      requires Shape() && b < NEW_BUCKET_COUNT
      reads this, vvNew
    {
      vvNew[b, env.Position(key, true, b, s)] == id
    }

    /** Good_'s search, from a random bucket round all of them, for one that holds the entry. */
    method FindBucket(id: int, s: Service, rnd: nat) returns (uBucket: int)
      requires Shape()
      ensures -1 <= uBucket < NEW_BUCKET_COUNT
      ensures uBucket != -1 ==> InBucket(id, s, uBucket)
      ensures uBucket == -1 ==> forall b: nat | b < NEW_BUCKET_COUNT :: !InBucket(id, s, b)
    {
      var n := 0;
      while n < NEW_BUCKET_COUNT
        invariant 0 <= n <= NEW_BUCKET_COUNT
        invariant forall m | 0 <= m < n :: !InBucket(id, s, Rotated(m, rnd))
      {
        var b := Rotated(n, rnd);
        var pos := env.Position(key, true, b, s);
        if vvNew[b, pos] == id { return b; }
        n := n + 1;
      }
      forall b: nat | b < NEW_BUCKET_COUNT ensures !InBucket(id, s, b) {
        RotatedHits(b, rnd);
      }
      return -1;
    }

    /** Mark an address good at time t, moving it to the tried table. `rnd` is the random bucket
        the search for one of its new buckets starts from. */
    method Good(s: Service, t: int, rnd: nat)
      requires Valid()
      modifies this, vvNew, vvTried
      ensures Valid() && key == old(key)
      ensures View() == GoodSpec(env, key, old(View()), s, t)
      ensures old(Sane(View())) ==> (Sane(View()) <==> t > 0 || !old(Knows(View(), s)))
    {
      hide AddrConsistent, RandomConsistent, NewConsistent, TriedConsistent, EntriesConsistent, ClearSlot,
        PlaceTried, TableOf, NewIds, TriedIds, SlotsOf, ViewOf, Sane;
      if Sane(View()) { GoodKeepsSane(env, key, View(), s, t); }
      ghost var s0 := S();
      ViewKeys(s0);
      var found, id := Find(s.addr);
      if !found { return; }
      ViewAtAddress(s0, s.addr);
      if mapInfo[id].service != s { return; }

      mapInfo := mapInfo[id := mapInfo[id].(lastSuccess := t, lastTry := t, attempts := 0)];
      ghost var s1 := S();
      SetInfoKeepsValid(env, s0, id, mapInfo[id]);
      assert s1 == SetInfo(s0, id, mapInfo[id]);
      ghost var v := ViewOf(s0);
      ghost var r := v[s.addr].(lastSuccess := t, lastTry := t, attempts := 0);
      assert ViewOf(s1) == v[s.addr := r];
      if mapInfo[id].inTried { return; }
      assert v[s.addr := r][s.addr := r.(place := New({}))] == v[s.addr := r.(place := New({}))];

      var uBucket := FindBucket(id, s, rnd);
      ghost var sl := HasSlot(env, s1, id);
      TableAt(vvNew, sl.bucket, sl.pos);
      assert InBucket(id, s, sl.bucket);
      if uBucket == -1 { assert false; }
      MakeTried(id);
    }

    method Attempt(s: Service, t: int)
      requires Valid()
      modifies this
      ensures Valid() && key == old(key) && View() == AttemptSpec(old(View()), s, t)
      ensures old(Sane(View())) ==> (Sane(View()) <==> t >= 0 || !old(Knows(View(), s)))
    {
      hide AddrConsistent, RandomConsistent, NewConsistent, TriedConsistent, EntriesConsistent, TableOf, NewIds, TriedIds, SlotsOf, ViewOf, Sane;
      if Sane(View()) { AttemptKeepsSane(View(), s, t); }
      ghost var s0 := S();
      ViewKeys(s0);
      var found, id := Find(s.addr);
      if !found { return; }
      ViewAtAddress(s0, s.addr);
      if mapInfo[id].service != s { return; }
      mapInfo := mapInfo[id := mapInfo[id].(lastTry := t, attempts := mapInfo[id].attempts + 1)];
      SetInfoKeepsValid(env, s0, id, mapInfo[id]);
      assert S() == SetInfo(s0, id, mapInfo[id]);
    }

    method Connected(s: Service, t: int)
      requires Valid()
      modifies this
      ensures Valid() && key == old(key) && View() == ConnectedSpec(old(View()), s, t)
      ensures old(Sane(View())) ==> Sane(View())
    {
      hide AddrConsistent, RandomConsistent, NewConsistent, TriedConsistent, EntriesConsistent, TableOf, NewIds, TriedIds, SlotsOf, ViewOf;
      ghost var s0 := S();
      ViewKeys(s0);
      var found, id := Find(s.addr);
      if !found { return; }
      ViewAtAddress(s0, s.addr);
      if mapInfo[id].service != s { return; }
      var interval := 20 * 60;
      if t - mapInfo[id].nTime > interval {
        mapInfo := mapInfo[id := mapInfo[id].(nTime := Trunc32(t))];
        SetInfoKeepsValid(env, s0, id, mapInfo[id]);
        assert S() == SetInfo(s0, id, mapInfo[id]);
      }
    }

    method SetServices(s: Service, services: set<nat>)
      requires Valid()
      modifies this
      ensures Valid() && key == old(key) && View() == SetServicesSpec(old(View()), s, services)
      ensures old(Sane(View())) ==> Sane(View())
    {
      hide AddrConsistent, RandomConsistent, NewConsistent, TriedConsistent, EntriesConsistent, TableOf, NewIds, TriedIds, SlotsOf, ViewOf;
      ghost var s0 := S();
      ViewKeys(s0);
      var found, id := Find(s.addr);
      if !found { return; }
      ViewAtAddress(s0, s.addr);
      if mapInfo[id].service != s { return; }
      mapInfo := mapInfo[id := mapInfo[id].(services := services)];
      SetInfoKeepsValid(env, s0, id, mapInfo[id]);
      assert S() == SetInfo(s0, id, mapInfo[id]);
    }

    /** Enter the entry into the new bucket its source gives, if whoever is there yields. */
    method Place(id: int, source: NetAddr, now: int, ghost loose: set<int>)
      requires Shape() && Consistent(env, S(), loose) && loose <= {id}
      requires nNew == |NewIds(mapInfo)| && nTried == |TriedIds(mapInfo)|
      requires id in mapInfo && !mapInfo[id].inTried && mapInfo[id].refCount < NEW_BUCKETS_PER_ADDRESS
      requires var v := ViewOf(S()); mapInfo[id].service.addr in v && v[mapInfo[id].service.addr].place.New?
      modifies this, vvNew
      ensures Valid() && key == old(key)
      ensures View() == PlaceNew(env, key, old(ViewOf(S())), old(mapInfo[id].service.addr), source, now)
    {
      hide AddrConsistent, RandomConsistent, NewConsistent, TriedConsistent, EntriesConsistent, TableOf, NewIds, TriedIds,
        SlotsOf, ViewOf, ClearSlot, Yields;
      ghost var s := S();
      var uBucket := env.NewBucket(key, mapInfo[id].service.addr, source);
      var uPos := env.Position(key, true, uBucket, mapInfo[id].service);
      ghost var sl := Slot(uBucket, uPos);
      TableAt(vvNew, uBucket, uPos);
      NotPlaced(env, s, loose, sl, id, source, now);
      IdsAreNotNegative(s, loose, id);
      if vvNew[uBucket, uPos] != id {
        YieldsIff(env, s, loose, sl, id, now);
        var insert := vvNew[uBucket, uPos] == -1;
        if !insert {
          SlotIsNew(env, s, sl);
          var x := mapInfo[vvNew[uBucket, uPos]];
          if IsTerrible(x.nTime, x.lastTry, x.lastSuccess, x.attempts, now) || (x.refCount > 1 && mapInfo[id].refCount == 0) {
            insert := true;
          }
        }
        if insert {
          ClearNew(uBucket, uPos, loose);
          ghost var t := S();
          PlacedBy(env, s, t, loose, sl, id, source, now);
          mapInfo := mapInfo[id := mapInfo[id].(refCount := mapInfo[id].refCount + 1)];
          WriteSlot(vvNew, uBucket, uPos, id);
          assert S() == Occupy(t, sl, id);
        } else if mapInfo[id].refCount == 0 {
          LooseFirst(s, loose, id);
          Delete(id);
        }
      }
    }

    /** Add_ on a known address: bring its time and services up to date. */
    method Refresh(id: int, a: Address, penalty: int, now: int)
      requires Valid() && a.service.addr in mapAddr && id == mapAddr[a.service.addr] && a.service.addr in View()
      modifies this
      ensures Valid() && key == old(key) && mapAddr == old(mapAddr)
      ensures View() == Refreshed(old(View()), a, penalty, now)
    {
      hide AddrConsistent, RandomConsistent, NewConsistent, TriedConsistent, EntriesConsistent, TableOf, SlotsOf, ViewOf, NewIds, TriedIds;
      ghost var s0 := S();
      ViewAtAddress(s0, a.service.addr);
      var online := now - a.nTime < 24 * 60 * 60;
      var interval := if online then 60 * 60 else 24 * 60 * 60;
      if a.nTime != 0 && (mapInfo[id].nTime == 0 || mapInfo[id].nTime < a.nTime - interval - penalty) {
        var nTime := if a.nTime - penalty > 0 then a.nTime - penalty else 0;
        mapInfo := mapInfo[id := mapInfo[id].(nTime := Trunc32(nTime))];
      }
      mapInfo := mapInfo[id := mapInfo[id].(services := mapInfo[id].services + a.services)];
      SetInfoKeepsValid(env, s0, id, mapInfo[id]);
      assert S() == SetInfo(s0, id, mapInfo[id]);
    }

    /** Add_ on a known address: does this announcement earn it another slot? */
    method WinsSlot(id: int, a: Address, draw: nat) returns (wins: bool)
      requires Valid() && a.service.addr in mapAddr && id == mapAddr[a.service.addr] && a.service.addr in View()
      ensures wins <==> EarnsSlot(View()[a.service.addr], a.nTime, draw)
      ensures wins ==> id in mapInfo && !mapInfo[id].inTried && mapInfo[id].refCount < NEW_BUCKETS_PER_ADDRESS
                       && mapInfo[id].service.addr == a.service.addr
    {
      hide AddrConsistent, RandomConsistent, NewConsistent, TriedConsistent, EntriesConsistent, TableOf, SlotsOf, ViewOf, NewIds, TriedIds;
      ViewAtAddress(S(), a.service.addr);
      CountIsInRange(S(), id);
      RefCountIs(S(), {}, id);
      if a.nTime == 0 || (mapInfo[id].nTime != 0 && a.nTime <= mapInfo[id].nTime) { return false; }
      if mapInfo[id].inTried { return false; }
      if mapInfo[id].refCount == NEW_BUCKETS_PER_ADDRESS { return false; }
      var factor := 1;
      var n := 0;
      while n < mapInfo[id].refCount
        invariant 0 <= n <= mapInfo[id].refCount && factor == Pow2(n) && factor > 0
      {
        factor := factor * 2;
        n := n + 1;
      }
      return !(factor > 1 && Draw(draw, factor) != 0);
    }

    /** Add_ on an unknown address: an entry in no bucket yet, counted as new. */
    method Enrol(a: Address, source: NetAddr, penalty: int) returns (id: int)
      requires Valid() && a.service.addr !in mapAddr
      modifies this
      ensures key == old(key) && Consistent(env, S(), {id}) && nNew == |NewIds(mapInfo)| && nTried == |TriedIds(mapInfo)|
      ensures id in mapInfo && !mapInfo[id].inTried && mapInfo[id].refCount == 0 && mapInfo[id].service == a.service
      ensures ViewOf(S()) == old(View())[a.service.addr :=
                NewRecord(a, source).(nTime := Trunc32(if a.nTime - penalty > 0 then a.nTime - penalty else 0))]
    {
      hide AddrConsistent, RandomConsistent, NewConsistent, TriedConsistent, EntriesConsistent, TableOf, SlotsOf, ViewOf, NewIds, TriedIds;
      ghost var s0 := S();
      CreateStep(env, s0, {}, a, source);
      ghost var n := NewIds(mapInfo);
      IdIsUnused(mapInfo, idCount);
      id := Create(a, source);
      ghost var s1 := S();
      assert |n + {id}| == |n| + 1;
      assert {} + {id} == {id};
      LooseIsNowhere(env, s1, {id}, id);
      var nTime := if mapInfo[id].nTime - penalty > 0 then mapInfo[id].nTime - penalty else 0;
      mapInfo := mapInfo[id := mapInfo[id].(nTime := Trunc32(nTime))];
      ghost var s2 := S();
      assert s2 == SetInfo(s1, id, mapInfo[id]);
      SetInfoStep(env, s1, {id}, id, mapInfo[id]);
      nNew := nNew + 1;
      CountersAside(env, s2, S(), {id});
    }

    /** Add_. The result tells a caller that the address was unknown and routable; whether it was
        kept is another matter, and View() says it. `draw` is the random number of the stochastic test. */
    method Add(a: Address, source: NetAddr, penalty: int, now: int, draw: nat) returns (isNew: bool)
      requires Valid()
      modifies this, vvNew
      ensures Valid() && key == old(key)
      ensures View() == AddSpec(env, key, old(View()), a, source, penalty, now, draw)
      ensures old(Sane(View())) ==> Sane(View())
      ensures isNew <==> env.routable(a.service.addr) && a.service.addr !in old(View())
    {
      hide AddrConsistent, RandomConsistent, NewConsistent, TriedConsistent, EntriesConsistent, TableOf, SlotsOf, ViewOf, NewIds, TriedIds, PlaceNew, Refreshed, EarnsSlot, Sane;
      if Sane(View()) { AddKeepsSane(env, key, View(), a, source, penalty, now, draw); }
      if !env.routable(a.service.addr) { return false; }
      ViewKeys(S());
      var found, id := Find(a.service.addr);
      if found {
        Refresh(id, a, penalty, now);
        ViewAtAddress(S(), a.service.addr);
        var wins := WinsSlot(id, a, draw);
        if wins { Place(id, source, now, {}); }
        return false;
      } else {
        id := Enrol(a, source, penalty);
        Place(id, source, now, {id});
        return true;
      }
    }

    /** GetAddr_: a random choice of addresses worth telling a peer about. `draws(n)` is the n-th random number. */
    method GetAddr(now: int, draws: nat -> nat) returns (vAddr: seq<Address>)
      requires Valid()
      modifies this
      ensures Valid() && key == old(key) && View() == old(View())
      ensures |vAddr| <= 2500 && 100 * |vAddr| <= 23 * |View()|
      ensures forall i | 0 <= i < |vAddr| ::
                var a := vAddr[i].service.addr;
                a in View() && !View()[a].Terrible(now)
                && vAddr[i] == Address(View()[a].service, View()[a].services, View()[a].nTime)
      ensures forall i, j | 0 <= i < j < |vAddr| :: vAddr[i].service.addr != vAddr[j].service.addr
      // It stops short of the limit only when every address worth telling has been told.
      ensures |vAddr| < 2500 && 100 * (|vAddr| + 1) <= 23 * |View()| ==>
                forall a | a in View() && !View()[a].Terrible(now) ::
                  exists i :: 0 <= i < |vAddr| && vAddr[i].service.addr == a
    {
      hide AddrConsistent, RandomConsistent, NewConsistent, TriedConsistent, EntriesConsistent, TableOf, SlotsOf, ViewOf, NewIds, TriedIds,
        Telling, IsTerrible;
      ghost var s0 := S();
      SizeIs(env, s0);
      var nNodes := GETADDR_MAX_PCT * |vRandom| / 100;
      if nNodes > GETADDR_MAX { nNodes := GETADDR_MAX; }
      vAddr := [];
      ghost var ids: seq<int> := [];
      var n := 0;
      TellingStart(env, s0, now);
      while n < |vRandom| && |vAddr| < nNodes
        invariant n <= |vRandom| == |s0.random| && |vAddr| <= nNodes
        invariant Telling(env, s0, S(), n, now, ids, vAddr)
      {
        var pos := Draw(draws(n), |vRandom| - n) + n;
        TellingSwap(env, s0, S(), n, now, ids, vAddr, pos);
        SwapRandom(n, pos);
        TellingNext(env, s0, S(), n, now, ids, vAddr);
        var ai := mapInfo[vRandom[n]];
        if !IsTerrible(ai.nTime, ai.lastTry, ai.lastSuccess, ai.attempts, now) {
          vAddr := vAddr + [AddressOf(ai)];
          ids := ids + [vRandom[n]];
        }
        n := n + 1;
      }
      TellingSize(env, s0, S(), n, now, ids, vAddr);
      TellingEnd(env, s0, S(), n, now, ids, vAddr);
      TellingLimit(|vRandom|, nNodes, |vAddr|);
    }

    // ---------- Serialization ----------

    /** Write the new (or tried) entries in the order of their ids, and number them. */
    method WriteEntries(w0: seq<Item>, tried: bool) returns (w: seq<Item>, unkIds: map<int, int>)
      requires Valid()
      ensures var q := if tried then TriedList(S()) else NewList(S());
              |w| == |w0| + |q| && w0 <= w && EntriesWritten(S(), q, w, |w0|, |q|)
      ensures !tried ==> forall o | o in mapInfo :: o in unkIds && unkIds[o] == |IdsBelow(mapInfo, o, false)|
    {
      hide AddrConsistent, RandomConsistent, NewConsistent, TriedConsistent, EntriesConsistent, TableOf, SlotsOf,
        NewIds, TriedIds, EntriesWritten, NewList, TriedList, WrittenUpTo;
      ghost var s := S();
      CountIsNotNegative(s);
      w := w0;
      unkIds := map[];
      var nIds := 0;
      NothingWritten(s, w0, tried);
      for id := 0 to idCount
        invariant nIds == |IdsBelow(mapInfo, id, tried)| == |w| - |w0|
        invariant WrittenUpTo(s, w0, w, unkIds, id, tried)
      {
        WriterStep(s, w0, w, unkIds, id, tried);
        if id in mapInfo {
          ReferencedIsNew(env, s, id);
          unkIds := unkIds[id := nIds];
          var writes := if tried then mapInfo[id].inTried else mapInfo[id].refCount != 0;
          if writes {
            NotAllWritten(env, s, id, tried);
            assert nIds != if tried then nTried else nNew;
            w := w + [Entry(Save(mapInfo[id]))];
            nIds := nIds + 1;
          }
        }
      }
      WriterDone(env, s, w0, w, unkIds, tried);
    }

    method BucketSize(b: nat) returns (nSize: nat)
      requires Shape() && b < NEW_BUCKET_COUNT
      ensures nSize == |PosList(S().newTable, b)|
    {
      hide TableOf;
      ghost var t := TableOf(vvNew);
      nSize := 0;
      for i := 0 to BUCKET_SIZE
        invariant nSize == |PosBelow(t, b, i)|
      {
        TableAt(vvNew, b, i);
        if vvNew[b, i] != -1 { nSize := nSize + 1; }
      }
    }

    /** Write how many slots of a bucket are taken, and by which of the numbered entries. */
    method WriteBucket(w0: seq<Item>, b: nat, unkIds: map<int, int>) returns (w: seq<Item>)
      requires Valid() && b < NEW_BUCKET_COUNT
      requires forall o | o in mapInfo :: o in unkIds && unkIds[o] == |IdsBelow(mapInfo, o, false)|
      ensures |w| == |w0| + 1 + |PosList(S().newTable, b)| && w0 <= w && BucketWritten(S(), b, w, |w0|)
    {
      hide AddrConsistent, RandomConsistent, NewConsistent, TriedConsistent, EntriesConsistent, TableOf, SlotsOf, NewIds, TriedIds,
        PositionsWritten, PosBelow, IdsBelow;
      ghost var s := S();
      var nSize := BucketSize(b);
      w := w0 + [Int(nSize)];
      ghost var n := 0;
      NoPositionYet(s, b, w, |w0| + 1);
      for i := 0 to BUCKET_SIZE
        invariant n == |PosBelow(s.newTable, b, i)| && |w| == |w0| + 1 + n && w0 <= w && w[|w0|] == Int(nSize)
        invariant PositionsWritten(s, b, w, |w0| + 1, n)
      {
        TableAt(vvNew, b, i);
        if vvNew[b, i] != -1 {
          HeldIsKnown(env, s, Slot(b, i));
          var nIndex := unkIds[vvNew[b, i]];
          NextPosition(s, b, w, |w0| + 1, i);
          w := w + [Int(nIndex)];
          n := n + 1;
        } else {
          SkippedPosition(s, b, i);
        }
      }
    }

    method WriteBuckets(w0: seq<Item>, unkIds: map<int, int>) returns (w: seq<Item>)
      requires Valid() && |w0| == BucketsAt(S())
      requires forall o | o in mapInfo :: o in unkIds && unkIds[o] == |IdsBelow(mapInfo, o, false)|
      ensures w0 <= w && |w| == BucketsAt(S()) + BucketStart(S().newTable, NEW_BUCKET_COUNT)
      ensures BucketsWritten(S(), w, NEW_BUCKET_COUNT)
    {
      hide Consistent, TableOf, SlotsOf, NewIds, TriedIds, NewList, TriedList, BucketWritten, BucketsWritten, IdsBelow, PosBelow;
      ghost var s := S();
      w := w0;
      NoBuckets(s, w);
      for b := 0 to NEW_BUCKET_COUNT
        invariant w0 <= w && |w| == BucketsAt(s) + BucketStart(s.newTable, b) && BucketsWritten(s, w, b)
      {
        ghost var w3 := w;
        w := WriteBucket(w, b, unkIds);
        BucketsStay(s, w3, w, b);
        BucketStartNext(s.newTable, b);
      }
    }

    method Serialize() returns (w: seq<Item>)
      requires Valid()
      ensures Encodes(S(), w)
    {
      hide AddrConsistent, RandomConsistent, NewConsistent, TriedConsistent, EntriesConsistent, TableOf, SlotsOf,
        NewIds, TriedIds, EntriesWritten, BucketWritten, BucketsWritten, IdsBelow, PosBelow, NewList, TriedList;
      ghost var s := S();
      ListsAre(env, s);
      w := [Byte(1), Byte(32), Key(key), Int(nNew), Int(nTried), Int(FlipFlag(NEW_BUCKET_COUNT))];
      ghost var w0 := w;
      var unkIds;
      w, unkIds := WriteEntries(w, false);
      ghost var w1 := w;
      var ignored;
      w, ignored := WriteEntries(w, true);
      ghost var w2 := w;
      EntriesStay(s, NewList(s), w1, w2, HEADER);
      w := WriteBuckets(w, unkIds);
      EntriesStay(s, NewList(s), w2, w, HEADER);
      EntriesStay(s, TriedList(s), w2, w, HEADER + |NewList(s)|);
    }

    /** Reset everything but the two maps, under a new random key. */
    method Clear(newKey: nat)
      requires Shape()
      modifies this, vvNew, vvTried
      ensures S() == Reset(old(S()), newKey)
    {
      vRandom := [];
      key := newKey;
      for bucket := 0 to NEW_BUCKET_COUNT
        modifies vvNew
        invariant forall b, p | 0 <= b < bucket && 0 <= p < BUCKET_SIZE :: vvNew[b, p] == -1
      {
        for entry := 0 to BUCKET_SIZE
          modifies vvNew
          invariant forall b, p | 0 <= b < bucket && 0 <= p < BUCKET_SIZE :: vvNew[b, p] == -1
          invariant forall p | 0 <= p < entry :: vvNew[bucket, p] == -1
        {
          vvNew[bucket, entry] := -1;
        }
      }
      for bucket := 0 to TRIED_BUCKET_COUNT
        modifies vvTried
        invariant forall b, p | 0 <= b < bucket && 0 <= p < BUCKET_SIZE :: vvTried[b, p] == -1
      {
        for entry := 0 to BUCKET_SIZE
          modifies vvTried
          invariant forall b, p | 0 <= b < bucket && 0 <= p < BUCKET_SIZE :: vvTried[b, p] == -1
          invariant forall p | 0 <= p < entry :: vvTried[bucket, p] == -1
        {
          vvTried[bucket, entry] := -1;
        }
      }
      assert TableOf(vvTried) == map[] && TableOf(vvNew) == map[];
      idCount, nTried, nNew := 0, 0, 0;
    }

    /** Give an entry just read a first slot, the one its own source gives, if that is free. */
    method PlaceLoaded(id: int, saved: Saved)
      requires Shape() && id in mapInfo && id != -1 && RandomConsistent(mapInfo, vRandom)
      modifies this`mapInfo, vvNew
      ensures RandomConsistent(mapInfo, vRandom) && mapInfo.Keys == old(mapInfo.Keys)
      ensures var sl := NewSlot(env, key, saved.service, saved.source);
              S() == if sl in old(S()).newTable then old(S()) else Occupy(old(S()), sl, id)
    {
      hide RandomConsistent, TableOf;
      var uBucket := env.NewBucket(key, saved.service.addr, saved.source);
      var uPos := env.Position(key, true, uBucket, saved.service);
      TableAt(vvNew, uBucket, uPos);
      if vvNew[uBucket, uPos] == -1 {
        WriteSlot(vvNew, uBucket, uPos, id);
        KeepsRandom(mapInfo, vRandom, id, mapInfo[id].(refCount := mapInfo[id].refCount + 1));
        mapInfo := mapInfo[id := mapInfo[id].(refCount := mapInfo[id].refCount + 1)];
      }
    }

    /** Unserialize, first part: the entries of the new table. When the stored positions cannot be
        used (unknown version, other bucket count) each is put where its own source would put it. */
    method LoadNew(w: seq<Item>, at: nat, version: nat, uBuckets: int, ghost orig: State, ghost good: bool, ghost fair: bool)
      returns (ok: bool, next: nat)
      requires Shape() && RandomConsistent(mapInfo, vRandom) && mapInfo == map[] && at == HEADER
      requires good ==> AddrManState.Valid(env, orig) && Encodes(orig, w) && EntriesRead(env, orig, S(), 0)
      requires good ==> S().newTable == map[] && nNew == |NewList(orig)| && version == 1 && uBuckets == NEW_BUCKET_COUNT
      requires fair ==> 0 <= nNew && 0 <= nTried && Apart(w, nNew + nTried) && Reading(env, S().(idCount := 0), w, 0, 0, 0)
      requires NewUpTo(env, S(), w, version == 1 && uBuckets == NEW_BUCKET_COUNT, 0)
      modifies this`mapInfo, this`mapAddr, this`vRandom, vvNew
      ensures RandomConsistent(mapInfo, vRandom)
      ensures ok ==> forall id :: id in mapInfo <==> 0 <= id < nNew
      ensures good ==> ok && next == HEADER + |NewList(orig)|
      ensures good ==> S().newTable == map[] && EntriesRead(env, orig, S(), |NewList(orig)|)
      ensures ok && fair ==> next == HEADER + nNew && Reading(env, S().(idCount := nNew), w, nNew, nNew, 0)
      ensures ok && nNew >= 0 ==> NewUpTo(env, S(), w, version == 1 && uBuckets == NEW_BUCKET_COUNT, nNew)
    {
      hide AddrConsistent, RandomConsistent, NewConsistent, TriedConsistent, EntriesConsistent, TableOf, SlotsOf,
        NewIds, TriedIds, NewList, TriedList, ViewOf, EntriesRead, Encodes, Reading, Apart, NewUpTo, NewlyLoaded, LoadEntry;
      ghost var native := version == 1 && uBuckets == NEW_BUCKET_COUNT;
      next := at;
      var n := 0;
      while n < nNew
        invariant 0 <= n && (n <= nNew || n == 0) && next == at + n && RandomConsistent(mapInfo, vRandom)
        invariant forall id :: id in mapInfo <==> 0 <= id < n
        invariant good ==> n <= |NewList(orig)| && S().newTable == map[] && EntriesRead(env, orig, S(), n)
        invariant fair ==> Reading(env, S().(idCount := n), w, n, n, 0)
        invariant NewUpTo(env, S(), w, native, n)
      {
        ghost var s := S();
        if good { NewItem(env, orig, w, n); ReadNewEntry(env, orig, s, n); }
        if !(next < |w| && w[next].Entry?) { return false, next; }
        LoadNewEntry(n, w[next].saved, version == 1 && uBuckets == NEW_BUCKET_COUNT);
        if good { LoadedNative(env, s, n, w[next].saved); }
        if fair { ReadLoaded(env, s, w, native, n, nNew + nTried); }
        NewUpToStep(env, s, w, native, n);
        next, n := next + 1, n + 1;
      }
      ok := true;
    }

    /** The body of the loop over the new entries. */
    method LoadNewEntry(n: nat, saved: Saved, native: bool)
      requires Shape() && n !in mapInfo && RandomConsistent(mapInfo, vRandom)
      modifies this`mapInfo, this`mapAddr, this`vRandom, vvNew
      ensures RandomConsistent(mapInfo, vRandom) && mapInfo.Keys == old(mapInfo.Keys) + {n}
      ensures S() == NewlyLoaded(env, old(S()), n, saved, native)
    {
      hide RandomConsistent, TableOf, NewSlot, Occupy;
      LoadEntryNow(n, saved);
      if !native { PlaceLoaded(n, saved); }
    }

    method LoadEntryNow(n: nat, saved: Saved)
      requires Shape() && n !in mapInfo && RandomConsistent(mapInfo, vRandom)
      modifies this`mapInfo, this`mapAddr, this`vRandom
      ensures RandomConsistent(mapInfo, vRandom) && S() == LoadEntry(old(S()), n, saved)
    {
      hide RandomConsistent, TableOf;
      PushRandom(mapInfo, vRandom, n, Load(saved, 0, false, |vRandom|));
      mapInfo := mapInfo[n := Load(saved, 0, false, |vRandom|)];
      mapAddr := mapAddr[saved.service.addr := n];
      vRandom := vRandom + [n];
    }

    /** Unserialize, second part: the tried entries, numbered on from the new ones; one whose slot
        is already taken is lost. */
    method LoadTried(w: seq<Item>, at: nat, ghost lo: int, ghost orig: State, ghost good: bool, ghost fair: bool, ghost native: bool)
      returns (ok: bool, next: nat)
      requires Shape() && RandomConsistent(mapInfo, vRandom)
      requires lo <= idCount && forall id | id in mapInfo :: lo <= id < idCount
      requires good ==> TriedSoFar(env, orig, w, S(), 0) && nTried == orig.nTried >= 0 && at == HEADER + |NewList(orig)|
      requires fair ==> 0 <= nTried && Apart(w, nNew + nTried) && at == HEADER + nNew && NewRead(env, S(), w, nNew, nNew, 0)
      requires fair ==> TriedUpTo(env, S(), w, native, nNew, 0)
      modifies this`mapInfo, this`mapAddr, this`vRandom, this`idCount, this`nTried, vvTried
      ensures RandomConsistent(mapInfo, vRandom) && old(mapInfo.Keys) <= mapInfo.Keys && forall id | id in mapInfo :: lo <= id < idCount
      ensures good ==> ok && next == BucketsAt(orig) && nTried == orig.nTried && idCount == |Written(orig)|
      ensures good ==> S().newTable == map[] && EntriesRead(env, orig, S(), |Written(orig)|)
      ensures ok && fair ==> NewRead(env, S(), w, nNew + old(nTried), nNew, nTried)
      ensures ok && fair ==> TriedUpTo(env, S(), w, native, nNew, old(nTried))
      ensures ok && fair ==> next == HEADER + nNew + old(nTried)
    {
      hide AddrConsistent, RandomConsistent, NewConsistent, TriedConsistent, EntriesConsistent, TableOf, SlotsOf,
        NewIds, TriedIds, NewList, TriedList, ViewOf, EntriesRead, Encodes, NewRead, Apart, TriedSoFar, ReadingTried, TriedLoaded, Written, BucketsAt, TriedUpTo;
      next := at;
      var lost := 0;
      var n := 0;
      ReadingTriedStart(env, orig, good, fair, w, S());
      while n < nTried
        invariant 0 <= n && (n <= nTried || n == 0) && next == at + n && RandomConsistent(mapInfo, vRandom) && nTried == old(nTried)
        invariant lo <= idCount && old(mapInfo.Keys) <= mapInfo.Keys && forall id | id in mapInfo :: lo <= id < idCount
        invariant ReadingTried(env, orig, good, fair, w, S(), n, lost)
        invariant fair ==> TriedUpTo(env, S(), w, native, nNew, n)
      {
        ghost var s := S();
        if good { ReadingTriedItem(env, orig, good, fair, w, s, n, lost, next); }
        if !(next < |w| && w[next].Entry?) { return false, next; }
        var found := LoadTriedEntry(w[next].saved);
        ReadingTriedStep(env, orig, good, fair, w, s, S(), n, lost, next, found);
        if fair { TriedUpToStep(env, s, S(), w, native, nNew, n, found); }
        if !found { lost := lost + 1; }
        next, n := next + 1, n + 1;
      }
      ghost var s := S();
      nTried := nTried - lost;
      ReadingTriedDone(env, orig, good, fair, w, s, S(), n, lost);
      if fair { TriedUpToEnd(env, s, S(), w, native, nNew, n); }
      ok := true;
    }

    /** The body of the loop over the tried entries: whether the entry found its slot free. */
    method LoadTriedEntry(saved: Saved) returns (found: bool)
      requires Shape() && RandomConsistent(mapInfo, vRandom) && idCount !in mapInfo
      modifies this`mapInfo, this`mapAddr, this`vRandom, this`idCount, vvTried
      ensures RandomConsistent(mapInfo, vRandom)
      ensures idCount == old(idCount) + (if found then 1 else 0)
      ensures mapInfo.Keys == old(mapInfo.Keys) + (if found then {old(idCount)} else {})
      ensures TriedLoaded(env, old(S()), S(), saved, found)
    {
      hide RandomConsistent, TableOf;
      var kBucket := env.TriedBucket(key, saved.service);
      var kPos := env.Position(key, false, kBucket, saved.service);
      TableAt(vvTried, kBucket, kPos);
      found := vvTried[kBucket, kPos] == -1;
      if found {
        var i := Load(saved, 0, true, |vRandom|);
        PushRandom(mapInfo, vRandom, idCount, i);
        vRandom := vRandom + [idCount];
        mapInfo := mapInfo[idCount := i];
        mapAddr := mapAddr[saved.service.addr := idCount];
        WriteSlot(vvTried, kBucket, kPos, idCount);
        idCount := idCount + 1;
      }
    }

    /** Unserialize, third part: the positions in the new table, when they can be used. */
    method LoadPositions(w: seq<Item>, at: nat, version: nat, uBuckets: int, ghost orig: State, ghost good: bool, ghost total: nat, ghost fair: bool)
      returns (ok: bool)
      requires Shape() && RandomConsistent(mapInfo, vRandom) && forall id | 0 <= id < nNew :: id in mapInfo
      requires good ==> AddrManState.Valid(env, orig) && Encodes(orig, w) && EntriesRead(env, orig, S(), |Written(orig)|)
      requires good ==> S().newTable == map[] && nNew == |NewList(orig)| && version == 1 && uBuckets == NEW_BUCKET_COUNT
      requires good ==> at == BucketsAt(orig)
      requires fair ==> NewRead(env, S(), w, total, nNew, nTried)
      requires fair && version == 1 && uBuckets == NEW_BUCKET_COUNT ==> SlotsUpTo(env, S(), w, at, nNew, total - nNew, 0, 0)
      modifies this`mapInfo, vvNew
      ensures RandomConsistent(mapInfo, vRandom) && mapInfo.Keys == old(mapInfo.Keys)
      ensures good ==> ok && EntriesRead(env, orig, S(), |Written(orig)|) && NewTableRead(orig, S().newTable, NEW_BUCKET_COUNT, 0)
      ensures fair ==> NewRead(env, S(), w, total, nNew, nTried)
      ensures !(version == 1 && uBuckets == NEW_BUCKET_COUNT) ==> S() == old(S())
      ensures ok && fair && version == 1 && uBuckets == NEW_BUCKET_COUNT ==>
                SlotsUpTo(env, S(), w, at, nNew, total - nNew, NEW_BUCKET_COUNT, 0)
    {
      hide AddrConsistent, RandomConsistent, NewConsistent, TriedConsistent, EntriesConsistent, TableOf, SlotsOf,
        NewIds, TriedIds, NewList, TriedList, ViewOf, EntriesRead, Encodes, NewTableRead, BucketStart, PosList, NewRead, SlotsUpTo, AtBucket, AtPosition;
      ghost var native := version == 1 && uBuckets == NEW_BUCKET_COUNT;
      var next: nat := at;
      var bucket := 0;
      if good { NothingRead(orig, S().newTable); }
      if fair && native { AtFirstBucket(env, S(), w, at, nNew, total - nNew); }
      while bucket < uBuckets
        invariant 0 <= bucket && RandomConsistent(mapInfo, vRandom) && mapInfo.Keys == old(mapInfo.Keys)
        invariant good ==> bucket <= NEW_BUCKET_COUNT && next == at + BucketStart(orig.newTable, bucket)
        invariant good ==> EntriesRead(env, orig, S(), |Written(orig)|) && NewTableRead(orig, S().newTable, bucket, 0)
        invariant fair ==> NewRead(env, S(), w, total, nNew, nTried)
        invariant !native ==> S() == old(S())
        invariant fair && native ==> bucket <= NEW_BUCKET_COUNT && AtBucket(env, S(), w, at, nNew, total - nNew, bucket, next)
      {
        if good { BucketItem(env, orig, w, bucket); }
        if !(next < |w| && w[next].Int?) { return false; }
        var nSize := w[next].n;
        next := next + 1;
        var n := 0;
        if fair && native { BucketEntered(env, S(), w, at, nNew, total - nNew, bucket, nSize, next - 1); }
        while n < nSize
          invariant 0 <= n && RandomConsistent(mapInfo, vRandom) && mapInfo.Keys == old(mapInfo.Keys)
          invariant good ==> n <= nSize && next == at + BucketStart(orig.newTable, bucket) + 1 + n
          invariant good ==> EntriesRead(env, orig, S(), |Written(orig)|) && NewTableRead(orig, S().newTable, bucket, n)
          invariant fair ==> NewRead(env, S(), w, total, nNew, nTried)
          invariant !native ==> S() == old(S())
          invariant fair && native ==> AtPosition(env, S(), w, at, nNew, total - nNew, bucket, nSize, n, next)
        {
          ghost var s := S();
          if good {
            PositionItem(env, orig, w, bucket, n);
            SlotIsFreeToRead(env, orig, s, bucket, n);
            IndexLeadsBack(env, orig, bucket, n);
            ReadSlot(env, orig, s, bucket, n);
            KeyRead(env, orig, s, |Written(orig)|);
          }
          if !(next < |w| && w[next].Int?) { return false; }
          var nIndex := w[next].n;
          next := next + 1;
          if 0 <= nIndex < nNew {
            if version == 1 && uBuckets == NEW_BUCKET_COUNT {
              var placed := LoadPosition(nIndex, bucket);
              if fair { NewReadPlaced(env, s, w, total, nIndex, Slot(bucket, env.Position(key, true, bucket, s.info[nIndex].service)), nNew, nTried); }
            }
          }
          if fair && native { PositionRead(env, s, S(), w, at, nNew, total - nNew, bucket, nSize, n, next - 1, nIndex); }
          n := n + 1;
        }
        if fair && native { BucketRead(env, S(), w, at, nNew, total - nNew, bucket, nSize, n, next); }
        if good { NextBucket(orig, S().newTable, bucket); }
        bucket := bucket + 1;
      }
      if fair && native { AtBucketGives(env, S(), w, at, nNew, total - nNew, bucket, next); }
      ok := true;
    }

    /** Enter a new entry into a bucket, at its own position there, if that is free and the entry is in fewer than eight. */
    method LoadPosition(id: int, bucket: nat) returns (placed: bool)
      requires Shape() && bucket < NEW_BUCKET_COUNT && id in mapInfo && id != -1 && RandomConsistent(mapInfo, vRandom)
      modifies this`mapInfo, vvNew
      ensures RandomConsistent(mapInfo, vRandom) && mapInfo.Keys == old(mapInfo.Keys)
      ensures forall o | o in mapInfo :: mapInfo[o].inTried == old(mapInfo)[o].inTried
      ensures var sl := Slot(bucket, env.Position(key, true, bucket, old(mapInfo)[id].service));
              && (placed <==> sl !in old(S()).newTable && old(mapInfo)[id].refCount < NEW_BUCKETS_PER_ADDRESS)
              && S() == if placed then Occupy(old(S()), sl, id) else old(S())
    {
      hide RandomConsistent, TableOf;
      var uPos := env.Position(key, true, bucket, mapInfo[id].service);
      TableAt(vvNew, bucket, uPos);
      placed := vvNew[bucket, uPos] == -1 && mapInfo[id].refCount < NEW_BUCKETS_PER_ADDRESS;
      if placed {
        KeepsRandom(mapInfo, vRandom, id, mapInfo[id].(refCount := mapInfo[id].refCount + 1));
        mapInfo := mapInfo[id := mapInfo[id].(refCount := mapInfo[id].refCount + 1)];
        WriteSlot(vvNew, bucket, uPos, id);
      }
    }

    method DropSlotless(id: int, ghost info0: map<int, Info>, ghost w: seq<Item>, ghost total: nat, ghost fair: bool)
      requires Shape() && RandomConsistent(mapInfo, vRandom) && PrunedTo(info0, mapInfo, id)
      requires id in mapInfo && Slotless(mapInfo[id])
      requires fair ==> Reading(env, S(), w, total, nNew, nTried)
      modifies this
      ensures RandomConsistent(mapInfo, vRandom) && PrunedTo(info0, mapInfo, id + 1)
      ensures idCount == old(idCount) && key == old(key) && nTried == old(nTried) && nNew == old(nNew) - 1
      ensures Gone(info0, mapInfo) == Gone(info0, old(mapInfo)) + 1
      ensures fair ==> Reading(env, S(), w, total, nNew, nTried)
    {
      hide RandomConsistent, TableOf, PrunedTo, Gone, Reading, AddrManSteps.Delete, AddrManSteps.SwapRandom, Remove;
      ghost var s := S();
      LastIsKnown(mapInfo, vRandom, id);
      Delete(id);
      PruneOne(info0, s, id);
      if fair { ReadDropped(env, s, w, total, id, s.nNew, s.nTried); }
    }

    /** Unserialize, last part: drop the new entries that found no slot, and only those. */
    method Prune(lo: int, ghost keep: bool, ghost w: seq<Item>, ghost total: nat, ghost fair: bool)
      requires Shape() && RandomConsistent(mapInfo, vRandom) && forall id | id in mapInfo :: lo <= id < idCount
      requires keep ==> forall id | id in mapInfo :: mapInfo[id].inTried || mapInfo[id].refCount > 0
      requires fair ==> Reading(env, S(), w, total, nNew, nTried)
      modifies this
      ensures keep ==> S() == old(S())
      ensures RandomConsistent(mapInfo, vRandom)
      ensures key == old(key) && nTried == old(nTried) && idCount == old(idCount)
      ensures forall id :: id in mapInfo <==> id in old(mapInfo) && !Slotless(old(mapInfo)[id])
      ensures forall id | id in mapInfo :: mapInfo[id] == old(mapInfo)[id].(randomPos := mapInfo[id].randomPos)
      ensures NoneSlotless(mapInfo)
      ensures nNew == old(nNew) - Gone(old(mapInfo), mapInfo)
      ensures fair ==> Reading(env, S(), w, total, nNew, nTried)
    {
      hide RandomConsistent, TableOf, PrunedTo, Gone, Reading, SlotsOf, AddrManSteps.Delete, AddrManSteps.SwapRandom, Remove;
      var id := lo;
      ghost var info0 := mapInfo;
      PruneStart(mapInfo, id);
      while id < idCount
        invariant RandomConsistent(mapInfo, vRandom) && idCount == old(idCount) && key == old(key) && nTried == old(nTried)
        invariant keep ==> S() == old(S())
        invariant PrunedTo(info0, mapInfo, id) && nNew == old(nNew) - Gone(info0, mapInfo)
        invariant fair ==> Reading(env, S(), w, total, nNew, nTried)
      {
        if id in mapInfo && !mapInfo[id].inTried && mapInfo[id].refCount == 0 {
          DropSlotless(id, info0, w, total, fair);
        } else {
          PruneNone(info0, mapInfo, id);
        }
        id := id + 1;
      }
      PruneEnd(info0, mapInfo, id);
    }

    /** Unserialize up to the entries. */
    method ReadHeader(w: seq<Item>) returns (ok: bool, version: nat, uBuckets: int)
      requires Shape()
      modifies this`key, this`nNew, this`nTried
      ensures ok <==> |w| >= HEADER && w[0].Byte? && w[1] == Byte(32) && w[2].Key? && w[3].Int? && w[4].Int? && w[5].Int?
      ensures ok ==>
                && key == w[2].k && nNew == w[3].n && nTried == w[4].n && version == w[0].b
                && uBuckets == if version != 0 && w[5].n >= 0 then FlipFlag(w[5].n) else w[5].n
    {
      ok, version, uBuckets := false, 0, 0;
      if !(|w| >= HEADER && w[0].Byte? && w[1].Byte? && w[2].Key? && w[3].Int? && w[4].Int? && w[5].Int?) { return; }
      version := w[0].b;
      if w[1].b != 32 { return; }
      key := w[2].k;
      nNew := w[3].n;
      nTried := w[4].n;
      uBuckets := w[5].n;
      if version != 0 { uBuckets := if uBuckets >= 0 then FlipFlag(uBuckets) else uBuckets; }
      ok := true;
    }

    /** Unserialize between the header and the pruning. */
    method LoadAll(w: seq<Item>, version: nat, uBuckets: int, ghost orig: State, ghost good: bool, ghost fair: bool) returns (ok: bool)
      requires Shape() && mapInfo == map[] && mapAddr == map[] && vRandom == [] && S().newTable == map[] && S().triedTable == map[]
      requires good ==> AddrManState.Valid(env, orig) && Encodes(orig, w) && key == orig.key && nNew == orig.nNew && nTried == orig.nTried
      requires good ==> version == 1 && uBuckets == NEW_BUCKET_COUNT
      requires fair ==> Orderly(w) && nNew == w[3].n && nTried == w[4].n && (Native(w) <==> version == 1 && uBuckets == NEW_BUCKET_COUNT)
      modifies this`mapInfo, this`mapAddr, this`vRandom, this`idCount, this`nTried, vvNew, vvTried
      ensures ok ==> RandomConsistent(mapInfo, vRandom) && forall id | id in mapInfo :: (if nNew < 0 then nNew else 0) <= id < idCount
      ensures good ==> ok && AllRead(env, orig, S())
      ensures ok && fair ==> Reading(env, S(), w, EntriesIn(w), nNew, nTried) && ReadOut(env, S(), w, w[3].n, w[4].n)
    {
      hide AddrConsistent, RandomConsistent, NewConsistent, TriedConsistent, EntriesConsistent, TableOf, SlotsOf,
        NewIds, TriedIds, NewList, TriedList, ViewOf, EntriesRead, Encodes, NewTableRead, Reading, NewRead, TriedSoFar, Loaded, Apart, KnownFrom, BucketStart,
        NewUpTo, TriedUpTo, SlotsUpTo, ReadOut, Native, IsPosition;
      ghost var total: nat, native := if fair then EntriesIn(w) else 0, version == 1 && uBuckets == NEW_BUCKET_COUNT;
      NoRandomYet();
      NewUpToStart(env, S(), w, native);
      if good { HeaderItems(env, orig, w); NothingLoaded(env, orig, S()); }
      if fair { ReadingStart(env, S().(idCount := 0), w); }
      var next;
      ok, next := LoadNew(w, HEADER, version, uBuckets, orig, good, fair);
      if !ok { return false; }
      ghost var s, tried := S(), nTried;
      idCount := nNew;
      if good { NewAreRead(env, orig, w, s, S()); }
      if fair { NewReadIs(env, S(), w, nNew); TriedUpToStart(env, s, S(), w, native); }
      ok, next := LoadTried(w, next, if nNew < 0 then nNew else 0, orig, good, fair, native);
      if !ok { return false; }
      if fair && native { SlotsUpToStart(env, S(), w, next, nNew, tried); }
      ok := LoadPositions(w, next, version, uBuckets, orig, good, total, fair);
      if !ok { return false; }
      if fair {
        NewReadGives(env, S(), w, total, nNew, nTried);
        if native { SlotsGive(env, S(), w, nNew, tried); } else { TriedUpToGives(env, S(), w, nNew, tried); }
      }
    }

    /** Read a stream into a fresh object: what Serialize wrote comes back. Any other stream that is orderly gives a
        valid manager: everything in it comes from the stream, and an entry is lost only to another one in its slot.
        `newKey` is the random key that Clear draws; false stands for the exception thrown on a stream that ends early
        or is of another shape. */
    method Unserialize(w: seq<Item>, newKey: nat, ghost orig: State) returns (ok: bool)
      requires Shape() && mapInfo == map[] && mapAddr == map[]
      modifies this, vvNew, vvTried
      ensures AddrManState.Valid(env, orig) && Encodes(orig, w) ==>
                && ok && Valid() && key == orig.key && View() == Persisted(ViewOf(orig))
                && SameTables(orig, S()) && (Sane(ViewOf(orig)) ==> Sane(View()))
      ensures ok && Orderly(w) ==>
                Valid() && w[2] == Key(key) && KnownFrom(mapAddr, w, EntriesIn(w)) && ReadBack(env, key, View(), w, w[3].n, w[4].n)
      // Whatever was read, vRandom lists the entries and none is left without a place.
      ensures ok ==> RandomConsistent(mapInfo, vRandom) && NoneSlotless(mapInfo)
    {
      hide SameTables, Sane, AddrConsistent, RandomConsistent, NewConsistent, TriedConsistent, EntriesConsistent, TableOf, SlotsOf,
        NewIds, TriedIds, NewList, TriedList, ViewOf, EntriesRead, Encodes, NewTableRead, Reading, Loaded, Apart, KnownFrom, BucketStart,
        Slotless, NoneSlotless, ReadOut, ReadBack, WithoutSlotless, Native, AllRead;
      ghost var good := AddrManState.Valid(env, orig) && Encodes(orig, w);
      ghost var fair := Orderly(w);
      ghost var total: nat := if fair then EntriesIn(w) else 0;
      Clear(newKey);
      if good { HeaderItems(env, orig, w); }
      var version, uBuckets;
      ok, version, uBuckets := ReadHeader(w);
      if !ok { return false; }
      NativeIs(w, version, uBuckets);
      ok := LoadAll(w, version, uBuckets, orig, good, fair);
      if !ok { return false; }
      if good {
        Restored(env, orig, S());
        PersistedTables(env, orig, S());
      }
      ghost var s := S();
      Prune(if nNew < 0 then nNew else 0, good, w, total, fair);
      if fair {
        ReadAll(env, S(), w, total);
        WithoutSlotlessIs(s, S());
        ReadBackIs(env, s, S(), w, w[3].n, w[4].n);
      }
    }
  }
}
