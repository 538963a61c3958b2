/** What the specifications of the address manager come to in numbers: when times move, slots are won and
    addresses are dropped, and how far one group of addresses can spread. */
module AddrManLaws {
  import opened Arithmetic
  import opened AddrManState
  import opened AddrManSteps
  import opened AddrManSpec
  import opened AddrManMoves
  import opened AddrManTheorems

  /** An address is terrible unless it was tried in the last minute: ten minutes in the future, not seen for
      thirty days, three times tried in vain, or ten times since a success more than seven days ago. */
  lemma TerribleIff(nTime: nat, lastTry: int, lastSuccess: int, attempts: int, now: int)
    ensures IsTerrible(nTime, lastTry, lastSuccess, attempts, now) <==>
              && (lastTry == 0 || now - lastTry > 60)
              && (|| nTime == 0 || nTime - now > 600 || now - nTime > 2592000
                  || (lastSuccess == 0 && attempts >= 3)
                  || (now - lastSuccess > 604800 && attempts >= 10))
  {
  }

  // ---------- Buckets ----------

  lemma BucketsAre(e: Env, key: nat, s: Service, source: NetAddr)
    ensures TriedSlot(e, key, s).bucket == e.hashTried(key, e.group(s.addr), e.hashKey(key, s) % 8) % 256
    ensures NewSlot(e, key, s, source).bucket ==
              e.hashNew(key, e.group(source), e.hashGroups(key, e.group(s.addr), e.group(source)) % 64) % 1024
    ensures TriedSlot(e, key, s).pos == e.hashPosition(key, false, TriedSlot(e, key, s).bucket, s) % 64
    ensures NewSlot(e, key, s, source).pos == e.hashPosition(key, true, NewSlot(e, key, s, source).bucket, s) % 64
  {
  }

  /** All tried addresses of one group share eight buckets, so one group cannot fill the table. */
  lemma TriedSpread(e: Env, key: nat, g: nat) returns (buckets: set<nat>)
    ensures |buckets| <= 8
    ensures forall s: Service | e.group(s.addr) == g :: TriedSlot(e, key, s).bucket in buckets
  {
    buckets := TriedBuckets(e, key, g, 8);
    forall s: Service | e.group(s.addr) == g ensures TriedSlot(e, key, s).bucket in buckets {
      BucketsAre(e, key, s, s.addr);
    }
  }

  lemma {:induction false} TriedBuckets(e: Env, key: nat, g: nat, n: nat) returns (buckets: set<nat>)
    ensures |buckets| <= n
    ensures forall i | 0 <= i < n :: e.hashTried(key, g, i) % 256 in buckets
  {
    if n == 0 { return {}; }
    buckets := TriedBuckets(e, key, g, n - 1);
    buckets := buckets + {e.hashTried(key, g, n - 1) % 256};
  }

  /** All addresses that sources of one group announce share sixty-four new buckets. */
  lemma NewSpread(e: Env, key: nat, g: nat) returns (buckets: set<nat>)
    ensures |buckets| <= 64
    ensures forall s: Service, source | e.group(source) == g :: NewSlot(e, key, s, source).bucket in buckets
  {
    buckets := NewBuckets(e, key, g, 64);
    forall s: Service, source | e.group(source) == g ensures NewSlot(e, key, s, source).bucket in buckets {
      BucketsAre(e, key, s, source);
    }
  }

  lemma {:induction false} NewBuckets(e: Env, key: nat, g: nat, n: nat) returns (buckets: set<nat>)
    ensures |buckets| <= n
    ensures forall i | 0 <= i < n :: e.hashNew(key, g, i) % 1024 in buckets
  {
    if n == 0 { return {}; }
    buckets := NewBuckets(e, key, g, n - 1);
    buckets := buckets + {e.hashNew(key, g, n - 1) % 1024};
  }

  /** Nobody is in the new table without a slot there: so it is with the view of every valid manager. */
  ghost predicate Housed(v: View) { forall a | a in v :: v[a].place != New({}) }

  lemma ViewIsHoused(e: Env, s: State)
    requires Valid(e, s)
    ensures Housed(ViewOf(s))
  {
    hide RandomConsistent, NewConsistent, TriedConsistent, EntriesConsistent, ViewOf;
    forall a | a in ViewOf(s) ensures ViewOf(s)[a].place != New({}) {
      PlacesAre(e, s, a);
    }
  }

  /** Where an address can be: one to eight slots of the 1024 times 64 of the new table, or its one of the
      256 times 64 of the tried table. */
  lemma PlacesAre(e: Env, s: State, a: NetAddr)
    requires Valid(e, s) && a in ViewOf(s)
    ensures var r := ViewOf(s)[a];
            && r.service.addr == a
            && (r.place.New? ==> 1 <= |r.place.slots| <= 8 && forall sl | sl in r.place.slots :: sl.bucket < 1024 && sl.pos < 64)
            && (r.place.Tried? ==> TriedSlot(e, s.key, r.service).bucket < 256 && TriedSlot(e, s.key, r.service).pos < 64)
  {
    hide RandomConsistent, TriedConsistent;
    ViewAtAddress(s, a);
    CountIsInRange(s, s.addr[a]);
    RefCountIs(s, {}, s.addr[a]);
  }

  // ---------- Add_ ----------

  /** The time that an announcement is credited with. */
  function Credited(announced: nat, penalty: int): int { if announced > penalty then announced - penalty else 0 }

  /** The time of a known address never falls, lags an announcement by no more than a day and the penalty, and is
      the old one or no later than announced. It changes exactly for an announcement with a time that is later by
      more than the penalty and an hour, or a day if the address has not been online for a day. */
  lemma AddRefreshes(e: Env, key: nat, v: View, a: Address, source: NetAddr, penalty: int, now: int, draw: nat)
    requires e.routable(a.service.addr) && a.service.addr in v && a.nTime < 0x1_0000_0000 && penalty >= 0
    requires Housed(v)
    ensures var w := AddSpec(e, key, v, a, source, penalty, now, draw);
            var b := a.service.addr;
            && b in w && w[b].nTime >= v[b].nTime
            && (a.nTime != 0 ==> a.nTime - w[b].nTime <= 86400 + penalty)
            && (w[b].nTime == v[b].nTime || w[b].nTime == Credited(a.nTime, penalty) <= a.nTime)
            && (w[b].nTime != v[b].nTime <==>
                  if v[b].nTime == 0 then a.nTime > penalty
                  else a.nTime - v[b].nTime > penalty + if now - a.nTime < 86400 then 3600 else 86400)
            && w[b].services == v[b].services + a.services
            && w[b] == v[b].(nTime := w[b].nTime, services := w[b].services, place := w[b].place)
  {
    hide Yields, RefreshedTime;
    var b := a.service.addr;
    RefreshedIs(v[b].nTime, a.nTime, penalty, now);
    var u := Refreshed(v, a, penalty, now);
    if u[b].place.New? { PlaceNewKeeps(e, key, u, b, source, now); }
  }

  /** An address that earns a slot is in the new table, in a slot or more already. */
  lemma PlaceNewKeeps(e: Env, key: nat, v: View, b: NetAddr, source: NetAddr, now: int)
    requires b in v && v[b].place.New? && v[b].place != New({})
    ensures var w := PlaceNew(e, key, v, b, source, now);
            b in w && w[b] == v[b].(place := w[b].place)
  {
    hide Yields;
  }

  lemma RefreshedIs(known: nat, announced: nat, penalty: int, now: int)
    requires announced < 0x1_0000_0000 && penalty >= 0
    ensures var t := RefreshedTime(known, announced, penalty, now);
            && t >= known
            && (announced != 0 ==> announced - t <= 86400 + penalty)
            && (t == known || t == Credited(announced, penalty) <= announced)
            && (t != known <==> if known == 0 then announced > penalty
                                else announced - known > penalty + if now - announced < 86400 then 3600 else 86400)
  {
  }

  /** Whoever holds the slot is terrible, or keeps another slot and makes room for an address that has none. */
  ghost predicate GivesWay(v: View, sl: Slot, slots: set<Slot>, now: int) {
    forall o | o in v && v[o].place.New? && sl in v[o].place.slots ::
      v[o].Terrible(now) || (|v[o].place.slots| >= 2 && slots == {})
  }

  /** A known address wins a slot, the one its service and the source give, exactly if it is new, has fewer than
      eight, is announced with news, draws zero out of two to the number of its slots, and the holder gives way. */
  lemma AddWinsSlot(e: Env, key: nat, v: View, a: Address, source: NetAddr, penalty: int, now: int, draw: nat)
    requires e.routable(a.service.addr) && a.service.addr in v && v[a.service.addr].service == a.service
    requires Housed(v)
    ensures var w := AddSpec(e, key, v, a, source, penalty, now, draw);
            var b := a.service.addr;
            && b in w
            && (v[b].place.Tried? ==> w[b].place.Tried?)
            && (v[b].place.New? ==>
                  var sl, slots := NewSlot(e, key, a.service, source), v[b].place.slots;
                  && w[b].place.New? && (w[b].place.slots == slots || w[b].place.slots == slots + {sl})
                  && (sl !in slots ==>
                        (sl in w[b].place.slots <==>
                           && a.nTime != 0 && (w[b].nTime == 0 || a.nTime > w[b].nTime)
                           && |slots| != 8 && Pow2(|slots|) > 0 && draw % Pow2(|slots|) == 0
                           && GivesWay(v, sl, slots, now))))
  {
    hide RefreshedTime, Yields, GivesWay, NewSlot;
    var b := a.service.addr;
    var u := Refreshed(v, a, penalty, now);
    if v[b].place.New? {
      var sl, slots := NewSlot(e, key, a.service, source), v[b].place.slots;
      PositivePow2(|slots|);
      if sl !in slots { YieldsIsGivesWay(u, v, b, sl, now); }
    }
  }

  lemma YieldsIsGivesWay(u: View, v: View, b: NetAddr, sl: Slot, now: int)
    requires b in v && v[b].place.New? && sl !in v[b].place.slots && b in u && u[b].place == v[b].place
    requires u.Keys == v.Keys && forall x | x in v && x != b :: u[x] == v[x]
    ensures Yields(u, sl, u[b], now) <==> GivesWay(v, sl, v[b].place.slots, now)
  {
    if v[b].place.slots == {} { assert |v[b].place.slots| == 0; }
    forall o | o in v && v[o].place.New? && sl in v[o].place.slots ensures o != b && u[o] == v[o] && Occupies(u, o, sl) {}
  }

  /** An unknown address is entered exactly if the holder of its slot gives way, with nothing but what was announced. */
  lemma AddEnters(e: Env, key: nat, v: View, a: Address, source: NetAddr, penalty: int, now: int, draw: nat)
    requires e.routable(a.service.addr) && a.service.addr !in v && a.nTime < 0x1_0000_0000 && penalty >= 0
    ensures var w := AddSpec(e, key, v, a, source, penalty, now, draw);
            var b, sl := a.service.addr, NewSlot(e, key, a.service, source);
            && (b in w <==> GivesWay(v, sl, {}, now))
            && (b in w ==> w[b] == Record(a.service, a.services, Credited(a.nTime, penalty), 0, source, 0, 0, New({sl})))
  {
    var b, sl := a.service.addr, NewSlot(e, key, a.service, source);
    var u := v[b := NewRecord(a, source).(nTime := Trunc32(if a.nTime - penalty > 0 then a.nTime - penalty else 0))];
    EntersIf(u, v, b, sl, now);
    assert {} + {sl} == {sl};
  }

  lemma EntersIf(u: View, v: View, b: NetAddr, sl: Slot, now: int)
    requires b !in v && b in u && u[b].place == New({}) && u.Keys == v.Keys + {b} && forall x | x in v :: u[x] == v[x]
    ensures Yields(u, sl, u[b], now) <==> GivesWay(v, sl, {}, now)
  {
    forall o | o in v && v[o].place.New? && sl in v[o].place.slots ensures o != b && u[o] == v[o] && Occupies(u, o, sl) {}
  }

  /** Add_ changes another address only by taking away the slot in question; one that is forgotten was terrible. */
  lemma AddSpares(e: Env, key: nat, v: View, a: Address, source: NetAddr, penalty: int, now: int, draw: nat, x: NetAddr)
    requires x in v && x != a.service.addr
    requires a.service.addr in v ==> v[a.service.addr].service == a.service
    ensures var w := AddSpec(e, key, v, a, source, penalty, now, draw);
            var sl := NewSlot(e, key, a.service, source);
            && (x in w ==> w[x] == v[x] || (Occupies(v, x, sl) && w[x] == v[x].(place := New(v[x].place.slots - {sl}))))
            && (x !in w ==> v[x].place == New({sl}) && v[x].Terrible(now))
  {
    hide RefreshedTime, EarnsSlot;
    var sl := NewSlot(e, key, a.service, source);
    var w := AddSpec(e, key, v, a, source, penalty, now, draw);
    if x !in w {
      assert v[x].place == New({sl}) && |{sl}| == 1;
      assert Occupies(v, x, sl);
    }
  }

  // ---------- Good_ ----------

  /** A success with a known service makes it tried, with its statistics reset. */
  lemma GoodRecords(e: Env, key: nat, v: View, s: Service, t: int)
    requires Knows(v, s) && Exclusive(e, key, v)
    ensures var w := GoodSpec(e, key, v, s, t);
            s.addr in w && w[s.addr] == v[s.addr].(lastSuccess := t, lastTry := t, attempts := 0, place := Tried)
  {
    var r := v[s.addr].(lastSuccess := t, lastTry := t, attempts := 0);
    if v[s.addr].place.Tried? { assert r.place == Tried; }
  }

  /** Of the others, a tried address in the same tried slot goes back to the one new slot that its own source gives,
      with its statistics; new addresses only lose that slot; all the rest stay. */
  lemma GoodSpares(e: Env, key: nat, v: View, s: Service, t: int, x: NetAddr)
    requires Knows(v, s) && Exclusive(e, key, v) && x in v && x != s.addr
    ensures var w := GoodSpec(e, key, v, s, t);
            && (v[x].place.Tried? ==>
                  && x in w
                  && (v[s.addr].place.New? && TriedSlot(e, key, v[x].service) == TriedSlot(e, key, s) ==>
                        w[x] == v[x].(place := New({NewSlot(e, key, v[x].service, v[x].source)})))
                  && (v[s.addr].place.Tried? || TriedSlot(e, key, v[x].service) != TriedSlot(e, key, s) ==> w[x] == v[x]))
            && (v[x].place.New? && x in w ==>
                  w[x] == v[x] || exists o :: o in v && v[o].place.Tried? && TriedSlot(e, key, v[o].service) == TriedSlot(e, key, s)
                                   && w[x] == v[x].(place := New(v[x].place.slots - {NewSlot(e, key, v[o].service, v[o].source)})))
  {
    if v[s.addr].place.New? {
      var r := v[s.addr].(lastSuccess := t, lastTry := t, attempts := 0, place := New({}));
      var u := v[s.addr := r];
      var sl := TriedSlot(e, key, s);
      forall o ensures Incumbent(e, key, u, sl, o) <==> Incumbent(e, key, v, sl, o) {}
      if exists o :: Incumbent(e, key, u, sl, o) {
        var o :| Incumbent(e, key, u, sl, o);
        forall p | Incumbent(e, key, u, sl, p) ensures p == o { assert Incumbent(e, key, v, sl, p); }
        assert GoodSpec(e, key, v, s, t) == Demote(e, key, u, o)[s.addr := r.(place := Tried)];
        if v[x].place.Tried? && TriedSlot(e, key, v[x].service) == sl { assert Incumbent(e, key, u, sl, x); }
      } else if v[x].place.Tried? {
        assert !Incumbent(e, key, u, sl, x);
      }
    }
  }

  // ---------- Statistics only ----------

  lemma AttemptRecords(v: View, s: Service, t: int)
    ensures var w := AttemptSpec(v, s, t);
            && w.Keys == v.Keys && (forall x | x in v && x != s.addr :: w[x] == v[x])
            && (Knows(v, s) ==> w[s.addr] == v[s.addr].(lastTry := t, attempts := v[s.addr].attempts + 1))
            && (!Knows(v, s) ==> w == v)
  {
  }

  lemma ServicesReplaced(v: View, s: Service, services: set<nat>)
    ensures var w := SetServicesSpec(v, s, services);
            && w.Keys == v.Keys && (forall x | x in v && x != s.addr :: w[x] == v[x])
            && (Knows(v, s) ==> w[s.addr].services == services && w[s.addr] == v[s.addr].(services := w[s.addr].services))
            && (!Knows(v, s) ==> w == v)
  {
  }

  /** A connection brings the time of the exact service to within twenty minutes, and never back. */
  lemma ConnectedLag(v: View, s: Service, t: nat)
    requires t < 0x1_0000_0000
    ensures var w := ConnectedSpec(v, s, t);
            && w.Keys == v.Keys && (forall x | x in v && x != s.addr :: w[x] == v[x])
            && (Knows(v, s) ==>
                  && w[s.addr] == v[s.addr].(nTime := w[s.addr].nTime)
                  && v[s.addr].nTime <= w[s.addr].nTime && t - w[s.addr].nTime <= 1200
                  && (w[s.addr].nTime == v[s.addr].nTime || w[s.addr].nTime == t)
                  && (w[s.addr].nTime != v[s.addr].nTime <==> t - v[s.addr].nTime > 1200))
            && (!Knows(v, s) ==> w == v)
  {
  }
}
