/** The compound updates: chains of elementary steps, followed in the view. */
module AddrManMoves {
  import opened AddrManState
  import opened AddrManSteps
  import opened AddrManSpec

  /** Exactly the entry in a slot occupies it in the view. */
  lemma OccupiesIff(s: State, sl: Slot, id: int)
    requires AddrConsistent(s.info, s.addr) && id in s.info
    requires sl in s.newTable ==> s.newTable[sl] in s.info && !s.info[s.newTable[sl]].inTried
    ensures Occupies(ViewOf(s), s.info[id].service.addr, sl) <==> sl in s.newTable && s.newTable[sl] == id
  {
  }

  ghost predicate SubMap(m: map<NetAddr, int>, n: map<NetAddr, int>) {
    forall a | a in m :: a in n && m[a] == n[a]
  }

  /** How far the counters are from the true numbers of entries. */
  ghost predicate SameSlack(s: State, t: State) {
    && t.nNew - |NewIds(t.info)| == s.nNew - |NewIds(s.info)|
    && t.nTried - |TriedIds(t.info)| == s.nTried - |TriedIds(s.info)|
  }

  /** `t` is `s` after ClearNew(sl). */
  ghost predicate Cleared(e: Env, s: State, t: State, loose: set<int>, sl: Slot)
    requires AddrConsistent(s.info, s.addr)
  {
    && Consistent(e, t, loose) && ViewOf(t) == ClearSlot(ViewOf(s), sl)
    && t.key == s.key && t.triedTable == s.triedTable && sl !in t.newTable
    && SubMap(t.addr, s.addr) && SameSlack(s, t)
  }

  lemma NotOccupied(e: Env, s: State, loose: set<int>, sl: Slot)
    requires Consistent(e, s, loose) && sl !in s.newTable
    ensures Cleared(e, s, s, loose, sl)
  {
    forall a | a in s.addr ensures !Occupies(ViewOf(s), a, sl) {
      OccupiesIff(s, sl, s.addr[a]);
    }
    assert ClearSlot(ViewOf(s), sl) == ViewOf(s);
  }

  /** Clearing the slot of an occupant changes nobody else in the view. */
  lemma ClearSoleOccupant(v: View, sl: Slot, a: NetAddr)
    requires Occupies(v, a, sl) && forall x | x in v && x != a :: !Occupies(v, x, sl)
    ensures var n := v[a].place.slots - {sl};
            ClearSlot(v, sl) == if n == {} then v - {a} else v[a := v[a].(place := New(n))]
  {
    var n := v[a].place.slots - {sl};
    assert v[a].place.slots == n + {sl};
    if n == {} { assert v[a].place == New({sl}); } else { var y :| y in n; assert y in v[a].place.slots && y != sl; }
    forall x | x in v && x != a ensures v[x].place != New({sl}) {
      assert !Occupies(v, x, sl);
    }
  }

  lemma ClearSlotView(e: Env, s: State, loose: set<int>, sl: Slot)
    requires Consistent(e, s, loose) && sl in s.newTable
    ensures var id := s.newTable[sl]; var a, n := s.info[id].service.addr, SlotsOf(s.newTable, id) - {sl};
            ClearSlot(ViewOf(s), sl) ==
              if n == {} then ViewOf(s) - {a} else ViewOf(s)[a := RecordOf(s.info[id], s.newTable, id).(place := New(n))]
  {
    var id := s.newTable[sl];
    assert sl in SlotsOf(s.newTable, id);
    OccupiesIff(s, sl, id);
    forall x | x in s.addr && x != s.info[id].service.addr ensures !Occupies(ViewOf(s), x, sl) {
      OccupiesIff(s, sl, s.addr[x]);
    }
    hide Consistent;
    ClearSoleOccupant(ViewOf(s), sl, s.info[id].service.addr);
  }

  lemma ReleasedOnly(e: Env, s: State, loose: set<int>, sl: Slot)
    requires Consistent(e, s, loose) && sl in s.newTable && s.info[s.newTable[sl]].refCount != 1
    ensures Cleared(e, s, Release(s, sl), loose, sl)
  {
    var id := s.newTable[sl];
    ReleaseStep(e, s, loose, sl);
    ClearSlotView(e, s, loose, sl);
    RefCountIs(s, loose, id);
    SingleSlot(SlotsOf(s.newTable, id), sl);
  }

  lemma RefCountIs(s: State, loose: set<int>, id: int)
    requires EntriesConsistent(s.idCount, s.info, s.newTable, loose) && id in s.info
    ensures s.info[id].refCount == |SlotsOf(s.newTable, id)| && (id in loose ==> !s.info[id].inTried)
    ensures !s.info[id].inTried ==> (id in loose <==> s.info[id].refCount == 0)
  {
    assert EntryOk(s.info[id], SlotsOf(s.newTable, id), id in loose);
  }

  lemma SingleSlot(n: set<Slot>, sl: Slot)
    requires sl in n
    ensures n - {sl} == {} <==> |n| == 1
  {
    assert |n - {sl}| == |n| - 1;
  }

  lemma ReleasedAndDeleted(e: Env, s: State, loose: set<int>, sl: Slot)
    requires Consistent(e, s, loose) && sl in s.newTable && s.info[s.newTable[sl]].refCount == 1
    ensures var id, u := s.newTable[sl], Release(s, sl);
            && id in u.info && !u.info[id].inTried && u.info[id].refCount == 0
            && 0 <= u.info[id].randomPos < |u.random| && u.random[u.info[id].randomPos] == id
            && u.random[|u.random| - 1] in u.info
            && Cleared(e, s, Delete(u, id), loose, sl)
  {
    var id, u := s.newTable[sl], Release(s, sl);
    ReleaseStep(e, s, loose, sl);
    DeletedAfter(e, s, u, loose, sl, id);
  }

  lemma DeleteFields(s: State, id: int)
    requires id in s.info && 0 <= s.info[id].randomPos < |s.random|
    requires s.random[s.info[id].randomPos] in s.info && s.random[|s.random| - 1] in s.info
    ensures var t := Delete(s, id);
            && t.key == s.key && t.triedTable == s.triedTable && t.newTable == s.newTable
            && t.nNew == s.nNew - 1 && t.nTried == s.nTried && t.addr == s.addr - {s.info[id].service.addr}
  {
  }

  lemma HeldSlot(t: Table, sl: Slot)
    requires sl in t
    ensures sl in SlotsOf(t, t[sl])
  {
  }

  lemma ReleaseFields(s: State, sl: Slot)
    requires sl in s.newTable && s.newTable[sl] in s.info
    ensures var t, id := Release(s, sl), s.newTable[sl];
            && t.key == s.key && t.triedTable == s.triedTable && t.newTable == s.newTable - {sl}
            && t.nNew == s.nNew && t.nTried == s.nTried && t.addr == s.addr && t.random == s.random
            && t.info == s.info[id := s.info[id].(refCount := s.info[id].refCount - 1)]
  {
  }

  lemma DeletedAfter(e: Env, s: State, u: State, loose: set<int>, sl: Slot, id: int)
    requires Consistent(e, s, loose) && sl in s.newTable && s.newTable[sl] == id && id in s.info && s.info[id].refCount == 1
    requires u == Release(s, sl) && Consistent(e, u, loose + {id}) && id !in loose
    requires id in u.info && 0 <= u.info[id].randomPos < |u.random| && u.random[u.info[id].randomPos] == id
    requires u.random[|u.random| - 1] in u.info
    requires NewIds(u.info) == NewIds(s.info) && TriedIds(u.info) == TriedIds(s.info)
    requires ViewOf(u) == ViewOf(s)[s.info[id].service.addr :=
               RecordOf(s.info[id], s.newTable, id).(place := New(SlotsOf(s.newTable, id) - {sl}))]
    ensures Cleared(e, s, Delete(u, id), loose, sl)
  {
    hide AddrConsistent, RandomConsistent, NewConsistent, TriedConsistent, EntriesConsistent, NewIds, TriedIds, SlotsOf, ViewOf, ClearSlot, Delete, Release;
    var t, a, n := Delete(u, id), s.info[id].service.addr, NewIds(s.info);
    ReleaseFields(s, sl);
    DeleteStep(e, u, loose + {id}, id);
    LooseEntry(u, loose + {id}, id);
    DeleteFields(u, id);
    RefCountIs(s, loose, id);
    HeldSlot(s.newTable, sl);
    SingleSlot(SlotsOf(s.newTable, id), sl);
    ClearSlotView(e, s, loose, sl);
    assert loose + {id} - {id} == loose;
    assert |n - {id}| == |n| - 1;
    assert ViewOf(u) - {a} == ViewOf(s) - {a};
  }

  // ---------- MakeTried ----------

  /** `s` is `s0` with some of the new slots of `id` taken away. */
  ghost predicate Stripping(e: Env, s0: State, s: State, id: int)
    requires AddrConsistent(s0.info, s0.addr) && id in s0.info
  {
    && id in s.info && !s.info[id].inTried
    && Consistent(e, s, if s.info[id].refCount == 0 then {id} else {})
    && s == s0.(info := s.info, newTable := s.newTable)
    && s.info[id] == s0.info[id].(refCount := s.info[id].refCount)
    && ViewOf(s) == ViewOf(s0)[s0.info[id].service.addr :=
         RecordOf(s0.info[id], s0.newTable, id).(place := New(SlotsOf(s.newTable, id)))]
    && NewIds(s.info) == NewIds(s0.info) && TriedIds(s.info) == TriedIds(s0.info)
  }

  lemma StripStart(e: Env, s: State, id: int)
    requires Consistent(e, s, {}) && id in s.info && !s.info[id].inTried
    ensures Stripping(e, s, s, id)
  {
    RefCountIs(s, {}, id);
    assert ViewOf(s)[s.info[id].service.addr] == RecordOf(s.info[id], s.newTable, id);
  }

  lemma StripStep(e: Env, s0: State, s: State, id: int, sl: Slot)
    requires AddrConsistent(s0.info, s0.addr) && id in s0.info && Stripping(e, s0, s, id)
    requires sl in s.newTable && s.newTable[sl] == id
    ensures Stripping(e, s0, Release(s, sl), id)
    ensures SlotsOf(Release(s, sl).newTable, id) == SlotsOf(s.newTable, id) - {sl}
  {
    hide AddrConsistent, RandomConsistent, NewConsistent, TriedConsistent, EntriesConsistent, ViewOf, NewIds, TriedIds;
    var loose: set<int> := if s.info[id].refCount == 0 then {id} else {};
    ReleaseStep(e, s, loose, sl);
    ReleaseFields(s, sl);
    SlotsAfterClear(s.newTable, sl, id);
    assert loose == {} && loose + {id} == {id};
    var a, t := s0.info[id].service.addr, Release(s, sl);
    var r := RecordOf(s.info[id], s.newTable, id).(place := New(SlotsOf(s.newTable, id) - {sl}));
    assert r == RecordOf(s0.info[id], s0.newTable, id).(place := New(SlotsOf(t.newTable, id)));
    assert ViewOf(s)[a := r] == ViewOf(s0)[a := r];
  }

  lemma StripFits(e: Env, s0: State, s: State, id: int)
    requires AddrConsistent(s0.info, s0.addr) && id in s0.info && Stripping(e, s0, s, id)
    ensures id in s.info && s.key == s0.key && id >= 0
    ensures forall sl | sl in SlotsOf(s.newTable, id) :: FitsNew(e, s.key, s.info[id].service, sl)
  {
  }

  lemma StripEnd(e: Env, s0: State, s: State, id: int)
    requires AddrConsistent(s0.info, s0.addr) && id in s0.info && Stripping(e, s0, s, id)
    requires SlotsOf(s.newTable, id) == {}
    ensures id in s.info && s.info[id].refCount == 0
  {
    RefCountIs(s, if s.info[id].refCount == 0 then {id} else {}, id);
  }

  /** A tried slot has its incumbent, and no other. */
  lemma IncumbentIff(e: Env, s: State, sl: Slot, a: NetAddr)
    requires AddrConsistent(s.info, s.addr) && TriedConsistent(e, s.key, s.info, s.triedTable)
    ensures Incumbent(e, s.key, ViewOf(s), sl, a) <==>
            sl in s.triedTable && s.info[s.triedTable[sl]].service.addr == a
  {
    if Incumbent(e, s.key, ViewOf(s), sl, a) {
      var id := s.addr[a];
      assert id in s.info && s.info[id].inTried && TriedSlot(e, s.key, s.info[id].service) == sl;
    }
    if sl in s.triedTable && s.info[s.triedTable[sl]].service.addr == a {
      assert s.triedTable[sl] in s.info;
      ViewAt(s, s.triedTable[sl]);
    }
  }

  /** Two consistent states that agree on ids: an entry whose view is untouched kept its fields. */
  lemma SameRecord(e: Env, s: State, t: State, loose: set<int>, loose': set<int>, id: int)
    requires Consistent(e, s, loose) && Consistent(e, t, loose') && SubMap(t.addr, s.addr)
    requires id in s.info && id in t.info
    ensures var a := s.info[id].service.addr;
            && a in t.addr && t.addr[a] == id && t.info[id].service.addr == a
            && ViewOf(s)[a] == RecordOf(s.info[id], s.newTable, id)
            && ViewOf(t)[a] == RecordOf(t.info[id], t.newTable, id)
            && t.info[id].refCount == |SlotsOf(t.newTable, id)|
  {
    assert t.info[id].service.addr in t.addr;
    RefCountIs(t, loose', id);
  }

  /** The evicted entry, loose, survives the clearing of the slot it is about to take. */
  lemma EvictedSurvives(e: Env, s: State, s1: State, s2: State, loose: set<int>, sl: Slot, o: int, nsl: Slot)
    requires Consistent(e, s, loose) && sl in s.triedTable && s.triedTable[sl] == o && o in s.info
    requires s1 == Evict(s, sl) && Consistent(e, s1, loose + {o}) && Cleared(e, s1, s2, loose + {o}, nsl)
    ensures o in s2.info && s2.info[o].refCount == 0 && !s2.info[o].inTried
    ensures s2.info[o].service == s.info[o].service && s2.info[o].source == s.info[o].source
    ensures ViewOf(s2)[s.info[o].service.addr] == ViewOf(s1)[s.info[o].service.addr]
    ensures ViewOf(s2)[s.info[o].service.addr] == RecordOf(s2.info[o], s2.newTable, o)
    ensures SlotsOf(s2.newTable, o) == {} && NewIds(s1.info) == NewIds(s.info) + {o} && o !in NewIds(s.info)
    ensures TriedIds(s1.info) == TriedIds(s.info) - {o} && o in TriedIds(s.info)
    ensures ViewOf(s1) == ViewOf(s)[s.info[o].service.addr := RecordOf(s.info[o], s.newTable, o).(place := New({}))]
  {
    hide RandomConsistent, NewConsistent, TriedConsistent, EntriesConsistent;
    EvictStep(e, s, loose, sl);
    LooseEntry(s2, loose + {o}, o);
    SameRecord(e, s1, s2, loose + {o}, loose + {o}, o);
    assert o in s1.info && !s1.info[o].inTried;
    var a := s.info[o].service.addr;
    assert ViewOf(s1)[a].place == New({});
    assert !Occupies(ViewOf(s1), a, nsl);
  }

  ghost predicate Demoted(e: Env, s: State, t: State, loose: set<int>, sl: Slot, a: NetAddr)
    requires AddrConsistent(s.info, s.addr) && a in s.addr
  {
    && Consistent(e, t, loose) && ViewOf(t) == Demote(e, s.key, ViewOf(s), a)
    && t.key == s.key && t.triedTable == s.triedTable - {sl} && SubMap(t.addr, s.addr) && SameSlack(s, t)
  }

  lemma DemoteStep(e: Env, s: State, s1: State, s2: State, loose: set<int>, sl: Slot, o: int, nsl: Slot)
    requires Consistent(e, s, loose) && sl in s.triedTable && s.triedTable[sl] == o && o in s.info && o !in loose
    requires s.info[o].service.addr in s.addr && s.addr[s.info[o].service.addr] == o
    requires s1 == Evict(s, sl) && Consistent(e, s1, loose + {o}) && Cleared(e, s1, s2, loose + {o}, nsl)
    requires nsl == NewSlot(e, s.key, s.info[o].service, s.info[o].source)
    ensures o in s2.info
    ensures Demoted(e, s, Occupy(s2, nsl, o).(nNew := s2.nNew + 1), loose, sl, s.info[o].service.addr)
  {
    hide AddrConsistent, RandomConsistent, NewConsistent, TriedConsistent, EntriesConsistent, ViewOf, NewIds, TriedIds, ClearSlot, SlotsOf;
    EvictedSurvives(e, s, s1, s2, loose, sl, o, nsl);
    OccupyStep(e, s2, loose + {o}, nsl, o);
    assert loose + {o} - {o} == loose;
    var t, a, n, r := Occupy(s2, nsl, o), s.info[o].service.addr, NewIds(s.info), TriedIds(s.info);
    CountersAside(e, t, t.(nNew := s2.nNew + 1), loose);
    assert |n + {o}| == |n| + 1 && |r - {o}| == |r| - 1;
    assert {} + {nsl} == {nsl};
    ViewAt(s, o);
    assert ViewOf(t) == ViewOf(s2)[a := ViewOf(s)[a].(place := New({nsl}))];
  }

  lemma ViewAt(s: State, id: int)
    requires AddrConsistent(s.info, s.addr) && id in s.info
    ensures var a := s.info[id].service.addr;
            a in s.addr && s.addr[a] == id && a in ViewOf(s) && ViewOf(s)[a] == RecordOf(s.info[id], s.newTable, id)
  {
  }

  lemma ViewKeys(s: State)
    requires AddrConsistent(s.info, s.addr)
    ensures ViewOf(s).Keys == s.addr.Keys
  {
  }

  lemma ViewAtAddress(s: State, a: NetAddr)
    requires AddrConsistent(s.info, s.addr) && a in s.addr
    ensures s.addr[a] in s.info && s.info[s.addr[a]].service.addr == a
    ensures a in ViewOf(s) && ViewOf(s)[a] == RecordOf(s.info[s.addr[a]], s.newTable, s.addr[a])
  {
  }

  /** Consistency and the view do not look at the counters. */
  lemma CountersAside(e: Env, s: State, t: State, loose: set<int>)
    requires Consistent(e, s, loose) && t == s.(nNew := t.nNew, nTried := t.nTried)
    ensures Consistent(e, t, loose) && ViewOf(t) == ViewOf(s)
  {
  }

  /** The loose entry about to be promoted is not touched by the demotion that makes room for it. */
  lemma DemoteKeeps(e: Env, s: State, t: State, loose: set<int>, sl: Slot, o: NetAddr, id: int)
    requires Consistent(e, s, loose) && o in s.addr && s.info[s.addr[o]].inTried && id in loose
    requires Demoted(e, s, t, loose, sl, o)
    ensures id in s.info && id in t.info
    ensures s.info[id].service.addr in ViewOf(s) && ViewOf(s)[s.info[id].service.addr] == RecordOf(s.info[id], s.newTable, id)
    ensures RecordOf(t.info[id], t.newTable, id) == RecordOf(s.info[id], s.newTable, id)
  {
    hide RandomConsistent, NewConsistent, TriedConsistent, EntriesConsistent;
    LooseEntry(s, loose, id);
    LooseEntry(t, loose, id);
    SameRecord(e, s, t, loose, loose, id);
    LooseIsNowhere(e, s, loose, id);
    var a, v := s.info[id].service.addr, ViewOf(s);
    assert a != o && v[a].place == New({});
    assert Demote(e, s.key, v, o)[a] == v[a];
  }

  lemma LooseIsNowhere(e: Env, s: State, loose: set<int>, id: int)
    requires Consistent(e, s, loose) && id in loose
    ensures SlotsOf(s.newTable, id) == {}
  {
    RefCountIs(s, loose, id);
  }

  lemma PromotedInto(e: Env, s: State, t: State, loose: set<int>, sl: Slot, id: int)
    requires Consistent(e, s, loose) && id in loose && id in s.info
    requires sl == TriedSlot(e, s.key, s.info[id].service)
    requires if sl in s.triedTable
             then s.triedTable[sl] in s.info && var o := s.info[s.triedTable[sl]].service.addr;
                  o in s.addr && Demoted(e, s, t, loose, sl, o)
             else t == s
    ensures id in t.info && id in s.info && s.info[id].service.addr in ViewOf(s)
    ensures Consistent(e, Promote(t, sl, id), loose - {id})
    ensures ViewOf(Promote(t, sl, id)) == PlaceTried(e, s.key, ViewOf(s), s.info[id].service.addr)
    ensures NewIds(Promote(t, sl, id).info) == NewIds(t.info) - {id} && id in NewIds(t.info)
    ensures TriedIds(Promote(t, sl, id).info) == TriedIds(t.info) + {id} && id !in TriedIds(t.info)
  {
    hide AddrConsistent, RandomConsistent, NewConsistent, EntriesConsistent, ViewOf, NewIds, SlotsOf, Demote;
    LooseEntry(s, loose, id);
    ViewAt(s, id);
    var a, v := s.info[id].service.addr, ViewOf(s);
    forall x ensures Incumbent(e, s.key, v, sl, x) <==> sl in s.triedTable && s.info[s.triedTable[sl]].service.addr == x {
      IncumbentIff(e, s, sl, x);
    }
    if sl in s.triedTable {
      var o := s.info[s.triedTable[sl]].service.addr;
      assert Incumbent(e, s.key, v, sl, o);
      ViewAt(s, s.triedTable[sl]);
      DemoteKeeps(e, s, t, loose, sl, o, id);
    }
    LooseEntry(t, loose, id);
    PromoteStep(e, t, loose, sl, id);
  }

  lemma SlotEntry(e: Env, s: State, sl: Slot)
    requires AddrConsistent(s.info, s.addr) && TriedConsistent(e, s.key, s.info, s.triedTable) && sl in s.triedTable
    ensures s.triedTable[sl] in s.info && s.info[s.triedTable[sl]].service.addr in s.addr
  {
    ViewAt(s, s.triedTable[sl]);
  }

  lemma IdsAreNotNegative(s: State, loose: set<int>, id: int)
    requires EntriesConsistent(s.idCount, s.info, s.newTable, loose) && id in s.info
    ensures id >= 0
  {
  }

  /** The whole of MakeTried: stripped of its new slots (s1), not counted as new (s2), its tried slot
      made free (t), promoted. */
  lemma MadeTried(e: Env, s0: State, s1: State, t: State, sl: Slot, id: int)
    requires Valid(e, s0) && id in s0.info
    requires Stripping(e, s0, s1, id) && s1.info[id].refCount == 0
    requires sl == TriedSlot(e, s0.key, s0.info[id].service)
    requires var s2 := s1.(nNew := s1.nNew - 1);
             if sl in s2.triedTable
             then s2.triedTable[sl] in s2.info && var o := s2.info[s2.triedTable[sl]].service.addr;
                  AddrConsistent(s2.info, s2.addr) && o in s2.addr && Demoted(e, s2, t, {id}, sl, o)
             else t == s2
    ensures id in t.info && s0.info[id].service.addr in ViewOf(s0)
    ensures Valid(e, Promote(t, sl, id)) && Promote(t, sl, id).key == s0.key
    ensures var a := s0.info[id].service.addr;
            ViewOf(Promote(t, sl, id)) == PlaceTried(e, s0.key, ViewOf(s0)[a := ViewOf(s0)[a].(place := New({}))], a)
  {
    hide AddrConsistent, RandomConsistent, NewConsistent, TriedConsistent, EntriesConsistent, ViewOf, NewIds, TriedIds, PlaceTried, Demote;
    var s2, a := s1.(nNew := s1.nNew - 1), s0.info[id].service.addr;
    ViewAt(s0, id);
    CountersAside(e, s1, s2, {id});
    LooseIsNowhere(e, s1, {id}, id);
    LooseEntry(s1, {id}, id);
    assert ViewOf(s2) == ViewOf(s0)[a := ViewOf(s0)[a].(place := New({}))] by {
      assert RecordOf(s0.info[id], s0.newTable, id).(place := New({})) == ViewOf(s0)[a].(place := New({}));
    }
    PromotedInto(e, s2, t, {id}, sl, id);
    var u, n, r := Promote(t, sl, id), NewIds(t.info), TriedIds(t.info);
    assert |n - {id}| == |n| - 1 && |r + {id}| == |r| + 1;
    assert {id} - {id} == {};
  }

  // ---------- Good_ ----------

  lemma SetInfoKeepsValid(e: Env, s: State, id: int, i: Info)
    requires Valid(e, s) && id in s.info && SameEntry(s.info[id], i)
    ensures Valid(e, SetInfo(s, id, i)) && i.service.addr in ViewOf(s)
    ensures ViewOf(SetInfo(s, id, i)) == ViewOf(s)[i.service.addr :=
              Record(i.service, i.services, i.nTime, i.lastTry, i.source, i.lastSuccess, i.attempts,
                     ViewOf(s)[i.service.addr].place)]
    ensures ViewOf(s)[i.service.addr] == RecordOf(s.info[id], s.newTable, id)
  {
    hide AddrConsistent, RandomConsistent, NewConsistent, TriedConsistent, EntriesConsistent, ViewOf, NewIds, TriedIds;
    ViewAt(s, id);
    SetInfoStep(e, s, {}, id, i);
  }

  /** An entry that is not tried is in some slot, so the search for one of its buckets succeeds. */
  lemma HasSlot(e: Env, s: State, id: int) returns (sl: Slot)
    requires Consistent(e, s, {}) && id in s.info && !s.info[id].inTried
    ensures sl in s.newTable && s.newTable[sl] == id && FitsNew(e, s.key, s.info[id].service, sl)
  {
    RefCountIs(s, {}, id);
    assert SlotsOf(s.newTable, id) != {};
    sl :| sl in SlotsOf(s.newTable, id);
  }

  // ---------- Add_ ----------

  lemma YieldsIff(e: Env, s: State, loose: set<int>, sl: Slot, id: int, now: int)
    requires Consistent(e, s, loose) && id in s.info && !s.info[id].inTried
    ensures var r := RecordOf(s.info[id], s.newTable, id);
            Yields(ViewOf(s), sl, r, now) <==>
            (sl in s.newTable ==>
               s.newTable[sl] in s.info &&
               var x := s.info[s.newTable[sl]];
               IsTerrible(x.nTime, x.lastTry, x.lastSuccess, x.attempts, now)
               || (x.refCount > 1 && s.info[id].refCount == 0))
  {
    hide RandomConsistent, TriedConsistent, EntriesConsistent;
    RefCountIs(s, loose, id);
    forall a | a in s.addr
      ensures Occupies(ViewOf(s), a, sl) <==> sl in s.newTable && s.newTable[sl] == s.addr[a]
    {
      OccupiesIff(s, sl, s.addr[a]);
    }
    if sl in s.newTable {
      var o := s.newTable[sl];
      RefCountIs(s, loose, o);
      ViewAt(s, o);
      assert Occupies(ViewOf(s), s.info[o].service.addr, sl);
    }
  }

  /** After the slot was cleared for it, the entry still is what it was. */
  lemma PlacerSurvives(e: Env, s: State, t: State, loose: set<int>, sl: Slot, id: int)
    requires Consistent(e, s, loose) && id in s.info && !s.info[id].inTried
    requires !(sl in s.newTable && s.newTable[sl] == id) && Cleared(e, s, t, loose, sl)
    ensures id in t.info && RecordOf(t.info[id], t.newTable, id) == RecordOf(s.info[id], s.newTable, id)
    ensures t.info[id].refCount == s.info[id].refCount && !t.info[id].inTried
    ensures s.info[id].service.addr in ViewOf(s) && s.info[id].service.addr in ClearSlot(ViewOf(s), sl)
    ensures ViewOf(s)[s.info[id].service.addr] == RecordOf(s.info[id], s.newTable, id)
    ensures s.info[id].refCount == |SlotsOf(s.newTable, id)| && (sl !in SlotsOf(s.newTable, id))
  {
    hide RandomConsistent, TriedConsistent, EntriesConsistent;
    var a := s.info[id].service.addr;
    ViewAt(s, id);
    OccupiesIff(s, sl, id);
    assert ViewOf(s)[a].place != New({sl}) by { assert !Occupies(ViewOf(s), a, sl); }
    assert a in ViewOf(t);
    assert t.addr[a] == id;
    SameRecord(e, s, t, loose, loose, id);
    RefCountIs(s, loose, id);
  }

  lemma PlacedBy(e: Env, s: State, t: State, loose: set<int>, sl: Slot, id: int, source: NetAddr, now: int)
    requires Consistent(e, s, loose) && id in s.info && !s.info[id].inTried && loose <= {id}
    requires s.nNew == |NewIds(s.info)| && s.nTried == |TriedIds(s.info)|
    requires !(sl in s.newTable && s.newTable[sl] == id) && Cleared(e, s, t, loose, sl)
    requires sl == NewSlot(e, s.key, s.info[id].service, source) && s.info[id].refCount < NEW_BUCKETS_PER_ADDRESS
    requires Yields(ViewOf(s), sl, RecordOf(s.info[id], s.newTable, id), now)
    ensures id in t.info && s.info[id].service.addr in ViewOf(s) && ViewOf(s)[s.info[id].service.addr].place.New?
    ensures Valid(e, Occupy(t, sl, id)) && Occupy(t, sl, id).key == s.key
    ensures ViewOf(Occupy(t, sl, id)) == PlaceNew(e, s.key, ViewOf(s), s.info[id].service.addr, source, now)
  {
    hide AddrConsistent, RandomConsistent, NewConsistent, TriedConsistent, EntriesConsistent, ViewOf, NewIds, TriedIds,
      ClearSlot, SlotsOf, Yields;
    PlacerSurvives(e, s, t, loose, sl, id);
    OccupyStep(e, t, loose, sl, id);
    assert loose - {id} == {};
  }

  lemma NotPlaced(e: Env, s: State, loose: set<int>, sl: Slot, id: int, source: NetAddr, now: int)
    requires Consistent(e, s, loose) && id in s.info && !s.info[id].inTried && loose <= {id}
    requires s.nNew == |NewIds(s.info)| && s.nTried == |TriedIds(s.info)|
    requires sl == NewSlot(e, s.key, s.info[id].service, source)
    ensures s.info[id].service.addr in ViewOf(s) && ViewOf(s)[s.info[id].service.addr].place.New?
    ensures ViewOf(s)[s.info[id].service.addr] == RecordOf(s.info[id], s.newTable, id)
    ensures sl in ViewOf(s)[s.info[id].service.addr].place.slots <==> (sl in s.newTable && s.newTable[sl] == id)
    ensures s.info[id].refCount == 0 <==> ViewOf(s)[s.info[id].service.addr].place.slots == {}
    ensures s.info[id].refCount == 0 <==> loose == {id}
    ensures loose == {} ==> Valid(e, s)
    ensures id in loose ==>
              && Valid(e, Delete(s, id)) && Delete(s, id).key == s.key
              && ViewOf(Delete(s, id)) == ViewOf(s) - {s.info[id].service.addr}
  {
    hide AddrConsistent, NewConsistent, TriedConsistent, EntriesConsistent, ViewOf, NewIds, TriedIds;
    ViewAt(s, id);
    RefCountIs(s, loose, id);
    if id in loose {
      DeleteStep(e, s, loose, id);
      DeleteFields(s, id);
      LooseEntry(s, loose, id);
      var n := NewIds(s.info);
      assert |n - {id}| == |n| - 1;
      assert loose - {id} == {};
    }
  }

  lemma CountIsInRange(s: State, id: int)
    requires EntriesConsistent(s.idCount, s.info, s.newTable, {}) && id in s.info
    ensures s.info[id].refCount <= NEW_BUCKETS_PER_ADDRESS && (!s.info[id].inTried ==> s.info[id].refCount > 0)
  {
    assert EntryOk(s.info[id], SlotsOf(s.newTable, id), false);
  }

  lemma SlotIsNew(e: Env, s: State, sl: Slot)
    requires NewConsistent(e, s.key, s.info, s.newTable) && sl in s.newTable
    ensures s.newTable[sl] in s.info
  {
  }

  lemma LooseFirst(s: State, loose: set<int>, id: int)
    requires RandomConsistent(s.info, s.random) && id in loose && id in s.info
    ensures 0 <= s.info[id].randomPos < |s.random| && s.random[s.info[id].randomPos] == id
    ensures s.random[|s.random| - 1] in s.info
  {
  }

  lemma IdIsUnused(info: map<int, Info>, id: int)
    requires id !in info
    ensures id !in NewIds(info) && id !in TriedIds(info)
  {
  }

  // ---------- Sizes, GetAddr_ ----------

  ghost function Range<T>(q: seq<T>): set<T> { set k | 0 <= k < |q| :: q[k] }

  ghost predicate Distinct<T>(q: seq<T>) { forall i, j | 0 <= i < j < |q| :: q[i] != q[j] }

  lemma {:induction false} DistinctSize<T>(q: seq<T>)
    requires Distinct(q)
    ensures |Range(q)| == |q|
  {
    if |q| > 0 {
      var l := |q| - 1;
      DistinctSize(q[..l]);
      assert Range(q) == Range(q[..l]) + {q[l]};
      assert q[l] !in Range(q[..l]);
    }
  }

  lemma AddressCount(s: State)
    requires AddrConsistent(s.info, s.addr) && RandomConsistent(s.info, s.random)
    ensures |s.random| == |s.addr|
  {
    var q := seq(|s.random|, k requires 0 <= k < |s.random| => s.info[s.random[k]].service.addr);
    forall k | 0 <= k < |q| ensures q[k] in s.addr && s.addr[q[k]] == s.random[k] && s.info[s.random[k]].randomPos == k {
      ViewAt(s, s.random[k]);
    }
    DistinctSize(q);
    forall a | a in s.addr ensures a in Range(q) {
      ViewAtAddress(s, a);
      assert q[s.info[s.addr[a]].randomPos] == a;
    }
    assert Range(q) == s.addr.Keys;
  }

  lemma EntryCount(info: map<int, Info>, random: seq<int>)
    requires RandomConsistent(info, random)
    ensures |random| == |NewIds(info)| + |TriedIds(info)|
  {
    forall k | 0 <= k < |random| ensures random[k] in info && info[random[k]].randomPos == k {}
    DistinctSize(random);
    forall id | id in info ensures id in Range(random) { assert random[info[id].randomPos] == id; }
    assert Range(random) == NewIds(info) + TriedIds(info);
    assert NewIds(info) !! TriedIds(info);
  }

  /** vRandom lists every entry once: its size is the number of addresses known, and of new and tried together. */
  lemma SizeIs(e: Env, s: State)
    requires Valid(e, s)
    ensures |s.random| == |ViewOf(s)| == s.nNew + s.nTried
  {
    hide AddrConsistent, RandomConsistent, NewConsistent, TriedConsistent, EntriesConsistent, ViewOf, NewIds, TriedIds;
    AddressCount(s);
    EntryCount(s.info, s.random);
    ViewKeys(s);
    assert |ViewOf(s).Keys| == |s.addr.Keys|;
  }

  function AddressOf(i: Info): Address { Address(i.service, i.services, i.nTime) }

  predicate InfoTerrible(i: Info, now: int) { IsTerrible(i.nTime, i.lastTry, i.lastSuccess, i.attempts, now) }

  /** `ids` are the entries picked so far out of the first n of vRandom: every one that is not terrible. */
  ghost predicate Picked(s: State, n: nat, now: int, ids: seq<int>) {
    && n <= |s.random|
    && (forall i, j | 0 <= i < j < |ids| :: ids[i] != ids[j])
    && (forall i | 0 <= i < |ids| :: ids[i] in s.random[..n] && ids[i] in s.info && !InfoTerrible(s.info[ids[i]], now))
    && (forall k | 0 <= k < n :: s.random[k] in s.info && (!InfoTerrible(s.info[s.random[k]], now) ==> s.random[k] in ids))
  }

  lemma PickNone(s: State, now: int)
    ensures Picked(s, 0, now, [])
  {
  }

  lemma LongerPrefix(q: seq<int>, n: nat)
    requires n < |q|
    ensures q[n] in q[..n + 1] && forall x | x in q[..n] :: x in q[..n + 1]
  {
    assert q[..n + 1] == q[..n] + [q[n]];
  }

  /** No entry is listed twice. */
  lemma FirstSeen(s: State, n: nat)
    requires RandomConsistent(s.info, s.random) && n < |s.random|
    ensures s.random[n] in s.info && s.random[n] !in s.random[..n]
  {
    forall k | 0 <= k < n ensures s.random[k] != s.random[n] {
      assert s.info[s.random[k]].randomPos == k && s.info[s.random[n]].randomPos == n;
    }
  }

  lemma PickNext(s: State, n: nat, now: int, ids: seq<int>)
    requires RandomConsistent(s.info, s.random) && Picked(s, n, now, ids) && n < |s.random|
    ensures s.random[n] in s.info
    ensures Picked(s, n + 1, now, if InfoTerrible(s.info[s.random[n]], now) then ids else ids + [s.random[n]])
  {
    hide RandomConsistent, Picked, InfoTerrible;
    FirstSeen(s, n);
    if InfoTerrible(s.info[s.random[n]], now) { PickNot(s, n, now, ids); } else { PickGood(s, n, now, ids); }
  }

  lemma PickNot(s: State, n: nat, now: int, ids: seq<int>)
    requires Picked(s, n, now, ids) && n < |s.random| && s.random[n] in s.info && InfoTerrible(s.info[s.random[n]], now)
    ensures Picked(s, n + 1, now, ids)
  {
    hide InfoTerrible;
    LongerPrefix(s.random, n);
  }

  lemma PickGood(s: State, n: nat, now: int, ids: seq<int>)
    requires Picked(s, n, now, ids) && n < |s.random| && s.random[n] in s.info && !InfoTerrible(s.info[s.random[n]], now)
    requires s.random[n] !in s.random[..n]
    ensures Picked(s, n + 1, now, ids + [s.random[n]])
  {
    hide InfoTerrible;
    LongerPrefix(s.random, n);
    var x := s.random[n];
    forall i | 0 <= i < |ids| ensures ids[i] != x { assert ids[i] in s.random[..n]; }
    forall k | 0 <= k < n + 1 && s.random[k] in s.info && !InfoTerrible(s.info[s.random[k]], now) ensures s.random[k] in ids + [x] {
      if k < n { assert s.random[k] in ids; }
    }
  }

  /** 23 percent of the n entries, and 2500 at most. */
  lemma TellingLimit(n: nat, limit: nat, told: nat)
    requires limit == (if GETADDR_MAX_PCT * n / 100 > GETADDR_MAX then GETADDR_MAX else GETADDR_MAX_PCT * n / 100) && told <= limit
    ensures told <= 2500 && 100 * told <= 23 * n && (told < limit <==> told < 2500 && 100 * (told + 1) <= 23 * n)
  {
  }

  /** The addresses told are those of the picked entries. */
  ghost predicate Told(info: map<int, Info>, ids: seq<int>, vAddr: seq<Address>) {
    |ids| == |vAddr| && forall i | 0 <= i < |ids| :: ids[i] in info && vAddr[i] == AddressOf(info[ids[i]])
  }

  lemma NoneTold(info: map<int, Info>)
    ensures Told(info, [], [])
  {
  }

  lemma ToldNext(info: map<int, Info>, ids: seq<int>, vAddr: seq<Address>, id: int)
    requires Told(info, ids, vAddr) && id in info
    ensures Told(info, ids + [id], vAddr + [AddressOf(info[id])])
  {
  }

  lemma ToldIs(info: map<int, Info>, ids: seq<int>, vAddr: seq<Address>)
    requires Told(info, ids, vAddr)
    ensures |ids| == |vAddr| && forall i | 0 <= i < |ids| :: ids[i] in info && vAddr[i] == AddressOf(info[ids[i]])
  {
  }

  lemma ToldAfterSwap(s: State, t: State, ids: seq<int>, vAddr: seq<Address>)
    requires Told(s.info, ids, vAddr) && OnlyReorders(s, t)
    ensures Told(t.info, ids, vAddr)
  {
    forall o | o in s.info ensures o in t.info && AddressOf(t.info[o]) == AddressOf(s.info[o]) {
      assert t.info[o] == s.info[o].(randomPos := t.info[o].randomPos);
    }
  }

  lemma PickedAfterSwap(s: State, t: State, n: nat, now: int, ids: seq<int>)
    requires Picked(s, n, now, ids) && OnlyReorders(s, t) && |t.random| == |s.random| && t.random[..n] == s.random[..n]
    ensures Picked(t, n, now, ids)
  {
    forall k | 0 <= k < n ensures t.random[k] == s.random[k] {
      assert t.random[..n][k] == s.random[..n][k];
    }
  }

  /** What the picked ids mean for the view. */
  lemma PickedView(e: Env, s: State, n: nat, now: int, ids: seq<int>)
    requires Consistent(e, s, {}) && Picked(s, n, now, ids)
    ensures forall i | 0 <= i < |ids| :: ids[i] in s.info
    ensures forall i | 0 <= i < |ids| ::
              var a := s.info[ids[i]].service.addr;
              a in ViewOf(s) && !ViewOf(s)[a].Terrible(now)
              && AddressOf(s.info[ids[i]]) == Address(ViewOf(s)[a].service, ViewOf(s)[a].services, ViewOf(s)[a].nTime)
    ensures forall i, j | 0 <= i < j < |ids| :: s.info[ids[i]].service.addr != s.info[ids[j]].service.addr
    ensures n == |s.random| ==> forall a | a in ViewOf(s) && !ViewOf(s)[a].Terrible(now) ::
              exists i :: 0 <= i < |ids| && s.info[ids[i]].service.addr == a
  {
    hide NewConsistent, TriedConsistent, EntriesConsistent;
    forall i | 0 <= i < |ids| ensures ids[i] in s.info && s.addr[s.info[ids[i]].service.addr] == ids[i] {
      ViewAt(s, ids[i]);
    }
    if n == |s.random| {
      forall a | a in ViewOf(s) && !ViewOf(s)[a].Terrible(now)
        ensures exists i :: 0 <= i < |ids| && s.info[ids[i]].service.addr == a
      {
        var id := s.addr[a];
        assert s.random[s.info[id].randomPos] == id;
        assert id in ids;
      }
    }
  }

  /** Where GetAddr_ stands: of the first n of vRandom all that are worth it have been told, and nothing but the order
      of the rest has changed. */
  ghost predicate Telling(e: Env, s0: State, s: State, n: nat, now: int, ids: seq<int>, vAddr: seq<Address>) {
    && AddrConsistent(s0.info, s0.addr) && Consistent(e, s, {}) && ViewOf(s) == ViewOf(s0) && NewIds(s.info) == NewIds(s0.info) && TriedIds(s.info) == TriedIds(s0.info)
    && s.nNew == s0.nNew && s.nTried == s0.nTried && s.key == s0.key && |s.random| == |s0.random|
    && Picked(s, n, now, ids) && Told(s.info, ids, vAddr)
  }

  lemma TellingStart(e: Env, s: State, now: int)
    requires Valid(e, s)
    ensures Telling(e, s, s, 0, now, [], [])
  {
    hide AddrConsistent, RandomConsistent, NewConsistent, TriedConsistent, EntriesConsistent, ViewOf, NewIds, TriedIds, Picked, Told;
    PickNone(s, now);
    NoneTold(s.info);
  }

  lemma TellingSwap(e: Env, s0: State, s: State, n: nat, now: int, ids: seq<int>, vAddr: seq<Address>, pos: nat)
    requires Telling(e, s0, s, n, now, ids, vAddr) && n <= pos < |s.random|
    ensures s.random[n] in s.info && s.random[pos] in s.info
    ensures Telling(e, s0, SwapRandom(s, n, pos), n, now, ids, vAddr)
  {
    hide AddrConsistent, NewConsistent, TriedConsistent, EntriesConsistent, ViewOf, NewIds, TriedIds, Picked, Told, OnlyReorders;
    SwapRandomStep(e, s, {}, n, pos);
    SwapRandomConsistent(s, n, pos);
    var t := SwapRandom(s, n, pos);
    assert t.random[..n] == s.random[..n];
    PickedAfterSwap(s, t, n, now, ids);
    ToldAfterSwap(s, t, ids, vAddr);
  }

  lemma TellingNext(e: Env, s0: State, s: State, n: nat, now: int, ids: seq<int>, vAddr: seq<Address>)
    requires Telling(e, s0, s, n, now, ids, vAddr) && n < |s.random|
    ensures s.random[n] in s.info
    ensures var id := s.random[n];
            if InfoTerrible(s.info[id], now) then Telling(e, s0, s, n + 1, now, ids, vAddr)
            else Telling(e, s0, s, n + 1, now, ids + [id], vAddr + [AddressOf(s.info[id])])
  {
    hide AddrConsistent, RandomConsistent, NewConsistent, TriedConsistent, EntriesConsistent, ViewOf, NewIds, TriedIds, Picked, Told, InfoTerrible;
    PickNext(s, n, now, ids);
    ToldNext(s.info, ids, vAddr, s.random[n]);
  }

  lemma TellingSize(e: Env, s0: State, s: State, n: nat, now: int, ids: seq<int>, vAddr: seq<Address>)
    requires Valid(e, s0) && Telling(e, s0, s, n, now, ids, vAddr)
    ensures n <= |s.random| == |ViewOf(s0)| && Valid(e, s) && s.key == s0.key && ViewOf(s) == ViewOf(s0)
  {
    hide AddrConsistent, RandomConsistent, NewConsistent, TriedConsistent, EntriesConsistent, ViewOf, NewIds, TriedIds, Told;
    SizeIs(e, s0);
  }

  /** What has been told, in terms of the view. */
  lemma TellingEnd(e: Env, s0: State, s: State, n: nat, now: int, ids: seq<int>, vAddr: seq<Address>)
    requires Telling(e, s0, s, n, now, ids, vAddr)
    ensures forall i | 0 <= i < |vAddr| ::
              var a := vAddr[i].service.addr;
              a in ViewOf(s) && !ViewOf(s)[a].Terrible(now)
              && vAddr[i] == Address(ViewOf(s)[a].service, ViewOf(s)[a].services, ViewOf(s)[a].nTime)
    ensures forall i, j | 0 <= i < j < |vAddr| :: vAddr[i].service.addr != vAddr[j].service.addr
    ensures n == |s.random| ==> forall a | a in ViewOf(s) && !ViewOf(s)[a].Terrible(now) ::
              exists i :: 0 <= i < |vAddr| && vAddr[i].service.addr == a
  {
    hide AddrConsistent, RandomConsistent, NewConsistent, TriedConsistent, EntriesConsistent, ViewOf, NewIds, TriedIds, Picked, Told, IsTerrible;
    PickedView(e, s, n, now, ids);
    ToldIs(s.info, ids, vAddr);
    if n == |s.random| {
      forall a | a in ViewOf(s) && !ViewOf(s)[a].Terrible(now) ensures exists i :: 0 <= i < |vAddr| && vAddr[i].service.addr == a {
        var i :| 0 <= i < |ids| && s.info[ids[i]].service.addr == a;
        assert vAddr[i].service.addr == a;
      }
    }
  }
}
