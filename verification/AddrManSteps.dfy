/** The elementary updates of the address manager, each with what it does to the
    consistency of the indexes and to the view. Every public operation is a chain of them. */
module AddrManSteps {
  import opened AddrManState

  /** `t` differs from `s` at most in the entry `id`, its statistics, counters and slots. */
  ghost predicate OnlyChanges(s: State, t: State, id: int) {
    && t.key == s.key && t.idCount == s.idCount && t.addr == s.addr && t.random == s.random
    && t.info.Keys == s.info.Keys && id in s.info
    && t.info[id].service == s.info[id].service && t.info[id].randomPos == s.info[id].randomPos
    && (forall o | o in s.info && o != id :: t.info[o] == s.info[o])
    && (forall o | o != id :: SlotsOf(t.newTable, o) == SlotsOf(s.newTable, o))
  }

  lemma IndexesAfter(s: State, t: State, id: int)
    requires AddrConsistent(s.info, s.addr) && RandomConsistent(s.info, s.random) && OnlyChanges(s, t, id)
    ensures AddrConsistent(t.info, t.addr) && RandomConsistent(t.info, t.random)
  {
    assert forall o | o in s.info :: t.info[o].service == s.info[o].service && t.info[o].randomPos == s.info[o].randomPos;
  }

  lemma ViewAfter(s: State, t: State, id: int)
    requires AddrConsistent(s.info, s.addr) && AddrConsistent(t.info, t.addr) && OnlyChanges(s, t, id)
    ensures ViewOf(t) == ViewOf(s)[t.info[id].service.addr := RecordOf(t.info[id], t.newTable, id)]
  {
    var a := t.info[id].service.addr;
    forall b | b in t.addr && b != a ensures ViewOf(t)[b] == ViewOf(s)[b] {
      assert t.addr[b] != id;
    }
  }

  lemma IdsAfter(info: map<int, Info>, id: int, i: Info)
    requires id in info
    ensures NewIds(info[id := i]) == if i.inTried then NewIds(info) - {id} else NewIds(info) + {id}
    ensures TriedIds(info[id := i]) == if i.inTried then TriedIds(info) + {id} else TriedIds(info) - {id}
  {
  }

  lemma EntriesAfter(s: State, t: State, id: int, loose: set<int>, loose': set<int>)
    requires EntriesConsistent(s.idCount, s.info, s.newTable, loose) && OnlyChanges(s, t, id)
    requires forall o | o != id :: o in loose' <==> o in loose
    requires EntryOk(t.info[id], SlotsOf(t.newTable, id), id in loose')
    ensures EntriesConsistent(t.idCount, t.info, t.newTable, loose')
  {
  }

  /** The new table keeps every other entry's slots and holds `id` only where it may. */
  ghost predicate NewMoves(e: Env, s: State, t: State, id: int)
    requires id in s.info && id in t.info
  {
    forall sl | sl in t.newTable ::
      && (t.newTable[sl] == id ==> FitsNew(e, s.key, s.info[id].service, sl) && !t.info[id].inTried)
      && (t.newTable[sl] != id ==> sl in s.newTable && s.newTable[sl] == t.newTable[sl])
  }

  /** The tried table changes at most in the slot of `id`, which holds it just when it is tried. */
  ghost predicate TriedMoves(e: Env, s: State, t: State, id: int)
    requires id in s.info && id in t.info
  {
    var sl := TriedSlot(e, s.key, s.info[id].service);
    if t.info[id].inTried then (sl !in s.triedTable || s.triedTable[sl] == id) && t.triedTable == s.triedTable[sl := id]
    else if s.info[id].inTried then t.triedTable == s.triedTable - {sl}
    else t.triedTable == s.triedTable
  }

  lemma NewAfter(e: Env, s: State, t: State, id: int)
    requires NewConsistent(e, s.key, s.info, s.newTable) && OnlyChanges(s, t, id)
    requires NewMoves(e, s, t, id)
    ensures NewConsistent(e, t.key, t.info, t.newTable)
  {
  }

  lemma TriedAfter(e: Env, s: State, t: State, id: int)
    requires TriedConsistent(e, s.key, s.info, s.triedTable) && OnlyChanges(s, t, id)
    requires TriedMoves(e, s, t, id)
    ensures TriedConsistent(e, t.key, t.info, t.triedTable)
  {
    forall sl | sl in t.triedTable
      ensures var o := t.triedTable[sl]; o in t.info && t.info[o].inTried && sl == TriedSlot(e, t.key, t.info[o].service)
    {
      if t.triedTable[sl] != id { assert sl in s.triedTable && s.triedTable[sl] == t.triedTable[sl]; }
    }
  }

  /** Changing one entry: what has to hold of it for the indexes to agree again. */
  lemma EntryStep(e: Env, s: State, t: State, id: int, loose: set<int>, loose': set<int>)
    requires Consistent(e, s, loose) && OnlyChanges(s, t, id)
    requires NewMoves(e, s, t, id) && TriedMoves(e, s, t, id)
    requires EntryOk(t.info[id], SlotsOf(t.newTable, id), id in loose')
    requires forall o | o != id :: o in loose' <==> o in loose
    ensures Consistent(e, t, loose')
    ensures ViewOf(t) == ViewOf(s)[s.info[id].service.addr := RecordOf(t.info[id], t.newTable, id)]
  {
    IndexesAfter(s, t, id);
    ViewAfter(s, t, id);
    EntriesAfter(s, t, id, loose, loose');
    NewAfter(e, s, t, id);
    TriedAfter(e, s, t, id);
  }

  lemma SlotsAfterSet(t: Table, sl: Slot, id: int, o: int)
    requires sl !in t
    ensures SlotsOf(t[sl := id], o) == if o == id then SlotsOf(t, o) + {sl} else SlotsOf(t, o)
  {
  }

  lemma SlotsAfterClear(t: Table, sl: Slot, o: int)
    requires sl in t
    ensures SlotsOf(t - {sl}, o) == if o == t[sl] then SlotsOf(t, o) - {sl} else SlotsOf(t, o)
  {
  }

  // ---------- Entries ----------

  function NewInfo(a: Address, source: NetAddr, pos: nat): Info {
    Info(a.service, a.services, a.nTime, 0, source, 0, 0, 0, false, pos)
  }

  function Create(s: State, a: Address, source: NetAddr): State {
    var id := s.idCount;
    s.(idCount := id + 1,
       info := s.info[id := NewInfo(a, source, |s.random|)],
       addr := s.addr[a.service.addr := id],
       random := s.random + [id])
  }

  function NewRecord(a: Address, source: NetAddr): Record {
    Record(a.service, a.services, a.nTime, 0, source, 0, 0, New({}))
  }

  lemma CreateIndexes(s: State, a: Address, source: NetAddr)
    requires AddrConsistent(s.info, s.addr) && RandomConsistent(s.info, s.random)
    requires a.service.addr !in s.addr && s.idCount !in s.info
    ensures var t := Create(s, a, source); AddrConsistent(t.info, t.addr) && RandomConsistent(t.info, t.random)
  {
    var t := Create(s, a, source);
    assert forall o | o in t.info && o != s.idCount :: t.info[o] == s.info[o];
    assert forall k | 0 <= k < |s.random| :: t.random[k] == s.random[k];
  }

  lemma CreateTables(e: Env, s: State, a: Address, source: NetAddr)
    requires NewConsistent(e, s.key, s.info, s.newTable) && TriedConsistent(e, s.key, s.info, s.triedTable)
    requires s.idCount !in s.info
    ensures var t := Create(s, a, source);
            NewConsistent(e, t.key, t.info, t.newTable) && TriedConsistent(e, t.key, t.info, t.triedTable)
  {
    var t := Create(s, a, source);
    assert forall o | o in t.info && o != s.idCount :: t.info[o] == s.info[o];
  }

  lemma CreateEntries(s: State, loose: set<int>, a: Address, source: NetAddr)
    requires EntriesConsistent(s.idCount, s.info, s.newTable, loose)
    requires s.idCount !in s.info && forall sl | sl in s.newTable :: s.newTable[sl] in s.info
    ensures var t := Create(s, a, source); EntriesConsistent(t.idCount, t.info, t.newTable, loose + {s.idCount})
  {
    assert SlotsOf(s.newTable, s.idCount) == {};
  }

  lemma CreateView(s: State, a: Address, source: NetAddr)
    requires AddrConsistent(s.info, s.addr) && AddrConsistent(Create(s, a, source).info, Create(s, a, source).addr)
    requires a.service.addr !in s.addr && s.idCount !in s.info && forall sl | sl in s.newTable :: s.newTable[sl] in s.info
    ensures ViewOf(Create(s, a, source)) == ViewOf(s)[a.service.addr := NewRecord(a, source)]
  {
    assert SlotsOf(s.newTable, s.idCount) == {};
  }

  lemma NewIdAfter(info: map<int, Info>, id: int, i: Info)
    requires id !in info && !i.inTried
    ensures NewIds(info[id := i]) == NewIds(info) + {id} && TriedIds(info[id := i]) == TriedIds(info)
  {
  }

  lemma CreateStep(e: Env, s: State, loose: set<int>, a: Address, source: NetAddr)
    requires Consistent(e, s, loose) && a.service.addr !in s.addr
    ensures s.idCount !in s.info
    ensures Consistent(e, Create(s, a, source), loose + {s.idCount})
    ensures ViewOf(Create(s, a, source)) == ViewOf(s)[a.service.addr := NewRecord(a, source)]
    ensures NewIds(Create(s, a, source).info) == NewIds(s.info) + {s.idCount}
    ensures TriedIds(Create(s, a, source).info) == TriedIds(s.info)
  {
    assert s.idCount !in s.info;
    CreateIndexes(s, a, source);
    CreateTables(e, s, a, source);
    CreateEntries(s, loose, a, source);
    CreateView(s, a, source);
    NewIdAfter(s.info, s.idCount, NewInfo(a, source, |s.random|));
  }

  /** Changing an entry's statistics, but neither its service nor where it is kept. */
  predicate SameEntry(i: Info, j: Info) {
    && i.service == j.service && i.source == j.source && i.refCount == j.refCount
    && i.inTried == j.inTried && i.randomPos == j.randomPos
  }

  function SetInfo(s: State, id: int, i: Info): State {
    s.(info := s.info[id := i])
  }

  lemma SetInfoStep(e: Env, s: State, loose: set<int>, id: int, i: Info)
    requires Consistent(e, s, loose) && id in s.info && SameEntry(s.info[id], i)
    ensures Consistent(e, SetInfo(s, id, i), loose)
    ensures ViewOf(SetInfo(s, id, i)) == ViewOf(s)[i.service.addr := RecordOf(i, s.newTable, id)]
    ensures NewIds(SetInfo(s, id, i).info) == NewIds(s.info)
    ensures TriedIds(SetInfo(s, id, i).info) == TriedIds(s.info)
  {
    hide NewIds, TriedIds;
    SetInfoIds(s, id, i);
    EntryStep(e, s, SetInfo(s, id, i), id, loose, loose);
  }

  lemma SetInfoIds(s: State, id: int, i: Info)
    requires id in s.info && SameEntry(s.info[id], i)
    ensures NewIds(SetInfo(s, id, i).info) == NewIds(s.info)
    ensures TriedIds(SetInfo(s, id, i).info) == TriedIds(s.info)
  {
    IdsAfter(s.info, id, i);
  }

  // ---------- vRandom ----------

  function SwapRandom(s: State, p: nat, q: nat): State
    requires p < |s.random| && q < |s.random|
    requires s.random[p] in s.info && s.random[q] in s.info
  {
    if p == q then s else
      var id1, id2 := s.random[p], s.random[q];
      var info1 := s.info[id1 := s.info[id1].(randomPos := q)];
      s.(info := info1[id2 := info1[id2].(randomPos := p)], random := s.random[p := id2][q := id1])
  }

  /** `t` differs from `s` only in the order of vRandom. */
  ghost predicate OnlyReorders(s: State, t: State) {
    && t == s.(info := t.info, random := t.random) && t.info.Keys == s.info.Keys
    && forall o | o in s.info :: t.info[o] == s.info[o].(randomPos := t.info[o].randomPos)
  }

  lemma ReorderStep(e: Env, s: State, t: State, loose: set<int>)
    requires Consistent(e, s, loose) && OnlyReorders(s, t) && RandomConsistent(t.info, t.random)
    ensures Consistent(e, t, loose)
  {
    assert forall o | o in t.info :: SameEntry(t.info[o].(randomPos := 0), s.info[o].(randomPos := 0));
    assert AddrConsistent(t.info, t.addr);
    assert NewConsistent(e, t.key, t.info, t.newTable);
    assert TriedConsistent(e, t.key, t.info, t.triedTable);
    assert forall o | o in t.info :: EntryOk(s.info[o], SlotsOf(s.newTable, o), o in loose);
  }

  lemma ReorderView(s: State, t: State)
    requires AddrConsistent(s.info, s.addr) && AddrConsistent(t.info, t.addr) && OnlyReorders(s, t)
    ensures ViewOf(t) == ViewOf(s) && NewIds(t.info) == NewIds(s.info) && TriedIds(t.info) == TriedIds(s.info)
  {
    assert forall o | o in s.info :: RecordOf(t.info[o], t.newTable, o) == RecordOf(s.info[o], s.newTable, o);
  }

  lemma SwappedPositions(info: map<int, Info>, r: seq<int>, info': map<int, Info>, r': seq<int>, p: nat, q: nat)
    requires RandomConsistent(info, r) && p < |r| && q < |r| && r' == r[p := r[q]][q := r[p]]
    requires info'.Keys == info.Keys
    requires forall o | o in info ::
               info'[o].randomPos == if o == r[p] then q else if o == r[q] then p else info[o].randomPos
    ensures RandomConsistent(info', r')
  {
    forall o | o in info' ensures 0 <= info'[o].randomPos < |r'| && r'[info'[o].randomPos] == o {
      assert 0 <= info[o].randomPos < |r|;
    }
    forall k | 0 <= k < |r'| ensures r'[k] in info' && info'[r'[k]].randomPos == k {
      assert info[r[k]].randomPos == k && info[r[p]].randomPos == p && info[r[q]].randomPos == q;
    }
  }

  lemma SwapRandomConsistent(s: State, p: nat, q: nat)
    requires RandomConsistent(s.info, s.random) && p < |s.random| && q < |s.random|
    ensures var t := SwapRandom(s, p, q); RandomConsistent(t.info, t.random) && OnlyReorders(s, t)
  {
    if p != q {
      var t, id1, id2 := SwapRandom(s, p, q), s.random[p], s.random[q];
      assert id1 != id2;
      SwappedPositions(s.info, s.random, t.info, t.random, p, q);
    }
  }

  lemma SwapRandomStep(e: Env, s: State, loose: set<int>, p: nat, q: nat)
    requires Consistent(e, s, loose) && p < |s.random| && q < |s.random|
    ensures Consistent(e, SwapRandom(s, p, q), loose)
    ensures ViewOf(SwapRandom(s, p, q)) == ViewOf(s)
    ensures NewIds(SwapRandom(s, p, q).info) == NewIds(s.info)
    ensures TriedIds(SwapRandom(s, p, q).info) == TriedIds(s.info)
  {
    SwapRandomConsistent(s, p, q);
    ReorderStep(e, s, SwapRandom(s, p, q), loose);
    ReorderView(s, SwapRandom(s, p, q));
  }

  function Remove(s: State, id: int): State
    requires id in s.info && |s.random| > 0
  {
    s.(random := s.random[..|s.random| - 1],
       addr := s.addr - {s.info[id].service.addr},
       info := s.info - {id})
  }

  lemma RemoveIndexes(s: State, id: int)
    requires AddrConsistent(s.info, s.addr) && RandomConsistent(s.info, s.random)
    requires id in s.info && s.info[id].randomPos == |s.random| - 1
    ensures var t := Remove(s, id); AddrConsistent(t.info, t.addr) && RandomConsistent(t.info, t.random)
    ensures ViewOf(Remove(s, id)) == ViewOf(s) - {s.info[id].service.addr}
  {
    hide AddrConsistent, ViewOf;
    RemoveAddress(s, id);
    RemoveLast(s, id);
  }

  lemma RemoveAddress(s: State, id: int)
    requires AddrConsistent(s.info, s.addr) && id in s.info && |s.random| > 0
    ensures var t := Remove(s, id); AddrConsistent(t.info, t.addr)
    ensures ViewOf(Remove(s, id)) == ViewOf(s) - {s.info[id].service.addr}
  {
    var t := Remove(s, id);
    assert forall o | o in t.info :: o != id && t.info[o] == s.info[o];
  }

  lemma RemoveLast(s: State, id: int)
    requires RandomConsistent(s.info, s.random)
    requires id in s.info && s.info[id].randomPos == |s.random| - 1
    ensures var t := Remove(s, id); RandomConsistent(t.info, t.random)
  {
    var t := Remove(s, id);
    assert forall k | 0 <= k < |t.random| :: t.random[k] == s.random[k];
  }

  lemma RemoveTables(e: Env, s: State, loose: set<int>, id: int)
    requires NewConsistent(e, s.key, s.info, s.newTable) && TriedConsistent(e, s.key, s.info, s.triedTable)
    requires EntriesConsistent(s.idCount, s.info, s.newTable, loose) && id in loose && |s.random| > 0
    ensures var t := Remove(s, id);
            && NewConsistent(e, t.key, t.info, t.newTable) && TriedConsistent(e, t.key, t.info, t.triedTable)
            && EntriesConsistent(t.idCount, t.info, t.newTable, loose - {id})
  {
    var t := Remove(s, id);
    assert SlotsOf(s.newTable, id) == {};
    assert forall o | o in t.info :: o != id && t.info[o] == s.info[o];
    forall sl | sl in s.newTable ensures s.newTable[sl] != id {
      assert sl !in SlotsOf(s.newTable, id);
    }
  }

  lemma RemoveStep(e: Env, s: State, loose: set<int>, id: int)
    requires Consistent(e, s, loose) && id in loose && s.info[id].randomPos == |s.random| - 1
    ensures Consistent(e, Remove(s, id), loose - {id})
    ensures ViewOf(Remove(s, id)) == ViewOf(s) - {s.info[id].service.addr}
    ensures NewIds(Remove(s, id).info) == NewIds(s.info) - {id}
    ensures TriedIds(Remove(s, id).info) == TriedIds(s.info)
  {
    RemoveIndexes(s, id);
    RemoveTables(e, s, loose, id);
  }

  /** Delete: the entry is swapped to the back of vRandom and dropped from every index. */
  function Delete(s: State, id: int): State
    requires id in s.info && 0 <= s.info[id].randomPos < |s.random|
    requires s.random[s.info[id].randomPos] in s.info && s.random[|s.random| - 1] in s.info
  {
    var t := SwapRandom(s, s.info[id].randomPos, |s.random| - 1);
    Remove(t, id).(nNew := s.nNew - 1)
  }

  /** Consistency and the view do not look at the counters. */
  lemma DeleteIsRemove(e: Env, s: State, u: State, id: int, loose: set<int>)
    requires id in u.info && |u.random| > 0 && Consistent(e, Remove(u, id), loose - {id})
    ensures var t := Remove(u, id).(nNew := s.nNew - 1);
            Consistent(e, t, loose - {id}) && ViewOf(t) == ViewOf(Remove(u, id))
  {
  }

  lemma LooseEntry(s: State, loose: set<int>, id: int)
    requires EntriesConsistent(s.idCount, s.info, s.newTable, loose) && id in loose
    ensures id in s.info && !s.info[id].inTried && s.info[id].refCount == 0 && id in NewIds(s.info)
  {
    assert EntryOk(s.info[id], SlotsOf(s.newTable, id), id in loose);
  }

  lemma DeleteStep(e: Env, s: State, loose: set<int>, id: int)
    requires Consistent(e, s, loose) && id in loose
    ensures Consistent(e, Delete(s, id), loose - {id})
    ensures ViewOf(Delete(s, id)) == ViewOf(s) - {s.info[id].service.addr}
    ensures NewIds(Delete(s, id).info) == NewIds(s.info) - {id}
    ensures TriedIds(Delete(s, id).info) == TriedIds(s.info)
  {
    hide AddrConsistent, NewConsistent, TriedConsistent, EntriesConsistent, ViewOf, NewIds, TriedIds, OnlyReorders;
    LooseEntry(s, loose, id);
    var p := s.info[id].randomPos;
    var u := SwapRandom(s, p, |s.random| - 1);
    SwapRandomStep(e, s, loose, p, |s.random| - 1);
    assert u.info[id].randomPos == |u.random| - 1 by { assert u.random[|u.random| - 1] == id; }
    assert u.info[id].service == s.info[id].service;
    RemoveStep(e, u, loose, id);
    DeleteIsRemove(e, s, u, id, loose);
  }

  // ---------- The new table ----------

  function Release(s: State, sl: Slot): State
    requires sl in s.newTable && s.newTable[sl] in s.info
  {
    var id := s.newTable[sl];
    s.(info := s.info[id := s.info[id].(refCount := s.info[id].refCount - 1)], newTable := s.newTable - {sl})
  }

  lemma ReleaseSlots(s: State, sl: Slot)
    requires sl in s.newTable && s.newTable[sl] in s.info
    ensures var id, t := s.newTable[sl], Release(s, sl);
            forall o :: SlotsOf(t.newTable, o) == if o == id then SlotsOf(s.newTable, o) - {sl} else SlotsOf(s.newTable, o)
    ensures OnlyChanges(s, Release(s, sl), s.newTable[sl])
    ensures sl in SlotsOf(s.newTable, s.newTable[sl])
  {
    forall o ensures SlotsOf(Release(s, sl).newTable, o) ==
        if o == s.newTable[sl] then SlotsOf(s.newTable, o) - {sl} else SlotsOf(s.newTable, o) {
      SlotsAfterClear(s.newTable, sl, o);
    }
  }

  lemma ReleaseMoves(e: Env, s: State, loose: set<int>, sl: Slot)
    requires Consistent(e, s, loose) && sl in s.newTable
    ensures var id := s.newTable[sl];
            && id !in loose && id in s.info && s.info[id].refCount > 0 && !s.info[id].inTried && sl in SlotsOf(s.newTable, id)
            && var t := Release(s, sl);
               OnlyChanges(s, t, id) && NewMoves(e, s, t, id) && TriedMoves(e, s, t, id)
               && SlotsOf(t.newTable, id) == SlotsOf(s.newTable, id) - {sl}
               && EntryOk(t.info[id], SlotsOf(t.newTable, id), s.info[id].refCount == 1)
  {
    hide AddrConsistent, RandomConsistent;
    var id := s.newTable[sl];
    ReleaseSlots(s, sl);
    assert EntryOk(s.info[id], SlotsOf(s.newTable, id), id in loose);
  }

  lemma ReleaseStep(e: Env, s: State, loose: set<int>, sl: Slot)
    requires Consistent(e, s, loose) && sl in s.newTable
    ensures var id := s.newTable[sl];
            id !in loose && id in s.info && s.info[id].refCount > 0 && !s.info[id].inTried && sl in SlotsOf(s.newTable, id)
    ensures Consistent(e, Release(s, sl), if s.info[s.newTable[sl]].refCount == 1 then loose + {s.newTable[sl]} else loose)
    ensures var id := s.newTable[sl];
            ViewOf(Release(s, sl)) == ViewOf(s)[s.info[id].service.addr :=
              RecordOf(s.info[id], s.newTable, id).(place := New(SlotsOf(s.newTable, id) - {sl}))]
    ensures NewIds(Release(s, sl).info) == NewIds(s.info) && TriedIds(Release(s, sl).info) == TriedIds(s.info)
  {
    hide Consistent, OnlyChanges, NewMoves, TriedMoves, EntryOk, ViewOf, SlotsOf, NewIds, TriedIds;
    ReleaseMoves(e, s, loose, sl);
    var id, t := s.newTable[sl], Release(s, sl);
    EntryStep(e, s, t, id, loose, if s.info[id].refCount == 1 then loose + {id} else loose);
    IdsAfter(s.info, id, t.info[id]);
    IdsSplit(s.info, id);
  }

  lemma IdsSplit(info: map<int, Info>, id: int)
    requires id in info
    ensures if info[id].inTried then id in TriedIds(info) && id !in NewIds(info) else id in NewIds(info) && id !in TriedIds(info)
  {
  }

  function Occupy(s: State, sl: Slot, id: int): State
    requires id in s.info
  {
    s.(info := s.info[id := s.info[id].(refCount := s.info[id].refCount + 1)], newTable := s.newTable[sl := id])
  }

  lemma OccupyMoves(e: Env, s: State, loose: set<int>, sl: Slot, id: int)
    requires Consistent(e, s, loose) && id in s.info && sl !in s.newTable
    requires !s.info[id].inTried && s.info[id].refCount < NEW_BUCKETS_PER_ADDRESS
    requires FitsNew(e, s.key, s.info[id].service, sl)
    ensures var t := Occupy(s, sl, id);
            && OnlyChanges(s, t, id) && NewMoves(e, s, t, id) && TriedMoves(e, s, t, id)
            && SlotsOf(t.newTable, id) == SlotsOf(s.newTable, id) + {sl}
            && EntryOk(t.info[id], SlotsOf(t.newTable, id), false)
  {
    hide AddrConsistent, RandomConsistent;
    var t := Occupy(s, sl, id);
    forall o ensures SlotsOf(t.newTable, o) == if o == id then SlotsOf(s.newTable, o) + {sl} else SlotsOf(s.newTable, o) {
      SlotsAfterSet(s.newTable, sl, id, o);
    }
    assert EntryOk(s.info[id], SlotsOf(s.newTable, id), id in loose);
  }

  lemma OccupyStep(e: Env, s: State, loose: set<int>, sl: Slot, id: int)
    requires Consistent(e, s, loose) && id in s.info && sl !in s.newTable
    requires !s.info[id].inTried && s.info[id].refCount < NEW_BUCKETS_PER_ADDRESS
    requires FitsNew(e, s.key, s.info[id].service, sl)
    ensures Consistent(e, Occupy(s, sl, id), loose - {id})
    ensures ViewOf(Occupy(s, sl, id)) == ViewOf(s)[s.info[id].service.addr :=
              RecordOf(s.info[id], s.newTable, id).(place := New(SlotsOf(s.newTable, id) + {sl}))]
    ensures NewIds(Occupy(s, sl, id).info) == NewIds(s.info) && TriedIds(Occupy(s, sl, id).info) == TriedIds(s.info)
  {
    hide Consistent, OnlyChanges, NewMoves, TriedMoves, EntryOk, ViewOf, SlotsOf, NewIds, TriedIds;
    var t := Occupy(s, sl, id);
    OccupyMoves(e, s, loose, sl, id);
    EntryStep(e, s, t, id, loose, loose - {id});
    IdsAfter(s.info, id, t.info[id]);
    IdsSplit(s.info, id);
  }

  // ---------- The tried table ----------

  function Evict(s: State, sl: Slot): State
    requires sl in s.triedTable && s.triedTable[sl] in s.info
  {
    var id := s.triedTable[sl];
    s.(info := s.info[id := s.info[id].(inTried := false)],
       triedTable := s.triedTable - {sl}, nTried := s.nTried - 1)
  }

  lemma EvictStep(e: Env, s: State, loose: set<int>, sl: Slot)
    requires Consistent(e, s, loose) && sl in s.triedTable
    ensures var id := s.triedTable[sl]; id !in loose && id in s.info && s.info[id].inTried && s.info[id].refCount == 0
    ensures Consistent(e, Evict(s, sl), loose + {s.triedTable[sl]})
    ensures var id := s.triedTable[sl];
            ViewOf(Evict(s, sl)) == ViewOf(s)[s.info[id].service.addr :=
              RecordOf(s.info[id], s.newTable, id).(place := New({}))]
    ensures NewIds(Evict(s, sl).info) == NewIds(s.info) + {s.triedTable[sl]}
    ensures TriedIds(Evict(s, sl).info) == TriedIds(s.info) - {s.triedTable[sl]}
  {
    var id, t := s.triedTable[sl], Evict(s, sl);
    EntryStep(e, s, t, id, loose, loose + {id});
    IdsAfter(s.info, id, t.info[id]);
  }

  function Promote(s: State, sl: Slot, id: int): State
    requires id in s.info
  {
    s.(info := s.info[id := s.info[id].(inTried := true)],
       triedTable := s.triedTable[sl := id], nTried := s.nTried + 1)
  }

  lemma PromoteStep(e: Env, s: State, loose: set<int>, sl: Slot, id: int)
    requires Consistent(e, s, loose) && id in loose
    requires sl == TriedSlot(e, s.key, s.info[id].service) && sl !in s.triedTable
    ensures Consistent(e, Promote(s, sl, id), loose - {id})
    ensures ViewOf(Promote(s, sl, id)) == ViewOf(s)[s.info[id].service.addr :=
              RecordOf(s.info[id], s.newTable, id).(place := Tried)]
    ensures NewIds(Promote(s, sl, id).info) == NewIds(s.info) - {id}
    ensures TriedIds(Promote(s, sl, id).info) == TriedIds(s.info) + {id}
  {
    var t := Promote(s, sl, id);
    assert SlotsOf(s.newTable, id) == {};
    forall x | x in s.newTable ensures s.newTable[x] != id {
      assert x !in SlotsOf(s.newTable, id);
    }
    EntryStep(e, s, t, id, loose, loose - {id});
    IdsAfter(s.info, id, t.info[id]);
  }
}
