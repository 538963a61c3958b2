/** What the operations' specifications imply: who can be forgotten, and that the view says all
    there is to say about the two bucket tables. */
module AddrManTheorems {
  import opened AddrManState
  import opened AddrManSteps
  import opened AddrManSpec
  import opened AddrManMoves
  import opened AddrManStream

  /** Two addresses never share a slot of the new table, nor one of the tried table. */
  ghost predicate Exclusive(e: Env, key: nat, v: View) {
    && (forall a, b, sl | Occupies(v, a, sl) && Occupies(v, b, sl) :: a == b)
    && (forall a, b, sl | Incumbent(e, key, v, sl, a) && Incumbent(e, key, v, sl, b) :: a == b)
  }

  lemma ViewIsExclusive(e: Env, s: State)
    requires Valid(e, s)
    ensures Exclusive(e, s.key, ViewOf(s))
  {
    forall a, b, sl | Occupies(ViewOf(s), a, sl) && Occupies(ViewOf(s), b, sl) ensures a == b {
      ViewAtAddress(s, a);
      ViewAtAddress(s, b);
      OccupiesIff(s, sl, s.addr[a]);
      OccupiesIff(s, sl, s.addr[b]);
    }
    forall a, b, sl | Incumbent(e, s.key, ViewOf(s), sl, a) && Incumbent(e, s.key, ViewOf(s), sl, b) ensures a == b {
      IncumbentIff(e, s, sl, a);
      IncumbentIff(e, s, sl, b);
    }
  }

  /** The same addresses, under the same services and in the same places. */
  ghost predicate SamePlaces(v: View, w: View) {
    v.Keys == w.Keys && forall a | a in v :: v[a].service == w[a].service && v[a].place == w[a].place
  }

  /** The same slots taken by the same services in both bucket tables, under whatever ids. */
  ghost predicate SameTables(s: State, t: State) {
    forall sl :: SameNewSlot(s, t, sl) && SameTriedSlot(s, t, sl)
  }

  /** States with the same key and the same places have the same two bucket tables, up to the choice of ids. */
  lemma ViewDeterminesTables(e: Env, s: State, t: State)
    requires Valid(e, s) && Valid(e, t) && s.key == t.key && SamePlaces(ViewOf(s), ViewOf(t))
    ensures SameTables(s, t)
  {
    forall sl ensures SameNewSlot(s, t, sl) && SameTriedSlot(s, t, sl) {
      NewSlotCarriesOver(e, s, t, sl);
      NewSlotCarriesOver(e, t, s, sl);
      TriedSlotCarriesOver(e, s, t, sl);
      TriedSlotCarriesOver(e, t, s, sl);
    }
  }

  /** What is written and read back keeps its place in both tables, and its times stay sane. */
  lemma PersistedTables(e: Env, s: State, t: State)
    requires Valid(e, s) && Valid(e, t) && s.key == t.key && ViewOf(t) == Persisted(ViewOf(s))
    ensures SameTables(s, t) && (Sane(ViewOf(s)) ==> Sane(ViewOf(t)))
  {
    hide AddrConsistent, RandomConsistent, NewConsistent, TriedConsistent, EntriesConsistent, SameTables, ViewOf;
    assert forall a | a in ViewOf(t) :: a in ViewOf(s) && ViewOf(t)[a] == ViewOf(s)[a].(lastTry := 0);
    assert SamePlaces(ViewOf(s), ViewOf(t));
    ViewDeterminesTables(e, s, t);
    if Sane(ViewOf(s)) {
      forall a | a in ViewOf(t) ensures SaneRecord(ViewOf(t)[a]) { assert SaneRecord(ViewOf(s)[a]); }
    }
  }

  ghost predicate SameNewSlot(s: State, t: State, sl: Slot) {
    && (sl in s.newTable <==> sl in t.newTable)
    && (sl in s.newTable ==>
          && s.newTable[sl] in s.info && t.newTable[sl] in t.info
          && s.info[s.newTable[sl]].service == t.info[t.newTable[sl]].service)
  }

  ghost predicate SameTriedSlot(s: State, t: State, sl: Slot) {
    && (sl in s.triedTable <==> sl in t.triedTable)
    && (sl in s.triedTable ==>
          && s.triedTable[sl] in s.info && t.triedTable[sl] in t.info
          && s.info[s.triedTable[sl]].service == t.info[t.triedTable[sl]].service)
  }

  lemma NewSlotCarriesOver(e: Env, s: State, t: State, sl: Slot)
    requires Valid(e, s) && Valid(e, t) && SamePlaces(ViewOf(s), ViewOf(t))
    ensures sl in s.newTable ==>
              && sl in t.newTable && s.newTable[sl] in s.info && t.newTable[sl] in t.info
              && s.info[s.newTable[sl]].service == t.info[t.newTable[sl]].service
  {
    hide RandomConsistent, TriedConsistent, EntriesConsistent;
    if sl in s.newTable {
      var id := s.newTable[sl];
      var a := s.info[id].service.addr;
      ViewAt(s, id);
      OccupiesIff(s, sl, id);
      ViewKeys(t);
      ViewAtAddress(t, a);
      OccupiesIff(t, sl, t.addr[a]);
    }
  }

  lemma TriedSlotCarriesOver(e: Env, s: State, t: State, sl: Slot)
    requires Valid(e, s) && Valid(e, t) && s.key == t.key && SamePlaces(ViewOf(s), ViewOf(t))
    ensures sl in s.triedTable ==>
              && sl in t.triedTable && s.triedTable[sl] in s.info && t.triedTable[sl] in t.info
              && s.info[s.triedTable[sl]].service == t.info[t.triedTable[sl]].service
  {
    hide RandomConsistent, NewConsistent, EntriesConsistent;
    if sl in s.triedTable {
      var id := s.triedTable[sl];
      var a := s.info[id].service.addr;
      ViewAt(s, id);
      IncumbentIff(e, s, sl, a);
      IncumbentIff(e, t, sl, a);
      ViewKeys(t);
      ViewAtAddress(t, a);
      ViewAt(t, t.triedTable[sl]);
    }
  }

  /** Good_ never forgets a tried address nor the one it is told about, and forgets at most one: the
      sole holder of the new slot that the evicted address returns to. Nobody is added. */
  lemma GoodForgetsAtMostOne(e: Env, key: nat, v: View, s: Service, t: int)
    requires Exclusive(e, key, v)
    ensures GoodSpec(e, key, v, s, t).Keys <= v.Keys
    ensures forall a | a in v && a !in GoodSpec(e, key, v, s, t) ::
              a != s.addr && v[a].place.New? && exists sl :: v[a].place == New({sl})
    ensures forall a, b | a in v && b in v && a !in GoodSpec(e, key, v, s, t) && b !in GoodSpec(e, key, v, s, t) :: a == b
  {
    if s.addr in v && v[s.addr].service == s && v[s.addr].place.New? {
      var r := v[s.addr].(lastSuccess := t, lastTry := t, attempts := 0, place := New({}));
      var w := v[s.addr := r];
      var sl := TriedSlot(e, key, s);
      if exists o :: Incumbent(e, key, w, sl, o) {
        var o :| Incumbent(e, key, w, sl, o);
        assert Incumbent(e, key, v, sl, o);
        forall o' | Incumbent(e, key, w, sl, o') ensures o' == o { assert Incumbent(e, key, v, sl, o'); }
        var back := NewSlot(e, key, w[o].service, w[o].source);
        forall a | a in v && a !in GoodSpec(e, key, v, s, t) ensures a != s.addr && v[a].place == New({back}) {
          assert a in w;
        }
        forall a, b | a in v && b in v && a !in GoodSpec(e, key, v, s, t) && b !in GoodSpec(e, key, v, s, t)
          ensures a == b
        {
          assert Occupies(v, a, back) && Occupies(v, b, back);
        }
      }
    }
  }

  /** Add_ can add only the announced address; it forgets at most one other, never a tried one, and
      never the announced one if that was known. */
  lemma AddForgetsAtMostOne(e: Env, key: nat, v: View, a: Address, source: NetAddr, penalty: int, now: int, draw: nat)
    requires Exclusive(e, key, v)
    requires forall x | x in v && v[x].place.New? :: v[x].place.slots != {}
    ensures var w := AddSpec(e, key, v, a, source, penalty, now, draw);
            && w.Keys <= v.Keys + {a.service.addr}
            && (a.service.addr in v ==> a.service.addr in w)
            && (forall x | x in v && x !in w :: x != a.service.addr && v[x].place.New? && |v[x].place.slots| == 1)
            && (forall x, y | x in v && y in v && x !in w && y !in w :: x == y)
  {
    var b := a.service.addr;
    var w := AddSpec(e, key, v, a, source, penalty, now, draw);
    if e.routable(b) {
      var u := if b in v then Refreshed(v, a, penalty, now)
               else v[b := NewRecord(a, source).(nTime := Trunc32(if a.nTime - penalty > 0 then a.nTime - penalty else 0))];
      var sl := NewSlot(e, key, u[b].service, source);
      forall x | x in v && x !in w ensures x != b && v[x].place == New({sl}) {
        assert x in u;
      }
      forall x, y | x in v && y in v && x !in w && y !in w ensures x == y {
        assert Occupies(v, x, sl) && Occupies(v, y, sl);
      }
    }
  }

  /** What Check_ tests, condition by condition. It counts each new entry's slots down from its
      reference count and strikes each tried entry off once, so it asks for exact numbers. A null
      key is 0 here. */
  ghost predicate CheckHolds(e: Env, s: State) {
    && s.key != 0
    && |s.random| == s.nTried + s.nNew
    && (forall id | id in s.info :: CheckedEntry(s, id))
    && |TriedIds(s.info)| == s.nTried && |NewIds(s.info)| == s.nNew
    && (forall sl | sl in s.triedTable ::
          s.triedTable[sl] in TriedIds(s.info) && sl == TriedSlot(e, s.key, s.info[s.triedTable[sl]].service))
    && (forall id | id in TriedIds(s.info) :: |SlotsOf(s.triedTable, id)| == 1)
    && (forall sl | sl in s.newTable ::
          s.newTable[sl] in NewIds(s.info)
          && sl.pos == e.Position(s.key, true, sl.bucket, s.info[s.newTable[sl]].service))
    && (forall id | id in NewIds(s.info) :: |SlotsOf(s.newTable, id)| == s.info[id].refCount)
  }

  ghost predicate CheckedEntry(s: State, id: int)
    requires id in s.info
  {
    var i := s.info[id];
    && (if i.inTried then i.lastSuccess != 0 && i.refCount == 0 else 0 < i.refCount <= NEW_BUCKETS_PER_ADDRESS)
    && i.service.addr in s.addr && s.addr[i.service.addr] == id
    && 0 <= i.randomPos < |s.random| && s.random[i.randomPos] == id
    && i.lastTry >= 0 && i.lastSuccess >= 0
  }

  lemma ValidEntryChecked(e: Env, s: State, id: int)
    requires Valid(e, s) && id in s.info
    ensures var a := s.info[id].service.addr;
            a in ViewOf(s) && (CheckedEntry(s, id) <==> SaneRecord(ViewOf(s)[a]))
    ensures !s.info[id].inTried ==> |SlotsOf(s.newTable, id)| == s.info[id].refCount
  {
    hide NewConsistent, TriedConsistent;
    ViewAt(s, id);
    CountIsInRange(s, id);
    RefCountIs(s, {}, id);
    assert EntryOk(s.info[id], SlotsOf(s.newTable, id), false);
  }

  lemma ValidTablesChecked(e: Env, s: State)
    requires NewConsistent(e, s.key, s.info, s.newTable) && TriedConsistent(e, s.key, s.info, s.triedTable)
    ensures forall sl | sl in s.triedTable ::
              s.triedTable[sl] in TriedIds(s.info) && sl == TriedSlot(e, s.key, s.info[s.triedTable[sl]].service)
    ensures forall id | id in TriedIds(s.info) :: |SlotsOf(s.triedTable, id)| == 1
    ensures forall sl | sl in s.newTable ::
              s.newTable[sl] in NewIds(s.info)
              && sl.pos == e.Position(s.key, true, sl.bucket, s.info[s.newTable[sl]].service)
  {
    forall id | id in TriedIds(s.info) ensures |SlotsOf(s.triedTable, id)| == 1 {
      assert SlotsOf(s.triedTable, id) == {TriedSlot(e, s.key, s.info[id].service)};
    }
  }

  /** Under the invariant that every operation keeps, Check_ finds something exactly if the times
      are not sane or the key is null. */
  lemma ValidPassesCheck(e: Env, s: State)
    requires Valid(e, s)
    ensures CheckHolds(e, s) <==> Sane(ViewOf(s)) && s.key != 0
  {
    hide AddrConsistent, RandomConsistent, NewConsistent, TriedConsistent, EntriesConsistent, CheckedEntry, SlotsOf, ViewOf, SaneRecord;
    SizeIs(e, s);
    forall id | id in s.info
      ensures var a := s.info[id].service.addr;
              a in ViewOf(s) && (CheckedEntry(s, id) <==> SaneRecord(ViewOf(s)[a]))
      ensures !s.info[id].inTried ==> |SlotsOf(s.newTable, id)| == s.info[id].refCount
    {
      ValidEntryChecked(e, s, id);
    }
    ValidTablesChecked(e, s);
    ViewKeys(s);
    if forall id | id in s.info :: CheckedEntry(s, id) {
      forall a | a in ViewOf(s) ensures SaneRecord(ViewOf(s)[a]) { ViewAtAddress(s, a); }
    }
    if Sane(ViewOf(s)) {
      forall id | id in s.info ensures CheckedEntry(s, id) { assert SaneRecord(ViewOf(s)[s.info[id].service.addr]); }
    }
  }
}
