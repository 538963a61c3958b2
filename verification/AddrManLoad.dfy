/** Reading a stream that some other node wrote: the indexes agree as long as no address comes twice. */
module AddrManLoad {
  import opened AddrManState
  import opened AddrManSteps
  import opened AddrManMoves
  import opened AddrManStream

  /** The new entries that have no slot yet, or never will. */
  ghost function LooseIds(info: map<int, Info>): set<int> { set id | id in info && Slotless(info[id]) }

  /** The indexes agree, but for slots still to come, and there are m new and r tried entries. */
  ghost predicate Loaded(e: Env, s: State, m: int, r: int) {
    Consistent(e, s, LooseIds(s.info)) && |NewIds(s.info)| == m && |TriedIds(s.info)| == r
  }

  lemma NothingYet(e: Env, s: State)
    requires s.idCount == 0 && s.info == map[] && s.addr == map[] && s.random == [] && s.newTable == map[] && s.triedTable == map[]
    ensures Loaded(e, s, 0, 0)
  {
    assert LooseIds(s.info) == {} && NewIds(s.info) == {} && TriedIds(s.info) == {};
  }

  lemma LoadedAside(e: Env, s: State, t: State, m: int, r: int)
    requires Loaded(e, s, m, r) && t == s.(nNew := t.nNew, nTried := t.nTried)
    ensures Loaded(e, t, m, r)
  {
    hide AddrConsistent, RandomConsistent, NewConsistent, TriedConsistent, EntriesConsistent, NewIds, TriedIds, ViewOf;
    CountersAside(e, s, t, LooseIds(s.info));
  }

  lemma LooseAfter(info: map<int, Info>, id: int, i: Info)
    ensures LooseIds(info[id := i]) == if Slotless(i) then LooseIds(info) + {id} else LooseIds(info) - {id}
    ensures LooseIds(info - {id}) == LooseIds(info) - {id}
  {
  }

  /** The state after an entry has been read that is in no bucket yet. */
  function Entered(s: State, w: Saved): State {
    var id := s.idCount;
    s.(idCount := id + 1, info := s.info[id := Load(w, 0, false, |s.random|)],
       addr := s.addr[w.service.addr := id], random := s.random + [id])
  }

  lemma EnteredIs(s: State, w: Saved)
    ensures var u := Create(s, Address(w.service, w.services, w.nTime), w.source);
            && s.idCount in u.info && SameEntry(u.info[s.idCount], Load(w, 0, false, |s.random|))
            && Entered(s, w) == SetInfo(u, s.idCount, Load(w, 0, false, |s.random|))
  {
    var i := NewInfo(Address(w.service, w.services, w.nTime), w.source, |s.random|);
    assert s.info[s.idCount := i][s.idCount := Load(w, 0, false, |s.random|)] == s.info[s.idCount := Load(w, 0, false, |s.random|)];
  }

  lemma Enter(e: Env, s: State, w: Saved, m: int, r: int)
    requires Loaded(e, s, m, r) && w.service.addr !in s.addr
    ensures s.idCount !in s.info && Loaded(e, Entered(s, w), m + 1, r)
    ensures Consistent(e, Entered(s, w), LooseIds(s.info) + {s.idCount})
    ensures NewIds(Entered(s, w).info) == NewIds(s.info) + {s.idCount} && TriedIds(Entered(s, w).info) == TriedIds(s.info)
  {
    hide AddrConsistent, RandomConsistent, NewConsistent, TriedConsistent, EntriesConsistent, NewIds, TriedIds, ViewOf, LooseIds, Create, SetInfo;
    var a, id := Address(w.service, w.services, w.nTime), s.idCount;
    CreateStep(e, s, LooseIds(s.info), a, w.source);
    EnteredIs(s, w);
    var u, i, n := Create(s, a, w.source), Load(w, 0, false, |s.random|), NewIds(s.info);
    SetInfoStep(e, u, LooseIds(s.info) + {id}, id, i);
    LooseAfter(s.info, id, i);
    IdIsUnused(s.info, id);
    assert |n + {id}| == |n| + 1;
  }

  /** Reading an entry keeps the indexes in agreement exactly if its address was not known. */
  lemma EnterIff(e: Env, s: State, w: Saved, m: int, r: int)
    requires Loaded(e, s, m, r)
    ensures Loaded(e, Entered(s, w), m + 1, r) <==> w.service.addr !in s.addr
  {
    if w.service.addr in s.addr {
      var id := s.addr[w.service.addr];
      assert id in s.info && id != s.idCount && Entered(s, w).info[id] == s.info[id];
      assert !AddrConsistent(Entered(s, w).info, Entered(s, w).addr);
    } else {
      Enter(e, s, w, m, r);
    }
  }

  /** The state after a tried entry has been read that found its slot free. */
  function EnteredTried(s: State, w: Saved, sl: Slot): State {
    var id := s.idCount;
    s.(idCount := id + 1, info := s.info[id := Load(w, 0, true, |s.random|)],
       addr := s.addr[w.service.addr := id], random := s.random + [id], triedTable := s.triedTable[sl := id])
  }

  lemma EnteredTriedIs(s: State, w: Saved, sl: Slot)
    ensures s.idCount in Entered(s, w).info
    ensures EnteredTried(s, w, sl) == Promote(Entered(s, w), sl, s.idCount).(nTried := s.nTried)
  {
    var i, j := Load(w, 0, false, |s.random|), Load(w, 0, true, |s.random|);
    assert s.info[s.idCount := i][s.idCount := j] == s.info[s.idCount := j];
  }

  lemma EnterTried(e: Env, s: State, w: Saved, sl: Slot, m: int, r: int)
    requires Loaded(e, s, m, r) && w.service.addr !in s.addr
    requires sl == TriedSlot(e, s.key, w.service) && sl !in s.triedTable
    ensures Loaded(e, EnteredTried(s, w, sl), m, r + 1)
  {
    hide AddrConsistent, RandomConsistent, NewConsistent, TriedConsistent, EntriesConsistent, NewIds, TriedIds, ViewOf, LooseIds, Promote;
    var id, t := s.idCount, Entered(s, w);
    Enter(e, s, w, m, r);
    EnteredTriedIs(s, w, sl);
    PromoteStep(e, t, LooseIds(s.info) + {id}, sl, id);
    var u, v, n, q := Promote(t, sl, id), EnteredTried(s, w, sl), NewIds(s.info), TriedIds(s.info);
    CountersAside(e, u, v, LooseIds(s.info) + {id} - {id});
    LooseAfter(s.info, id, Load(w, 0, true, |s.random|));
    LooseIdsKnown(s.info, id);
    IdIsUnused(s.info, id);
    assert LooseIds(s.info) + {id} - {id} == LooseIds(s.info) - {id};
    assert n + {id} - {id} == n && |q + {id}| == |q| + 1;
  }

  lemma LooseIdsKnown(info: map<int, Info>, id: int)
    requires id !in info
    ensures id !in LooseIds(info)
  {
  }

  lemma TakeSlot(e: Env, s: State, sl: Slot, id: int, m: int, r: int)
    requires Loaded(e, s, m, r) && id in s.info && !s.info[id].inTried && s.info[id].refCount < NEW_BUCKETS_PER_ADDRESS
    requires sl !in s.newTable && FitsNew(e, s.key, s.info[id].service, sl)
    ensures Loaded(e, Occupy(s, sl, id), m, r)
  {
    hide AddrConsistent, RandomConsistent, NewConsistent, TriedConsistent, NewIds, TriedIds, ViewOf, LooseIds, FitsNew;
    OccupyStep(e, s, LooseIds(s.info), sl, id);
    RefCountIs(s, LooseIds(s.info), id);
    LooseAfter(s.info, id, s.info[id].(refCount := s.info[id].refCount + 1));
  }

  lemma DropOne(e: Env, s: State, id: int, m: int, r: int)
    requires Loaded(e, s, m, r) && id in s.info && Slotless(s.info[id])
    ensures 0 <= s.info[id].randomPos < |s.random| && s.random[|s.random| - 1] in s.info && s.random[s.info[id].randomPos] in s.info
    ensures Loaded(e, Delete(s, id), m - 1, r)
  {
    hide AddrConsistent, NewConsistent, TriedConsistent, EntriesConsistent, NewIds, TriedIds, ViewOf, Delete;
    LastIsKnown(s.info, s.random, id);
    DeleteStep(e, s, LooseIds(s.info), id);
    DeletedLoose(s, id);
    NewIdIs(s.info, id);
    assert |NewIds(s.info) - {id}| == |NewIds(s.info)| - 1;
  }

  lemma NewIdIs(info: map<int, Info>, id: int)
    requires id in info && Slotless(info[id])
    ensures id in NewIds(info)
  {
  }

  lemma DeletedLoose(s: State, id: int)
    requires id in s.info && 0 <= s.info[id].randomPos < |s.random|
    requires s.random[s.info[id].randomPos] in s.info && s.random[|s.random| - 1] in s.info
    ensures LooseIds(Delete(s, id).info) == LooseIds(s.info) - {id}
  {
  }

  lemma AllPlaced(e: Env, s: State)
    requires Loaded(e, s, s.nNew, s.nTried) && NoneSlotless(s.info)
    ensures Valid(e, s)
  {
    hide AddrConsistent, RandomConsistent, NewConsistent, TriedConsistent, EntriesConsistent, NewIds, TriedIds, Slotless;
    forall id ensures id !in LooseIds(s.info) {}
    assert LooseIds(s.info) == {};
  }

  // ---------- The addresses in the stream ----------

  /** The i-th entry of the stream has this address. */
  ghost predicate EntryAt(w: seq<Item>, i: int, a: NetAddr) {
    0 <= HEADER + i < |w| && w[HEADER + i].Entry? && w[HEADER + i].saved.service.addr == a
  }

  /** The first n entries of the stream have different addresses. */
  ghost predicate Apart(w: seq<Item>, n: int) {
    forall i, j, a, b | 0 <= i < j < n && EntryAt(w, i, a) && EntryAt(w, j, b) :: a != b
  }

  /** Every address known is that of one of the first n entries. */
  ghost predicate KnownFrom(addr: map<NetAddr, int>, w: seq<Item>, n: int) {
    forall a | a in addr :: exists i :: 0 <= i < n && EntryAt(w, i, a)
  }

  lemma NextIsNew(addr: map<NetAddr, int>, w: seq<Item>, n: nat, total: int, id: int)
    requires Apart(w, total) && KnownFrom(addr, w, n) && n < total && HEADER + n < |w| && w[HEADER + n].Entry?
    ensures var a := w[HEADER + n].saved.service.addr;
            a !in addr && KnownFrom(addr, w, n + 1) && KnownFrom(addr[a := id], w, n + 1)
  {
    var a := w[HEADER + n].saved.service.addr;
    assert EntryAt(w, n, a);
    hide EntryAt;
    forall x | x in addr ensures x != a && exists i :: 0 <= i < n + 1 && EntryAt(w, i, x) {
      var i :| 0 <= i < n && EntryAt(w, i, x);
    }
  }

  /** A stream with counts that are not negative and no address twice. */
  ghost predicate Orderly(w: seq<Item>) {
    |w| >= HEADER && w[3].Int? && w[4].Int? && w[3].n >= 0 && w[4].n >= 0 && Apart(w, w[3].n + w[4].n)
  }

  function EntriesIn(w: seq<Item>): int
    requires |w| >= HEADER && w[3].Int? && w[4].Int?
  {
    w[3].n + w[4].n
  }

  /** Where the loops over the entries stand: n have been read, of which m are new and r tried. */
  ghost predicate Reading(e: Env, s: State, w: seq<Item>, n: nat, m: int, r: int) {
    Loaded(e, s, m, r) && KnownFrom(s.addr, w, n)
  }

  lemma ReadingStart(e: Env, s: State, w: seq<Item>)
    requires s.idCount == 0 && s.info == map[] && s.addr == map[] && s.random == [] && s.newTable == map[] && s.triedTable == map[]
    ensures Reading(e, s, w, 0, 0, 0)
  {
    NothingYet(e, s);
  }

  lemma ReadNext(e: Env, s: State, w: seq<Item>, n: nat, total: int)
    requires Reading(e, s, w, n, n, 0) && s.idCount == n && Apart(w, total) && n < total && HEADER + n < |w| && w[HEADER + n].Entry?
    ensures var saved := w[HEADER + n].saved;
            n !in s.info && Reading(e, Entered(s, saved), w, n + 1, n + 1, 0)
            && n in Entered(s, saved).info && Entered(s, saved).info[n] == Load(saved, 0, false, |s.random|)
  {
    hide Loaded, Apart, KnownFrom;
    NextIsNew(s.addr, w, n, total, s.idCount);
    Enter(e, s, w[HEADER + n].saved, n, 0);
  }

  lemma ReadPlaced(e: Env, s: State, w: seq<Item>, n: nat, id: int, sl: Slot, m: int, r: int)
    requires Reading(e, s, w, n, m, r) && id in s.info && !s.info[id].inTried && s.info[id].refCount < NEW_BUCKETS_PER_ADDRESS
    requires sl !in s.newTable && FitsNew(e, s.key, s.info[id].service, sl)
    ensures Reading(e, Occupy(s, sl, id), w, n, m, r)
  {
    hide Loaded, KnownFrom, FitsNew;
    TakeSlot(e, s, sl, id, m, r);
  }

  lemma ReadNextTried(e: Env, s: State, w: seq<Item>, n: nat, total: int, m: int, r: int)
    requires Reading(e, s, w, n, m, r) && Apart(w, total) && n < total && HEADER + n < |w| && w[HEADER + n].Entry?
    ensures var saved := w[HEADER + n].saved;
            var sl := TriedSlot(e, s.key, saved.service);
            && Reading(e, s, w, n + 1, m, r)
            && (sl !in s.triedTable ==> Reading(e, EnteredTried(s, saved, sl), w, n + 1, m, r + 1))
  {
    hide Loaded, Apart, KnownFrom;
    var saved := w[HEADER + n].saved;
    var sl := TriedSlot(e, s.key, saved.service);
    NextIsNew(s.addr, w, n, total, s.idCount);
    if sl !in s.triedTable { EnterTried(e, s, saved, sl, m, r); }
  }

  lemma ReadingAside(e: Env, s: State, t: State, w: seq<Item>, n: nat, m: int, r: int)
    requires Reading(e, s, w, n, m, r) && t == s.(nNew := t.nNew, nTried := t.nTried)
    ensures Reading(e, t, w, n, m, r)
  {
    hide Loaded, KnownFrom;
    LoadedAside(e, s, t, m, r);
  }

  lemma ReadDropped(e: Env, s: State, w: seq<Item>, n: nat, id: int, m: int, r: int)
    requires Reading(e, s, w, n, m, r) && id in s.info && Slotless(s.info[id])
    ensures 0 <= s.info[id].randomPos < |s.random| && s.random[|s.random| - 1] in s.info && s.random[s.info[id].randomPos] in s.info
    ensures Reading(e, Delete(s, id), w, n, m - 1, r)
  {
    hide Loaded, KnownFrom, Delete;
    DropOne(e, s, id, m, r);
    DeleteFields(s, id);
    KnownStill(s.addr, s.info[id].service.addr, w, n);
  }

  lemma KnownStill(addr: map<NetAddr, int>, a: NetAddr, w: seq<Item>, n: nat)
    requires KnownFrom(addr, w, n)
    ensures KnownFrom(addr - {a}, w, n)
  {
    hide EntryAt;
  }

  /** No new entry is a tried one. */
  lemma NoneTried(e: Env, s: State, m: int, id: int)
    requires Loaded(e, s, m, 0) && id in s.info
    ensures !s.info[id].inTried
  {
    assert id in TriedIds(s.info) <==> s.info[id].inTried;
    assert TriedIds(s.info) == {};
  }

  lemma ReadNoneTried(e: Env, s: State, w: seq<Item>, n: nat, m: int, id: int)
    requires Reading(e, s, w, n, m, 0) && id in s.info
    ensures !s.info[id].inTried
  {
    NoneTried(e, s, m, id);
  }

  lemma ReadAll(e: Env, s: State, w: seq<Item>, total: nat)
    requires Reading(e, s, w, total, s.nNew, s.nTried) && NoneSlotless(s.info)
    ensures Valid(e, s) && KnownFrom(s.addr, w, total)
  {
    hide Loaded, KnownFrom;
    AllPlaced(e, s);
  }

  /** The first m ids are new entries, all of them read. */
  ghost predicate NewRead(e: Env, s: State, w: seq<Item>, n: int, m: int, r: int) {
    && 0 <= m <= n && m <= s.idCount && Reading(e, s, w, n, m, r)
    && forall id | 0 <= id < m :: id in s.info && !s.info[id].inTried
  }

  lemma NewReadIs(e: Env, s: State, w: seq<Item>, m: nat)
    requires Reading(e, s, w, m, m, 0) && s.idCount == m && forall id | 0 <= id < m :: id in s.info
    ensures NewRead(e, s, w, m, m, 0)
  {
    hide Reading;
    forall id | 0 <= id < m ensures !s.info[id].inTried { ReadNoneTried(e, s, w, m, m, id); }
  }

  lemma NewReadNext(e: Env, s: State, w: seq<Item>, n: nat, total: int, m: int, r: int)
    requires NewRead(e, s, w, n, m, r) && Apart(w, total) && n < total && HEADER + n < |w| && w[HEADER + n].Entry?
    ensures var saved := w[HEADER + n].saved;
            var sl := TriedSlot(e, s.key, saved.service);
            && NewRead(e, s, w, n + 1, m, r)
            && (sl !in s.triedTable ==> NewRead(e, EnteredTried(s, saved, sl), w, n + 1, m, r + 1))
  {
    hide Reading, Apart;
    ReadNextTried(e, s, w, n, total, m, r);
  }

  lemma NewReadPlaced(e: Env, s: State, w: seq<Item>, n: int, id: int, sl: Slot, m: int, r: int)
    requires NewRead(e, s, w, n, m, r) && 0 <= id < m
    ensures id in s.info
    ensures s.info[id].refCount < NEW_BUCKETS_PER_ADDRESS && sl !in s.newTable && FitsNew(e, s.key, s.info[id].service, sl) ==>
              NewRead(e, Occupy(s, sl, id), w, n, m, r)
  {
    hide Reading, FitsNew;
    if s.info[id].refCount < NEW_BUCKETS_PER_ADDRESS && sl !in s.newTable && FitsNew(e, s.key, s.info[id].service, sl) {
      ReadPlaced(e, s, w, n, id, sl, m, r);
    }
  }

  lemma NewReadAside(e: Env, s: State, t: State, w: seq<Item>, n: int, m: int, r: int)
    requires NewRead(e, s, w, n, m, r) && t == s.(nNew := t.nNew, nTried := t.nTried)
    ensures NewRead(e, t, w, n, m, r)
  {
    hide Reading;
    ReadingAside(e, s, t, w, n, m, r);
  }

  lemma NewReadGives(e: Env, s: State, w: seq<Item>, n: int, m: int, r: int)
    requires NewRead(e, s, w, n, m, r)
    ensures 0 <= n && 0 <= m <= s.idCount && Reading(e, s, w, n, m, r)
  {
  }

  // ---------- Tried entries of a stream that Serialize wrote ----------

  /** All new entries and n tried ones have been read, none of them lost. */
  ghost predicate TriedSoFar(e: Env, orig: State, w: seq<Item>, s: State, n: nat) {
    && Valid(e, orig) && Encodes(orig, w) && EntriesRead(e, orig, s, |NewList(orig)| + n)
    && s.newTable == map[] && s.idCount == |NewList(orig)| + n && n <= orig.nTried
  }

  lemma NewAreRead(e: Env, orig: State, w: seq<Item>, s: State, t: State)
    requires Valid(e, orig) && Encodes(orig, w) && EntriesRead(e, orig, s, |NewList(orig)|) && s.newTable == map[]
    requires t == s.(idCount := t.idCount) && t.idCount == |NewList(orig)|
    ensures TriedSoFar(e, orig, w, t, 0) && orig.nTried >= 0
  {
    hide AddrConsistent, RandomConsistent, NewConsistent, TriedConsistent, EntriesConsistent, NewList, TriedList, ViewOf, EntriesRead, Encodes;
    CounterAside(e, orig, s, t, |NewList(orig)|);
  }

  lemma TriedNext(e: Env, orig: State, w: seq<Item>, s: State, n: nat, at: nat)
    requires TriedSoFar(e, orig, w, s, n) && n < orig.nTried && at == HEADER + |NewList(orig)| + n
    ensures at < |w| && w[at].Entry? && s.idCount >= 0
    ensures var saved := w[at].saved;
            var sl := TriedSlot(e, s.key, saved.service);
            sl !in s.triedTable && TriedSoFar(e, orig, w, EnteredTried(s, saved, sl), n + 1)
  {
    hide AddrConsistent, RandomConsistent, NewConsistent, TriedConsistent, EntriesConsistent, NewList, TriedList, ViewOf, EntriesRead, Encodes, NewIds, TriedIds;
    var k := |NewList(orig)| + n;
    TriedItem(e, orig, w, n);
    ReadTriedEntry(e, orig, s, k);
    KeyRead(e, orig, s, k);
    var saved := w[at].saved;
    var sl := TriedSlot(e, s.key, saved.service);
    CounterAside(e, orig, EnteredTried(s, saved, sl).(idCount := s.idCount), EnteredTried(s, saved, sl), k + 1);
  }

  lemma TriedAll(e: Env, orig: State, w: seq<Item>, s: State, t: State)
    requires orig.nTried >= 0 && TriedSoFar(e, orig, w, s, orig.nTried) && t == s.(nTried := t.nTried)
    ensures EntriesRead(e, orig, t, |Written(orig)|) && t.newTable == map[]
    ensures s.idCount == |Written(orig)| && BucketsAt(orig) == HEADER + |Written(orig)| && |Written(orig)| == |NewList(orig)| + orig.nTried
  {
    hide AddrConsistent, RandomConsistent, NewConsistent, TriedConsistent, EntriesConsistent, NewList, TriedList, ViewOf, EntriesRead, Encodes, NewIds, TriedIds;
    ListsAre(e, orig);
    WrittenIs(e, orig);
    CounterAside(e, orig, s, t, |Written(orig)|);
  }

  /** Where the loop over the tried entries stands, on either account. */
  ghost predicate ReadingTried(e: Env, orig: State, good: bool, fair: bool, w: seq<Item>, s: State, n: nat, lost: int) {
    && (good ==> lost == 0 && TriedSoFar(e, orig, w, s, n))
    && (fair ==> 0 <= s.nNew <= s.idCount && NewRead(e, s, w, s.nNew + n, s.nNew, n - lost))
  }

  /** `t` is `s` after the entry w[at]. */
  ghost predicate TriedLoaded(e: Env, s: State, t: State, saved: Saved, found: bool) {
    var sl := TriedSlot(e, s.key, saved.service);
    (found <==> sl !in s.triedTable) && (s.idCount != -1 ==> t == if found then EnteredTried(s, saved, sl) else s)
  }

  lemma ReadingTriedStart(e: Env, orig: State, good: bool, fair: bool, w: seq<Item>, s: State)
    requires good ==> TriedSoFar(e, orig, w, s, 0)
    requires fair ==> NewRead(e, s, w, s.nNew, s.nNew, 0)
    ensures ReadingTried(e, orig, good, fair, w, s, 0, 0)
  {
  }

  lemma ReadingTriedItem(e: Env, orig: State, good: bool, fair: bool, w: seq<Item>, s: State, n: nat, lost: int, at: nat)
    requires ReadingTried(e, orig, good, fair, w, s, n, lost) && good
    requires n < orig.nTried && at == HEADER + |NewList(orig)| + n
    ensures at < |w| && w[at].Entry?
  {
    hide TriedSoFar, NewRead;
    TriedNext(e, orig, w, s, n, at);
  }

  lemma ReadingTriedStep(e: Env, orig: State, good: bool, fair: bool, w: seq<Item>, s: State, t: State, n: nat, lost: int, at: nat, found: bool)
    requires ReadingTried(e, orig, good, fair, w, s, n, lost) && at < |w| && w[at].Entry? && TriedLoaded(e, s, t, w[at].saved, found)
    requires good ==> n < orig.nTried && at == HEADER + |NewList(orig)| + n
    requires fair ==> at == HEADER + s.nNew + n && Apart(w, s.nNew + s.nTried) && n < s.nTried
    ensures ReadingTried(e, orig, good, fair, w, t, n + 1, if found then lost else lost + 1)
  {
    hide TriedSoFar, NewRead, Apart;
    if good { TriedNext(e, orig, w, s, n, at); }
    if fair { NewReadNext(e, s, w, s.nNew + n, s.nNew + s.nTried, s.nNew, n - lost); }
  }

  lemma ReadingTriedDone(e: Env, orig: State, good: bool, fair: bool, w: seq<Item>, s: State, t: State, n: nat, lost: int)
    requires ReadingTried(e, orig, good, fair, w, s, n, lost) && t == s.(nTried := t.nTried)
    requires (good ==> n == orig.nTried) && (fair ==> t.nTried == n - lost)
    ensures good ==> lost == 0 && EntriesRead(e, orig, t, |Written(orig)|) && t.newTable == map[] && s.idCount == |Written(orig)|
                     && BucketsAt(orig) == HEADER + |Written(orig)| && |Written(orig)| == |NewList(orig)| + n
    ensures fair ==> NewRead(e, t, w, s.nNew + n, s.nNew, t.nTried)
  {
    hide TriedSoFar, NewRead, EntriesRead;
    if good { TriedAll(e, orig, w, s, t); }
    if fair { NewReadAside(e, s, t, w, s.nNew + n, s.nNew, t.nTried); }
  }
}
