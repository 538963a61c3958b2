/** The serialized form of the address manager, and why reading it back rebuilds the same tables. */
module AddrManStream {
  import opened AddrManState
  import opened AddrManSteps
  import opened AddrManMoves

  /** What CAddrInfo writes: the address, its source and two statistics. The last try, the
      reference count, the table and the position in vRandom are memory only. */
  datatype Saved = Saved(service: Service, services: set<nat>, nTime: nat, source: NetAddr, lastSuccess: int, attempts: int)

  datatype Item = Byte(b: nat) | Key(k: nat) | Int(n: int) | Entry(saved: Saved)

  function Save(i: Info): Saved { Saved(i.service, i.services, i.nTime, i.source, i.lastSuccess, i.attempts) }

  function Load(w: Saved, refCount: int, inTried: bool, pos: int): Info {
    Info(w.service, w.services, w.nTime, 0, w.source, w.lastSuccess, w.attempts, refCount, inTried, pos)
  }

  const BUCKET_FLAG := 0x4000_0000

  /** XOR with 1 << 30. */
  function FlipFlag(x: nat): nat {
    if x / BUCKET_FLAG % 2 == 0 then x + BUCKET_FLAG else x - BUCKET_FLAG
  }

  // ---------- The order in which things are written ----------

  /** The new (or tried) ids below n, in ascending order. */
  ghost function IdsBelow(info: map<int, Info>, n: nat, tried: bool): (q: seq<int>)
    ensures forall id | id in q :: 0 <= id < n && id in info && info[id].inTried == tried
  {
    if n == 0 then []
    else IdsBelow(info, n - 1, tried) + (if n - 1 in info && info[n - 1].inTried == tried then [n - 1] else [])
  }

  lemma {:induction false} IdsBelowDistinct(info: map<int, Info>, n: nat, tried: bool)
    ensures var q := IdsBelow(info, n, tried);
            && Distinct(q)
            && (forall id | 0 <= id < n && id in info && info[id].inTried == tried :: id in q)
  {
    if n > 0 {
      IdsBelowDistinct(info, n - 1, tried);
      var q := IdsBelow(info, n - 1, tried);
      forall i | 0 <= i < |q| ensures q[i] != n - 1 { assert q[i] in q; }
    }
  }

  lemma {:induction false} IdsBelowPrefix(info: map<int, Info>, m: nat, n: nat, tried: bool)
    requires m <= n
    ensures IdsBelow(info, m, tried) <= IdsBelow(info, n, tried)
  {
    if m < n { IdsBelowPrefix(info, m, n - 1, tried); }
  }

  /** An id's index in the list is the number of its fellows below it. */
  lemma IndexOfId(info: map<int, Info>, id: nat, n: nat, tried: bool)
    requires id < n && id in info && info[id].inTried == tried
    ensures |IdsBelow(info, id, tried)| < |IdsBelow(info, n, tried)|
    ensures IdsBelow(info, n, tried)[|IdsBelow(info, id, tried)|] == id
  {
    IdsBelowPrefix(info, id + 1, n, tried);
  }

  ghost function NewList(s: State): seq<int> { if s.idCount < 0 then [] else IdsBelow(s.info, s.idCount, false) }
  ghost function TriedList(s: State): seq<int> { if s.idCount < 0 then [] else IdsBelow(s.info, s.idCount, true) }

  lemma ListsAre(e: Env, s: State)
    requires Valid(e, s)
    ensures |NewList(s)| == s.nNew && |TriedList(s)| == s.nTried
    ensures Distinct(NewList(s))
    ensures Distinct(TriedList(s))
    ensures forall id | id in s.info :: if s.info[id].inTried then id in TriedList(s) else id in NewList(s)
  {
    hide AddrConsistent, RandomConsistent, NewConsistent, TriedConsistent;
    IdsBelowDistinct(s.info, s.idCount, false);
    IdsBelowDistinct(s.info, s.idCount, true);
    DistinctSize(NewList(s));
    DistinctSize(TriedList(s));
    CountIsNotNegative(s);
    forall id | id in s.info ensures 0 <= id < s.idCount { IdsAreBelow(s, id); }
    RangeOfIds(s.info, s.idCount, false);
    RangeOfIds(s.info, s.idCount, true);
  }

  lemma RangeOfIds(info: map<int, Info>, n: nat, tried: bool)
    requires forall id | id in info :: 0 <= id < n
    ensures Range(IdsBelow(info, n, tried)) == if tried then TriedIds(info) else NewIds(info)
  {
    IdsBelowDistinct(info, n, tried);
    var q := IdsBelow(info, n, tried);
    forall id ensures id in Range(q) <==> id in info && info[id].inTried == tried {
      assert id in Range(q) <==> id in q;
    }
  }

  /** The occupied positions of bucket b below p, in ascending order. */
  ghost function PosBelow(t: Table, b: nat, p: nat): (q: seq<nat>)
    ensures forall x | x in q :: x < p && Slot(b, x) in t
    ensures |q| <= p
  {
    if p == 0 then [] else PosBelow(t, b, p - 1) + (if Slot(b, p - 1) in t then [p - 1] else [])
  }

  ghost function PosList(t: Table, b: nat): seq<nat> { PosBelow(t, b, BUCKET_SIZE) }

  lemma {:induction false} PosBelowDistinct(t: Table, b: nat, p: nat)
    ensures var q := PosBelow(t, b, p);
            && Distinct(q)
            && (forall x | 0 <= x < p && Slot(b, x) in t :: x in q)
  {
    if p > 0 {
      PosBelowDistinct(t, b, p - 1);
      var q := PosBelow(t, b, p - 1);
      forall i | 0 <= i < |q| ensures q[i] != p - 1 { assert q[i] in q; }
    }
  }

  lemma {:induction false} PosBelowPrefix(t: Table, b: nat, m: nat, n: nat)
    requires m <= n
    ensures PosBelow(t, b, m) <= PosBelow(t, b, n)
  {
    if m < n { PosBelowPrefix(t, b, m, n - 1); }
  }

  // ---------- The stream ----------

  const HEADER := 6

  /** Where the positions of bucket b start, counted from the first bucket's. */
  ghost function BucketStart(t: Table, b: nat): nat {
    if b == 0 then 0 else BucketStart(t, b - 1) + 1 + |PosList(t, b - 1)|
  }

  /** The index written for the entry in a new slot. */
  ghost function IndexAt(s: State, sl: Slot): nat
    requires sl in s.newTable
  {
    if s.newTable[sl] < 0 then 0 else |IdsBelow(s.info, s.newTable[sl], false)|
  }

  ghost predicate HeaderOk(s: State, w: seq<Item>) {
    && |w| >= HEADER
    && w[0] == Byte(1) && w[1] == Byte(32) && w[2] == Key(s.key)
    && w[3] == Int(s.nNew) && w[4] == Int(s.nTried) && w[5] == Int(FlipFlag(NEW_BUCKET_COUNT))
  }

  ghost predicate EntriesWritten(s: State, q: seq<int>, w: seq<Item>, at: nat, n: nat)
    requires n <= |q|
  {
    at + n <= |w| && forall k | 0 <= k < n :: q[k] in s.info && w[at + k] == Entry(Save(s.info[q[k]]))
  }

  ghost predicate PositionsWritten(s: State, b: nat, w: seq<Item>, at: nat, n: nat) {
    && n <= |PosList(s.newTable, b)| && at + n <= |w|
    && forall k | 0 <= k < n :: w[at + k] == Int(IndexAt(s, Slot(b, PosList(s.newTable, b)[k])))
  }

  ghost predicate BucketWritten(s: State, b: nat, w: seq<Item>, at: nat) {
    && at < |w| && w[at] == Int(|PosList(s.newTable, b)|)
    && PositionsWritten(s, b, w, at + 1, |PosList(s.newTable, b)|)
  }

  ghost function BucketsAt(s: State): nat { HEADER + |NewList(s)| + |TriedList(s)| }

  ghost predicate BucketsWritten(s: State, w: seq<Item>, n: nat) {
    forall b | 0 <= b < n :: BucketWritten(s, b, w, BucketsAt(s) + BucketStart(s.newTable, b))
  }

  lemma NoPositionYet(s: State, b: nat, w: seq<Item>, at: nat)
    requires at <= |w|
    ensures PositionsWritten(s, b, w, at, 0) && PosBelow(s.newTable, b, 0) == []
  {
  }

  lemma NextPosition(s: State, b: nat, w: seq<Item>, at: nat, i: nat)
    requires i < BUCKET_SIZE && Slot(b, i) in s.newTable && s.newTable[Slot(b, i)] in s.info
    requires |w| == at + |PosBelow(s.newTable, b, i)| && PositionsWritten(s, b, w, at, |PosBelow(s.newTable, b, i)|)
    ensures |PosBelow(s.newTable, b, i + 1)| == |PosBelow(s.newTable, b, i)| + 1
    ensures PositionsWritten(s, b, w + [Int(IndexAt(s, Slot(b, i)))], at, |PosBelow(s.newTable, b, i + 1)|)
  {
    PosBelowPrefix(s.newTable, b, i + 1, BUCKET_SIZE);
  }

  lemma SkippedPosition(s: State, b: nat, i: nat)
    requires Slot(b, i) !in s.newTable
    ensures PosBelow(s.newTable, b, i + 1) == PosBelow(s.newTable, b, i)
  {
  }

  /** `w` is what Serialize writes for `s`, item by item. */
  ghost predicate Encodes(s: State, w: seq<Item>) {
    && HeaderOk(s, w)
    && EntriesWritten(s, NewList(s), w, HEADER, |NewList(s)|)
    && EntriesWritten(s, TriedList(s), w, HEADER + |NewList(s)|, |TriedList(s)|)
    && BucketsWritten(s, w, NEW_BUCKET_COUNT)
    && |w| == BucketsAt(s) + BucketStart(s.newTable, NEW_BUCKET_COUNT)
  }

  lemma EncodedHeader(s: State, w: seq<Item>)
    requires Encodes(s, w)
    ensures |w| >= 6 && w[..6] == [Byte(1), Byte(32), Key(s.key), Int(s.nNew), Int(s.nTried), Int(0x4000_0400)]
  {
    hide EntriesWritten, BucketsWritten;
    assert FlipFlag(NEW_BUCKET_COUNT) == 0x4000_0400;
  }

  lemma WriteOne(s: State, q: seq<int>, w: seq<Item>, at: nat, id: int)
    requires EntriesWritten(s, q, w, at, |q|) && |w| == at + |q| && id in s.info
    ensures EntriesWritten(s, q + [id], w + [Entry(Save(s.info[id]))], at, |q| + 1)
  {
  }

  /** Only new entries have references, so testing the count picks the new ones. */
  lemma ReferencedIsNew(e: Env, s: State, id: int)
    requires Valid(e, s) && id in s.info
    ensures id >= 0 && (s.info[id].refCount != 0 <==> !s.info[id].inTried)
  {
    assert EntryOk(s.info[id], SlotsOf(s.newTable, id), false);
  }

  /** Where the loop that writes the new (or tried) entries stands when it reaches the id n. */
  ghost predicate WrittenUpTo(s: State, w0: seq<Item>, w: seq<Item>, unkIds: map<int, int>, n: nat, tried: bool) {
    var q := IdsBelow(s.info, n, tried);
    && w0 <= w && |w| == |w0| + |q| && EntriesWritten(s, q, w, |w0|, |q|)
    && forall o | o in s.info && 0 <= o < n :: o in unkIds && unkIds[o] == |IdsBelow(s.info, o, tried)|
  }

  lemma NothingWritten(s: State, w: seq<Item>, tried: bool)
    ensures WrittenUpTo(s, w, w, map[], 0, tried)
  {
  }

  lemma WriterStep(s: State, w0: seq<Item>, w: seq<Item>, unkIds: map<int, int>, n: nat, tried: bool)
    requires WrittenUpTo(s, w0, w, unkIds, n, tried)
    ensures n !in s.info ==> WrittenUpTo(s, w0, w, unkIds, n + 1, tried)
    ensures n in s.info ==>
              var w' := if s.info[n].inTried == tried then w + [Entry(Save(s.info[n]))] else w;
              WrittenUpTo(s, w0, w', unkIds[n := |w| - |w0|], n + 1, tried)
  {
    hide EntriesWritten, IdsBelow;
    var q := IdsBelow(s.info, n, tried);
    NextId(s.info, n, tried);
    if n in s.info && s.info[n].inTried == tried {
      WriteOne(s, q, w, |w0|, n);
      var w' := w + [Entry(Save(s.info[n]))];
      assert w'[..|w0|] == w[..|w0|];
    }
  }

  lemma NextId(info: map<int, Info>, n: nat, tried: bool)
    ensures IdsBelow(info, n + 1, tried) == IdsBelow(info, n, tried) + (if n in info && info[n].inTried == tried then [n] else [])
    ensures n !in info || info[n].inTried != tried ==> IdsBelow(info, n + 1, tried) == IdsBelow(info, n, tried)
  {
  }

  lemma WriterDone(e: Env, s: State, w0: seq<Item>, w: seq<Item>, unkIds: map<int, int>, tried: bool)
    requires Valid(e, s) && WrittenUpTo(s, w0, w, unkIds, s.idCount, tried)
    ensures var q := if tried then TriedList(s) else NewList(s);
            |w| == |w0| + |q| && w0 <= w && EntriesWritten(s, q, w, |w0|, |q|)
    ensures forall o | o in s.info :: o in unkIds && unkIds[o] == |IdsBelow(s.info, o, tried)|
  {
    hide EntriesWritten;
    forall o | o in s.info ensures 0 <= o < s.idCount { IdsAreBelow(s, o); }
  }

  /** There is room for the next entry: the source asserts that it has not written them all. */
  lemma NotAllWritten(e: Env, s: State, n: nat, tried: bool)
    requires Valid(e, s) && n in s.info && s.info[n].inTried == tried
    ensures |IdsBelow(s.info, n, tried)| < if tried then s.nTried else s.nNew
  {
    ListsAre(e, s);
    IdsAreBelow(s, n);
    IndexOfId(s.info, n, s.idCount, tried);
  }

  lemma CountIsNotNegative(s: State)
    requires EntriesConsistent(s.idCount, s.info, s.newTable, {})
    ensures s.idCount >= 0
  {
  }

  lemma IdsAreBelow(s: State, id: int)
    requires EntriesConsistent(s.idCount, s.info, s.newTable, {}) && id in s.info
    ensures 0 <= id < s.idCount
  {
  }

  lemma HeldIsKnown(e: Env, s: State, sl: Slot)
    requires Valid(e, s) && sl in s.newTable
    ensures s.newTable[sl] in s.info && s.newTable[sl] >= 0 && IndexAt(s, sl) == |IdsBelow(s.info, s.newTable[sl], false)|
  {
  }

  /** Items already written stay when more follow. */
  lemma EntriesStay(s: State, q: seq<int>, w: seq<Item>, w': seq<Item>, at: nat)
    requires EntriesWritten(s, q, w, at, |q|) && w <= w'
    ensures EntriesWritten(s, q, w', at, |q|)
  {
  }

  lemma BucketsStay(s: State, w: seq<Item>, w': seq<Item>, n: nat)
    requires BucketsWritten(s, w, n) && w <= w' && |w| == BucketsAt(s) + BucketStart(s.newTable, n)
    requires BucketWritten(s, n, w', |w|)
    ensures BucketsWritten(s, w', n + 1)
  {
    hide BucketWritten, BucketStart;
    forall b | 0 <= b < n ensures BucketWritten(s, b, w', BucketsAt(s) + BucketStart(s.newTable, b)) {
      BucketStays(s, b, w, w', BucketsAt(s) + BucketStart(s.newTable, b));
    }
  }

  lemma NoBuckets(s: State, w: seq<Item>)
    ensures BucketsWritten(s, w, 0) && BucketStart(s.newTable, 0) == 0
  {
  }

  lemma BucketStartNext(t: Table, b: nat)
    ensures BucketStart(t, b + 1) == BucketStart(t, b) + 1 + |PosList(t, b)|
  {
  }

  lemma BucketStays(s: State, b: nat, w: seq<Item>, w': seq<Item>, at: nat)
    requires BucketWritten(s, b, w, at) && w <= w'
    ensures BucketWritten(s, b, w', at)
  {
  }

  // ---------- Reading it back ----------

  /** The ids in the order their entries are written; reading gives the k-th the id k. */
  ghost function Written(s: State): seq<int> { NewList(s) + TriedList(s) }

  /** The new-table slots read once the buckets below b and the first j positions of b are done. */
  ghost predicate SlotRead(s: State, sl: Slot, b: nat, j: nat) {
    && sl in s.newTable
    && (sl.bucket < b || (sl.bucket == b && j <= |PosList(s.newTable, b)| && sl.pos in PosList(s.newTable, b)[..j]))
  }

  ghost predicate NewTableRead(s: State, t: Table, b: nat, j: nat) {
    && (forall sl | sl in t :: SlotRead(s, sl, b, j) && 0 <= t[sl] < |NewList(s)| && NewList(s)[t[sl]] == s.newTable[sl])
    && (forall sl | SlotRead(s, sl, b, j) :: sl in t)
  }

  /** `t` has the first n entries of `s` back, apart from the new table's slots. */
  ghost predicate EntriesRead(e: Env, s: State, t: State, n: nat) {
    var q := Written(s);
    && n <= |q| && t.key == s.key
    && (forall k :: k in t.info <==> 0 <= k < n)
    && (forall k | 0 <= k < n :: q[k] in s.info
          && t.info[k] == Load(Save(s.info[q[k]]), |SlotsOf(t.newTable, k)|, s.info[q[k]].inTried, k))
    && t.random == seq(n, k => k)
    && AddrConsistent(t.info, t.addr)
    && TriedRead(e, s, t, n)
  }

  ghost predicate TriedRead(e: Env, s: State, t: State, n: nat)
    requires n <= |Written(s)| && forall k | 0 <= k < n :: Written(s)[k] in s.info
  {
    var q := Written(s);
    && (forall sl | sl in t.triedTable :: 0 <= t.triedTable[sl] < n && s.info[q[t.triedTable[sl]]].inTried
          && sl == TriedSlot(e, s.key, s.info[q[t.triedTable[sl]]].service))
    && (forall k | 0 <= k < n && s.info[q[k]].inTried :: TriedSlot(e, s.key, s.info[q[k]].service) in t.triedTable)
  }

  lemma WrittenIs(e: Env, s: State)
    requires Valid(e, s)
    ensures var q := Written(s);
            && Distinct(q) && |q| == s.nNew + s.nTried && |NewList(s)| == s.nNew
            && (forall k | 0 <= k < |q| :: q[k] in s.info && (s.info[q[k]].inTried <==> k >= s.nNew))
            && (forall id | id in s.info :: id in q)
  {
    ListsAre(e, s);
    var q, m, r := Written(s), NewList(s), TriedList(s);
    forall k | 0 <= k < |q| ensures q[k] in s.info && (s.info[q[k]].inTried <==> k >= s.nNew) {
      if k < |m| { assert q[k] in m; } else { assert q[k] in r; }
    }
  }

  /** Distinct entries have distinct addresses, and tried ones distinct slots. */
  lemma WrittenApart(e: Env, s: State, i: nat, j: nat)
    requires Valid(e, s) && i < |Written(s)| && j < |Written(s)| && i != j
    ensures var q := Written(s);
            && q[i] in s.info && q[j] in s.info && s.info[q[i]].service.addr != s.info[q[j]].service.addr
            && (s.info[q[i]].inTried && s.info[q[j]].inTried ==>
                  TriedSlot(e, s.key, s.info[q[i]].service) != TriedSlot(e, s.key, s.info[q[j]].service))
  {
    hide RandomConsistent, NewConsistent, EntriesConsistent;
    WrittenIs(e, s);
    var q := Written(s);
    assert q[i] != q[j];
    ViewAt(s, q[i]);
    ViewAt(s, q[j]);
  }

  function LoadEntry(t: State, n: nat, w: Saved): State {
    t.(info := t.info[n := Load(w, 0, false, |t.random|)], addr := t.addr[w.service.addr := n], random := t.random + [n])
  }

  /** The next address to be read is not among those read. */
  lemma NewAddress(e: Env, s: State, t: State, n: nat)
    requires Valid(e, s) && EntriesRead(e, s, t, n) && n < |Written(s)|
    ensures Written(s)[n] in s.info && s.info[Written(s)[n]].service.addr !in t.addr && n !in t.info
  {
    hide RandomConsistent, NewConsistent, TriedConsistent, EntriesConsistent, NewList, TriedList, TriedRead;
    WrittenIs(e, s);
    var q := Written(s);
    forall b | b in t.addr ensures b != s.info[q[n]].service.addr {
      ViewAtAddress(t, b);
      WrittenApart(e, s, t.addr[b], n);
    }
  }

  lemma AddressAdded(info: map<int, Info>, addr: map<NetAddr, int>, id: int, i: Info)
    requires AddrConsistent(info, addr) && id !in info && i.service.addr !in addr
    ensures AddrConsistent(info[id := i], addr[i.service.addr := id])
  {
    forall a | a in addr ensures addr[a] != id {}
  }

  lemma NewTriedSlot(e: Env, s: State, t: State, n: nat)
    requires Valid(e, s) && EntriesRead(e, s, t, n) && n < |Written(s)| && Written(s)[n] in s.info && s.info[Written(s)[n]].inTried
    ensures TriedSlot(e, s.key, s.info[Written(s)[n]].service) !in t.triedTable
  {
    hide AddrConsistent, RandomConsistent, NewConsistent, TriedConsistent, EntriesConsistent, NewList, TriedList;
    var q := Written(s);
    WrittenIs(e, s);
    forall k | 0 <= k < n && s.info[q[k]].inTried ensures TriedSlot(e, s.key, s.info[q[k]].service) != TriedSlot(e, s.key, s.info[q[n]].service) {
      WrittenApart(e, s, k, n);
    }
  }

  lemma ReadNewEntry(e: Env, s: State, t: State, n: nat)
    requires Valid(e, s) && EntriesRead(e, s, t, n) && t.newTable == map[] && n < |NewList(s)|
    ensures Written(s)[n] in s.info
    ensures EntriesRead(e, s, LoadEntry(t, n, Save(s.info[Written(s)[n]])), n + 1)
  {
    hide AddrConsistent, RandomConsistent, NewConsistent, TriedConsistent, EntriesConsistent, NewList, TriedList;
    WrittenIs(e, s);
    NewAddress(e, s, t, n);
    AddressAdded(t.info, t.addr, n, Load(Save(s.info[Written(s)[n]]), 0, false, n));
    assert SlotsOf(t.newTable, n) == {};
  }

  lemma ReadTriedEntry(e: Env, s: State, t: State, n: nat)
    requires Valid(e, s) && EntriesRead(e, s, t, n) && t.newTable == map[] && |NewList(s)| <= n < |Written(s)|
    ensures Written(s)[n] in s.info
    ensures var w := Save(s.info[Written(s)[n]]);
            var sl := TriedSlot(e, s.key, w.service);
            && sl !in t.triedTable
            && EntriesRead(e, s, t.(info := t.info[n := Load(w, 0, true, |t.random|)], addr := t.addr[w.service.addr := n],
                 random := t.random + [n], triedTable := t.triedTable[sl := n]), n + 1)
  {
    hide AddrConsistent, RandomConsistent, NewConsistent, TriedConsistent, EntriesConsistent, NewList, TriedList;
    WrittenIs(e, s);
    NewAddress(e, s, t, n);
    NewTriedSlot(e, s, t, n);
    AddressAdded(t.info, t.addr, n, Load(Save(s.info[Written(s)[n]]), 0, true, n));
    assert SlotsOf(t.newTable, n) == {};
  }

  /** The index written for the j-th position of a bucket leads back to the entry that sits there. */
  lemma IndexLeadsBack(e: Env, s: State, b: nat, j: nat)
    requires Valid(e, s) && j < |PosList(s.newTable, b)|
    ensures var sl := Slot(b, PosList(s.newTable, b)[j]);
            && sl in s.newTable && s.newTable[sl] in s.info && b < NEW_BUCKET_COUNT
            && IndexAt(s, sl) < |NewList(s)| && NewList(s)[IndexAt(s, sl)] == s.newTable[sl]
            && Written(s)[IndexAt(s, sl)] == s.newTable[sl]
            && sl.pos == e.Position(s.key, true, b, s.info[s.newTable[sl]].service)
  {
    var p := PosList(s.newTable, b)[j];
    assert p in PosList(s.newTable, b);
    var sl := Slot(b, p);
    IndexOfId(s.info, s.newTable[sl], s.idCount, false);
  }

  /** The slots read for the k-th entry are some of those it had. */
  lemma SlotsReadAreOld(s: State, t: Table, b: nat, j: nat, k: nat)
    requires NewTableRead(s, t, b, j) && k < |NewList(s)|
    ensures SlotsOf(t, k) <= SlotsOf(s.newTable, NewList(s)[k])
  {
  }

  lemma SlotIsFreeToRead(e: Env, s: State, t: State, b: nat, j: nat)
    requires Valid(e, s) && EntriesRead(e, s, t, |Written(s)|) && NewTableRead(s, t.newTable, b, j)
    requires j < |PosList(s.newTable, b)|
    ensures var sl := Slot(b, PosList(s.newTable, b)[j]);
            && sl in s.newTable && sl !in t.newTable && IndexAt(s, sl) in t.info && IndexAt(s, sl) < |NewList(s)|
            && t.info[IndexAt(s, sl)].refCount < NEW_BUCKETS_PER_ADDRESS
            && !t.info[IndexAt(s, sl)].inTried
            && t.info[IndexAt(s, sl)].refCount == |SlotsOf(t.newTable, IndexAt(s, sl))|
            && t.info[IndexAt(s, sl)].service == s.info[s.newTable[sl]].service
  {
    hide AddrConsistent, RandomConsistent, TriedConsistent;
    WrittenIs(e, s);
    IndexLeadsBack(e, s, b, j);
    var q := PosList(s.newTable, b);
    var sl := Slot(b, q[j]);
    PosBelowDistinct(s.newTable, b, BUCKET_SIZE);
    assert q[j] !in q[..j];
    var k, id := IndexAt(s, sl), s.newTable[sl];
    SlotsReadAreOld(s, t.newTable, b, j, k);
    assert sl in SlotsOf(s.newTable, id) && sl !in SlotsOf(t.newTable, k);
    assert SlotsOf(t.newTable, k) <= SlotsOf(s.newTable, id) - {sl};
    SubsetSize(SlotsOf(t.newTable, k), SlotsOf(s.newTable, id) - {sl});
    CountIsInRange(s, id);
    RefCountIs(s, {}, id);
  }

  lemma {:induction false} SubsetSize<T>(a: set<T>, b: set<T>)
    requires a <= b
    ensures |a| <= |b|
  {
    if a != {} {
      var x :| x in a;
      SubsetSize(a - {x}, b - {x});
    }
  }

  lemma ReadSlot(e: Env, s: State, t: State, b: nat, j: nat)
    requires Valid(e, s) && EntriesRead(e, s, t, |Written(s)|) && NewTableRead(s, t.newTable, b, j)
    requires j < |PosList(s.newTable, b)|
    requires Slot(b, PosList(s.newTable, b)[j]) in s.newTable && IndexAt(s, Slot(b, PosList(s.newTable, b)[j])) in t.info
    ensures var sl := Slot(b, PosList(s.newTable, b)[j]);
            var u := Occupy(t, sl, IndexAt(s, sl));
            EntriesRead(e, s, u, |Written(s)|) && NewTableRead(s, u.newTable, b, j + 1)
  {
    hide AddrConsistent, RandomConsistent, NewConsistent, TriedConsistent, EntriesConsistent, NewList, TriedList;
    SlotIsFreeToRead(e, s, t, b, j);
    IndexLeadsBack(e, s, b, j);
    var q := PosList(s.newTable, b);
    var sl := Slot(b, q[j]);
    var k, u := IndexAt(s, sl), Occupy(t, sl, IndexAt(s, sl));
    assert q[..j + 1] == q[..j] + [q[j]];
    forall o ensures SlotsOf(u.newTable, o) == if o == k then SlotsOf(t.newTable, o) + {sl} else SlotsOf(t.newTable, o) {
      SlotsAfterSet(t.newTable, sl, k, o);
    }
    OccupyReads(e, s, t, sl, k);
  }

  lemma OccupyReads(e: Env, s: State, t: State, sl: Slot, k: nat)
    requires EntriesRead(e, s, t, |Written(s)|) && k in t.info && sl !in t.newTable
    requires forall o :: SlotsOf(t.newTable[sl := k], o) == if o == k then SlotsOf(t.newTable, o) + {sl} else SlotsOf(t.newTable, o)
    ensures EntriesRead(e, s, Occupy(t, sl, k), |Written(s)|)
  {
    hide NewList, TriedList, SlotsOf;
    var u := Occupy(t, sl, k);
    assert sl !in SlotsOf(t.newTable, k) by { NotHeld(t.newTable, sl, k); }
    assert AddrConsistent(u.info, u.addr);
    assert TriedRead(e, s, u, |Written(s)|);
  }

  lemma NotHeld(t: Table, sl: Slot, k: int)
    requires sl !in t
    ensures sl !in SlotsOf(t, k)
  {
  }

  lemma NextBucket(s: State, t: Table, b: nat)
    requires NewTableRead(s, t, b, |PosList(s.newTable, b)|)
    requires forall sl | sl in s.newTable :: sl.pos < BUCKET_SIZE
    ensures NewTableRead(s, t, b + 1, 0)
  {
    PosBelowDistinct(s.newTable, b, BUCKET_SIZE);
    var q := PosList(s.newTable, b);
    assert q[..|q|] == q;
    forall sl | SlotRead(s, sl, b + 1, 0) ensures SlotRead(s, sl, b, |q|) {}
    forall sl | SlotRead(s, sl, b, |q|) ensures SlotRead(s, sl, b + 1, 0) {}
  }

  // ---------- The result ----------

  /** What survives being written and read: everything but the time of the last try. */
  ghost function Persisted(v: View): View {
    map a | a in v :: v[a].(lastTry := 0)
  }

  /** All read: every new entry has its slots back. */
  lemma SlotsRestored(e: Env, s: State, t: Table, k: nat)
    requires Valid(e, s) && NewTableRead(s, t, NEW_BUCKET_COUNT, 0) && k < |NewList(s)|
    ensures NewList(s)[k] in s.info && SlotsOf(t, k) == SlotsOf(s.newTable, NewList(s)[k])
  {
    var id := NewList(s)[k];
    ListsAre(e, s);
    assert id in NewList(s);
    forall sl | sl in SlotsOf(s.newTable, id) ensures sl in SlotsOf(t, k) {
      assert SlotRead(s, sl, NEW_BUCKET_COUNT, 0);
      assert NewList(s)[t[sl]] == id;
    }
  }

  lemma NoSlotsForTried(s: State, t: Table, k: int)
    requires NewTableRead(s, t, NEW_BUCKET_COUNT, 0) && !(0 <= k < |NewList(s)|)
    ensures SlotsOf(t, k) == {}
  {
  }

  ghost predicate AllRead(e: Env, s: State, t: State) {
    && Valid(e, s) && EntriesRead(e, s, t, |Written(s)|) && NewTableRead(s, t.newTable, NEW_BUCKET_COUNT, 0)
    && t.idCount == |Written(s)| && t.nNew == s.nNew && t.nTried == s.nTried
  }

  lemma RestoredRandom(e: Env, s: State, t: State)
    requires AllRead(e, s, t)
    ensures RandomConsistent(t.info, t.random)
  {
    hide AddrConsistent, NewConsistent, TriedConsistent, EntriesConsistent;
  }

  lemma RestoredNew(e: Env, s: State, t: State)
    requires AllRead(e, s, t)
    ensures NewConsistent(e, t.key, t.info, t.newTable)
  {
    hide AddrConsistent, RandomConsistent, TriedConsistent, EntriesConsistent, NewList, TriedList;
    WrittenIs(e, s);
    forall sl | sl in t.newTable
      ensures t.newTable[sl] in t.info && !t.info[t.newTable[sl]].inTried && FitsNew(e, t.key, t.info[t.newTable[sl]].service, sl)
    {
      assert SlotRead(s, sl, NEW_BUCKET_COUNT, 0);
      assert Written(s)[t.newTable[sl]] == NewList(s)[t.newTable[sl]];
    }
  }

  lemma RestoredTried(e: Env, s: State, t: State)
    requires AllRead(e, s, t)
    ensures TriedConsistent(e, t.key, t.info, t.triedTable)
  {
    hide AddrConsistent, RandomConsistent, NewConsistent, EntriesConsistent, NewList, TriedList;
    WrittenIs(e, s);
    var q := Written(s);
    forall k | k in t.info && t.info[k].inTried
      ensures var sl := TriedSlot(e, t.key, t.info[k].service); sl in t.triedTable && t.triedTable[sl] == k
    {
      var sl := TriedSlot(e, t.key, t.info[k].service);
      assert s.info[q[k]].inTried && sl in t.triedTable;
      var j := t.triedTable[sl];
      if j != k { WrittenApart(e, s, j, k); }
    }
  }

  lemma RestoredEntry(e: Env, s: State, t: State, k: int)
    requires AllRead(e, s, t) && k in t.info
    ensures 0 <= k < |Written(s)| && Written(s)[k] in s.info
    ensures SlotsOf(t.newTable, k) == SlotsOf(s.newTable, Written(s)[k])
    ensures EntryOk(t.info[k], SlotsOf(t.newTable, k), false)
    ensures t.info[k].inTried || t.info[k].refCount > 0
    ensures t.info[k].inTried <==> k >= s.nNew
  {
    hide AddrConsistent, RandomConsistent, NewConsistent, TriedConsistent, NewList, TriedList;
    WrittenIs(e, s);
    var id := Written(s)[k];
    assert EntryOk(s.info[id], SlotsOf(s.newTable, id), false);
    if k < |NewList(s)| {
      SlotsRestored(e, s, t.newTable, k);
    } else {
      NoSlotsForTried(s, t.newTable, k);
      assert SlotsOf(s.newTable, id) == {};
    }
  }

  /** Entries numbered 0, 1, ... with the new ones first. */
  lemma CountSplit(info: map<int, Info>, m: nat, n: nat)
    requires forall k :: k in info <==> 0 <= k < m + n
    requires forall k | k in info :: info[k].inTried <==> k >= m
    ensures |NewIds(info)| == m && |TriedIds(info)| == n
  {
    var p, q := seq(m, k => k), seq(n, k => m + k);
    DistinctSize(p);
    DistinctSize(q);
    forall id | 0 <= id < m ensures id in Range(p) { assert p[id] == id; }
    forall id | m <= id < m + n ensures id in Range(q) { assert q[id - m] == id; }
    assert NewIds(info) == Range(p) && TriedIds(info) == Range(q);
  }

  lemma RestoredCounts(e: Env, s: State, t: State)
    requires AllRead(e, s, t)
    ensures t.nNew == |NewIds(t.info)| && t.nTried == |TriedIds(t.info)|
    ensures EntriesConsistent(t.idCount, t.info, t.newTable, {})
  {
    hide AddrConsistent, RandomConsistent, NewConsistent, TriedConsistent, NewList, TriedList, SlotsOf, EntryOk;
    forall k | k in t.info ensures 0 <= k < t.idCount && EntryOk(t.info[k], SlotsOf(t.newTable, k), false)
        && (t.info[k].inTried <==> k >= s.nNew) {
      RestoredEntry(e, s, t, k);
    }
    WrittenIs(e, s);
    CountSplit(t.info, t.nNew, t.nTried);
  }

  lemma ReadIsAddressable(e: Env, s: State, t: State)
    requires AllRead(e, s, t)
    ensures AddrConsistent(t.info, t.addr)
  {
  }

  lemma PersistedIs(v: View, w: View)
    requires w.Keys == v.Keys && forall a | a in w :: w[a] == v[a].(lastTry := 0)
    ensures w == Persisted(v)
  {
  }

  lemma RestoredRecord(e: Env, s: State, t: State, a: NetAddr)
    requires AllRead(e, s, t) && a in t.addr
    ensures a in s.addr && a in ViewOf(t) && a in ViewOf(s) && ViewOf(t)[a] == ViewOf(s)[a].(lastTry := 0)
  {
    hide RandomConsistent, NewConsistent, TriedConsistent, EntriesConsistent, NewList, TriedList, ViewOf;
    WrittenIs(e, s);
    var k := t.addr[a];
    ViewAtAddress(t, a);
    RestoredEntry(e, s, t, k);
    ViewAt(s, Written(s)[k]);
  }

  lemma RestoredAddresses(e: Env, s: State, t: State)
    requires AllRead(e, s, t)
    ensures t.addr.Keys == s.addr.Keys
  {
    hide RandomConsistent, NewConsistent, TriedConsistent, EntriesConsistent, NewList, TriedList, ViewOf;
    WrittenIs(e, s);
    var q := Written(s);
    forall a | a in t.addr ensures a in s.addr {
      ViewAtAddress(t, a);
      ViewAt(s, q[t.addr[a]]);
    }
    forall a | a in s.addr ensures a in t.addr {
      ViewAtAddress(s, a);
      var k :| 0 <= k < |q| && q[k] == s.addr[a];
      ViewAt(t, k);
    }
  }

  lemma RestoredView(e: Env, s: State, t: State)
    requires AllRead(e, s, t)
    ensures AddrConsistent(t.info, t.addr) && ViewOf(t) == Persisted(ViewOf(s))
  {
    hide RandomConsistent, NewConsistent, TriedConsistent, EntriesConsistent, Written, Persisted, EntriesRead, NewTableRead, ViewOf, AddrConsistent;
    RestoredAddresses(e, s, t);
    assert AddrConsistent(t.info, t.addr) by { ReadIsAddressable(e, s, t); }
    ViewKeys(s);
    ViewKeys(t);
    forall a | a in t.addr ensures a in s.addr && ViewOf(t)[a] == ViewOf(s)[a].(lastTry := 0) {
      RestoredRecord(e, s, t, a);
    }
    PersistedIs(ViewOf(s), ViewOf(t));
  }

  /** Reading back everything that was written gives a valid manager with the same view, and leaves
      nothing to prune. */
  lemma Restored(e: Env, s: State, t: State)
    requires AllRead(e, s, t)
    ensures Valid(e, t) && t.key == s.key && ViewOf(t) == Persisted(ViewOf(s))
    ensures forall k | k in t.info :: t.info[k].inTried || t.info[k].refCount > 0
  {
    hide AddrConsistent, RandomConsistent, NewConsistent, TriedConsistent, EntriesConsistent, NewList, TriedList, ViewOf, NewIds, TriedIds;
    RestoredRandom(e, s, t);
    RestoredNew(e, s, t);
    RestoredTried(e, s, t);
    RestoredCounts(e, s, t);
    RestoredView(e, s, t);
    forall k | k in t.info ensures t.info[k].inTried || t.info[k].refCount > 0 { RestoredEntry(e, s, t, k); }
  }

  // ---------- Clear ----------

  /** What Clear leaves: everything reset but the two maps. */
  function Reset(s: State, key: nat): State {
    State(key, 0, s.info, s.addr, [], 0, map[], 0, map[])
  }

  /** Clear gives a consistent manager exactly when there was nothing to clear. */
  lemma ClearNeedsFreshObject(e: Env, s: State, key: nat)
    requires Valid(e, s)
    ensures Valid(e, Reset(s, key)) <==> ViewOf(s) == map[]
  {
    hide NewConsistent, TriedConsistent, EntriesConsistent;
    ViewKeys(s);
    var t := Reset(s, key);
    if ViewOf(s) == map[] {
      assert s.addr == map[];
      forall id ensures id !in s.info { if id in s.info { ViewAt(s, id); } }
      assert s.info == map[];
      EmptyIsValid(e, t);
    } else {
      var a :| a in ViewOf(s);
      ViewAtAddress(s, a);
      assert s.addr[a] in t.info;
      assert !RandomConsistent(t.info, t.random);
    }
  }

  lemma EmptyIsValid(e: Env, s: State)
    requires s == State(s.key, 0, map[], map[], [], 0, map[], 0, map[])
    ensures Valid(e, s) && ViewOf(s) == map[]
  {
  }

  // ---------- vRandom while reading ----------

  lemma PushRandom(info: map<int, Info>, random: seq<int>, id: int, i: Info)
    requires RandomConsistent(info, random) && id !in info && i.randomPos == |random|
    ensures RandomConsistent(info[id := i], random + [id])
  {
  }

  lemma KeepsRandom(info: map<int, Info>, random: seq<int>, id: int, i: Info)
    requires RandomConsistent(info, random) && id in info && i.randomPos == info[id].randomPos
    ensures RandomConsistent(info[id := i], random)
  {
  }

  lemma DeleteRandom(s: State, id: int)
    requires RandomConsistent(s.info, s.random) && id in s.info
    ensures 0 <= s.info[id].randomPos < |s.random| && s.random[s.info[id].randomPos] == id && s.random[|s.random| - 1] in s.info
    ensures RandomConsistent(Delete(s, id).info, Delete(s, id).random)
  {
    var p, l := s.info[id].randomPos, |s.random| - 1;
    SwapRandomConsistent(s, p, l);
    var u := SwapRandom(s, p, l);
    assert u.random[l] == id;
    PopRandom(u, id);
  }

  // ---------- Pruning ----------

  /** A new entry that no bucket holds. */
  predicate Slotless(i: Info) { !i.inTried && i.refCount == 0 }

  ghost predicate NoneSlotless(info: map<int, Info>) { forall id | id in info :: !Slotless(info[id]) }

  /** Of info0, the slotless entries with ids below n are gone, and the others are what they were. */
  ghost predicate PrunedTo(info0: map<int, Info>, info: map<int, Info>, n: int) {
    && (forall id :: id in info <==> id in info0 && !(id < n && Slotless(info0[id])))
    && (forall id | id in info :: info[id] == info0[id].(randomPos := info[id].randomPos))
  }

  /** How many entries of info0 are no longer there. */
  ghost function Gone(info0: map<int, Info>, info: map<int, Info>): nat { |info0.Keys - info.Keys| }

  lemma PruneStart(info: map<int, Info>, n: int)
    requires forall id | id in info :: n <= id
    ensures PrunedTo(info, info, n) && Gone(info, info) == 0
  {
  }

  lemma LastIsKnown(info: map<int, Info>, random: seq<int>, id: int)
    requires RandomConsistent(info, random) && id in info
    ensures 0 <= info[id].randomPos < |random| && random[info[id].randomPos] == id && random[|random| - 1] in info
  {
  }

  lemma PruneOne(info0: map<int, Info>, s: State, id: int)
    requires RandomConsistent(s.info, s.random) && PrunedTo(info0, s.info, id) && id in s.info && Slotless(s.info[id])
    ensures 0 <= s.info[id].randomPos < |s.random| && s.random[|s.random| - 1] in s.info && s.random[s.info[id].randomPos] in s.info
    ensures PrunedTo(info0, Delete(s, id).info, id + 1)
    ensures Gone(info0, Delete(s, id).info) == Gone(info0, s.info) + 1
    ensures var t := Delete(s, id);
            && RandomConsistent(t.info, t.random)
            && t.key == s.key && t.nTried == s.nTried && t.idCount == s.idCount && t.nNew == s.nNew - 1
  {
    DeleteRandom(s, id);
    assert info0.Keys - Delete(s, id).info.Keys == (info0.Keys - s.info.Keys) + {id};
  }

  lemma PruneNone(info0: map<int, Info>, info: map<int, Info>, id: int)
    requires PrunedTo(info0, info, id) && !(id in info && Slotless(info[id]))
    ensures PrunedTo(info0, info, id + 1)
  {
  }

  lemma PruneEnd(info0: map<int, Info>, info: map<int, Info>, n: int)
    requires PrunedTo(info0, info, n) && forall id | id in info0 :: id < n
    ensures forall id :: id in info <==> id in info0 && !Slotless(info0[id])
    ensures forall id | id in info :: info[id] == info0[id].(randomPos := info[id].randomPos)
    ensures NoneSlotless(info)
  {
  }

  lemma PopRandom(s: State, id: int)
    requires RandomConsistent(s.info, s.random) && |s.random| > 0 && s.random[|s.random| - 1] == id
    ensures id in s.info && RandomConsistent(Remove(s, id).info, Remove(s, id).random)
  {
    var t := Remove(s, id);
    assert forall k | 0 <= k < |t.random| :: t.random[k] == s.random[k];
  }

  // ---------- Items of an encoding ----------

  lemma NewItem(e: Env, s: State, w: seq<Item>, n: nat)
    requires Valid(e, s) && Encodes(s, w) && n < |NewList(s)|
    ensures Written(s)[n] in s.info && HEADER + n < |w| && w[HEADER + n] == Entry(Save(s.info[Written(s)[n]]))
  {
  }

  lemma TriedItem(e: Env, s: State, w: seq<Item>, n: nat)
    requires Valid(e, s) && Encodes(s, w) && n < s.nTried
    ensures |NewList(s)| + n < |Written(s)| && Written(s)[|NewList(s)| + n] in s.info
    ensures HEADER + |NewList(s)| + n < |w|
    ensures w[HEADER + |NewList(s)| + n] == Entry(Save(s.info[Written(s)[|NewList(s)| + n]]))
  {
    hide AddrConsistent, RandomConsistent, NewConsistent, TriedConsistent, EntriesConsistent, HeaderOk, BucketsWritten, NewList, TriedList,
      NewIds, TriedIds, BucketStart;
    ListsAre(e, s);
    assert Written(s)[|NewList(s)| + n] == TriedList(s)[n];
  }

  lemma KeyRead(e: Env, s: State, t: State, n: nat)
    requires EntriesRead(e, s, t, n)
    ensures t.key == s.key && |t.random| == n
  {
  }

  lemma CounterAside(e: Env, s: State, t: State, u: State, n: nat)
    requires EntriesRead(e, s, t, n) && u == t.(idCount := u.idCount, nTried := u.nTried)
    ensures EntriesRead(e, s, u, n)
  {
  }

  lemma NothingRead(s: State, t: Table)
    requires t == map[]
    ensures NewTableRead(s, t, 0, 0) && BucketStart(s.newTable, 0) == 0
  {
  }

  lemma BucketItem(e: Env, s: State, w: seq<Item>, b: nat)
    requires Valid(e, s) && Encodes(s, w) && b < NEW_BUCKET_COUNT
    ensures var at := BucketsAt(s) + BucketStart(s.newTable, b);
            at < |w| && w[at] == Int(|PosList(s.newTable, b)|)
    ensures BucketStart(s.newTable, b + 1) == BucketStart(s.newTable, b) + 1 + |PosList(s.newTable, b)|
    ensures forall sl | sl in s.newTable :: sl.pos < BUCKET_SIZE
  {
    assert BucketWritten(s, b, w, BucketsAt(s) + BucketStart(s.newTable, b));
  }

  lemma PositionItem(e: Env, s: State, w: seq<Item>, b: nat, j: nat)
    requires Valid(e, s) && Encodes(s, w) && b < NEW_BUCKET_COUNT && j < |PosList(s.newTable, b)|
    ensures var at := BucketsAt(s) + BucketStart(s.newTable, b) + 1 + j;
            && Slot(b, PosList(s.newTable, b)[j]) in s.newTable
            && at < |w| && w[at] == Int(IndexAt(s, Slot(b, PosList(s.newTable, b)[j])))
  {
    hide AddrConsistent, RandomConsistent, NewConsistent, TriedConsistent, EntriesConsistent, HeaderOk, EntriesWritten, PosList, BucketStart, NewList, TriedList;
    IndexLeadsBack(e, s, b, j);
    assert BucketWritten(s, b, w, BucketsAt(s) + BucketStart(s.newTable, b));
  }

  lemma HeaderItems(e: Env, s: State, w: seq<Item>)
    requires Valid(e, s) && Encodes(s, w)
    ensures HeaderOk(s, w) && |NewList(s)| == s.nNew && |TriedList(s)| == s.nTried && |Written(s)| == s.nNew + s.nTried
    ensures FlipFlag(FlipFlag(NEW_BUCKET_COUNT)) == NEW_BUCKET_COUNT
  {
    hide AddrConsistent, RandomConsistent, NewConsistent, TriedConsistent, EntriesConsistent, HeaderOk, EntriesWritten, BucketsWritten,
      NewList, TriedList, NewIds, TriedIds, BucketStart;
    ListsAre(e, s);
  }

  lemma NoRandomYet()
    ensures RandomConsistent(map[], [])
  {
  }

  lemma NothingLoaded(e: Env, s: State, t: State)
    requires Valid(e, s) && t.key == s.key && t.info == map[] && t.addr == map[] && t.random == []
    requires t.triedTable == map[] && t.newTable == map[]
    ensures EntriesRead(e, s, t, 0)
  {
  }
}
