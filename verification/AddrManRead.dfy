/** What reading any stream gives, orderly as it may be or not what this version writes: which entries are kept and
    where, and that nothing is lost for any other reason than a slot that is taken. */
module AddrManRead {
  import opened AddrManState
  import opened AddrManSteps
  import opened AddrManSpec
  import opened AddrManMoves
  import opened AddrManStream
  import opened AddrManLoad

  // ---------- The stream ----------

  ghost predicate IsEntry(w: seq<Item>, i: int) { 0 <= i && HEADER + i < |w| && w[HEADER + i].Entry? }

  ghost function SavedAt(w: seq<Item>, i: int): Saved
    requires IsEntry(w, i)
  {
    w[HEADER + i].saved
  }

  /** The stored positions are of use: version one and 1024 buckets. */
  ghost predicate Native(w: seq<Item>) { |w| >= HEADER && w[0] == Byte(1) && w[5] == Int(0x4000_0400) }

  ghost function CountAt(w: seq<Item>, p: nat): nat { if p < |w| && w[p].Int? && w[p].n >= 0 then w[p].n else 0 }

  /** The item that gives the number of positions in bucket b, when the buckets start at item `at`. */
  ghost function SizeItem(w: seq<Item>, at: nat, b: nat): nat {
    if b == 0 then at
    else
      var p := SizeItem(w, at, b - 1);
      p + 1 + CountAt(w, p)
  }

  ghost function PositionsIn(w: seq<Item>, at: nat, b: nat): nat { CountAt(w, SizeItem(w, at, b)) }

  ghost predicate IsPosition(w: seq<Item>, at: nat, b: nat, x: nat, k: int) {
    SizeItem(w, at, b) + 1 + x < |w| && w[SizeItem(w, at, b) + 1 + x] == Int(k)
  }

  /** Entry k is among the first j positions of bucket b. */
  ghost predicate ListedUpTo(w: seq<Item>, at: nat, b: nat, k: int, j: nat) {
    exists x: nat :: x < j && IsPosition(w, at, b, x, k)
  }

  ghost predicate Listed(w: seq<Item>, at: nat, b: nat, k: int) { ListedUpTo(w, at, b, k, PositionsIn(w, at, b)) }

  ghost function OwnSlot(e: Env, key: nat, w: seq<Item>, i: int): Slot
    requires IsEntry(w, i)
  {
    NewSlot(e, key, SavedAt(w, i).service, SavedAt(w, i).source)
  }

  ghost function SlotIn(e: Env, key: nat, w: seq<Item>, i: int, b: nat): Slot
    requires IsEntry(w, i)
  {
    Slot(b, e.Position(key, true, b, SavedAt(w, i).service))
  }

  // ---------- What has been read ----------

  /** The first n entries are there, as new ones, under their numbers. */
  ghost predicate NewKept(s: State, w: seq<Item>, n: int) {
    forall id | 0 <= id < n ::
      IsEntry(w, id) && id in s.info && Save(s.info[id]) == SavedAt(w, id) && s.info[id].lastTry == 0 && !s.info[id].inTried
  }

  ghost predicate IsOneOf(i: Info, w: seq<Item>, lo: int, hi: int) {
    exists j :: lo <= j < hi && IsEntry(w, j) && Save(i) == SavedAt(w, j)
  }

  /** Of the n entries from m on, each one's tried slot is held by the first of them that has it. */
  ghost predicate TriedKept(e: Env, s: State, w: seq<Item>, m: int, n: int) {
    && (forall id | id in s.info && id >= m :: s.info[id].inTried && s.info[id].lastTry == 0 && IsOneOf(s.info[id], w, m, m + n))
    && (forall sl | sl in s.triedTable :: s.triedTable[sl] in s.info && s.triedTable[sl] >= m)
    && forall i | m <= i < m + n ::
         && IsEntry(w, i)
         && var sl := TriedSlot(e, s.key, SavedAt(w, i).service);
            sl in s.triedTable && s.triedTable[sl] in s.info && s.triedTable[sl] >= m && IsOneOf(s.info[s.triedTable[sl]], w, m, i + 1)
  }

  /** Without stored positions: each of the first n entries' own slot is held by the first of them that has it. */
  ghost predicate OwnSlots(e: Env, s: State, w: seq<Item>, n: int) {
    && (forall sl | sl in s.newTable :: 0 <= s.newTable[sl] < n && IsEntry(w, s.newTable[sl]) && sl == OwnSlot(e, s.key, w, s.newTable[sl]))
    && forall i | 0 <= i < n :: IsEntry(w, i) && var sl := OwnSlot(e, s.key, w, i); sl in s.newTable && s.newTable[sl] <= i
  }

  ghost predicate Full(info: map<int, Info>, id: int) { id in info && info[id].refCount >= NEW_BUCKETS_PER_ADDRESS }

  /** With them: of the first m entries, those listed in buckets below b or in the first j positions of b are served. */
  ghost predicate Served(e: Env, s: State, w: seq<Item>, at: nat, m: int, c: nat, j: nat) {
    forall k | 0 <= k < m && ListedUpTo(w, at, c, k, j) ::
      IsEntry(w, k) && (SlotIn(e, s.key, w, k, c) in s.newTable || Full(s.info, k))
  }

  ghost predicate HeldAsListed(e: Env, s: State, w: seq<Item>, at: nat, m: int, sl: Slot)
    requires sl in s.newTable
  {
    var k := s.newTable[sl];
    0 <= k < m && IsEntry(w, k) && sl == SlotIn(e, s.key, w, k, sl.bucket) && Listed(w, at, sl.bucket, k)
  }

  ghost predicate Positions(e: Env, s: State, w: seq<Item>, at: nat, m: int, b: nat, j: nat) {
    && (forall sl | sl in s.newTable :: HeldAsListed(e, s, w, at, m, sl))
    && (forall c: nat | c < b :: Served(e, s, w, at, m, c, PositionsIn(w, at, c)))
    && Served(e, s, w, at, m, b, j)
  }

  // ---------- The new entries ----------

  /** n entries have been read. */
  ghost predicate NewUpTo(e: Env, s: State, w: seq<Item>, native: bool, n: int) {
    && s.triedTable == map[] && (forall id | id in s.info :: 0 <= id < n)
    && NewKept(s, w, n) && if native then s.newTable == map[] else OwnSlots(e, s, w, n)
  }

  lemma NewUpToStart(e: Env, s: State, w: seq<Item>, native: bool)
    requires s.info == map[] && s.newTable == map[] && s.triedTable == map[]
    ensures NewUpTo(e, s, w, native, 0)
  {
  }

  /** An entry read as number n and, without stored positions, in its own slot if that is free. */
  ghost function NewlyLoaded(e: Env, s: State, n: nat, saved: Saved, native: bool): State {
    var t, sl := LoadEntry(s, n, saved), NewSlot(e, s.key, saved.service, saved.source);
    if native || sl in s.newTable then t else Occupy(t, sl, n)
  }

  lemma LoadedNative(e: Env, s: State, n: nat, saved: Saved)
    ensures NewlyLoaded(e, s, n, saved, true) == LoadEntry(s, n, saved) && LoadEntry(s, n, saved).newTable == s.newTable
  {
  }

  lemma NewlyLoadedIs(e: Env, s: State, n: nat, saved: Saved, native: bool)
    ensures var t, sl := NewlyLoaded(e, s, n, saved, native), NewSlot(e, s.key, saved.service, saved.source);
            && t.key == s.key && t.triedTable == s.triedTable && t.newTable == (if native || sl in s.newTable then s.newTable else s.newTable[sl := n])
            && n in t.info && Save(t.info[n]) == saved && t.info[n].lastTry == 0 && !t.info[n].inTried
            && t.info.Keys == s.info.Keys + {n} && forall id | id in s.info && id != n :: t.info[id] == s.info[id]
  {
    hide NewSlot;
  }

  lemma ReadLoaded(e: Env, s: State, w: seq<Item>, native: bool, n: nat, total: int)
    requires Reading(e, s.(idCount := n), w, n, n, 0) && Apart(w, total) && n < total && IsEntry(w, n)
    ensures Reading(e, NewlyLoaded(e, s, n, SavedAt(w, n), native).(idCount := n + 1), w, n + 1, n + 1, 0)
  {
    hide Reading, Apart;
    var saved := SavedAt(w, n);
    ReadNext(e, s.(idCount := n), w, n, total);
    var t, sl := LoadEntry(s, n, saved), NewSlot(e, s.key, saved.service, saved.source);
    assert t.(idCount := n + 1) == Entered(s.(idCount := n), saved);
    if !native && sl !in s.newTable {
      ReadPlaced(e, t.(idCount := n + 1), w, n + 1, n, sl, n + 1, 0);
      assert Occupy(t, sl, n).(idCount := n + 1) == Occupy(t.(idCount := n + 1), sl, n);
    }
  }

  lemma NewUpToStep(e: Env, s: State, w: seq<Item>, native: bool, n: nat)
    requires NewUpTo(e, s, w, native, n) && IsEntry(w, n)
    ensures NewUpTo(e, NewlyLoaded(e, s, n, SavedAt(w, n), native), w, native, n + 1)
  {
    hide NewlyLoaded, NewSlot, IsEntry;
    var t := NewlyLoaded(e, s, n, SavedAt(w, n), native);
    NewlyLoadedIs(e, s, n, SavedAt(w, n), native);
    if !native { OwnSlotsStep(e, s, t, w, n); }
  }

  lemma OwnSlotsStep(e: Env, s: State, t: State, w: seq<Item>, n: nat)
    requires OwnSlots(e, s, w, n) && IsEntry(w, n) && t.key == s.key
    requires var sl := OwnSlot(e, s.key, w, n); t.newTable == if sl in s.newTable then s.newTable else s.newTable[sl := n]
    ensures OwnSlots(e, t, w, n + 1)
  {
    hide OwnSlot, IsEntry;
  }

  // ---------- The tried entries ----------

  /** All m new entries and n tried ones have been read. */
  ghost predicate TriedUpTo(e: Env, s: State, w: seq<Item>, native: bool, m: int, n: int) {
    && 0 <= m <= s.idCount && (forall id | id in s.info :: id < s.idCount)
    && NewKept(s, w, m) && TriedKept(e, s, w, m, n) && if native then s.newTable == map[] else OwnSlots(e, s, w, m)
  }

  lemma TriedUpToStart(e: Env, s: State, t: State, w: seq<Item>, native: bool)
    requires t.idCount >= 0 && NewUpTo(e, s, w, native, t.idCount) && t == s.(idCount := t.idCount)
    ensures TriedUpTo(e, t, w, native, t.idCount, 0)
  {
    hide NewSlot;
  }

  lemma OneOfMore(i: Info, w: seq<Item>, lo: int, hi: int)
    requires IsOneOf(i, w, lo, hi)
    ensures IsOneOf(i, w, lo, hi + 1)
  {
  }

  lemma TriedUpToStep(e: Env, s: State, t: State, w: seq<Item>, native: bool, m: int, n: nat, found: bool)
    requires TriedUpTo(e, s, w, native, m, n) && IsEntry(w, m + n) && TriedLoaded(e, s, t, SavedAt(w, m + n), found)
    ensures TriedUpTo(e, t, w, native, m, n + 1)
  {
    hide TriedSlot, IsOneOf, NewKept, OwnSlots, TriedKept;
    TriedKeptStep(e, s, t, w, m, n, found);
    var id := s.idCount;
    if found { Untouched(e, s, t, w, m, Load(SavedAt(w, m + n), 0, true, |s.random|)); }
  }

  /** Entries with higher numbers do not matter. */
  lemma Untouched(e: Env, s: State, t: State, w: seq<Item>, m: int, i: Info)
    requires m <= s.idCount && t.key == s.key && t.newTable == s.newTable && t.info == s.info[s.idCount := i]
    ensures NewKept(s, w, m) ==> NewKept(t, w, m)
    ensures OwnSlots(e, s, w, m) ==> OwnSlots(e, t, w, m)
  {
  }

  lemma TriedKeptStep(e: Env, s: State, t: State, w: seq<Item>, m: int, n: nat, found: bool)
    requires TriedKept(e, s, w, m, n) && 0 <= m <= s.idCount && (forall id | id in s.info :: id < s.idCount)
    requires IsEntry(w, m + n) && TriedLoaded(e, s, t, SavedAt(w, m + n), found)
    ensures TriedKept(e, t, w, m, n + 1)
  {
    hide TriedSlot, IsOneOf;
    var sl := TriedSlot(e, s.key, SavedAt(w, m + n).service);
    forall id | id in t.info && id >= m ensures t.info[id].inTried && t.info[id].lastTry == 0 && IsOneOf(t.info[id], w, m, m + n + 1) {
      if id in s.info && t.info[id] == s.info[id] {
        OneOfMore(s.info[id], w, m, m + n);
      } else {
        ItIs(t.info[id], w, m, m + n);
      }
    }
    forall i | m <= i < m + n + 1
      ensures IsEntry(w, i)
      ensures var c := TriedSlot(e, t.key, SavedAt(w, i).service);
              c in t.triedTable && t.triedTable[c] in t.info && t.triedTable[c] >= m && IsOneOf(t.info[t.triedTable[c]], w, m, i + 1)
    {
      if i == m + n {
        assert sl in t.triedTable;
      } else {
        var c := TriedSlot(e, s.key, SavedAt(w, i).service);
        assert c in s.triedTable && t.triedTable[c] == s.triedTable[c] && t.info[s.triedTable[c]] == s.info[s.triedTable[c]];
      }
    }
  }

  lemma ItIs(i: Info, w: seq<Item>, m: int, j: int)
    requires m <= j && IsEntry(w, j) && Save(i) == SavedAt(w, j)
    ensures IsOneOf(i, w, m, j + 1)
  {
  }

  lemma TriedUpToEnd(e: Env, s: State, t: State, w: seq<Item>, native: bool, m: int, n: int)
    requires TriedUpTo(e, s, w, native, m, n) && t == s.(nTried := t.nTried)
    ensures TriedUpTo(e, t, w, native, m, n)
  {
  }

  // ---------- The positions ----------

  /** Everything read, but for the positions from the j-th of bucket b on. */
  ghost predicate SlotsUpTo(e: Env, s: State, w: seq<Item>, at: nat, m: int, n: int, b: nat, j: nat) {
    NewKept(s, w, m) && TriedKept(e, s, w, m, n) && Positions(e, s, w, at, m, b, j)
  }

  lemma SlotsUpToStart(e: Env, s: State, w: seq<Item>, at: nat, m: int, n: int)
    requires TriedUpTo(e, s, w, true, m, n)
    ensures SlotsUpTo(e, s, w, at, m, n, 0, 0)
  {
    hide NewKept, TriedKept;
  }

  lemma NextBucketRead(e: Env, s: State, w: seq<Item>, at: nat, m: int, n: int, b: nat, j: nat)
    requires SlotsUpTo(e, s, w, at, m, n, b, j) && j == PositionsIn(w, at, b)
    ensures SlotsUpTo(e, s, w, at, m, n, b + 1, 0)
    ensures SizeItem(w, at, b + 1) == SizeItem(w, at, b) + 1 + j
  {
    hide NewKept, TriedKept, HeldAsListed, IsPosition;
  }

  lemma ListedNext(w: seq<Item>, at: nat, b: nat, j: nat, k: int, i: int)
    requires IsPosition(w, at, b, j, k)
    ensures ListedUpTo(w, at, b, i, j + 1) <==> ListedUpTo(w, at, b, i, j) || i == k
    ensures j < PositionsIn(w, at, b) ==> Listed(w, at, b, k)
  {
    hide SizeItem;
    if ListedUpTo(w, at, b, i, j + 1) {
      var x: nat :| x < j + 1 && IsPosition(w, at, b, x, i);
    }
  }

  /** Nothing taken away: slots stay taken and full entries full. */
  ghost predicate Grown(s: State, t: State) {
    t.key == s.key && (forall sl | sl in s.newTable :: sl in t.newTable) && forall id | Full(s.info, id) :: Full(t.info, id)
  }

  lemma StillServed(e: Env, s: State, t: State, w: seq<Item>, at: nat, m: int, c: nat, j: nat)
    requires Grown(s, t) && Served(e, s, w, at, m, c, j)
    ensures Served(e, t, w, at, m, c, j)
  {
    hide ListedUpTo, SlotIn, IsEntry, Full;
  }

  lemma OneMoreServed(e: Env, s: State, w: seq<Item>, at: nat, m: int, b: nat, j: nat, k: int)
    requires Served(e, s, w, at, m, b, j) && IsPosition(w, at, b, j, k)
    requires 0 <= k < m ==> IsEntry(w, k) && (SlotIn(e, s.key, w, k, b) in s.newTable || Full(s.info, k))
    ensures Served(e, s, w, at, m, b, j + 1)
  {
    hide ListedUpTo, SlotIn, IsEntry, Full, IsPosition;
    forall i | 0 <= i < m && ListedUpTo(w, at, b, i, j + 1)
      ensures IsEntry(w, i) && (SlotIn(e, s.key, w, i, b) in s.newTable || Full(s.info, i))
    {
      ListedNext(w, at, b, j, k, i);
    }
  }

  lemma TakenIsGrown(s: State, sl: Slot, k: int)
    requires k in s.info
    ensures Grown(s, Occupy(s, sl, k))
  {
  }

  lemma TakenKeeps(e: Env, s: State, sl: Slot, w: seq<Item>, m: int, n: int, k: int)
    requires NewKept(s, w, m) && TriedKept(e, s, w, m, n) && 0 <= k < m && k in s.info
    ensures NewKept(Occupy(s, sl, k), w, m) && TriedKept(e, Occupy(s, sl, k), w, m, n)
  {
    hide TriedSlot, IsOneOf;
  }

  lemma TakenAsListed(e: Env, s: State, sl: Slot, w: seq<Item>, at: nat, m: int, k: int)
    requires (forall c | c in s.newTable :: HeldAsListed(e, s, w, at, m, c)) && sl !in s.newTable && k in s.info
    requires 0 <= k < m && IsEntry(w, k) && sl == SlotIn(e, s.key, w, k, sl.bucket) && Listed(w, at, sl.bucket, k)
    ensures forall c | c in Occupy(s, sl, k).newTable :: HeldAsListed(e, Occupy(s, sl, k), w, at, m, c)
  {
    hide Listed, SlotIn, IsEntry;
    forall c | c in Occupy(s, sl, k).newTable ensures HeldAsListed(e, Occupy(s, sl, k), w, at, m, c) {
      if c != sl { assert HeldAsListed(e, s, w, at, m, c); }
    }
  }

  lemma PositionTaken(e: Env, s: State, t: State, w: seq<Item>, at: nat, m: int, n: int, b: nat, j: nat, k: int)
    requires SlotsUpTo(e, s, w, at, m, n, b, j) && j < PositionsIn(w, at, b) && IsPosition(w, at, b, j, k)
    requires !(0 <= k < m) ==> t == s
    requires 0 <= k < m ==> k in s.info
    requires 0 <= k < m ==>
               var sl := Slot(b, e.Position(s.key, true, b, s.info[k].service));
               t == if sl !in s.newTable && s.info[k].refCount < NEW_BUCKETS_PER_ADDRESS then Occupy(s, sl, k) else s
    ensures SlotsUpTo(e, t, w, at, m, n, b, j + 1)
  {
    hide NewKept, TriedKept, HeldAsListed, IsPosition, Served, Occupy, Listed, PositionsIn, Grown;
    if 0 <= k < m {
      EntryIs(s, w, m, k);
      var sl := SlotIn(e, s.key, w, k, b);
      ListedNext(w, at, b, j, k, k);
      if sl !in s.newTable && s.info[k].refCount < NEW_BUCKETS_PER_ADDRESS {
        TakenIsGrown(s, sl, k);
        TakenKeeps(e, s, sl, w, m, n, k);
        TakenAsListed(e, s, sl, w, at, m, k);
        forall c: nat | c < b ensures Served(e, t, w, at, m, c, PositionsIn(w, at, c)) {
          StillServed(e, s, t, w, at, m, c, PositionsIn(w, at, c));
        }
        StillServed(e, s, t, w, at, m, b, j);
        TakenIs(s, sl, k);
      }
    }
    OneMoreServed(e, t, w, at, m, b, j, k);
  }

  lemma EntryIs(s: State, w: seq<Item>, m: int, k: int)
    requires NewKept(s, w, m) && 0 <= k < m
    ensures IsEntry(w, k) && k in s.info && s.info[k].service == SavedAt(w, k).service
  {
    assert Save(s.info[k]).service == s.info[k].service;
  }

  lemma TakenIs(s: State, sl: Slot, k: int)
    requires k in s.info
    ensures sl in Occupy(s, sl, k).newTable && Occupy(s, sl, k).key == s.key
  {
  }

  /** The loop over the buckets is at bucket b, and at the item that gives its size. */
  ghost predicate AtBucket(e: Env, s: State, w: seq<Item>, at: nat, m: int, n: int, b: nat, next: nat) {
    next == SizeItem(w, at, b) && SlotsUpTo(e, s, w, at, m, n, b, 0)
  }

  /** It is at position j of bucket b, which has `size`. */
  ghost predicate AtPosition(e: Env, s: State, w: seq<Item>, at: nat, m: int, n: int, b: nat, size: int, j: nat, next: nat) {
    && next == SizeItem(w, at, b) + 1 + j && PositionsIn(w, at, b) == (if size >= 0 then size else 0) && j <= PositionsIn(w, at, b)
    && SlotsUpTo(e, s, w, at, m, n, b, j)
  }

  lemma AtFirstBucket(e: Env, s: State, w: seq<Item>, at: nat, m: int, n: int)
    requires SlotsUpTo(e, s, w, at, m, n, 0, 0)
    ensures AtBucket(e, s, w, at, m, n, 0, at)
  {
    hide SlotsUpTo;
  }

  lemma BucketEntered(e: Env, s: State, w: seq<Item>, at: nat, m: int, n: int, b: nat, size: int, next: nat)
    requires AtBucket(e, s, w, at, m, n, b, next) && next < |w| && w[next] == Int(size)
    ensures AtPosition(e, s, w, at, m, n, b, size, 0, next + 1)
  {
    hide SlotsUpTo;
  }

  lemma BucketRead(e: Env, s: State, w: seq<Item>, at: nat, m: int, n: int, b: nat, size: int, j: nat, next: nat)
    requires AtPosition(e, s, w, at, m, n, b, size, j, next) && j >= size
    ensures AtBucket(e, s, w, at, m, n, b + 1, next)
  {
    hide SlotsUpTo;
    NextBucketRead(e, s, w, at, m, n, b, j);
  }

  lemma PositionRead(e: Env, s: State, t: State, w: seq<Item>, at: nat, m: int, n: int, b: nat, size: int, j: nat, next: nat, k: int)
    requires AtPosition(e, s, w, at, m, n, b, size, j, next) && j < size && next < |w| && w[next] == Int(k)
    requires !(0 <= k < m) ==> t == s
    requires 0 <= k < m ==> k in s.info
    requires 0 <= k < m ==>
               var sl := Slot(b, e.Position(s.key, true, b, s.info[k].service));
               t == if sl !in s.newTable && s.info[k].refCount < NEW_BUCKETS_PER_ADDRESS then Occupy(s, sl, k) else s
    ensures AtPosition(e, t, w, at, m, n, b, size, j + 1, next + 1)
  {
    hide SlotsUpTo, SizeItem, Occupy;
    PositionTaken(e, s, t, w, at, m, n, b, j, k);
  }

  lemma AtBucketGives(e: Env, s: State, w: seq<Item>, at: nat, m: int, n: int, b: nat, next: nat)
    requires AtBucket(e, s, w, at, m, n, b, next)
    ensures SlotsUpTo(e, s, w, at, m, n, b, 0)
  {
  }

  // ---------- The result ----------

  lemma NativeIs(w: seq<Item>, version: nat, buckets: int)
    requires |w| >= HEADER && w[0] == Byte(version) && w[5].Int?
    requires buckets == if version != 0 && w[5].n >= 0 then FlipFlag(w[5].n) else w[5].n
    ensures Native(w) <==> version == 1 && buckets == NEW_BUCKET_COUNT
  {
  }

  lemma SlotsGive(e: Env, s: State, w: seq<Item>, m: nat, n: nat)
    requires Native(w) && SlotsUpTo(e, s, w, HEADER + m + n, m, n, NEW_BUCKET_COUNT, 0)
    ensures ReadOut(e, s, w, m, n)
  {
    hide NewKept, TriedKept, Positions;
  }

  lemma TriedUpToGives(e: Env, s: State, w: seq<Item>, m: nat, n: nat)
    requires !Native(w) && TriedUpTo(e, s, w, false, m, n)
    ensures ReadOut(e, s, w, m, n)
  {
    hide NewKept, TriedKept, OwnSlots;
  }

  /** All read; the new entries without a slot are still there. */
  ghost predicate ReadOut(e: Env, s: State, w: seq<Item>, m: nat, n: nat) {
    && NewKept(s, w, m) && TriedKept(e, s, w, m, n)
    && if Native(w) then Positions(e, s, w, HEADER + m + n, m, NEW_BUCKET_COUNT, 0) else OwnSlots(e, s, w, m)
  }

  /** `t` is `s` without the entries that have no slot. */
  ghost predicate WithoutSlotless(s: State, t: State) {
    && t.key == s.key && t.newTable == s.newTable && t.triedTable == s.triedTable
    && (forall id :: id in t.info <==> id in s.info && !Slotless(s.info[id]))
    && forall id | id in t.info :: t.info[id] == s.info[id].(randomPos := t.info[id].randomPos)
  }

  lemma WithoutSlotlessIs(s: State, t: State)
    requires t.key == s.key && t.newTable == s.newTable && t.triedTable == s.triedTable
    requires forall id :: id in t.info <==> id in s.info && !Slotless(s.info[id])
    requires forall id | id in t.info :: t.info[id] == s.info[id].(randomPos := t.info[id].randomPos)
    ensures WithoutSlotless(s, t)
  {
  }

  /** What entry j says, apart from where it is kept; the last try is not stored. */
  ghost predicate Recorded(r: Record, w: seq<Item>, j: int) {
    IsEntry(w, j) && var sv := SavedAt(w, j);
    r == Record(sv.service, sv.services, sv.nTime, 0, sv.source, sv.lastSuccess, sv.attempts, r.place)
  }

  ghost predicate RecordedIn(r: Record, w: seq<Item>, lo: int, hi: int) { exists j :: lo <= j < hi && Recorded(r, w, j) }

  /** Entry i asks for the slot: by its own source, or by a stored position. */
  ghost predicate AsksFor(e: Env, key: nat, w: seq<Item>, buckets: nat, i: int, sl: Slot) {
    && IsEntry(w, i)
    && if Native(w) then sl.bucket < 1024 && Listed(w, buckets, sl.bucket, i) && sl == SlotIn(e, key, w, i, sl.bucket)
       else sl == OwnSlot(e, key, w, i)
  }

  /** An address that is known is so by an entry: tried by a tried one, or new by a new one in slots this asks for. */
  ghost predicate FromEntry(e: Env, key: nat, r: Record, w: seq<Item>, m: nat, n: nat) {
    if r.place.Tried? then RecordedIn(r, w, m, m + n)
    else exists i :: 0 <= i < m && Recorded(r, w, i) && forall sl | sl in r.place.slots :: AsksFor(e, key, w, HEADER + m + n, i, sl)
  }

  /** A tried entry's slot is held by the first that has it. */
  ghost predicate TriedServed(e: Env, key: nat, v: View, w: seq<Item>, m: int, i: int) {
    && IsEntry(w, i)
    && exists o :: Incumbent(e, key, v, TriedSlot(e, key, SavedAt(w, i).service), o) && RecordedIn(v[o], w, m, i + 1)
  }

  /** A slot that a new entry asks for is held by some address, or the entry has eight. Without stored positions it is
      held by the first that asks. */
  ghost predicate NewServed(e: Env, key: nat, v: View, w: seq<Item>, i: int, sl: Slot) {
    || (exists o :: Occupies(v, o, sl) && (Native(w) || RecordedIn(v[o], w, 0, i + 1)))
    || (Native(w) && exists o :: o in v && Recorded(v[o], w, i) && v[o].place.New? && |v[o].place.slots| == 8)
  }

  /** The view is what the stream says: everything known comes from an entry, and no entry is lost but to another one
      in its slot. */
  ghost predicate ReadBack(e: Env, key: nat, v: View, w: seq<Item>, m: nat, n: nat) {
    && (forall a | a in v :: FromEntry(e, key, v[a], w, m, n))
    && (forall i | m <= i < m + n :: TriedServed(e, key, v, w, m, i))
    && (forall i, sl | 0 <= i < m && AsksFor(e, key, w, HEADER + m + n, i, sl) :: NewServed(e, key, v, w, i, sl))
    && (forall i | 0 <= i < m + n :: IsEntry(w, i))
  }

  lemma RecordIs(i: Info, t: Table, id: int, w: seq<Item>, j: int)
    requires IsEntry(w, j) && Save(i) == SavedAt(w, j) && i.lastTry == 0
    ensures Recorded(RecordOf(i, t, id), w, j)
  {
    assert Save(i) == Saved(i.service, i.services, i.nTime, i.source, i.lastSuccess, i.attempts);
  }

  lemma RecordIsIn(i: Info, t: Table, id: int, w: seq<Item>, lo: int, hi: int)
    requires IsOneOf(i, w, lo, hi) && i.lastTry == 0
    ensures RecordedIn(RecordOf(i, t, id), w, lo, hi)
  {
    hide RecordOf, Recorded;
    var j :| lo <= j < hi && IsEntry(w, j) && Save(i) == SavedAt(w, j);
    RecordIs(i, t, id, w, j);
  }

  /** An entry that was not dropped: its number, its record, and what was read of it. */
  lemma EntryLeft(e: Env, s: State, t: State, id: int)
    requires WithoutSlotless(s, t) && Valid(e, t) && id in t.info
    ensures id >= 0 && id in s.info && t.info[id].service == s.info[id].service
    ensures Save(t.info[id]) == Save(s.info[id]) && t.info[id].lastTry == s.info[id].lastTry && t.info[id].inTried == s.info[id].inTried
    ensures var a := t.info[id].service.addr; a in ViewOf(t) && ViewOf(t)[a] == RecordOf(t.info[id], t.newTable, id)
  {
    hide RandomConsistent, NewConsistent, TriedConsistent, SlotsOf, ViewOf;
    ViewAt(t, id);
  }

  lemma SlotAsked(e: Env, s: State, t: State, w: seq<Item>, m: nat, n: nat, sl: Slot)
    requires ReadOut(e, s, w, m, n) && WithoutSlotless(s, t) && Valid(e, t) && sl in t.newTable
    ensures 0 <= t.newTable[sl] < m && AsksFor(e, t.key, w, HEADER + m + n, t.newTable[sl], sl)
    ensures !Native(w) ==> sl == OwnSlot(e, t.key, w, t.newTable[sl])
  {
    hide NewKept, TriedKept, Served, Listed, IsEntry, AddrConsistent, RandomConsistent, TriedConsistent, EntriesConsistent, OwnSlot;
    if Native(w) { assert HeldAsListed(e, s, w, HEADER + m + n, m, sl); }
  }

  lemma KnownFromEntry(e: Env, s: State, t: State, w: seq<Item>, m: nat, n: nat, a: NetAddr)
    requires ReadOut(e, s, w, m, n) && WithoutSlotless(s, t) && Valid(e, t) && a in ViewOf(t)
    ensures FromEntry(e, t.key, ViewOf(t)[a], w, m, n)
  {
    hide AddrConsistent, RandomConsistent, NewConsistent, TriedConsistent, EntriesConsistent, NewIds, TriedIds, ViewOf,
      WithoutSlotless, OwnSlots, Positions, Recorded, AsksFor, IsOneOf, RecordedIn;
    ViewKeys(t);
    ViewAtAddress(t, a);
    var id := t.addr[a];
    EntryLeft(e, s, t, id);
    if id < m {
      RecordIs(t.info[id], t.newTable, id, w, id);
      forall sl | sl in SlotsOf(t.newTable, id) ensures AsksFor(e, t.key, w, HEADER + m + n, id, sl) { SlotAsked(e, s, t, w, m, n, sl); }
    } else {
      OneOfSame(s.info[id], t.info[id], w, m, m + n);
      RecordIsIn(t.info[id], t.newTable, id, w, m, m + n);
    }
  }

  lemma OneOfSame(i: Info, j: Info, w: seq<Item>, lo: int, hi: int)
    requires Save(i) == Save(j) && IsOneOf(i, w, lo, hi)
    ensures IsOneOf(j, w, lo, hi)
  {
  }

  lemma TriedAreServed(e: Env, s: State, t: State, w: seq<Item>, m: nat, n: nat, i: int)
    requires ReadOut(e, s, w, m, n) && WithoutSlotless(s, t) && Valid(e, t) && m <= i < m + n
    ensures TriedServed(e, t.key, ViewOf(t), w, m, i)
  {
    hide AddrConsistent, RandomConsistent, NewConsistent, TriedConsistent, EntriesConsistent, NewIds, TriedIds, ViewOf,
      NewKept, OwnSlots, Positions, Recorded, IsOneOf, RecordedIn, TriedSlot;
    var sl := TriedSlot(e, s.key, SavedAt(w, i).service);
    var id := s.triedTable[sl];
    assert id in t.info;
    EntryLeft(e, s, t, id);
    OneOfSame(s.info[id], t.info[id], w, m, i + 1);
    RecordIsIn(t.info[id], t.newTable, id, w, m, i + 1);
    IncumbentIff(e, t, sl, t.info[id].service.addr);
  }

  lemma HolderOccupies(e: Env, t: State, sl: Slot)
    requires Valid(e, t) && sl in t.newTable
    ensures t.newTable[sl] in t.info && Occupies(ViewOf(t), t.info[t.newTable[sl]].service.addr, sl)
  {
    hide RandomConsistent, TriedConsistent, EntriesConsistent, ViewOf;
    OccupiesIff(t, sl, t.newTable[sl]);
  }

  lemma NewAreServed(e: Env, s: State, t: State, w: seq<Item>, m: nat, n: nat, i: int, sl: Slot)
    requires ReadOut(e, s, w, m, n) && WithoutSlotless(s, t) && Valid(e, t)
    requires 0 <= i < m && AsksFor(e, t.key, w, HEADER + m + n, i, sl)
    ensures NewServed(e, t.key, ViewOf(t), w, i, sl)
  {
    hide AddrConsistent, RandomConsistent, NewConsistent, TriedConsistent, EntriesConsistent, NewIds, TriedIds, ViewOf, Recorded, RecordedIn,
      WithoutSlotless, TriedKept, OwnSlot, SlotIn, IsEntry, Occupies, RecordOf;
    if Native(w) {
      SlotOrFull(e, s, t, w, m, n, i, sl);
      if sl in t.newTable { HolderOccupies(e, t, sl); } else { FullIs(e, s, t, w, m, n, i); }
    } else {
      OwnSlotHeld(e, s, t, w, m, n, i);
      HolderOccupies(e, t, sl);
      EntryLeft(e, s, t, t.newTable[sl]);
      RecordIs(t.info[t.newTable[sl]], t.newTable, t.newTable[sl], w, t.newTable[sl]);
      HereIs(RecordOf(t.info[t.newTable[sl]], t.newTable, t.newTable[sl]), w, t.newTable[sl], i);
    }
  }

  lemma HereIs(r: Record, w: seq<Item>, j: int, i: int)
    requires 0 <= j <= i && Recorded(r, w, j)
    ensures RecordedIn(r, w, 0, i + 1)
  {
  }

  lemma OwnSlotHeld(e: Env, s: State, t: State, w: seq<Item>, m: nat, n: nat, i: int)
    requires ReadOut(e, s, w, m, n) && WithoutSlotless(s, t) && !Native(w) && 0 <= i < m
    ensures IsEntry(w, i) && var sl := OwnSlot(e, t.key, w, i); sl in t.newTable && 0 <= t.newTable[sl] <= i
  {
    hide NewKept, TriedKept, OwnSlot, IsEntry, Slotless;
  }

  lemma SlotOrFull(e: Env, s: State, t: State, w: seq<Item>, m: nat, n: nat, i: int, sl: Slot)
    requires ReadOut(e, s, w, m, n) && WithoutSlotless(s, t) && Native(w) && 0 <= i < m && AsksFor(e, t.key, w, HEADER + m + n, i, sl)
    ensures sl in t.newTable || Full(s.info, i)
  {
    hide NewKept, TriedKept, HeldAsListed, Slotless, ListedUpTo, IsEntry, SlotIn, PositionsIn, Full;
    assert Served(e, s, w, HEADER + m + n, m, sl.bucket, PositionsIn(w, HEADER + m + n, sl.bucket));
  }

  /** A full entry is in eight slots. */
  lemma FullIs(e: Env, s: State, t: State, w: seq<Item>, m: nat, n: nat, i: int)
    requires ReadOut(e, s, w, m, n) && WithoutSlotless(s, t) && Valid(e, t) && 0 <= i < m && Full(s.info, i)
    ensures exists o :: o in ViewOf(t) && Recorded(ViewOf(t)[o], w, i) && ViewOf(t)[o].place.New? && |ViewOf(t)[o].place.slots| == 8
  {
    hide AddrConsistent, RandomConsistent, NewConsistent, TriedConsistent, EntriesConsistent, NewIds, TriedIds, ViewOf, Recorded,
      TriedKept, OwnSlots, Positions, SlotsOf;
    assert i in t.info;
    EntryLeft(e, s, t, i);
    RecordIs(t.info[i], t.newTable, i, w, i);
    RefCountIs(t, {}, i);
    CountIsInRange(t, i);
  }

  lemma ReadBackIs(e: Env, s: State, t: State, w: seq<Item>, m: nat, n: nat)
    requires ReadOut(e, s, w, m, n) && WithoutSlotless(s, t) && Valid(e, t)
    ensures ReadBack(e, t.key, ViewOf(t), w, m, n)
  {
    hide ReadOut, WithoutSlotless, RandomConsistent, NewConsistent, TriedConsistent, EntriesConsistent, ViewOf, FromEntry, TriedServed, NewServed, AsksFor, NewIds, TriedIds;
    forall a | a in ViewOf(t) ensures FromEntry(e, t.key, ViewOf(t)[a], w, m, n) { KnownFromEntry(e, s, t, w, m, n, a); }
    forall i | m <= i < m + n ensures TriedServed(e, t.key, ViewOf(t), w, m, i) { TriedAreServed(e, s, t, w, m, n, i); }
    forall i, sl | 0 <= i < m && AsksFor(e, t.key, w, HEADER + m + n, i, sl) ensures NewServed(e, t.key, ViewOf(t), w, i, sl) {
      NewAreServed(e, s, t, w, m, n, i, sl);
    }
    AllEntries(e, s, w, m, n);
  }

  lemma AllEntries(e: Env, s: State, w: seq<Item>, m: nat, n: nat)
    requires ReadOut(e, s, w, m, n)
    ensures forall i | 0 <= i < m + n :: IsEntry(w, i)
  {
  }
}
