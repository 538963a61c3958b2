/** The address manager's entities, its bucket arithmetic, its internal consistency
    (what Check_ tests at run time) and the id-free view of it. */
module AddrManState {

  const TRIED_BUCKET_COUNT := 256
  const NEW_BUCKET_COUNT := 1024
  const BUCKET_SIZE := 64
  const TRIED_BUCKETS_PER_GROUP := 8
  const NEW_BUCKETS_PER_SOURCE_GROUP := 64
  const NEW_BUCKETS_PER_ADDRESS := 8
  const HORIZON_DAYS := 30
  const RETRIES := 3
  const MAX_FAILURES := 10
  const MIN_FAIL_DAYS := 7
  const GETADDR_MAX_PCT := 23
  const GETADDR_MAX := 2500

  datatype NetAddr = NetAddr(ip: nat)
  datatype Service = Service(addr: NetAddr, port: nat)
  /** `services` is the bit set nServices. */
  datatype Address = Address(service: Service, services: set<nat>, nTime: nat)

  /** The parts of the node the manager calls but does not define: which addresses are
      routable, the network group of an address, and the four keyed hashes (each the low
      64 bits of a double SHA-256), here any functions at all. */
  datatype Env = Env(
    routable: NetAddr -> bool,
    group: NetAddr -> nat,
    hashKey: (nat, Service) -> nat,
    hashTried: (nat, nat, nat) -> nat,
    hashGroups: (nat, nat, nat) -> nat,
    hashNew: (nat, nat, nat) -> nat,
    hashPosition: (nat, bool, nat, Service) -> nat)
  {
    function TriedBucket(key: nat, s: Service): (b: nat)
      ensures b < TRIED_BUCKET_COUNT
    {
      var hash1 := hashKey(key, s);
      var hash2 := hashTried(key, group(s.addr), hash1 % TRIED_BUCKETS_PER_GROUP);
      hash2 % TRIED_BUCKET_COUNT
    }

    function NewBucket(key: nat, a: NetAddr, source: NetAddr): (b: nat)
      ensures b < NEW_BUCKET_COUNT
    {
      var sourceGroup := group(source);
      var hash1 := hashGroups(key, group(a), sourceGroup);
      var hash2 := hashNew(key, sourceGroup, hash1 % NEW_BUCKETS_PER_SOURCE_GROUP);
      hash2 % NEW_BUCKET_COUNT
    }

    function Position(key: nat, isNew: bool, bucket: nat, s: Service): (p: nat)
      ensures p < BUCKET_SIZE
    {
      hashPosition(key, isNew, bucket, s) % BUCKET_SIZE
    }
  }

  /** CAddrInfo. */
  datatype Info = Info(
    service: Service, services: set<nat>, nTime: nat, lastTry: int,
    source: NetAddr, lastSuccess: int, attempts: int,
    refCount: int, inTried: bool, randomPos: int)

  /** Whether an entry's statistics are bad enough for it to be dropped (IsTerrible). */
  predicate IsTerrible(nTime: nat, lastTry: int, lastSuccess: int, attempts: int, now: int) {
    if lastTry != 0 && lastTry >= now - 60 then false
    else if nTime > now + 10 * 60 then true
    else if nTime == 0 || now - nTime > HORIZON_DAYS * 24 * 60 * 60 then true
    else if lastSuccess == 0 && attempts >= RETRIES then true
    else now - lastSuccess > MIN_FAIL_DAYS * 24 * 60 * 60 && attempts >= MAX_FAILURES
  }

  datatype Slot = Slot(bucket: nat, pos: nat)

  /** A bucket table: the occupied slots, each with the id it holds (-1 in the source marks a free one). */
  type Table = map<Slot, int>

  /** All the fields of CAddrMan, as one value. */
  datatype State = State(
    key: nat, idCount: int,
    info: map<int, Info>, addr: map<NetAddr, int>, random: seq<int>,
    nTried: int, triedTable: Table, nNew: int, newTable: Table)

  function TriedSlot(e: Env, key: nat, s: Service): Slot {
    var b := e.TriedBucket(key, s);
    Slot(b, e.Position(key, false, b, s))
  }

  function NewSlot(e: Env, key: nat, s: Service, source: NetAddr): Slot {
    var b := e.NewBucket(key, s.addr, source);
    Slot(b, e.Position(key, true, b, s))
  }

  /** A slot the new table may use for the service: any bucket, at the service's own position there. */
  predicate FitsNew(e: Env, key: nat, s: Service, sl: Slot) {
    sl.bucket < NEW_BUCKET_COUNT && sl.pos == e.Position(key, true, sl.bucket, s)
  }

  /** The slots of `t` that hold `id`. */
  ghost function SlotsOf(t: Table, id: int): set<Slot> {
    set sl | sl in t && t[sl] == id
  }

  ghost predicate AddrConsistent(info: map<int, Info>, addr: map<NetAddr, int>) {
    && (forall a | a in addr :: addr[a] in info && info[addr[a]].service.addr == a)
    && (forall id | id in info :: info[id].service.addr in addr && addr[info[id].service.addr] == id)
  }

  ghost predicate RandomConsistent(info: map<int, Info>, random: seq<int>) {
    && (forall id | id in info :: 0 <= info[id].randomPos < |random| && random[info[id].randomPos] == id)
    && (forall k | 0 <= k < |random| :: random[k] in info && info[random[k]].randomPos == k)
  }

  ghost predicate NewConsistent(e: Env, key: nat, info: map<int, Info>, t: Table) {
    forall sl | sl in t :: t[sl] in info && !info[t[sl]].inTried && FitsNew(e, key, info[t[sl]].service, sl)
  }

  ghost predicate TriedConsistent(e: Env, key: nat, info: map<int, Info>, t: Table) {
    && (forall sl | sl in t ::
          t[sl] in info && info[t[sl]].inTried && sl == TriedSlot(e, key, info[t[sl]].service))
    && (forall id | id in info && info[id].inTried ::
          var sl := TriedSlot(e, key, info[id].service); sl in t && t[sl] == id)
  }

  /** An entry's own fields, given the slots `n` of the new table that hold it. A loose entry is
      between tables: not tried, and in no new bucket. */
  predicate EntryOk(i: Info, n: set<Slot>, loose: bool) {
    && i.refCount == |n|
    && (if i.inTried then !loose && i.refCount == 0
        else i.refCount <= NEW_BUCKETS_PER_ADDRESS && (loose <==> i.refCount == 0))
  }

  ghost predicate EntriesConsistent(idCount: int, info: map<int, Info>, t: Table, loose: set<int>) {
    && idCount >= 0
    && (forall id | id in info :: 0 <= id < idCount && EntryOk(info[id], SlotsOf(t, id), id in loose))
    && (forall id | id in loose :: id in info)
  }

  /** The indexes agree, up to the entries in `loose`. */
  ghost predicate Consistent(e: Env, s: State, loose: set<int>) {
    && AddrConsistent(s.info, s.addr)
    && RandomConsistent(s.info, s.random)
    && NewConsistent(e, s.key, s.info, s.newTable)
    && TriedConsistent(e, s.key, s.info, s.triedTable)
    && EntriesConsistent(s.idCount, s.info, s.newTable, loose)
  }

  ghost function NewIds(info: map<int, Info>): set<int> { set id | id in info && !info[id].inTried }
  ghost function TriedIds(info: map<int, Info>): set<int> { set id | id in info && info[id].inTried }

  /** The invariant of the indexes: all of them agree and both counters are exact. */
  ghost predicate Valid(e: Env, s: State) {
    Consistent(e, s, {}) && s.nNew == |NewIds(s.info)| && s.nTried == |TriedIds(s.info)|
  }

  // ---------- The id-free view ----------

  datatype Place = Tried | New(slots: set<Slot>)

  datatype Record = Record(
    service: Service, services: set<nat>, nTime: nat, lastTry: int,
    source: NetAddr, lastSuccess: int, attempts: int, place: Place)
  {
    predicate Terrible(now: int) { IsTerrible(nTime, lastTry, lastSuccess, attempts, now) }
  }

  type View = map<NetAddr, Record>

  ghost function RecordOf(i: Info, t: Table, id: int): Record {
    Record(i.service, i.services, i.nTime, i.lastTry, i.source, i.lastSuccess, i.attempts,
           if i.inTried then Tried else New(SlotsOf(t, id)))
  }

  /** What the manager knows: each address with its statistics and where it is kept. */
  ghost function ViewOf(s: State): View
    requires AddrConsistent(s.info, s.addr)
  {
    map a | a in s.addr :: RecordOf(s.info[s.addr[a]], s.newTable, s.addr[a])
  }
}
