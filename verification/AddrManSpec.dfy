/** What each operation of the address manager does, stated on the view alone: no ids, no
    reference counts, no position arrays. The class is proved to follow these. */
module AddrManSpec {
  import opened Arithmetic
  import opened AddrManState
  import opened AddrManSteps

  ghost predicate Occupies(v: View, a: NetAddr, sl: Slot) {
    a in v && v[a].place.New? && sl in v[a].place.slots
  }

  /** Free a slot of the new table; an address that loses its last slot is forgotten. */
  ghost function ClearSlot(v: View, sl: Slot): View {
    map a | a in v && v[a].place != New({sl}) ::
      if Occupies(v, a, sl) then v[a].(place := New(v[a].place.slots - {sl})) else v[a]
  }

  // ---------- Add_ ----------

  function Trunc32(x: int): nat { x % 0x1_0000_0000 }

  /** The time recorded for a known address that is announced again. */
  function RefreshedTime(known: nat, announced: nat, penalty: int, now: int): nat {
    var interval := if now - announced < 24 * 60 * 60 then 60 * 60 else 24 * 60 * 60;
    if announced != 0 && (known == 0 || known < announced - interval - penalty)
    then Trunc32(if announced - penalty > 0 then announced - penalty else 0)
    else known
  }

  /** A known address earns one more slot: the announcement is news, it is not tried, it has
      fewer than eight slots, and the draw (one in two to the number of slots) succeeds. */
  ghost predicate EarnsSlot(r: Record, announced: nat, draw: nat) {
    && announced != 0 && (r.nTime == 0 || announced > r.nTime)
    && r.place.New? && |r.place.slots| != NEW_BUCKETS_PER_ADDRESS
    && Draw(draw, Pow2(|r.place.slots|)) == 0
  }

  /** GetRandInt: any number below n. */
  function Draw(draw: nat, n: nat): nat { if n == 0 then 0 else draw % n }

  /** Whoever holds the slot may be overwritten on behalf of `r`. */
  ghost predicate Yields(v: View, sl: Slot, r: Record, now: int)
    requires r.place.New?
  {
    forall o | Occupies(v, o, sl) ::
      v[o].Terrible(now) || (|v[o].place.slots| > 1 && |r.place.slots| == 0)
  }

  ghost function PlaceNew(e: Env, key: nat, v: View, a: NetAddr, source: NetAddr, now: int): View
    requires a in v && v[a].place.New?
  {
    var sl := NewSlot(e, key, v[a].service, source);
    if sl in v[a].place.slots then v
    else if Yields(v, sl, v[a], now) then
      ClearSlot(v, sl)[a := v[a].(place := New(v[a].place.slots + {sl}))]
    else if v[a].place.slots == {} then v - {a}
    else v
  }

  ghost function Refreshed(v: View, a: Address, penalty: int, now: int): View
    requires a.service.addr in v
  {
    var r := v[a.service.addr];
    v[a.service.addr := r.(nTime := RefreshedTime(r.nTime, a.nTime, penalty, now), services := r.services + a.services)]
  }

  ghost function AddSpec(e: Env, key: nat, v: View, a: Address, source: NetAddr, penalty: int, now: int, draw: nat): View {
    if !e.routable(a.service.addr) then v
    else if a.service.addr in v then
      var w := Refreshed(v, a, penalty, now);
      if EarnsSlot(w[a.service.addr], a.nTime, draw) then PlaceNew(e, key, w, a.service.addr, source, now) else w
    else
      var nTime := Trunc32(if a.nTime - penalty > 0 then a.nTime - penalty else 0);
      PlaceNew(e, key, v[a.service.addr := NewRecord(a, source).(nTime := nTime)], a.service.addr, source, now)
  }

  // ---------- Good_ ----------

  /** `o` sits in the tried slot `sl`. */
  ghost predicate Incumbent(e: Env, key: nat, v: View, sl: Slot, o: NetAddr) {
    o in v && v[o].place.Tried? && TriedSlot(e, key, v[o].service) == sl
  }

  /** Send the tried address `o` back to the new table, at the slot its own source gives,
      pushing out whatever was in it. */
  ghost function Demote(e: Env, key: nat, v: View, o: NetAddr): View
    requires o in v
  {
    var back := NewSlot(e, key, v[o].service, v[o].source);
    ClearSlot(v[o := v[o].(place := New({}))], back)[o := v[o].(place := New({back}))]
  }

  /** Give `a`, so far in no table, its tried slot; an address found there is demoted. */
  ghost function PlaceTried(e: Env, key: nat, v: View, a: NetAddr): View
    requires a in v
  {
    var sl := TriedSlot(e, key, v[a].service);
    if exists o :: Incumbent(e, key, v, sl, o) then
      var o :| Incumbent(e, key, v, sl, o);
      Demote(e, key, v, o)[a := v[a].(place := Tried)]
    else v[a := v[a].(place := Tried)]
  }

  ghost function GoodSpec(e: Env, key: nat, v: View, s: Service, t: int): View {
    if s.addr in v && v[s.addr].service == s then
      var r := v[s.addr].(lastSuccess := t, lastTry := t, attempts := 0);
      if r.place.Tried? then v[s.addr := r]
      else PlaceTried(e, key, v[s.addr := r.(place := New({}))], s.addr)
    else v
  }

  // ---------- Statistics only ----------

  /** What Check_ asks of the times: no entry has a negative one, and a tried entry has succeeded once. */
  predicate SaneRecord(r: Record) {
    r.lastTry >= 0 && r.lastSuccess >= 0 && (r.place.Tried? ==> r.lastSuccess != 0)
  }

  ghost predicate Sane(v: View) { forall a | a in v :: SaneRecord(v[a]) }

  /** The service is known, port included. */
  ghost predicate Knows(v: View, s: Service) { s.addr in v && v[s.addr].service == s }

  /** The indexes never depend on the time an operation is given, but what Check_ asks of the times
      does: Good_ keeps it exactly at positive times, or when the service is not known. */
  lemma GoodKeepsSane(e: Env, key: nat, v: View, s: Service, t: int)
    requires Sane(v)
    ensures Sane(GoodSpec(e, key, v, s, t)) <==> t > 0 || !Knows(v, s)
  {
    if Knows(v, s) {
      var w := GoodSpec(e, key, v, s, t);
      assert s.addr in w && w[s.addr].place.Tried? && w[s.addr].lastSuccess == t == w[s.addr].lastTry;
      forall a | a in w && a != s.addr ensures SaneRecord(w[a]) {
        assert a in v && SaneRecord(v[a]);
      }
    }
  }

  lemma AttemptKeepsSane(v: View, s: Service, t: int)
    requires Sane(v)
    ensures Sane(AttemptSpec(v, s, t)) <==> t >= 0 || !Knows(v, s)
  {
    if Knows(v, s) {
      var w := AttemptSpec(v, s, t);
      assert SaneRecord(v[s.addr]) && s.addr in w && w[s.addr].lastTry == t;
      forall a | a in w && a != s.addr ensures SaneRecord(w[a]) { assert SaneRecord(v[a]); }
    }
  }

  lemma ClearSlotKeepsSane(v: View, sl: Slot)
    requires Sane(v)
    ensures Sane(ClearSlot(v, sl))
  {
    forall a | a in ClearSlot(v, sl) ensures SaneRecord(ClearSlot(v, sl)[a]) { assert SaneRecord(v[a]); }
  }

  lemma UpdateKeepsSane(v: View, a: NetAddr, r: Record)
    requires Sane(v) && SaneRecord(r)
    ensures Sane(v[a := r]) && Sane(v - {a})
  {
  }

  lemma PlaceNewKeepsSane(e: Env, key: nat, v: View, a: NetAddr, source: NetAddr, now: int)
    requires Sane(v) && a in v && v[a].place.New?
    ensures Sane(PlaceNew(e, key, v, a, source, now))
  {
    hide Sane, ClearSlot, Yields, SaneRecord;
    var sl := NewSlot(e, key, v[a].service, source);
    var r := v[a].(place := New(v[a].place.slots + {sl}));
    assert SaneRecord(v[a]) && SaneRecord(r) by { RecordIsSane(v, a, r.place); }
    ClearSlotKeepsSane(v, sl);
    UpdateKeepsSane(ClearSlot(v, sl), a, r);
    UpdateKeepsSane(v, a, r);
  }

  lemma RecordIsSane(v: View, a: NetAddr, p: Place)
    requires Sane(v) && a in v && p.New?
    ensures SaneRecord(v[a]) && SaneRecord(v[a].(place := p))
  {
  }

  lemma AddKeepsSane(e: Env, key: nat, v: View, a: Address, source: NetAddr, penalty: int, now: int, draw: nat)
    requires Sane(v)
    ensures Sane(AddSpec(e, key, v, a, source, penalty, now, draw))
  {
    hide Sane, PlaceNew;
    var b := a.service.addr;
    if e.routable(b) {
      var nTime := Trunc32(if a.nTime - penalty > 0 then a.nTime - penalty else 0);
      var u := if b in v then Refreshed(v, a, penalty, now) else v[b := NewRecord(a, source).(nTime := nTime)];
      if b in v { assert SaneRecord(v[b]) by { RecordIsSane(v, b, New({})); } }
      UpdateKeepsSane(v, b, u[b]);
      if u[b].place.New? { PlaceNewKeepsSane(e, key, u, b, source, now); }
    }
  }

  ghost function AttemptSpec(v: View, s: Service, t: int): View {
    if s.addr in v && v[s.addr].service == s
    then v[s.addr := v[s.addr].(lastTry := t, attempts := v[s.addr].attempts + 1)] else v
  }

  ghost function ConnectedSpec(v: View, s: Service, t: int): View {
    if s.addr in v && v[s.addr].service == s && t - v[s.addr].nTime > 20 * 60
    then v[s.addr := v[s.addr].(nTime := Trunc32(t))] else v
  }

  ghost function SetServicesSpec(v: View, s: Service, services: set<nat>): View {
    if s.addr in v && v[s.addr].service == s then v[s.addr := v[s.addr].(services := services)] else v
  }
}
