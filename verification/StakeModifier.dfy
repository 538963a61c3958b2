/** The stake modifier: 64 rounds of selecting a candidate block, each contributing one bit. */
module StakeModifier {
  import opened Arithmetic
  import opened UintValue

  /** What the selection reads of a CBlockIndex. */
  datatype Block = Block(hash: nat, time: int, height: int, proofOfStake: bool, generated: bool, modifier: nat)

  /** hash: the double SHA-256 of a proof hash and the previous modifier. */
  datatype Env = Env(hash: (nat, nat) -> nat, upgradeHeight: int, firstModifier: nat)

  const MODIFIER_INTERVAL := 60

  const MODIFIER_INTERVAL_RATIO := 3

  const ROUNDS := 64

  // ---------- Sections ----------

  function Section(n: nat): nat
    requires n < ROUNDS
  {
    MODIFIER_INTERVAL * 63 / (63 + (63 - n) * (MODIFIER_INTERVAL_RATIO - 1))
  }

  /** Sections only get longer, and the last is MODIFIER_INTERVAL_RATIO times the first. */
  lemma SectionsGrow(n: nat)
    requires n < 63
    ensures 20 <= Section(n) <= Section(n + 1) <= MODIFIER_INTERVAL
    ensures Section(63) == MODIFIER_INTERVAL == MODIFIER_INTERVAL_RATIO * Section(0)
  {
    var a, b := 63 + (63 - n) * 2, 63 + (62 - n) * 2;
    Floor(3780, a, b);
    Floor(3780, 189, a);
    Floor(3780, b, 63);
  }

  lemma Floor(x: nat, a: nat, b: nat)
    requires a >= b > 0
    ensures x / a <= x / b
  {
    var p, q := x / a, x / b;
    assert a * p <= x < b * (q + 1);
    MulMono(p, b, a);
    MulComm(p, a);
    MulComm(p, b);
    MulOrder(b, p, q + 1);
  }

  function Sections(n: nat): nat
    requires n <= ROUNDS
  {
    if n == 0 then 0 else Sections(n - 1) + Section(n - 1)
  }

  /** GetStakeModifierSelectionInterval */
  method SelectionInterval() returns (r: nat)
    ensures r == Sections(ROUNDS)
  {
    r := 0;
    for n := 0 to ROUNDS
      invariant r == Sections(n)
    {
      r := r + Section(n);
    }
  }

  // ---------- One round ----------

  /** Proof-of-stake blocks are favoured by 32 bits. */
  function SelectionHash(e: Env, b: Block, v2: bool, prev: nat): nat {
    var h := e.hash(if v2 || !b.proofOfStake then b.hash else 0, prev);
    if b.proofOfStake then DropWord(h) else h
  }

  function DropWord(h: nat): (r: nat)
    ensures r == h / B
  {
    h / B
  }

  predicate IsV2(e: Env, cs: seq<Block>) { cs != [] && cs[0].height >= e.upgradeHeight }

  ghost predicate InOrder(cs: seq<Block>) { forall i, j | 0 <= i < j < |cs| :: cs[i].time <= cs[j].time }

  /** The index of the first candidate from k on that is not chosen yet. */
  function FirstOpen(cs: seq<Block>, chosen: set<nat>, k: nat): (r: nat)
    requires k <= |cs|
    ensures k <= r <= |cs| && (r < |cs| ==> cs[r].hash !in chosen) && forall i | k <= i < r :: cs[i].hash in chosen
    decreases |cs| - k
  {
    if k == |cs| || cs[k].hash !in chosen then k else FirstOpen(cs, chosen, k + 1)
  }

  /** The candidates of a round: not chosen yet and, except for the first of those, not timed after the stop. */
  ghost predicate Eligible(cs: seq<Block>, chosen: set<nat>, stop: int, k: nat) {
    k < |cs| && cs[k].hash !in chosen && (cs[k].time <= stop || k == FirstOpen(cs, chosen, 0))
  }

  /** The least selection hash wins, the earliest one among equals. */
  ghost predicate Best(e: Env, cs: seq<Block>, chosen: set<nat>, stop: int, prev: nat, m: nat) {
    && Eligible(cs, chosen, stop, m)
    && forall k: nat | Eligible(cs, chosen, stop, k) ::
         var x, y := SelectionHash(e, cs[m], IsV2(e, cs), prev), SelectionHash(e, cs[k], IsV2(e, cs), prev);
         x <= y && (k < m ==> x < y)
  }

  predicate AllKnown(sorted: seq<(int, nat)>, index: map<nat, Block>) { forall i | 0 <= i < |sorted| :: sorted[i].1 in index }

  function Blocks(sorted: seq<(int, nat)>, index: map<nat, Block>): (cs: seq<Block>)
    requires AllKnown(sorted, index)
    ensures |cs| == |sorted| && forall i | 0 <= i < |cs| :: cs[i] == index[sorted[i].1]
  {
    seq(|sorted|, i requires 0 <= i < |sorted| => index[sorted[i].1])
  }

  /** mapBlockIndex is keyed by block hash. */
  ghost predicate Keyed(index: map<nat, Block>) { forall h | h in index :: index[h].hash == h }

  /** SelectBlockFromCandidates; sel is the position of the selected block among the candidates. */
  method SelectBlockFromCandidates(e: Env, sorted: seq<(int, nat)>, index: map<nat, Block>, chosen: set<nat>, stop: int, prev: nat)
    returns (fSelected: bool, sel: nat)
    requires Keyed(index)
    ensures fSelected ==> sel < |sorted|
    ensures AllKnown(sorted, index) && InOrder(Blocks(sorted, index)) ==>
              var cs := Blocks(sorted, index);
              && (fSelected <==> exists k :: 0 <= k < |cs| && cs[k].hash !in chosen)
              && (fSelected ==> Best(e, cs, chosen, stop, prev, sel))
  {
    var fModifierV2, fFirstRun, hashBest := false, true, 0;
    fSelected, sel := false, 0;
    ghost var good := AllKnown(sorted, index) && InOrder(Blocks(sorted, index));
    ghost var cs := if AllKnown(sorted, index) then Blocks(sorted, index) else [];
    for i := 0 to |sorted|
      invariant fFirstRun == (i == 0)
      invariant fSelected ==> sel < i
      invariant good && i > 0 ==> fModifierV2 == IsV2(e, cs)
      invariant good ==> SoFar(e, cs, chosen, stop, prev, i, fSelected, sel)
      invariant good && fSelected ==> hashBest == SelectionHash(e, cs[sel], IsV2(e, cs), prev)
    {
      if sorted[i].1 !in index { return false, 0; }
      var b := index[sorted[i].1];
      if fSelected && b.time > stop {
        if good { LateOnly(e, cs, chosen, stop, prev, i, sel); }
        return;
      }
      if fFirstRun {
        fModifierV2 := b.height >= e.upgradeHeight;
        fFirstRun := false;
      }
      if good { OneMore(e, cs, chosen, stop, prev, i, fSelected, sel); }
      if b.hash in chosen { continue; }
      var hashSelection := SelectionHash(e, b, fModifierV2, prev);
      if fSelected && hashSelection < hashBest {
        hashBest, sel := hashSelection, i;
      } else if !fSelected {
        fSelected, hashBest, sel := true, hashSelection, i;
      }
    }
    if good { Finished(e, cs, chosen, stop, prev, fSelected, sel); }
  }

  /** The best among the first i candidates. */
  ghost predicate SoFar(e: Env, cs: seq<Block>, chosen: set<nat>, stop: int, prev: nat, i: nat, fSelected: bool, sel: nat) {
    && (!fSelected ==> forall k | 0 <= k < i && k < |cs| :: cs[k].hash in chosen)
    && (fSelected ==>
          && sel < i && Eligible(cs, chosen, stop, sel)
          && forall k: nat | k < i && Eligible(cs, chosen, stop, k) ::
               var x, y := SelectionHash(e, cs[sel], IsV2(e, cs), prev), SelectionHash(e, cs[k], IsV2(e, cs), prev);
               x <= y && (k < sel ==> x < y))
  }

  lemma OneMore(e: Env, cs: seq<Block>, chosen: set<nat>, stop: int, prev: nat, i: nat, fSelected: bool, sel: nat)
    requires SoFar(e, cs, chosen, stop, prev, i, fSelected, sel) && i < |cs| && (fSelected ==> cs[i].time <= stop)
    ensures cs[i].hash in chosen ==> SoFar(e, cs, chosen, stop, prev, i + 1, fSelected, sel)
    ensures cs[i].hash !in chosen && !fSelected ==> SoFar(e, cs, chosen, stop, prev, i + 1, true, i)
    ensures cs[i].hash !in chosen && fSelected ==>
              var x, y := SelectionHash(e, cs[sel], IsV2(e, cs), prev), SelectionHash(e, cs[i], IsV2(e, cs), prev);
              SoFar(e, cs, chosen, stop, prev, i + 1, true, if y < x then i else sel)
  {
    hide SelectionHash;
    var f := FirstOpen(cs, chosen, 0);
    if cs[i].hash !in chosen && !fSelected { assert f == i; }
  }

  lemma LateOnly(e: Env, cs: seq<Block>, chosen: set<nat>, stop: int, prev: nat, i: nat, sel: nat)
    requires SoFar(e, cs, chosen, stop, prev, i, true, sel) && InOrder(cs) && i < |cs| && cs[i].time > stop
    ensures Best(e, cs, chosen, stop, prev, sel)
  {
    hide SelectionHash;
    assert FirstOpen(cs, chosen, 0) <= sel;
    forall k: nat | Eligible(cs, chosen, stop, k) ensures k < i {
      var m := if k > i then k else i;
      assert cs[i].time <= cs[m].time;
    }
  }

  lemma Finished(e: Env, cs: seq<Block>, chosen: set<nat>, stop: int, prev: nat, fSelected: bool, sel: nat)
    requires SoFar(e, cs, chosen, stop, prev, |cs|, fSelected, sel)
    ensures fSelected ==> Best(e, cs, chosen, stop, prev, sel)
    ensures fSelected <==> exists k :: 0 <= k < |cs| && cs[k].hash !in chosen
  {
    hide SelectionHash;
    if fSelected { assert cs[sel].hash !in chosen; }
  }

  // ---------- All rounds ----------

  function HashesOf(cs: seq<Block>, picked: seq<nat>): (s: set<nat>)
    requires forall i | 0 <= i < |picked| :: picked[i] < |cs|
  {
    set i | 0 <= i < |picked| :: cs[picked[i]].hash
  }

  /** In every round so far the best candidate has been picked out of those left, up to the round's stop. */
  ghost predicate Rounds(e: Env, cs: seq<Block>, start: int, prev: nat, picked: seq<nat>) {
    && |picked| <= ROUNDS
    && (forall i | 0 <= i < |picked| :: picked[i] < |cs|)
    && forall r | 0 <= r < |picked| :: Best(e, cs, HashesOf(cs, picked[..r]), start + Sections(r + 1), prev, picked[r])
  }

  /** GetStakeEntropyBit: the lowest bit of the block hash. */
  function Entropy(b: Block): nat { b.hash % 2 }

  /** The modifier whose bit r is that of the block picked in round r. */
  function Bits(cs: seq<Block>, picked: seq<nat>): nat
    requires forall i | 0 <= i < |picked| :: picked[i] < |cs|
  {
    if picked == [] then 0
    else Bits(cs, picked[..|picked| - 1]) + Entropy(cs[picked[|picked| - 1]]) * Pow2(|picked| - 1)
  }

  lemma {:induction false} BitsBelow(cs: seq<Block>, picked: seq<nat>)
    requires forall i | 0 <= i < |picked| :: picked[i] < |cs|
    ensures Bits(cs, picked) < Pow2(|picked|)
  {
    if picked != [] {
      BitsBelow(cs, picked[..|picked| - 1]);
      MulMono(Pow2(|picked| - 1), Entropy(cs[picked[|picked| - 1]]), 1);
      MulComm(Pow2(|picked| - 1), Entropy(cs[picked[|picked| - 1]]));
    }
  }

  /** Bit r of the modifier is the lowest bit of the hash of the block picked in round r. */
  lemma {:induction false} BitIs(cs: seq<Block>, picked: seq<nat>, r: nat)
    requires (forall i | 0 <= i < |picked| :: picked[i] < |cs|) && r < |picked|
    ensures Pow2(r) > 0 && Bits(cs, picked) / Pow2(r) % 2 == cs[picked[r]].hash % 2
  {
    var n := |picked| - 1;
    var low, bit := Bits(cs, picked[..n]), Entropy(cs[picked[n]]);
    PowPositive(2, r);
    if r == n {
      BitsBelow(cs, picked[..n]);
      MulComm(bit, Pow2(n));
      DivideOff(low, Pow2(n), bit);
    } else {
      BitIs(cs, picked[..n], r);
      PowAdd(2, r, n - r);
      HigherBit(low, Pow2(r), Pow2(n - r - 1), bit);
    }
  }

  lemma HigherBit(low: nat, p: nat, h: nat, bit: nat)
    requires p > 0
    ensures (low + bit * (p * (2 * h))) / p % 2 == low / p % 2
  {
    var q, r := low / p, low % p;
    var k := bit * h;
    assert low + bit * (p * (2 * h)) == r + p * (q + 2 * k) by {
      assert low == r + p * q;
      assert bit * (p * (2 * h)) == p * (2 * k) by {
        MulAssoc(bit, p, 2 * h);
        MulComm(bit, p);
        MulAssoc(p, bit, 2 * h);
        assert bit * (2 * h) == 2 * k by { MulAssoc(bit, 2, h); MulComm(bit, 2); MulAssoc(2, bit, h); }
      }
    }
    DivideOff(r, p, q + 2 * k);
    assert (q + 2 * k) % 2 == q % 2;
  }

  ghost predicate Distinct(cs: seq<Block>) { forall i, j | 0 <= i < j < |cs| :: cs[i].hash != cs[j].hash }

  lemma {:induction false} FewChosen(cs: seq<Block>, picked: seq<nat>)
    requires forall i | 0 <= i < |picked| :: picked[i] < |cs|
    ensures |HashesOf(cs, picked)| <= |picked|
  {
    if picked != [] {
      var n := |picked| - 1;
      FewChosen(cs, picked[..n]);
      assert HashesOf(cs, picked) == HashesOf(cs, picked[..n]) + {cs[picked[n]].hash};
    }
  }

  lemma {:induction false} ManyHashes(cs: seq<Block>, n: nat)
    requires Distinct(cs) && n <= |cs|
    ensures |set i | 0 <= i < n :: cs[i].hash| == n
  {
    if n > 0 {
      ManyHashes(cs, n - 1);
      assert (set i | 0 <= i < n :: cs[i].hash) == (set i | 0 <= i < n - 1 :: cs[i].hash) + {cs[n - 1].hash};
    }
  }

  /** With distinct hashes and rounds to go, some candidate is left. */
  lemma SomeoneIsLeft(cs: seq<Block>, picked: seq<nat>)
    requires Distinct(cs) && |picked| < |cs| && forall i | 0 <= i < |picked| :: picked[i] < |cs|
    ensures exists k :: 0 <= k < |cs| && cs[k].hash !in HashesOf(cs, picked)
  {
    FewChosen(cs, picked);
    ManyHashes(cs, |cs|);
    var all := set i | 0 <= i < |cs| :: cs[i].hash;
    if forall k | 0 <= k < |cs| :: cs[k].hash in HashesOf(cs, picked) {
      assert all <= HashesOf(cs, picked);
      Smaller(all, HashesOf(cs, picked));
    }
  }

  lemma {:induction false} Smaller(a: set<nat>, b: set<nat>)
    requires a <= b
    ensures |a| <= |b|
  {
    assert b == a + (b - a);
    assert |b| == |a| + |b - a|;
  }

  /** No block is picked twice. */
  lemma PickedOnce(e: Env, cs: seq<Block>, start: int, prev: nat, picked: seq<nat>)
    requires Rounds(e, cs, start, prev, picked)
    ensures forall i, j | 0 <= i < j < |picked| :: cs[picked[i]].hash != cs[picked[j]].hash
  {
    forall i, j | 0 <= i < j < |picked| ensures cs[picked[i]].hash != cs[picked[j]].hash {
      assert Best(e, cs, HashesOf(cs, picked[..j]), start + Sections(j + 1), prev, picked[j]);
      assert picked[..j][i] == picked[i];
    }
  }

  // ---------- ComputeNextStakeModifier ----------

  /** The 64 rounds, on candidates sorted by time; all of them succeed when the hashes are distinct. */
  method SelectBits(e: Env, sorted: seq<(int, nat)>, index: map<nat, Block>, start: int, prev: nat)
    returns (ok: bool, bits: nat, picked: seq<nat>)
    requires Keyed(index) && AllKnown(sorted, index) && InOrder(Blocks(sorted, index))
    ensures Distinct(Blocks(sorted, index)) ==> ok
    ensures ok ==>
              var cs := Blocks(sorted, index);
              && |picked| == (if |cs| < ROUNDS then |cs| else ROUNDS)
              && Rounds(e, cs, start, prev, picked) && bits == Bits(cs, picked) < Pow2(ROUNDS)
  {
    hide Best, Distinct, Or, Pow2, SetBit, Rounds, HashesOf, Bits, Sections;
    ghost var cs := Blocks(sorted, index);
    var n := if |sorted| < ROUNDS then |sorted| else ROUNDS;
    var stop, chosen: set<nat> := start, {};
    bits, picked := 0, [];
    NoRounds(e, cs, start, prev);
    for r := 0 to n
      invariant |picked| == r && stop == start + Sections(r)
      invariant Rounds(e, cs, start, prev, picked) && (forall i | 0 <= i < |picked| :: picked[i] < |cs|)
      invariant chosen == HashesOf(cs, picked) && bits == Bits(cs, picked)
    {
      PickedBelow(e, cs, start, prev, picked);
      SectionNext(r);
      stop := stop + Section(r);
      var selected, sel := SelectBlockFromCandidates(e, sorted, index, chosen, stop, prev);
      if Distinct(cs) { SomeoneIsLeft(cs, picked); }
      if !selected { return false, 0, []; }
      var b := index[sorted[sel].1];
      BitsBelow(cs, picked);
      bits := SetBit(bits, Entropy(b), r);
      NextRound(e, cs, start, prev, picked, sel);
      chosen := chosen + {b.hash};
      picked := picked + [sel];
    }
    PickedBelow(e, cs, start, prev, picked);
    BitsBelow(cs, picked);
    Pow2Mono(|picked|, ROUNDS);
    ok := true;
  }

  /** modifier |= bit << r */
  function SetBit(m: nat, bit: nat, r: nat): (n: nat)
    requires m < Pow2(r)
    ensures n == m + bit * Pow2(r)
  {
    OrAdds(bit, m, r);
    MulComm(bit, Pow2(r));
    Or(m, Pow2(r) * bit)
  }

  lemma NoRounds(e: Env, cs: seq<Block>, start: int, prev: nat)
    ensures Rounds(e, cs, start, prev, []) && HashesOf(cs, []) == {} && Bits(cs, []) == 0 == Sections(0)
  {
  }

  lemma SectionNext(n: nat)
    requires n < ROUNDS
    ensures Sections(n + 1) == Sections(n) + Section(n)
  {
  }

  lemma PickedBelow(e: Env, cs: seq<Block>, start: int, prev: nat, picked: seq<nat>)
    requires Rounds(e, cs, start, prev, picked)
    ensures |picked| <= ROUNDS && forall i | 0 <= i < |picked| :: picked[i] < |cs|
  {
  }

  lemma NextRound(e: Env, cs: seq<Block>, start: int, prev: nat, picked: seq<nat>, sel: nat)
    requires Rounds(e, cs, start, prev, picked) && |picked| < ROUNDS && sel < |cs|
    requires Best(e, cs, HashesOf(cs, picked), start + Sections(|picked| + 1), prev, sel)
    ensures Rounds(e, cs, start, prev, picked + [sel])
    ensures HashesOf(cs, picked + [sel]) == HashesOf(cs, picked) + {cs[sel].hash}
    ensures Bits(cs, picked + [sel]) == Bits(cs, picked) + Entropy(cs[sel]) * Pow2(|picked|)
  {
    hide Best, Pow2, Bits, HashesOf, Sections;
    var next := picked + [sel];
    PickAppends(cs, picked, sel);
    assert next[..|picked|] == picked;
    forall r | 0 <= r < |next| ensures Best(e, cs, HashesOf(cs, next[..r]), start + Sections(r + 1), prev, next[r]) {
      if r < |picked| { assert next[..r] == picked[..r]; }
    }
  }

  lemma PickAppends(cs: seq<Block>, picked: seq<nat>, sel: nat)
    requires sel < |cs| && forall i | 0 <= i < |picked| :: picked[i] < |cs|
    ensures HashesOf(cs, picked + [sel]) == HashesOf(cs, picked) + {cs[sel].hash}
    ensures Bits(cs, picked + [sel]) == Bits(cs, picked) + Entropy(cs[sel]) * Pow2(|picked|)
  {
    hide Pow2;
    var next := picked + [sel];
    assert next[..|picked|] == picked;
    forall h ensures h in HashesOf(cs, next) <==> h in HashesOf(cs, picked) + {cs[sel].hash} {
      if h in HashesOf(cs, picked) {
        var i :| 0 <= i < |picked| && cs[picked[i]].hash == h;
        assert next[i] == picked[i];
      }
      assert next[|picked|] == sel;
    }
  }

  /** The order of pairs: by time, then by hash. */
  predicate Before(x: (int, nat), y: (int, nat)) { x.0 < y.0 || (x.0 == y.0 && x.1 <= y.1) }

  ghost predicate Sorted(q: seq<(int, nat)>) { forall i, j | 0 <= i < j < |q| :: Before(q[i], q[j]) }

  function Insert(x: (int, nat), q: seq<(int, nat)>): seq<(int, nat)> {
    if q == [] || Before(x, q[0]) then [x] + q else [q[0]] + Insert(x, q[1..])
  }

  /** std::sort */
  function Sort(q: seq<(int, nat)>): seq<(int, nat)> { if q == [] then [] else Insert(q[0], Sort(q[1..])) }

  lemma {:induction false} InsertIs(x: (int, nat), q: seq<(int, nat)>)
    requires Sorted(q)
    ensures Sorted(Insert(x, q)) && multiset(Insert(x, q)) == multiset(q) + multiset{x}
    ensures Insert(x, q) != [] && (Insert(x, q)[0] == x || (q != [] && Insert(x, q)[0] == q[0]))
  {
    if q == [] {
    } else if Before(x, q[0]) {
      assert forall i | 0 <= i < |q| :: i == 0 || Before(q[0], q[i]);
    } else {
      InsertIs(x, q[1..]);
      var t := Insert(x, q[1..]);
      assert q == [q[0]] + q[1..];
      forall i | 0 <= i < |t| ensures Before(q[0], t[i]) {
        if i > 0 { assert Before(t[0], t[i]); }
      }
    }
  }

  lemma {:induction false} SortIs(q: seq<(int, nat)>)
    ensures Sorted(Sort(q)) && multiset(Sort(q)) == multiset(q) && |Sort(q)| == |q|
  {
    if q != [] {
      SortIs(q[1..]);
      InsertIs(q[0], Sort(q[1..]));
      assert q == [q[0]] + q[1..];
    }
    assert |multiset(Sort(q))| == |Sort(q)|;
  }

  /** The candidates: the blocks back from the last one, as long as they are not older than the start. */
  function Candidates(chain: seq<Block>, start: int): (q: seq<(int, nat)>)
    ensures |q| <= |chain|
  {
    if chain == [] || chain[|chain| - 1].time < start then []
    else [(chain[|chain| - 1].time, chain[|chain| - 1].hash)] + Candidates(chain[..|chain| - 1], start)
  }

  lemma {:induction false} CandidateAt(chain: seq<Block>, start: int, i: nat)
    requires i < |Candidates(chain, start)|
    ensures var b := chain[|chain| - 1 - i]; Candidates(chain, start)[i] == (b.time, b.hash) && b.time >= start
  {
    if i > 0 { CandidateAt(chain[..|chain| - 1], start, i - 1); }
  }

  /** A chain whose blocks are in the index under their hashes, each at its own height. */
  ghost predicate Indexed(chain: seq<Block>, index: map<nat, Block>) {
    Keyed(index) && forall i | 0 <= i < |chain| :: chain[i].hash in index && index[chain[i].hash] == chain[i] && chain[i].height == i
  }

  lemma SortedCandidates(chain: seq<Block>, index: map<nat, Block>, start: int)
    requires Indexed(chain, index)
    ensures var q := Sort(Candidates(chain, start));
            && AllKnown(q, index) && InOrder(Blocks(q, index)) && Distinct(Blocks(q, index))
            && |q| == |Candidates(chain, start)|
  {
    hide Sort;
    var c := Candidates(chain, start);
    var q := Sort(c);
    SortIs(c);
    forall i | 0 <= i < |q| ensures q[i].1 in index && index[q[i].1].time == q[i].0 {
      assert q[i] in multiset(q);
      var j :| 0 <= j < |c| && c[j] == q[i];
      CandidateAt(chain, start, j);
    }
    forall i, j | 0 <= i < j < |q| ensures q[i].1 != q[j].1 && q[i].0 <= q[j].0 {
      assert Before(q[i], q[j]);
      if q[i] == q[j] { Twice(chain, index, start, q, i, j); }
      assert index[q[i].1].time == q[i].0 && index[q[j].1].time == q[j].0;
    }
  }

  /** A chain never lists the same block twice. */
  lemma Twice(chain: seq<Block>, index: map<nat, Block>, start: int, q: seq<(int, nat)>, i: nat, j: nat)
    requires Indexed(chain, index) && multiset(q) == multiset(Candidates(chain, start)) && i < j < |q|
    ensures q[i] != q[j]
  {
    var c := Candidates(chain, start);
    if q[i] == q[j] {
      var x := q[i];
      assert q == q[..j] + [x] + q[j + 1..];
      assert x in q[..j];
      assert multiset(q)[x] >= 2;
      CandidatesOnce(chain, index, start, x);
    }
  }

  lemma {:induction false} CandidatesOnce(chain: seq<Block>, index: map<nat, Block>, start: int, x: (int, nat))
    requires Indexed(chain, index)
    ensures multiset(Candidates(chain, start))[x] <= 1
  {
    if chain != [] && chain[|chain| - 1].time >= start {
      var b, rest := chain[|chain| - 1], chain[..|chain| - 1];
      CandidatesOnce(rest, index, start, x);
      var c := Candidates(rest, start);
      if x == (b.time, b.hash) && x in c {
        var k :| 0 <= k < |c| && c[k] == x;
        CandidateAt(rest, start, k);
      }
    }
  }

  /** GetLastStakeModifier: back to the last block that generated a modifier. */
  method GetLastStakeModifier(chain: seq<Block>) returns (ok: bool, modifier: nat, time: int)
    requires chain != []
    ensures ok <==> exists i :: 0 <= i < |chain| && chain[i].generated
    ensures ok ==> exists i :: 0 <= i < |chain| && chain[i].generated && (forall j | i < j < |chain| :: !chain[j].generated)
                     && modifier == chain[i].modifier && time == chain[i].time
  {
    var k := |chain| - 1;
    while k > 0 && !chain[k].generated
      invariant 0 <= k < |chain| && forall j | k < j < |chain| :: !chain[j].generated
    {
      k := k - 1;
    }
    if !chain[k].generated { return false, 0, 0; }
    return true, chain[k].modifier, chain[k].time;
  }

  /** The last block that generated a modifier, or |chain|. */
  function LastGenerated(chain: seq<Block>, n: nat): (k: nat)
    requires n <= |chain|
    ensures k < n || k == |chain|
    ensures k < |chain| ==> chain[k].generated && forall j | k < j < n :: !chain[j].generated
    ensures k == |chain| ==> forall j | 0 <= j < n :: !chain[j].generated
  {
    if n == 0 then |chain| else if chain[n - 1].generated then n - 1 else LastGenerated(chain, n - 1)
  }

  function Slot(time: int): int { time / MODIFIER_INTERVAL }

  /** Where the selection interval before the last block starts. */
  function IntervalStart(chain: seq<Block>): int
    requires chain != []
  {
    Slot(chain[|chain| - 1].time) * MODIFIER_INTERVAL - Sections(ROUNDS)
  }

  /** ComputeNextStakeModifier on the chain up to the previous block. The genesis block's modifier is zero
      and the first block's a constant; after that it stays the same within an interval, and otherwise bit r
      of the new one is the entropy bit of the block picked in round r. */
  method ComputeNextStakeModifier(e: Env, chain: seq<Block>, index: map<nat, Block>)
    returns (ok: bool, modifier: nat, generated: bool, picked: seq<nat>)
    requires Indexed(chain, index) && forall i | 0 <= i < |chain| :: chain[i].time >= 0
    ensures |chain| == 0 ==> ok && generated && modifier == 0
    ensures |chain| == 1 ==> ok && generated && modifier == e.firstModifier
    ensures |chain| > 1 ==>
              var k := LastGenerated(chain, |chain|);
              if k == |chain| then !ok
              else if Slot(chain[k].time) >= Slot(chain[|chain| - 1].time) then ok && !generated && modifier == chain[k].modifier
              else
                var q := Sort(Candidates(chain, IntervalStart(chain)));
                && ok && generated && AllKnown(q, index)
                && var cs := Blocks(q, index);
                   && |picked| == (if |cs| < ROUNDS then |cs| else ROUNDS)
                   && Rounds(e, cs, IntervalStart(chain), chain[k].modifier, picked)
                   && modifier == Bits(cs, picked) < Pow2(ROUNDS)
  {
    hide Pow2, Sort, Rounds, Bits, Sections;
    modifier, generated, picked := 0, false, [];
    if chain == [] { return true, 0, true, []; }
    var last := chain[|chain| - 1];
    if last.height == 0 { return true, e.firstModifier, true, []; }
    var found, time;
    found, modifier, time := GetLastStakeModifier(chain);
    if !found { return false, modifier, false, []; }
    if time / MODIFIER_INTERVAL >= last.time / MODIFIER_INTERVAL { return true, modifier, false, []; }
    var interval := SelectionInterval();
    var start := last.time / MODIFIER_INTERVAL * MODIFIER_INTERVAL - interval;
    var sorted := CollectCandidates(chain, start);
    sorted := Sort(sorted);
    SortedCandidates(chain, index, start);
    var bits;
    ok, bits, picked := SelectBits(e, sorted, index, start, modifier);
    modifier, generated := bits, true;
  }

  method CollectCandidates(chain: seq<Block>, start: int) returns (q: seq<(int, nat)>)
    ensures q == Candidates(chain, start)
  {
    q := [];
    var k := |chain|;
    assert chain[..k] == chain;
    while k > 0 && chain[k - 1].time >= start
      invariant 0 <= k <= |chain| && Candidates(chain, start) == q + Candidates(chain[..k], start)
    {
      assert chain[..k][..k - 1] == chain[..k - 1] && chain[..k][k - 1] == chain[k - 1];
      q := q + [(chain[k - 1].time, chain[k - 1].hash)];
      k := k - 1;
    }
    assert Candidates(chain[..k], start) == [];
  }
}
