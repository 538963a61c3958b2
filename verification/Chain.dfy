/** CChain: a path of blocks by height, and the searches along it. */
module Chain {
  import opened Arithmetic
  import opened BlockIndex

  /** The path from genesis to a block. */
  ghost function PathTo(b: Block): (p: seq<Block?>)
    requires Linked(b)
    ensures |p| == b.nHeight + 1 && forall h | 0 <= h <= b.nHeight :: p[h] == Ancestor(b, h)
  {
    seq(b.nHeight + 1, h requires 0 <= h <= b.nHeight => Ancestor(b, h))
  }

  /** Empty, or the path to its last block. */
  ghost predicate IsPath(c: seq<Block?>) {
    c == [] || (c[|c| - 1] != null && Linked(c[|c| - 1]) && c[|c| - 1].nHeight == |c| - 1 && c == PathTo(c[|c| - 1]))
  }

  /** Whatever is on the path brings its ancestors with it. */
  lemma PathBelow(c: seq<Block?>, b: Block)
    requires IsPath(c) && Linked(b) && b.nHeight < |c| && c[b.nHeight] == b
    ensures forall h | 0 <= h <= b.nHeight :: c[h] == Ancestor(b, h)
  {
    var tip: Block := c[|c| - 1];
    forall h | 0 <= h <= b.nHeight ensures c[h] == Ancestor(b, h) { AncestorOfAncestor(tip, b.nHeight, h); }
  }

  lemma PathTip(c: seq<Block?>)
    requires IsPath(c)
    ensures c != [] ==> c[|c| - 1] != null && Linked(c[|c| - 1]) && c[|c| - 1].nHeight == |c| - 1
  {
  }

  /** Where the loop of SetTip stands: set from height k up, and as it was, as far as that goes, below. */
  ghost predicate Setting(was: seq<Block?>, c: seq<Block?>, tip: Block, k: int)
    requires Linked(tip)
  {
    && 0 <= k <= |c| == tip.nHeight + 1
    && (forall h | k <= h < |c| :: c[h] == Ancestor(tip, h))
    && (forall h | 0 <= h < k :: c[h] == if h < |was| then was[h] else null)
  }

  /** std::vector::resize */
  function Resized(c: seq<Block?>, size: nat): (r: seq<Block?>)
    ensures |r| == size && forall h | 0 <= h < size :: r[h] == if h < |c| then c[h] else null
  {
    if |c| >= size then c[..size] else c + seq(size - |c|, i => null)
  }

  lemma StartSetting(was: seq<Block?>, c: seq<Block?>, tip: Block)
    requires Linked(tip) && |c| == tip.nHeight + 1 && forall h | 0 <= h < |c| :: c[h] == if h < |was| then was[h] else null
    ensures Setting(was, c, tip, |c|)
  {
  }

  lemma SetOne(was: seq<Block?>, c: seq<Block?>, tip: Block, k: int)
    requires Linked(tip) && Setting(was, c, tip, k) && k > 0
    ensures Setting(was, c[k - 1 := Ancestor(tip, k - 1)], tip, k - 1)
  {
    hide Linked, Ancestor;
  }

  /** Where the old path agrees with the new one, it agrees all the way down. */
  lemma AllSet(was: seq<Block?>, c: seq<Block?>, tip: Block, k: int)
    requires Linked(tip) && Setting(was, c, tip, k) && IsPath(was) && (k > 0 ==> c[k - 1] == Ancestor(tip, k - 1))
    ensures c == PathTo(tip) && IsPath(c)
  {
    hide Linked, Ancestor;
    Self(tip);
    if k > 0 {
      var p := Ancestor(tip, k - 1);
      PathBelow(was, p);
      forall h | 0 <= h < k ensures c[h] == Ancestor(tip, h) { AncestorOfAncestor(tip, k - 1, h); }
    }
  }

  // ---------- The heights in a locator ----------

  function Max(x: int, y: int): int { if x > y then x else y }

  /** The heights that GetLocator lists from h down, with the step to take next and the number already listed. */
  function LocatorHeights(h: nat, step: nat, listed: nat): (q: seq<nat>)
    requires step > 0
    ensures |q| > 0 && q[0] == h && q[|q| - 1] == 0
    decreases h
  {
    if h == 0 then [0]
    else [h] + LocatorHeights(Max(h - step, 0), if listed + 1 > 10 then 2 * step else step, listed + 1)
  }

  ghost predicate Falls(q: seq<nat>) { forall i, j | 0 <= i < j < |q| :: q[i] > q[j] }

  lemma FallsOn(h: nat, t: seq<nat>)
    requires Falls(t) && t != [] && t[0] < h
    ensures Falls([h] + t)
  {
  }

  lemma {:induction false} HeightsFall(h: nat, step: nat, listed: nat)
    requires step > 0
    ensures Falls(LocatorHeights(h, step, listed))
    decreases h
  {
    if h > 0 {
      var g, next := Max(h - step, 0), if listed + 1 > 10 then 2 * step else step;
      HeightsFall(g, next, listed + 1);
      FallsOn(h, LocatorHeights(g, next, listed + 1));
    }
  }

  /** Once the step doubles, t more steps cover 2^t - 1 times the step. */
  lemma {:induction false} DoublingSteps(h: nat, step: nat, listed: nat, t: nat)
    requires step > 0 && listed >= 10 && h <= step * (Pow2(t) - 1)
    ensures |LocatorHeights(h, step, listed)| <= t + 1
    decreases t
  {
    assert Pow2(0) == 1;
    if h > 0 && t > 0 {
      assert step * (Pow2(t) - 1) == step + 2 * step * (Pow2(t - 1) - 1) by { Doubled(step, Pow2(t - 1)); }
      DoublingSteps(Max(h - step, 0), 2 * step, listed + 1, t - 1);
    }
  }

  lemma Doubled(step: int, p: int)
    ensures step * (2 * p - 1) == step + 2 * step * (p - 1)
  {
  }

  /** The first ten steps are single ones. */
  lemma {:induction false} SingleSteps(h: nat, listed: nat, t: nat)
    requires listed <= 10 && h <= 10 - listed + Pow2(t) - 1
    ensures |LocatorHeights(h, 1, listed)| <= 10 - listed + t + 1
    decreases 10 - listed
  {
    if listed == 10 {
      DoublingSteps(h, 1, listed, t);
    } else if h > 0 {
      SingleSteps(Max(h - 1, 0), listed + 1, t);
    }
  }

  /** At most 12 + floor(log2 h) blocks: the number of bits of h is one more than that logarithm. */
  lemma LocatorIsShort(h: nat)
    ensures |LocatorHeights(h, 1, 0)| <= 11 + BitLength(h)
  {
    BitLengthIs(h);
    SingleSteps(h, 0, BitLength(h));
  }

  /** The step after entry n, and how far back that entry is. */
  function StepAt(n: nat): (step: nat)
    ensures step > 0
  {
    PositivePow2(if n <= 10 then 0 else n - 10);
    if n <= 10 then 1 else Pow2(n - 10)
  }

  function Back(n: nat): nat { if n <= 11 then n else 9 + Pow2(n - 10) }

  lemma BackNext(n: nat)
    ensures Back(0) == 0 && StepAt(0) == 1
    ensures Back(n + 1) == Back(n) + StepAt(n) && StepAt(n + 1) == if n + 1 > 10 then 2 * StepAt(n) else StepAt(n)
  {
    assert Pow2(0) == 1;
    assert n >= 10 ==> Pow2(n + 1 - 10) == 2 * Pow2(n - 10);
  }

  /** Entry n: up to the twelfth one less each time, and from there on less by powers of two, down to zero. */
  lemma {:induction false} HeightAt(h: nat, n: nat)
    requires n < |LocatorHeights(h, 1, 0)|
    ensures var q := LocatorHeights(h, 1, 0);
            && q[n] == (if h > Back(n) then h - Back(n) else 0) && (n == |q| - 1 <==> h <= Back(n))
            && q[n..] == LocatorHeights(q[n], StepAt(n), n)
  {
    hide LocatorHeights, StepAt, Back;
    var q := LocatorHeights(h, 1, 0);
    if n == 0 {
      BackNext(0);
      assert q[0..] == q;
    } else {
      BackNext(n - 1);
      HeightAt(h, n - 1);
      LastHeight(q[n - 1], StepAt(n - 1), n - 1);
      NextHeight(q[n - 1], StepAt(n - 1), n - 1);
      assert q[n..] == q[n - 1..][1..];
      assert q[n] == q[n..][0];
    }
    LastHeight(q[n], StepAt(n), n);
    assert |q[n..]| == |q| - n;
  }

  lemma LastHeight(h: nat, step: nat, listed: nat)
    requires step > 0
    ensures |LocatorHeights(h, step, listed)| == 1 <==> h == 0
    ensures LocatorHeights(h, step, listed)[0] == h
  {
  }

  /** Where GetLocator stands: the first heights are listed, the one at h is next. */
  ghost predicate Listing(start: Block, vHave: seq<nat>, h: nat, nStep: nat)
    requires Linked(start)
  {
    Self(start);
    var q, n := LocatorHeights(start.nHeight, 1, 0), |vHave|;
    && nStep > 0 && h <= start.nHeight && n < |q| && q[n..] == LocatorHeights(h, nStep, n)
    && forall i | 0 <= i < n :: 0 <= q[i] <= start.nHeight && vHave[i] == Ancestor(start, q[i]).hash
  }

  /** What GetLocator returns for a block. */
  ghost predicate Listed(start: Block, vHave: seq<nat>)
    requires Linked(start)
  {
    Self(start);
    var q := LocatorHeights(start.nHeight, 1, 0);
    && |vHave| == |q|
    && forall i | 0 <= i < |q| :: 0 <= q[i] <= start.nHeight && vHave[i] == Ancestor(start, q[i]).hash
  }

  lemma ListNext(start: Block, vHave: seq<nat>, h: nat, nStep: nat)
    requires Linked(start) && Listing(start, vHave, h, nStep)
    ensures h <= start.nHeight
    ensures var more := vHave + [Ancestor(start, h).hash];
            if h == 0 then Listed(start, more)
            else Listing(start, more, Max(h - nStep, 0), if |more| > 10 then 2 * nStep else nStep)
  {
    hide Linked, Ancestor;
    Self(start);
    var q, n := LocatorHeights(start.nHeight, 1, 0), |vHave|;
    NextHeight(h, nStep, n);
    assert q[n] == q[n..][0] == h;
    assert q[n + 1..] == q[n..][1..];
  }

  lemma NextHeight(h: nat, step: nat, listed: nat)
    requires step > 0
    ensures var q := LocatorHeights(h, step, listed);
            if h == 0 then q == [0]
            else q[1..] == LocatorHeights(Max(h - step, 0), if listed + 1 > 10 then 2 * step else step, listed + 1)
  {
  }

  lemma NoneListed(start: Block)
    requires Linked(start)
    ensures start.nHeight >= 0 && Listing(start, [], start.nHeight, 1)
  {
    Self(start);
  }

  // ---------- The chain ----------

  class Chain {
    var vChain: seq<Block?>

    ghost predicate Valid()
      reads this
    {
      IsPath(vChain)
    }

    constructor ()
      ensures Valid() && vChain == []
    {
      vChain := [];
    }

    function Height(): (h: int)
      reads this
    {
      |vChain| - 1
    }

    /** operator[] */
    function At(nHeight: int): Block?
      reads this
    {
      if nHeight < 0 || nHeight >= |vChain| then null else vChain[nHeight]
    }

    function Genesis(): Block?
      reads this
    {
      if |vChain| > 0 then vChain[0] else null
    }

    function Tip(): Block?
      reads this
    {
      if |vChain| < 1 then null else vChain[|vChain| - 1]
    }

    predicate Contains(b: Block)
      reads this
    {
      At(b.nHeight) == b
    }

    function Next(b: Block): Block?
      reads this
    {
      if Contains(b) then At(b.nHeight + 1) else null
    }

    /** A block is on the chain exactly if it is the tip's ancestor at its height. */
    lemma ContainsIsAncestor(b: Block)
      requires Valid() && Linked(b)
      ensures Contains(b) <==> vChain != [] && b.nHeight <= vChain[|vChain| - 1].nHeight && Ancestor(vChain[|vChain| - 1], b.nHeight) == b
    {
    }

    /** The successor on the chain is the block that has this one as its predecessor. */
    lemma NextIsSuccessor(b: Block)
      requires Valid() && Linked(b) && Next(b) != null
      ensures Next(b).nHeight == b.nHeight + 1 && Next(b).pprev == b
    {
      var tip: Block := vChain[|vChain| - 1];
      AncestorOfAncestor(tip, b.nHeight + 1, b.nHeight);
    }

    /** SetTip: the chain becomes the path to the new tip, although the loop stops where the old chain
        already agrees. */
    method SetTip(pindex: Block?)
      requires Valid() && (pindex != null ==> Linked(pindex))
      modifies this
      ensures Valid() && vChain == if pindex == null then [] else PathTo(pindex)
    {
      if pindex == null {
        vChain := [];
        return;
      }
      hide Linked, Ancestor, IsPath, Setting, PathTo, Resized;
      ghost var was := vChain;
      Self(pindex);
      var size := pindex.nHeight + 1;
      vChain := Resized(vChain, size);
      var p: Block? := pindex;
      ghost var k := size;
      assert Setting(was, vChain, pindex, size) by { StartSetting(was, vChain, pindex); }
      while p != null && vChain[p.nHeight] != p
        invariant 0 <= k <= size == |vChain| && Setting(was, vChain, pindex, k)
        invariant k > 0 ==> p != null && Linked(p) && p.nHeight == k - 1 && p == Ancestor(pindex, k - 1)
        invariant k == 0 ==> p == null
        decreases k
      {
        Parent(pindex, k - 1);
        SetOne(was, vChain, pindex, k);
        vChain := vChain[p.nHeight := p];
        p := p.pprev;
        k := k - 1;
      }
      AllSet(was, vChain, pindex, k);
    }

    /** FindFork: the highest common block, null if there is none. */
    method FindFork(pindex: Block) returns (r: Block?)
      requires Valid() && Linked(pindex)
      ensures r != null ==> Linked(r) && r.nHeight <= pindex.nHeight && r == Ancestor(pindex, r.nHeight) && Contains(r)
      ensures forall h | 0 <= h <= pindex.nHeight && Contains(Ancestor(pindex, h)) :: r != null && h <= r.nHeight
    {
      hide Linked, Ancestor, IsPath;
      Self(pindex);
      r := pindex;
      if pindex.nHeight > Height() { r := pindex.GetAncestor(Height()); }
      ghost var k := if r == null then -1 else r.nHeight;
      while r != null && !Contains(r)
        invariant -1 <= k <= pindex.nHeight && (r == null <==> k == -1)
        invariant r != null ==> Linked(r) && r.nHeight == k && r == Ancestor(pindex, k)
        invariant forall h | k < h <= pindex.nHeight :: !Contains(Ancestor(pindex, h))
        decreases k
      {
        Parent(pindex, k);
        r := r.pprev;
        k := k - 1;
      }
    }

    /** GetLocator: the hashes of ancestors of the given block, or of the tip, at falling heights. */
    method GetLocator(pindex0: Block?) returns (vHave: seq<nat>)
      requires Valid() && (pindex0 != null ==> Linked(pindex0))
      ensures var start := if pindex0 == null then Tip() else pindex0;
              if start == null then vHave == []
              else
                && Linked(start) && Listed(start, vHave)
                && |vHave| <= 11 + BitLength(start.nHeight)
                && Spaced(start, vHave)
                && Falls(LocatorHeights(start.nHeight, 1, 0))
    {
      hide Linked, Ancestor, IsPath, Falls, Listing, Listed, LocatorHeights, Spaced;
      var nStep := 1;
      vHave := [];
      PathTip(vChain);
      var pindex := if pindex0 == null then Tip() else pindex0;
      if pindex == null { return; }
      ghost var start: Block := pindex;
      Self(start);
      LocatorIsShort(start.nHeight);
      HeightsFall(start.nHeight, 1, 0);
      NoneListed(start);
      while true
        invariant pindex != null && Linked(pindex) && 0 <= pindex.nHeight <= start.nHeight && pindex == Ancestor(start, pindex.nHeight)
        invariant nStep > 0 && Listing(start, vHave, pindex.nHeight, nStep)
        decreases pindex.nHeight
      {
        ListNext(start, vHave, pindex.nHeight, nStep);
        vHave := vHave + [pindex.hash];
        if pindex.nHeight == 0 { break; }
        var nHeight := Max(pindex.nHeight - nStep, 0);
        AncestorOfAncestor(start, pindex.nHeight, nHeight);
        if Contains(pindex) {
          PathBelow(vChain, pindex);
          pindex := At(nHeight);
        } else {
          pindex := pindex.GetAncestor(nHeight);
        }
        if |vHave| > 10 { nStep := nStep * 2; }
      }
      ListedSize(start, vHave);
      ListedAt(start, vHave);
    }
  }

  /** The hash of the ancestor at a height above genesis. */
  ghost predicate HashAt(b: Block, h: int, hash: nat)
    requires Linked(b)
  {
    0 < h <= b.nHeight && hash == Ancestor(b, h).hash
  }

  /** The hashes of the ancestors at h, one less each time for twelve entries and from there on less by powers of two,
      and that of genesis as soon as this comes to zero or less. */
  ghost predicate Spaced(start: Block, vHave: seq<nat>)
    requires Linked(start)
  {
    var h, n := start.nHeight, |vHave| - 1;
    && n >= 0 && vHave[n] == Ancestor(start, 0).hash && h <= (if n <= 11 then n else 9 + Pow2(n - 10))
    && (forall i | 0 <= i < n && i <= 11 :: HashAt(start, h - i, vHave[i]))
    && (forall i | 12 <= i < n :: HashAt(start, h - 9 - Pow2(i - 10), vHave[i]))
  }

  lemma ListedAt(start: Block, vHave: seq<nat>)
    requires Linked(start) && Listed(start, vHave)
    ensures Spaced(start, vHave)
  {
    hide Linked, Ancestor, LocatorHeights, Pow2, HashAt, Back, Listed;
    Self(start);
    ListedSize(start, vHave);
    LastHash(start, vHave);
    var h, n := start.nHeight, |vHave| - 1;
    BackIs(n);
    forall i | 0 <= i < n && i <= 11 ensures HashAt(start, h - i, vHave[i]) {
      ListedOne(start, vHave, i);
      BackIs(i);
    }
    forall i | 12 <= i < n ensures HashAt(start, h - 9 - Pow2(i - 10), vHave[i]) {
      ListedOne(start, vHave, i);
      BackIs(i);
    }
  }

  lemma BackIs(i: nat)
    ensures Back(i) == if i <= 11 then i else 9 + Pow2(i - 10)
  {
  }

  lemma LastHash(start: Block, vHave: seq<nat>)
    requires Linked(start) && Listed(start, vHave)
    ensures |vHave| > 0 && start.nHeight >= 0 && start.nHeight <= Back(|vHave| - 1) && vHave[|vHave| - 1] == Ancestor(start, 0).hash
  {
    hide Linked, Ancestor, LocatorHeights, Back;
    Self(start);
    HeightAt(start.nHeight, |vHave| - 1);
  }

  lemma ListedOne(start: Block, vHave: seq<nat>, i: nat)
    requires Linked(start) && Listed(start, vHave) && i < |vHave| - 1
    ensures HashAt(start, start.nHeight - Back(i), vHave[i])
  {
    hide Linked, Ancestor, LocatorHeights, Back;
    Self(start);
    HeightAt(start.nHeight, i);
    var q := LocatorHeights(start.nHeight, 1, 0);
    assert q[i] == start.nHeight - Back(i);
  }

  lemma ListedSize(start: Block, vHave: seq<nat>)
    requires Linked(start) && Listed(start, vHave)
    ensures start.nHeight >= 0 && |vHave| == |LocatorHeights(start.nHeight, 1, 0)|
  {
    Self(start);
  }
}
