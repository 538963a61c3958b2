/** CBlockIndex as a node of the block tree, and the skip list through its ancestors. */
module BlockIndex {
  import opened Arithmetic

  // ---------- Where the skip pointers lead ----------

  /** n & (n - 1) */
  function InvertLowestOne(n: nat): nat {
    if n == 0 then 0 else if n % 2 == 1 then n - 1 else 2 * InvertLowestOne(n / 2)
  }

  lemma {:induction false} InvertDecreases(n: nat)
    ensures n > 0 ==> InvertLowestOne(n) < n
    ensures InvertLowestOne(n) <= n
  {
    if n > 0 && n % 2 == 0 { InvertDecreases(n / 2); }
  }

  function GetSkipHeight(height: int): int {
    if height < 2 then 0
    else if height % 2 == 1 then InvertLowestOne(InvertLowestOne(height - 1)) + 1
    else InvertLowestOne(height)
  }

  /** Skip pointers always lead back. */
  lemma SkipsBack(height: int)
    ensures 0 <= GetSkipHeight(height) && (height > 0 ==> GetSkipHeight(height) < height)
  {
    if height >= 2 {
      InvertDecreases(height);
      InvertDecreases(height - 1);
      InvertDecreases(InvertLowestOne(height - 1));
    }
  }

  /** The lowest one bit of 2^k * (2m + 1) is that of 2^k. */
  lemma {:induction false} InvertIs(k: nat, m: nat)
    ensures InvertLowestOne(Pow2(k) * (2 * m + 1)) == Pow2(k) * (2 * m)
    ensures InvertLowestOne(0) == 0
  {
    PositivePow2(k);
    if k > 0 {
      InvertIs(k - 1, m);
      PositivePow2(k - 1);
      Halved(Pow2(k - 1), m);
    }
  }

  lemma Halved(p: nat, m: nat)
    requires p > 0
    ensures 2 * p * (2 * m + 1) == 2 * (p * (2 * m + 1)) > 0 && 2 * p * (2 * m) == 2 * (p * (2 * m))
  {
    MulAssoc(2, p, 2 * m + 1);
    MulAssoc(2, p, 2 * m);
    MulMono(p, 1, 2 * m + 1);
  }

  /** An even height loses its lowest one bit. */
  lemma SkipOfEven(k: nat, m: nat)
    requires k > 0
    ensures GetSkipHeight(Pow2(k) * (2 * m + 1)) == Pow2(k) * (2 * m)
    ensures GetSkipHeight(0) == GetSkipHeight(1) == 0
  {
    hide InvertLowestOne, Pow2;
    EvenIs(k, m);
    InvertIs(k, m);
  }

  /** Of an odd height, the bit for one stays and the next two one bits are lost. */
  lemma SkipOfOdd(k: nat, l: nat, m: nat)
    requires k > 0
    ensures GetSkipHeight(Pow2(k) + 1) == 1
    ensures GetSkipHeight(Pow2(k) * (2 * (Pow2(l) * (2 * m + 1)) + 1) + 1) == Pow2(k) * (2 * (Pow2(l) * (2 * m))) + 1
  {
    hide InvertLowestOne, Pow2;
    EvenIs(k, 0);
    InvertIs(k, 0);
    EvenIs(k, Pow2(l) * (2 * m + 1));
    LosesTwo(k, l, m);
  }

  lemma EvenIs(k: nat, m: nat)
    requires k > 0
    ensures Pow2(k) * (2 * m + 1) % 2 == 0 && Pow2(k) * (2 * m + 1) >= 2
  {
    hide Pow2;
    NextPow2(k - 1);
    PositivePow2(k - 1);
    Halved(Pow2(k - 1), m);
  }

  lemma LosesTwo(k: nat, l: nat, m: nat)
    ensures InvertLowestOne(InvertLowestOne(Pow2(k) * (2 * (Pow2(l) * (2 * m + 1)) + 1))) == Pow2(k) * (2 * (Pow2(l) * (2 * m)))
  {
    hide InvertLowestOne, Pow2;
    InvertIs(k, Pow2(l) * (2 * m + 1));
    Together(k, l, 2 * m + 1);
    InvertIs(k + l + 1, m);
    Together(k, l, 2 * m);
  }

  lemma Together(k: nat, l: nat, x: nat)
    ensures Pow2(k) * (2 * (Pow2(l) * x)) == Pow2(k + l + 1) * x
  {
    hide Pow2;
    NextPow2(k + l);
    Pow2Add(k, l);
    Regroup(Pow2(k), Pow2(l), x);
  }

  lemma Regroup(p: nat, q: nat, x: nat)
    ensures p * (2 * (q * x)) == 2 * (p * q) * x
  {
    MulAssoc(2, q, x);
    MulComm(2, q);
    MulAssoc(q, 2, x);
    MulAssoc(p, q, 2 * x);
    MulAssoc(p * q, 2, x);
    MulComm(p * q, 2);
  }

  // ---------- Blocks ----------

  class Block {
    const pprev: Block?
    const pskip: Block?
    const nHeight: int
    const hash: nat

    constructor Genesis(hash: nat)
      ensures Linked(this) && nHeight == 0 && this.hash == hash
    {
      this.pprev, this.pskip, this.nHeight, this.hash := null, null, 0, hash;
    }

    /** A block on top of another, with BuildSkip applied. */
    constructor After(prev: Block, hash: nat)
      requires Linked(prev)
      ensures Linked(this) && nHeight == prev.nHeight + 1 && pprev == prev && this.hash == hash
    {
      SkipsBack(prev.nHeight + 1);
      var skip := prev.GetAncestor(GetSkipHeight(prev.nHeight + 1));
      this.pprev, this.pskip, this.nHeight, this.hash := prev, skip, prev.nHeight + 1, hash;
    }

    /** CBlockIndex::GetAncestor: follow skip pointers where they do not lead too far. */
    method GetAncestor(height: int) returns (r: Block?)
      requires Linked(this)
      ensures r == if 0 <= height <= nHeight then Ancestor(this, height) else null
    {
      if height > nHeight || height < 0 { return null; }
      var walk: Block := this;
      var heightWalk := nHeight;
      while heightWalk > height
        invariant Linked(walk) && heightWalk == walk.nHeight >= height
        invariant Ancestor(walk, height) == Ancestor(this, height)
        decreases heightWalk
      {
        var heightSkip := GetSkipHeight(heightWalk);
        var heightSkipPrev := GetSkipHeight(heightWalk - 1);
        SkipsBack(heightWalk);
        if heightSkip == height || (heightSkip > height && !(heightSkipPrev < heightSkip - 2 && heightSkipPrev >= height)) {
          AncestorOfAncestor(walk, heightSkip, height);
          walk := walk.pskip;
          heightWalk := heightSkip;
        } else {
          walk := walk.pprev;
          heightWalk := heightWalk - 1;
        }
      }
      return walk;
    }
  }

  /** Back to genesis every height is one less than the one before, and every skip pointer leads to the
      ancestor at its height. */
  ghost predicate Linked(b: Block)
    decreases b.nHeight, 0
  {
    && b.nHeight >= 0
    && (b.nHeight == 0 ==> b.pprev == null)
    && (b.nHeight > 0 ==>
          && b.pprev != null && b.pprev.nHeight == b.nHeight - 1 && Linked(b.pprev)
          && GetSkipHeight(b.nHeight) <= b.nHeight - 1 && GetSkipHeight(b.nHeight) >= 0
          && b.pskip == Ancestor(b.pprev, GetSkipHeight(b.nHeight)))
  }

  /** The ancestor at a height, one step at a time. */
  ghost function Ancestor(b: Block, height: int): (r: Block)
    requires Linked(b) && 0 <= height <= b.nHeight
    ensures r.nHeight == height && Linked(r)
    decreases b.nHeight, 1
  {
    if height == b.nHeight then b else Ancestor(b.pprev, height)
  }

  lemma {:induction false} AncestorOfAncestor(b: Block, h: int, k: int)
    requires Linked(b) && 0 <= k <= h <= b.nHeight
    ensures Ancestor(Ancestor(b, h), k) == Ancestor(b, k)
    decreases b.nHeight
  {
    if h < b.nHeight { AncestorOfAncestor(b.pprev, h, k); }
  }

  lemma Self(b: Block)
    requires Linked(b)
    ensures b.nHeight >= 0 && Ancestor(b, b.nHeight) == b
  {
  }

  /** The predecessor of an ancestor is the next ancestor down. */
  lemma Parent(b: Block, h: int)
    requires Linked(b) && 0 <= h <= b.nHeight
    ensures var a := Ancestor(b, h);
            (a.pprev == null <==> h == 0)
            && (h > 0 ==> a.pprev != null && Linked(a.pprev) && a.pprev.nHeight == h - 1 && a.pprev == Ancestor(b, h - 1))
  {
    var a := Ancestor(b, h);
    if h > 0 {
      AncestorOfAncestor(b, h, h - 1);
      assert Ancestor(a, h - 1) == Ancestor(a.pprev, h - 1);
    }
  }
}
