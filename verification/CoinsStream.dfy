/** The serialized form of CCoins: a code word, a bit mask with its trailing zero bytes cut off,
    and the unspent outputs. */
module CoinsStream {
  import opened Arithmetic
  import opened Coins

  /** The stream, at the level of its codecs: variable-length integers, mask bytes and compressed outputs. */
  datatype Item = Varint(n: int) | Byte(b: nat) | Output(out: TxOut)

  const WORD := 0x1_0000_0000

  predicate Avail(vout: seq<TxOut>, i: nat) { i < |vout| && !vout[i].IsNull() }

  function Bit(b: bool): nat { if b then 1 else 0 }

  /** Flag i of mask byte b stands for output 2 + 8b + i. */
  predicate Flag(vout: seq<TxOut>, b: nat, i: nat) { Avail(vout, 2 + 8 * b + i) }

  /** The low p bits of mask byte b. */
  function MaskBits(vout: seq<TxOut>, b: nat, p: nat): nat {
    if p == 0 then 0 else MaskBits(vout, b, p - 1) + Bit(Flag(vout, b, p - 1)) * Pow2(p - 1)
  }

  function MaskByte(vout: seq<TxOut>, b: nat): nat { MaskBits(vout, b, 8) }

  predicate ByteUsed(vout: seq<TxOut>, b: nat) { exists i | 0 <= i < 8 :: Flag(vout, b, i) }

  /** Mask bytes needed for the first n bytes' worth of outputs, up to the last non-zero one. */
  function MaskSize(vout: seq<TxOut>, n: nat): (r: nat)
    ensures r <= n && (r > 0 ==> ByteUsed(vout, r - 1))
    ensures forall b | r <= b < n :: !ByteUsed(vout, b)
  {
    if n == 0 then 0 else if ByteUsed(vout, n - 1) then n else MaskSize(vout, n - 1)
  }

  /** How many of the mask bytes from b up to n are not zero. */
  function NonzeroBytes(vout: seq<TxOut>, b: nat, n: nat): (r: nat)
    requires b <= n
    ensures r <= n - b
    decreases n - b
  {
    if b == n then 0 else Bit(ByteUsed(vout, b)) + NonzeroBytes(vout, b + 1, n)
  }

  /** The number of mask bytes that cover all outputs after the first two. */
  function MaskRange(vout: seq<TxOut>): nat { if |vout| <= 2 then 0 else (|vout| - 2 + 7) / 8 }

  lemma {:induction false} MaskBitsBound(vout: seq<TxOut>, b: nat, p: nat)
    ensures MaskBits(vout, b, p) < Pow2(p)
    ensures MaskBits(vout, b, p) == 0 <==> forall i | 0 <= i < p :: !Flag(vout, b, i)
  {
    if p > 0 {
      MaskBitsBound(vout, b, p - 1);
      assert Flag(vout, b, p - 1) ==> Bit(Flag(vout, b, p - 1)) * Pow2(p - 1) == Pow2(p - 1);
    }
  }

  function HighBits(vout: seq<TxOut>, b: nat, q: nat, p: nat): nat
    requires q <= p
    decreases p - q
  {
    if q == p then 0 else Bit(Flag(vout, b, q)) + 2 * HighBits(vout, b, q + 1, p)
  }

  lemma DoubleShift(k: int, f: int, h: int)
    ensures k * (f + 2 * h) == f * k + (2 * k) * h
  {
  }

  lemma {:induction false} MaskSplits(vout: seq<TxOut>, b: nat, q: nat, p: nat)
    requires q <= p
    ensures MaskBits(vout, b, p) == MaskBits(vout, b, q) + Pow2(q) * HighBits(vout, b, q, p)
    decreases p - q
  {
    if q < p {
      MaskSplits(vout, b, q + 1, p);
      DoubleShift(Pow2(q), Bit(Flag(vout, b, q)), HighBits(vout, b, q + 1, p));
    }
  }

  /** Bit p of a number, as `x & (1 << p)` tests it. */
  predicate BitAt(x: nat, p: nat) { Pow2(p) > 0 && x / Pow2(p) % 2 == 1 }

  /** Reading a mask byte's bits gives back what was written. */
  lemma MaskBitRead(vout: seq<TxOut>, b: nat, p: nat)
    requires p < 8
    ensures BitAt(MaskByte(vout, b), p) == Flag(vout, b, p)
  {
    MaskBitsBound(vout, b, p);
    MaskSplits(vout, b, p, 8);
    DivideOff(MaskBits(vout, b, p), Pow2(p), HighBits(vout, b, p, 8));
  }

  // ---------- Serialize ----------

  /** CalcMaskSize: the size of the mask and the number of its non-zero bytes. */
  method CalcMaskSize(vout: seq<TxOut>) returns (bytes: nat, nonzero: nat)
    ensures bytes == MaskSize(vout, MaskRange(vout))
    ensures nonzero == NonzeroBytes(vout, 0, bytes) == NonzeroBytes(vout, 0, MaskRange(vout))
  {
    var lastUsed := 0;
    nonzero := 0;
    var b := 0;
    while 2 + b * 8 < |vout|
      invariant b <= MaskRange(vout) && lastUsed == MaskSize(vout, b)
      invariant nonzero == NonzeroBytes(vout, 0, b) == NonzeroBytes(vout, 0, lastUsed)
    {
      var zero := true;
      var i := 0;
      while i < 8 && 2 + b * 8 + i < |vout|
        invariant 0 <= i <= 8
        invariant zero <==> forall j | 0 <= j < i :: !Flag(vout, b, j)
      {
        if !vout[2 + b * 8 + i].IsNull() {
          assert Flag(vout, b, i);
          zero := false;
        }
        i := i + 1;
      }
      assert zero <==> !ByteUsed(vout, b);
      NonzeroExtends(vout, 0, b);
      if !zero {
        lastUsed := b + 1;
        nonzero := nonzero + 1;
      }
      b := b + 1;
    }
    assert b == MaskRange(vout);
    bytes := lastUsed;
  }

  lemma {:induction false} NonzeroExtends(vout: seq<TxOut>, b: nat, n: nat)
    requires b <= n
    ensures NonzeroBytes(vout, b, n + 1) == NonzeroBytes(vout, b, n) + Bit(ByteUsed(vout, n))
    decreases n - b
  {
    if b < n { NonzeroExtends(vout, b + 1, n); }
  }

  /** The code word: how many mask bytes are not zero (less one when neither of the first two outputs
      is there, since then there must be one), above the four flags. */
  function CodeWord(c: Coins, nonzero: nat): int {
    var first, second := Avail(c.vout, 0), Avail(c.vout, 1);
    (16 * (nonzero - if first || second then 0 else 1)
     + Bit(c.coinBase) + 2 * Bit(c.coinStake) + 4 * Bit(first) + 8 * Bit(second)) % WORD
  }

  ghost function Outputs(vout: seq<TxOut>, n: nat): (r: seq<Item>)
    requires n <= |vout|
    ensures |r| <= n
  {
    if n == 0 then [] else Outputs(vout, n - 1) + if vout[n - 1].IsNull() then [] else [Output(vout[n - 1])]
  }

  /** What Serialize writes, item by item. */
  ghost predicate Encodes(c: Coins, w: seq<Item>) {
    var n := MaskSize(c.vout, MaskRange(c.vout));
    var outs := Outputs(c.vout, |c.vout|);
    && |w| == 3 + n + |outs|
    && w[0] == Varint(c.version) && w[1] == Varint(CodeWord(c, NonzeroBytes(c.vout, 0, n)))
    && (forall b | 0 <= b < n :: w[2 + b] == Byte(MaskByte(c.vout, b)))
    && w[2 + n..2 + n + |outs|] == outs
    && w[2 + n + |outs|] == Varint(c.height)
  }

  /** Serialize; the source asserts that something is unspent. */
  method Serialize(c: Coins) returns (w: seq<Item>)
    requires !c.IsPruned()
    ensures Encodes(c, w)
  {
    var maskSize, maskCode := CalcMaskSize(c.vout);
    var first := |c.vout| > 0 && !c.vout[0].IsNull();
    var second := |c.vout| > 1 && !c.vout[1].IsNull();
    SomethingIsWritten(c);
    assert first || second || maskCode > 0;
    w := [Varint(c.version), Varint(CodeWord(c, maskCode))];
    for b := 0 to maskSize
      invariant |w| == 2 + b && w[0] == Varint(c.version) && w[1] == Varint(CodeWord(c, maskCode))
      invariant forall a | 0 <= a < b :: w[2 + a] == Byte(MaskByte(c.vout, a))
    {
      var avail := 0;
      var i := 0;
      while i < 8 && 2 + b * 8 + i < |c.vout|
        invariant 0 <= i <= 8 && avail == MaskBits(c.vout, b, i)
      {
        // The bit is not set yet, so adding it is what |= does.
        if !c.vout[2 + b * 8 + i].IsNull() { avail := avail + Pow2(i); }
        i := i + 1;
      }
      MaskBitsBeyond(c.vout, b, i);
      w := w + [Byte(avail)];
    }
    ghost var w0 := w;
    for i := 0 to |c.vout|
      invariant w == w0 + Outputs(c.vout, i)
    {
      if !c.vout[i].IsNull() { w := w + [Output(c.vout[i])]; }
    }
    w := w + [Varint(c.height)];
  }

  lemma {:induction false} MaskBitsBeyond(vout: seq<TxOut>, b: nat, i: nat)
    requires i <= 8 && (i < 8 ==> 2 + b * 8 + i >= |vout|)
    ensures MaskBits(vout, b, i) == MaskByte(vout, b)
    decreases 8 - i
  {
    if i < 8 {
      assert !Flag(vout, b, i);
      MaskBitsBeyond(vout, b, i + 1);
    }
  }

  /** An unpruned transaction has an output that shows: one of the first two, or one in the mask. */
  lemma SomethingIsWritten(c: Coins)
    requires !c.IsPruned()
    ensures Avail(c.vout, 0) || Avail(c.vout, 1) || NonzeroBytes(c.vout, 0, MaskRange(c.vout)) > 0
  {
    var i :| 0 <= i < |c.vout| && !c.vout[i].IsNull();
    if i >= 2 {
      var b := (i - 2) / 8;
      assert Flag(c.vout, b, (i - 2) % 8);
      NonzeroCounts(c.vout, 0, b, MaskRange(c.vout));
    }
  }

  lemma {:induction false} NonzeroCounts(vout: seq<TxOut>, b: nat, a: nat, n: nat)
    requires b <= a < n && ByteUsed(vout, a)
    ensures NonzeroBytes(vout, b, n) > 0
    decreases n - b
  {
    if b < a { NonzeroCounts(vout, b + 1, a, n); }
  }

  // ---------- Unserialize ----------

  /** Spent outputs lose whatever else they held, and those at the end go. */
  function Canonical(vout: seq<TxOut>): seq<TxOut> {
    Trim(seq(|vout|, i requires 0 <= i < |vout| => if vout[i].IsNull() then NULL_OUT else vout[i]))
  }

  /** The outputs as the mask of n bytes lists them. */
  ghost function Listed(vout: seq<TxOut>, n: nat): seq<TxOut> {
    seq(2 + 8 * n, i => if 0 <= i && Avail(vout, i) then vout[i] else NULL_OUT)
  }

  lemma {:induction false} TrimExtend(q: seq<TxOut>, r: seq<TxOut>)
    requires q <= r && forall i | |q| <= i < |r| :: r[i].IsNull()
    ensures Trim(r) == Trim(q)
  {
    if |q| < |r| { TrimExtend(q, r[..|r| - 1]); } else { assert q == r; }
  }

  /** Trimmed outputs whose spent ones hold nothing else are in canonical form already. */
  lemma TrimmedIsCanonical(c: Coins)
    requires c.IsTrimmed() && forall i | 0 <= i < |c.vout| && c.vout[i].IsNull() :: c.vout[i] == NULL_OUT
    ensures Canonical(c.vout) == c.vout
  {
    var q := seq(|c.vout|, i requires 0 <= i < |c.vout| => if c.vout[i].IsNull() then NULL_OUT else c.vout[i]);
    assert q == c.vout;
    if q != [] { assert !q[|q| - 1].IsNull(); }
  }

  /** The mask lists every output that is left, so trimming the list gives the trimmed outputs. */
  lemma ListedIsCanonical(vout: seq<TxOut>, n: nat)
    requires n == MaskSize(vout, MaskRange(vout))
    ensures Trim(Listed(vout, n)) == Canonical(vout)
  {
    var q := seq(|vout|, i requires 0 <= i < |vout| => if vout[i].IsNull() then NULL_OUT else vout[i]);
    var r := Listed(vout, n);
    forall i | 2 + 8 * n <= i < |vout| ensures vout[i].IsNull() {
      var b := (i - 2) / 8;
      assert !ByteUsed(vout, b);
      assert !Flag(vout, b, (i - 2) % 8);
    }
    var m := if |q| < |r| then |q| else |r|;
    assert q[..m] == r[..m];
    TrimExtend(q[..m], q);
    TrimExtend(q[..m], r);
  }

  /** The code word holds the count in its upper 28 bits. */
  predicate CountFits(c: Coins, nonzero: int) {
    0 <= nonzero - (if Avail(c.vout, 0) || Avail(c.vout, 1) then 0 else 1) < WORD / 16
  }

  lemma FlagBits(r: nat, a: nat, b: nat, c: nat, d: nat)
    requires a <= 1 && b <= 1 && c <= 1 && d <= 1
    ensures var y := 16 * r + a + 2 * b + 4 * c + 8 * d;
            y % 2 == a && y / 2 % 2 == b && y / 4 % 2 == c && y / 8 % 2 == d && y / 16 == r
  {
    var y := 16 * r + a + 2 * b + 4 * c + 8 * d;
    assert y / 2 == 8 * r + b + 2 * c + 4 * d;
    assert y / 4 == 4 * r + c + 2 * d;
    assert y / 8 == 2 * r + d;
  }

  lemma FourFlags(m: nat, f: nat)
    requires f < 16
    ensures (16 * m + f) % WORD == 16 * (m % (WORD / 16)) + f
  {
    var k, r := m / (WORD / 16), m % (WORD / 16);
    assert 16 * m + f == (16 * r + f) + WORD * k;
    DivideOff(16 * r + f, WORD, k);
  }

  lemma BitIs(x: bool)
    ensures Bit(x) == if x then 1 else 0
  {
  }

  /** The four flags always come back out of the code word, and the count does exactly if it fits. */
  lemma CodeWordRead(c: Coins, nonzero: nat)
    requires Avail(c.vout, 0) || Avail(c.vout, 1) || nonzero > 0
    ensures var code := CodeWord(c, nonzero);
            && code >= 0
            && (code % 2 == 1) == c.coinBase && (code / 2 % 2 == 1) == c.coinStake
            && (code / 4 % 2 == 1) == Avail(c.vout, 0) && (code / 8 % 2 == 1) == Avail(c.vout, 1)
            && (code / 16 + (if Avail(c.vout, 0) || Avail(c.vout, 1) then 0 else 1) == nonzero <==> CountFits(c, nonzero))
  {
    hide Avail, Bit;
    BitIs(c.coinBase);
    BitIs(c.coinStake);
    BitIs(Avail(c.vout, 0));
    BitIs(Avail(c.vout, 1));
    var m := nonzero - if Avail(c.vout, 0) || Avail(c.vout, 1) then 0 else 1;
    WordRead(m, Bit(c.coinBase), Bit(c.coinStake), Bit(Avail(c.vout, 0)), Bit(Avail(c.vout, 1)));
  }

  lemma WordRead(m: nat, a: nat, b: nat, c: nat, d: nat)
    requires a <= 1 && b <= 1 && c <= 1 && d <= 1
    ensures var code := (16 * m + a + 2 * b + 4 * c + 8 * d) % WORD;
            && code >= 0 && code % 2 == a && code / 2 % 2 == b && code / 4 % 2 == c && code / 8 % 2 == d
            && (code / 16 == m <==> m < WORD / 16)
  {
    FourFlags(m, a + 2 * b + 4 * c + 8 * d);
    FlagBits(m % (WORD / 16), a, b, c, d);
  }

  /** It fits for up to 2 + 8 * (2^28 - 1) outputs, and if none of them is spent, for no more. */
  lemma CountAlwaysFits(c: Coins)
    requires !c.IsPruned()
    ensures |c.vout| <= 2147483642 ==> Serializable(c)
    ensures (forall i | 0 <= i < |c.vout| :: !c.vout[i].IsNull()) ==> (Serializable(c) <==> |c.vout| <= 2147483642)
  {
    SomethingIsWritten(c);
    if forall i | 0 <= i < |c.vout| :: !c.vout[i].IsNull() {
      assert Avail(c.vout, 0);
      AllBytesUsed(c.vout, 0);
    }
  }

  lemma {:induction false} AllBytesUsed(vout: seq<TxOut>, b: nat)
    requires b <= MaskRange(vout) && forall i | 0 <= i < |vout| :: !vout[i].IsNull()
    ensures NonzeroBytes(vout, b, MaskRange(vout)) == MaskRange(vout) - b
    decreases MaskRange(vout) - b
  {
    if b < MaskRange(vout) {
      assert Flag(vout, b, 0);
      AllBytesUsed(vout, b + 1);
    }
  }

  lemma {:induction false} MaskRangeBound(vout: seq<TxOut>, b: nat, n: nat)
    requires b <= n
    ensures NonzeroBytes(vout, b, n) == 0 ==> forall a | b <= a < n :: !ByteUsed(vout, a)
    decreases n - b
  {
    if b < n { MaskRangeBound(vout, b + 1, n); }
  }

  /** Read the mask bytes: the loop ends exactly at the last non-zero one. */
  method ReadMask(w: seq<Item>, first: bool, second: bool, maskCode0: nat, ghost vout: seq<TxOut>, ghost good: bool)
    returns (ok: bool, avail: seq<bool>, next: nat)
    requires |w| >= 2
    requires good ==> var n := MaskSize(vout, MaskRange(vout));
               && maskCode0 == NonzeroBytes(vout, 0, n) && 2 + n <= |w|
               && first == Avail(vout, 0) && second == Avail(vout, 1)
               && forall b | 0 <= b < n :: w[2 + b] == Byte(MaskByte(vout, b))
    ensures next <= |w|
    ensures good ==> var n := MaskSize(vout, MaskRange(vout));
              ok && next == 2 + n && |avail| == 2 + 8 * n && forall i | 0 <= i < |avail| :: avail[i] == Avail(vout, i)
  {
    avail := [first, second];
    next := 2;
    var maskCode := maskCode0;
    ghost var n, b := MaskSize(vout, MaskRange(vout)), 0;
    if good { MaskRangeBound(vout, 0, n); }
    while maskCode > 0
      invariant 2 <= next <= |w|
      invariant good ==> b <= n && next == 2 + b && maskCode == NonzeroBytes(vout, b, n)
      invariant good ==> |avail| == 2 + 8 * b && forall i | 0 <= i < |avail| :: avail[i] == Avail(vout, i)
      decreases |w| - next
    {
      if good { assert b < n; assert w[2 + b] == Byte(MaskByte(vout, b)); }
      if !(next < |w| && w[next].Byte?) { return false, avail, next; }
      var chAvail := w[next].b;
      next := next + 1;
      for p := 0 to 8
        invariant good ==> |avail| == 2 + 8 * b + p && forall i | 0 <= i < |avail| :: avail[i] == Avail(vout, i)
      {
        if good { MaskBitRead(vout, b, p); }
        avail := avail + [BitAt(chAvail, p)];
      }
      if good { MaskBitsBound(vout, b, 8); assert chAvail != 0 <==> ByteUsed(vout, b); }
      if chAvail != 0 { maskCode := maskCode - 1; }
      b := b + 1;
      if good { MaskRangeBound(vout, b, n); }
    }
    if good { MaskRangeBound(vout, b, n); assert n > 0 ==> ByteUsed(vout, n - 1); }
    ok := true;
  }

  /** Read the unspent outputs into their places. */
  method ReadOutputs(w: seq<Item>, avail: seq<bool>, at: nat, ghost orig: seq<TxOut>, ghost good: bool)
    returns (ok: bool, vout: seq<TxOut>, next: nat)
    requires at <= |w|
    requires good ==>
               var n, outs := MaskSize(orig, MaskRange(orig)), Outputs(orig, |orig|);
               && |avail| == 2 + 8 * n && (forall i | 0 <= i < |avail| :: avail[i] == Avail(orig, i))
               && at + |outs| <= |w| && w[at..at + |outs|] == outs
    ensures next <= |w|
    ensures good ==> ok && vout == Listed(orig, MaskSize(orig, MaskRange(orig))) && next == at + |Outputs(orig, |orig|)|
  {
    hide Listed, MaskRange;
    next := at;
    vout := seq(|avail|, i => NULL_OUT);
    ghost var outs, n := Outputs(orig, |orig|), MaskSize(orig, MaskRange(orig));
    for i := 0 to |avail|
      invariant |vout| == |avail| && at <= next <= |w|
      invariant good ==> forall j | 0 <= j < i :: vout[j] == if Avail(orig, j) then orig[j] else NULL_OUT
      invariant forall j | i <= j < |vout| :: vout[j] == NULL_OUT
      invariant good ==> next - at == |Outputs(orig, if i < |orig| then i else |orig|)|
    {
      if good && i < |orig| { NextOutput(w, at, orig, i); }
      if avail[i] {
        if !(next < |w| && w[next].Output?) { return false, vout, next; }
        vout := vout[i := w[next].out];
        next := next + 1;
      }
    }
    if good {
      ListedIs(orig, n, vout);
      NothingAfterMask(orig, n);
    }
    ok := true;
  }

  lemma NextOutput(w: seq<Item>, at: nat, orig: seq<TxOut>, i: nat)
    requires i < |orig| && at + |Outputs(orig, |orig|)| <= |w| && w[at..at + |Outputs(orig, |orig|)|] == Outputs(orig, |orig|)
    ensures Outputs(orig, i + 1) == Outputs(orig, i) + if orig[i].IsNull() then [] else [Output(orig[i])]
    ensures !orig[i].IsNull() ==> at + |Outputs(orig, i)| < |w| && w[at + |Outputs(orig, i)|] == Output(orig[i])
  {
    var outs := Outputs(orig, |orig|);
    OutputsGrow(orig, i, |orig|);
    if !orig[i].IsNull() {
      assert outs[|Outputs(orig, i)|] == Output(orig[i]);
      assert w[at..at + |outs|][|Outputs(orig, i)|] == w[at + |Outputs(orig, i)|];
    }
  }

  lemma ListedIs(orig: seq<TxOut>, n: nat, vout: seq<TxOut>)
    requires |vout| == 2 + 8 * n && forall j | 0 <= j < |vout| :: vout[j] == if Avail(orig, j) then orig[j] else NULL_OUT
    ensures vout == Listed(orig, n)
  {
  }

  /** Past the mask nothing is written. */
  lemma NothingAfterMask(orig: seq<TxOut>, n: nat)
    requires n == MaskSize(orig, MaskRange(orig))
    ensures Outputs(orig, if 2 + 8 * n < |orig| then 2 + 8 * n else |orig|) == Outputs(orig, |orig|)
  {
    forall i | 2 + 8 * n <= i < |orig| ensures orig[i].IsNull() {
      var b := (i - 2) / 8;
      assert !ByteUsed(orig, b);
      assert !Flag(orig, b, (i - 2) % 8);
    }
    OutputsDone(orig, if 2 + 8 * n < |orig| then 2 + 8 * n else |orig|, |orig|);
  }

  /** The count of non-zero mask bytes fits the code word. */
  predicate Serializable(c: Coins) {
    !c.IsPruned() && CountFits(c, NonzeroBytes(c.vout, 0, MaskRange(c.vout)))
  }

  /** Where everything is in the serialized form. */
  lemma Parts(c: Coins, w: seq<Item>)
    requires Serializable(c) && Encodes(c, w)
    ensures |w| >= 2 && w[0] == Varint(c.version) && w[1].Varint? && w[1].n >= 0
    ensures var code, n := w[1].n, MaskSize(c.vout, MaskRange(c.vout));
            && (code % 2 == 1) == c.coinBase && (code / 2 % 2 == 1) == c.coinStake
            && (code / 4 % 2 == 1) == Avail(c.vout, 0) && (code / 8 % 2 == 1) == Avail(c.vout, 1)
            && code / 16 + (if Avail(c.vout, 0) || Avail(c.vout, 1) then 0 else 1) == NonzeroBytes(c.vout, 0, n)
    ensures var n, outs := MaskSize(c.vout, MaskRange(c.vout)), Outputs(c.vout, |c.vout|);
            && 2 + n <= |w| && (forall b | 0 <= b < n :: w[2 + b] == Byte(MaskByte(c.vout, b)))
            && |w| == 3 + n + |outs| && w[2 + n..2 + n + |outs|] == outs && w[2 + n + |outs|] == Varint(c.height)
  {
    hide MaskByte, CodeWord;
    SomethingIsWritten(c);
    NonzeroUpTo(c.vout, MaskSize(c.vout, MaskRange(c.vout)), MaskRange(c.vout));
    CodeWordRead(c, NonzeroBytes(c.vout, 0, MaskSize(c.vout, MaskRange(c.vout))));
  }

  /** Unserialize. False stands for the exception thrown when the stream ends early or is of another
      shape. `orig` is any transaction this may be the serialized form of. */
  method Unserialize(w: seq<Item>, ghost orig: Coins) returns (ok: bool, c: Coins)
    ensures Serializable(orig) && Encodes(orig, w) ==> ok && c == orig.(vout := Canonical(orig.vout))
  {
    hide Encodes, Serializable, MaskSize, MaskRange, NonzeroBytes, Outputs, Listed, Canonical, MaskByte;
    ghost var good := Serializable(orig) && Encodes(orig, w);
    c := EMPTY_COINS;
    if good { Parts(orig, w); }
    if !(|w| >= 2 && w[0].Varint? && w[1].Varint? && w[1].n >= 0) { return false, c; }
    var code := w[1].n;
    var first, second := code / 4 % 2 == 1, code / 8 % 2 == 1;
    var maskCode := code / 16 + if first || second then 0 else 1;
    var avail, next;
    ok, avail, next := ReadMask(w, first, second, maskCode, orig.vout, good);
    if !ok { return false, c; }
    var vout;
    ok, vout, next := ReadOutputs(w, avail, next, orig.vout, good);
    if !ok { return false, c; }
    if good { ListedIsCanonical(orig.vout, MaskSize(orig.vout, MaskRange(orig.vout))); }
    if !(next < |w| && w[next].Varint?) { return false, c; }
    c := c.(version := w[0].n, coinBase := code % 2 == 1, coinStake := code / 2 % 2 == 1, vout := vout, height := w[next].n);
    c := c.Cleanup();
    ok := true;
  }

  lemma {:induction false} OutputsGrow(vout: seq<TxOut>, m: nat, n: nat)
    requires m < n <= |vout|
    ensures Outputs(vout, m + 1) <= Outputs(vout, n)
    decreases n - m
  {
    if m + 1 < n { OutputsGrow(vout, m, n - 1); }
  }

  lemma {:induction false} OutputsDone(vout: seq<TxOut>, m: nat, n: nat)
    requires m <= n <= |vout| && forall i | m <= i < n :: vout[i].IsNull()
    ensures Outputs(vout, m) == Outputs(vout, n)
  {
    if m < n { OutputsDone(vout, m, n - 1); }
  }

  lemma {:induction false} NonzeroUpTo(vout: seq<TxOut>, m: nat, n: nat)
    requires m <= n && forall b | m <= b < n :: !ByteUsed(vout, b)
    ensures NonzeroBytes(vout, 0, m) == NonzeroBytes(vout, 0, n)
  {
    if m < n { NonzeroUpTo(vout, m, n - 1); NonzeroExtends(vout, 0, n - 1); }
  }
}
