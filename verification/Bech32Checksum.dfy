/** The checksum of Bech32: a remainder in GF(32)[x], packed into 30 bits. Section "Checksum" of BIP 173. */
module Bech32Checksum {

  /** std::vector<uint8_t> */
  type Data = seq<bv8>

  ghost predicate Symbols(v: Data) { forall i | 0 <= i < |v| :: v[i] < 32 }

  // ---------- One step ----------

  /** Six coefficients in GF(32), five bits each. */
  datatype Remainder = Remainder(bits: bv32)

  const ZERO := Remainder(0)

  const ONE := Remainder(1)

  /** Addition in GF(32). */
  function Plus(a: Remainder, b: Remainder): Remainder { Remainder(a.bits ^ b.bits) }

  function Flip(d: Remainder, on: bool, g: bv32): Remainder { if on then Plus(d, Remainder(g)) else d }

  /** Whether a bit of the coefficient that is shifted out is set. */
  predicate Out(c: Remainder, k: bv32) { (c.bits >> 25) & k != 0 }

  function Shifted(c: Remainder, v: bv8): Remainder { Remainder(Raised(c.bits) ^ (v as bv32)) }

  /** Without the first symbol, and with room for a last one. */
  function Raised(x: bv32): bv32 { (x & 0x1ffffff) << 5 }

  /** Take one more symbol into the remainder. */
  function Step(c: Remainder, v: bv8): Remainder {
    Flip(Flip(Flip(Flip(Flip(Shifted(c, v),
      Out(c, 1), 0x3b6a57b2), Out(c, 2), 0x26508e6d), Out(c, 4), 0x1ea119fa), Out(c, 8), 0x3d4233dd), Out(c, 16), 0x2a1462b3)
  }

  lemma PlusLeft(a: Remainder, b: Remainder, g: Remainder)
    ensures Plus(Plus(a, g), b) == Plus(Plus(a, b), g)
  {
  }

  lemma PlusRight(a: Remainder, b: Remainder, g: Remainder)
    ensures Plus(a, Plus(b, g)) == Plus(Plus(a, b), g)
  {
  }

  lemma PlusBoth(a: Remainder, b: Remainder, g: Remainder)
    ensures Plus(Plus(a, g), Plus(b, g)) == Plus(a, b)
  {
  }

  lemma PlusSelf(a: Remainder, b: Remainder)
    ensures Plus(a, b) == ZERO <==> a == b
    ensures Plus(ZERO, a) == a
  {
  }

  lemma OutIsLinear(a: Remainder, b: Remainder)
    ensures Out(Plus(a, b), 1) == (Out(a, 1) != Out(b, 1))
    ensures Out(Plus(a, b), 2) == (Out(a, 2) != Out(b, 2))
    ensures Out(Plus(a, b), 4) == (Out(a, 4) != Out(b, 4))
    ensures Out(Plus(a, b), 8) == (Out(a, 8) != Out(b, 8))
    ensures Out(Plus(a, b), 16) == (Out(a, 16) != Out(b, 16))
  {
  }

  lemma ShiftIsLinear(a: Remainder, b: Remainder, u: bv8, v: bv8)
    ensures Shifted(Plus(a, b), u ^ v) == Plus(Shifted(a, u), Shifted(b, v))
  {
  }

  lemma FlipIsLinear(a: Remainder, b: Remainder, p: bool, q: bool, g: bv32)
    ensures Flip(Plus(a, b), p != q, g) == Plus(Flip(a, p, g), Flip(b, q, g))
  {
    hide Plus;
    PlusLeft(a, b, Remainder(g));
    PlusRight(a, b, Remainder(g));
    PlusBoth(a, b, Remainder(g));
  }

  lemma StepIsLinear(a: Remainder, b: Remainder, u: bv8, v: bv8)
    ensures Step(Plus(a, b), u ^ v) == Plus(Step(a, u), Step(b, v))
  {
    hide Flip, Out, Shifted, Plus;
    OutIsLinear(a, b);
    ShiftIsLinear(a, b, u, v);
    var a0, b0 := Shifted(a, u), Shifted(b, v);
    FlipIsLinear(a0, b0, Out(a, 1), Out(b, 1), 0x3b6a57b2);
    var a1, b1 := Flip(a0, Out(a, 1), 0x3b6a57b2), Flip(b0, Out(b, 1), 0x3b6a57b2);
    FlipIsLinear(a1, b1, Out(a, 2), Out(b, 2), 0x26508e6d);
    var a2, b2 := Flip(a1, Out(a, 2), 0x26508e6d), Flip(b1, Out(b, 2), 0x26508e6d);
    FlipIsLinear(a2, b2, Out(a, 4), Out(b, 4), 0x1ea119fa);
    var a3, b3 := Flip(a2, Out(a, 4), 0x1ea119fa), Flip(b2, Out(b, 4), 0x1ea119fa);
    FlipIsLinear(a3, b3, Out(a, 8), Out(b, 8), 0x3d4233dd);
    var a4, b4 := Flip(a3, Out(a, 8), 0x3d4233dd), Flip(b3, Out(b, 8), 0x3d4233dd);
    FlipIsLinear(a4, b4, Out(a, 16), Out(b, 16), 0x2a1462b3);
  }

  /** 30 bits are enough. */
  ghost predicate Fits(c: Remainder) { c.bits < 0x4000_0000 }

  lemma StepFits(c: Remainder, v: bv8)
    requires Fits(c) && v < 32
    ensures Fits(Step(c, v))
  {
  }

  /** Only a zero remainder is shifted to zero: the constant term of the generator is not zero. */
  lemma StepIsInjective(c: Remainder)
    requires Fits(c) && Step(c, 0) == ZERO
    ensures c == ZERO
  {
  }

  /** As long as nothing is shifted out, a symbol is appended. */
  lemma StepAppends(c: Remainder, v: bv8)
    requires c.bits < 0x200_0000 && v < 32
    ensures Step(c, v) == Remainder((c.bits << 5) ^ (v as bv32))
  {
    hide Plus, Out, Shifted;
    NothingOut(c);
    ShiftWhole(c, v);
  }

  lemma NothingOut(c: Remainder)
    requires c.bits < 0x200_0000
    ensures !Out(c, 1) && !Out(c, 2) && !Out(c, 4) && !Out(c, 8) && !Out(c, 16)
  {
  }

  lemma MaskWhole(x: bv32)
    requires x < 0x200_0000
    ensures x & 0x1ffffff == x
  {
  }

  lemma ShiftWhole(c: Remainder, v: bv8)
    requires c.bits < 0x200_0000
    ensures Shifted(c, v) == Remainder((c.bits << 5) ^ (v as bv32))
  {
    MaskWhole(c.bits);
  }

  // ---------- The whole list ----------

  /** The remainder after taking in the whole list, starting from c. */
  function Poly(c: Remainder, v: Data): Remainder
    decreases |v|
  {
    if v == [] then c else Poly(Step(c, v[0]), v[1..])
  }

  /** if (c0 & k) c ^= g; */
  method FlipIf(c: bv32, c0: bv32, k: bv32, g: bv32) returns (r: bv32)
    ensures Remainder(r) == Flip(Remainder(c), c0 & k != 0, g)
  {
    r := c;
    if c0 & k != 0 { r := r ^ g; }
  }

  /** The body of the loop of PolyMod. */
  method TakeIn(before: bv32, v: bv8) returns (c: bv32)
    ensures Remainder(c) == Step(Remainder(before), v)
  {
    hide Flip, Plus;
    var c0 := before >> 25;
    c := ((before & 0x1ffffff) << 5) ^ (v as bv32);
    c := FlipIf(c, c0, 1, 0x3b6a57b2);
    c := FlipIf(c, c0, 2, 0x26508e6d);
    c := FlipIf(c, c0, 4, 0x1ea119fa);
    c := FlipIf(c, c0, 8, 0x3d4233dd);
    c := FlipIf(c, c0, 16, 0x2a1462b3);
  }

  method PolyMod(v: Data) returns (c: bv32)
    ensures Remainder(c) == Poly(ONE, v)
  {
    hide Step;
    c := 1;
    assert v[0..] == v;
    for i := 0 to |v|
      invariant Poly(Remainder(c), v[i..]) == Poly(ONE, v)
    {
      c := TakeIn(c, v[i]);
      assert v[i..][1..] == v[i + 1..];
    }
  }

  function Xor(x: Data, y: Data): (z: Data)
    requires |x| == |y|
    ensures |z| == |x| && forall i | 0 <= i < |x| :: z[i] == x[i] ^ y[i]
  {
    seq(|x|, i requires 0 <= i < |x| => x[i] ^ y[i])
  }

  lemma XorSymbols(u: bv8, v: bv8)
    ensures u < 32 && v < 32 ==> u ^ v < 32
    ensures u ^ v == 0 <==> u == v
  {
  }

  /** Checksums of two lists differ by the checksum of their difference. */
  lemma {:induction false} PolyIsLinear(a: Remainder, b: Remainder, x: Data, y: Data)
    requires |x| == |y|
    ensures Plus(Poly(a, x), Poly(b, y)) == Poly(Plus(a, b), Xor(x, y))
    decreases |x|
  {
    hide Step, Plus;
    if x != [] {
      StepIsLinear(a, b, x[0], y[0]);
      assert Xor(x, y)[1..] == Xor(x[1..], y[1..]);
      PolyIsLinear(Step(a, x[0]), Step(b, y[0]), x[1..], y[1..]);
    }
  }

  lemma {:induction false} PolyConcat(c: Remainder, x: Data, y: Data)
    ensures Poly(c, x + y) == Poly(Poly(c, x), y)
    decreases |x|
  {
    hide Step;
    if x == [] {
      assert x + y == y;
    } else {
      assert (x + y)[1..] == x[1..] + y;
      PolyConcat(Step(c, x[0]), x[1..], y);
    }
  }

  lemma {:induction false} PolyFits(c: Remainder, v: Data)
    requires Fits(c) && Symbols(v)
    ensures Fits(Poly(c, v))
    decreases |v|
  {
    hide Step, Fits;
    if v != [] {
      StepFits(c, v[0]);
      PolyFits(Step(c, v[0]), v[1..]);
    }
  }

  // ---------- Six symbols in a row ----------

  /** Below 32^n. */
  ghost predicate Below(c: Remainder, n: nat)
    requires n <= 6
  {
    match n
    case 0 => c.bits < 1
    case 1 => c.bits < 0x20
    case 2 => c.bits < 0x400
    case 3 => c.bits < 0x8000
    case 4 => c.bits < 0x10_0000
    case 5 => c.bits < 0x200_0000
    case 6 => c.bits < 0x4000_0000
  }

  lemma AppendGrows(c: Remainder, v: bv8, n: nat)
    requires n < 6 && Below(c, n) && v < 32
    ensures Below(Step(c, v), n + 1)
    ensures Step(c, v) == ZERO <==> c == ZERO && v == 0
  {
    hide Step;
    StepAppends(c, v);
  }

  lemma BelowIs(c: Remainder)
    ensures Below(ZERO, 0) && (Below(c, 6) <==> Fits(c))
  {
  }

  /** A difference within the next 6 - n symbols, or before, is never cancelled by zeros that follow. */
  lemma {:induction false} WindowRemains(c: Remainder, d: Data, n: nat)
    requires n <= 6 && Below(c, n) && Symbols(d)
    requires forall i | 6 - n <= i < |d| :: d[i] == 0
    requires c != ZERO || exists i :: 0 <= i < |d| && d[i] != 0
    ensures Poly(c, d) != ZERO
    decreases |d|
  {
    hide Step, Below, Fits;
    if d != [] {
      var v := d[0];
      if c == ZERO && v == 0 {
        var i :| 0 <= i < |d| && d[i] != 0;
        assert d[1..][i - 1] != 0;
      }
      if n < 6 {
        AppendGrows(c, v, n);
        WindowRemains(Step(c, v), d[1..], n + 1);
      } else {
        BelowIs(c);
        StepFits(c, v);
        BelowIs(Step(c, v));
        if Step(c, 0) == ZERO { StepIsInjective(c); }
        WindowRemains(Step(c, v), d[1..], 6);
      }
    }
  }

  lemma {:induction false} ZerosStay(d: Data)
    requires forall i | 0 <= i < |d| :: d[i] == 0
    ensures Poly(ZERO, d) == ZERO
  {
    hide Step;
    if d != [] {
      StepOfZero();
      ZerosStay(d[1..]);
    }
  }

  lemma StepOfZero()
    ensures Step(ZERO, 0) == ZERO
  {
  }

  /** x and y differ only in the six symbols from k on. */
  ghost predicate DifferWithin(x: Data, y: Data, k: nat) {
    |x| == |y| && x != y && forall i | 0 <= i < |x| && !(k <= i < k + 6) :: x[i] == y[i]
  }

  lemma DifferenceRemains(x: Data, y: Data, d: Data, k: nat)
    requires Symbols(x) && Symbols(y) && DifferWithin(x, y, k) && d == Xor(x, y)
    ensures Poly(ZERO, d) != ZERO
  {
    hide Step, Below, Poly, Xor, DifferWithin;
    XorWithin(x, y, d, k);
    var head, tail := d[..k], d[k..];
    assert d == head + tail;
    ZerosStay(head);
    PolyConcat(ZERO, head, tail);
    var j :| k <= j < |d| && d[j] != 0;
    assert tail[j - k] != 0;
    assert forall i | 6 <= i < |tail| :: tail[i] == d[k + i];
    BelowIs(ZERO);
    WindowRemains(ZERO, tail, 0);
  }

  lemma XorWithin(x: Data, y: Data, d: Data, k: nat)
    requires Symbols(x) && Symbols(y) && DifferWithin(x, y, k) && d == Xor(x, y)
    ensures Symbols(d) && k < |d| && (forall i | 0 <= i < |d| && !(k <= i < k + 6) :: d[i] == 0)
    ensures exists j :: k <= j < |d| && d[j] != 0
  {
    forall i | 0 <= i < |x| ensures d[i] < 32 && (d[i] == 0 <==> x[i] == y[i]) { XorSymbols(x[i], y[i]); }
    var j :| 0 <= j < |x| && x[j] != y[j];
    assert d[j] != 0;
  }

  /** Every change confined to six symbols in a row changes the checksum, whatever the length. */
  lemma WindowDetected(x: Data, y: Data, k: nat)
    requires Symbols(x) && Symbols(y) && DifferWithin(x, y, k)
    ensures Poly(ONE, x) != Poly(ONE, y)
  {
    hide Plus, Poly;
    PolyIsLinear(ONE, ONE, x, y);
    PlusSelf(Poly(ONE, x), Poly(ONE, y));
    PlusSelf(ONE, ONE);
    DifferenceRemains(x, y, Xor(x, y), k);
  }
}
