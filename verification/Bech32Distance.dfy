/** Two wrong symbols at any distance: GF(32) acts on the remainders, and the powers of x that are
    constants are those whose exponent 1023 divides. Section "Checksum" of BIP 173. */
module Bech32Distance {
  import opened Arithmetic
  import opened Bech32Checksum

  // ---------- Multiplication by the generator of GF(32) ----------

  /** Every coefficient times the generator: its five bits shifted, modulo a^5 + a^3 + 1. */
  function Times(c: Remainder): Remainder { Plus(Doubled(c), Carried(c)) }

  function Doubled(c: Remainder): Remainder { Remainder(DoubledBits(c.bits)) }

  function DoubledBits(x: bv32): bv32 { (x & 0x1ef7_bdef) << 1 }

  function Carried(c: Remainder): Remainder { Folded((c.bits >> 4) & 0x210_8421) }

  function Folded(h: bv32): Remainder { Remainder(h ^ (h << 3)) }

  lemma DoubledIsLinear(a: Remainder, b: Remainder)
    ensures Doubled(Plus(a, b)) == Plus(Doubled(a), Doubled(b))
  {
  }

  lemma CarriedIsLinear(a: Remainder, b: Remainder)
    ensures Carried(Plus(a, b)) == Plus(Carried(a), Carried(b))
  {
  }

  lemma FourSum(a: Remainder, b: Remainder, c: Remainder, d: Remainder)
    ensures Plus(Plus(a, b), Plus(c, d)) == Plus(Plus(a, c), Plus(b, d))
  {
    hide Plus;
    PlusRight(Plus(a, b), c, d);
    PlusLeft(a, c, b);
    PlusRight(Plus(a, c), b, d);
  }

  lemma TimesIsLinear(a: Remainder, b: Remainder)
    ensures Times(Plus(a, b)) == Plus(Times(a), Times(b))
  {
    hide Doubled, Carried, Plus;
    DoubledIsLinear(a, b);
    CarriedIsLinear(a, b);
    FourSum(Doubled(a), Doubled(b), Carried(a), Carried(b));
  }

  lemma TimesIsConstant(c: Remainder)
    requires Fits(c)
    ensures Fits(Times(c)) && (Times(c).bits < 32 <==> c.bits < 32) && (Times(c) == ZERO <==> c == ZERO)
  {
  }

  lemma TimesFlip(d: Remainder, on: bool, g: bv32, h: bv32)
    requires Times(Remainder(g)) == Remainder(h)
    ensures Times(Flip(d, on, g)) == Flip(Times(d), on, h)
  {
    hide Times, Plus;
    TimesIsLinear(d, Remainder(g));
  }

  lemma TimesGenerator()
    ensures Times(Remainder(0x3b6a57b2)) == Remainder(0x26508e6d) && Times(Remainder(0x26508e6d)) == Remainder(0x1ea119fa)
    ensures Times(Remainder(0x1ea119fa)) == Remainder(0x3d4233dd) && Times(Remainder(0x3d4233dd)) == Remainder(0x2a1462b3)
    ensures Times(Remainder(0x2a1462b3)) == Remainder(0x3b6a57b2 ^ 0x3d4233dd)
  {
  }

  lemma TimesOut(c: Remainder)
    requires Fits(c)
    ensures Out(Times(c), 1) == Out(c, 16) && Out(Times(c), 2) == Out(c, 1) && Out(Times(c), 4) == Out(c, 2)
    ensures Out(Times(c), 8) == (Out(c, 4) != Out(c, 16)) && Out(Times(c), 16) == Out(c, 8)
  {
  }

  lemma TimesShifted(c: Remainder)
    requires Fits(c)
    ensures Times(Shifted(c, 0)) == Shifted(Times(c), 0)
  {
    hide Doubled, Carried, Shifted, Plus;
    ShiftThenDouble(c);
    ShiftThenCarry(c);
    ShiftIsLinear(Doubled(c), Carried(c), 0, 0);
    assert (0 as bv8) ^ 0 == 0;
  }

  lemma EitherOrder(x: bv32)
    ensures (((x & 0x1ffffff) << 5) & 0x1ef7_bdef) << 1 == (((x & 0x1ef7_bdef) << 1) & 0x1ffffff) << 5
  {
  }

  lemma NoBits(x: bv32)
    ensures x ^ (0 as bv8 as bv32) == x
  {
  }

  lemma RaiseThenDouble(x: bv32)
    ensures DoubledBits(Raised(x)) == Raised(DoubledBits(x))
  {
    assert Raised(x) == (x & 0x1ffffff) << 5;
    assert DoubledBits(Raised(x)) == (((x & 0x1ffffff) << 5) & 0x1ef7_bdef) << 1;
    assert DoubledBits(x) == (x & 0x1ef7_bdef) << 1;
    assert Raised(DoubledBits(x)) == (((x & 0x1ef7_bdef) << 1) & 0x1ffffff) << 5;
    EitherOrder(x);
  }

  lemma ShiftThenDouble(c: Remainder)
    requires Fits(c)
    ensures Doubled(Shifted(c, 0)) == Shifted(Doubled(c), 0)
  {
    hide DoubledBits, Raised;
    RaiseThenDouble(c.bits);
    NoBits(Raised(c.bits));
    NoBits(Raised(DoubledBits(c.bits)));
  }

  lemma ShiftThenCarry(c: Remainder)
    requires Fits(c)
    ensures Carried(Shifted(c, 0)) == Shifted(Carried(c), 0)
  {
  }

  lemma FlipSwap(d: Remainder, p: bool, g: bv32, q: bool, h: bv32)
    ensures Flip(Flip(d, p, g), q, h) == Flip(Flip(d, q, h), p, g)
  {
    hide Plus;
    PlusLeft(d, Remainder(h), Remainder(g));
  }

  lemma FlipSplit(d: Remainder, p: bool, g: bv32, h: bv32)
    ensures Flip(d, p, g ^ h) == Flip(Flip(d, p, g), p, h)
  {
    hide Plus;
    PlusOf(g, h);
    PlusRight(d, Remainder(g), Remainder(h));
  }

  lemma PlusOf(g: bv32, h: bv32)
    ensures Plus(Remainder(g), Remainder(h)) == Remainder(g ^ h)
  {
  }

  lemma FlipTwice(d: Remainder, p: bool, q: bool, g: bv32)
    ensures Flip(Flip(d, p, g), q, g) == Flip(d, p != q, g)
  {
  }

  lemma Rearranged(d: Remainder, p: bool, q: bool, r: bool, s: bool, t: bool, g: bv32, h: bv32, i: bv32, j: bv32, k: bv32)
    ensures Flip(Flip(Flip(Flip(Flip(d, p, h), q, i), r, j), s, k), t, g ^ j)
         == Flip(Flip(Flip(Flip(Flip(d, t, g), p, h), q, i), r != t, j), s, k)
  {
    hide Flip;
    var d2 := Flip(Flip(d, p, h), q, i);
    var d3 := Flip(d2, r, j);
    FlipSplit(Flip(d3, s, k), t, g, j);
    FlipSwap(d3, s, k, t, g);
    FlipSwap(d2, r, j, t, g);
    FlipSwap(Flip(d, p, h), q, i, t, g);
    FlipSwap(d, p, h, t, g);
    var e2 := Flip(Flip(Flip(d, t, g), p, h), q, i);
    FlipSwap(Flip(e2, r, j), s, k, t, j);
    FlipTwice(e2, r, t, j);
  }

  /** Multiplying by a constant and by x commute. */
  lemma TimesStep(c: Remainder)
    requires Fits(c)
    ensures Times(Step(c, 0)) == Step(Times(c), 0)
  {
    hide Times, Flip, Plus, Out, Shifted;
    TimesOut(c);
    TimesShifted(c);
    TimesGenerator();
    var d := Shifted(c, 0);
    TimesFlip(d, Out(c, 1), 0x3b6a57b2, 0x26508e6d);
    var d1 := Flip(d, Out(c, 1), 0x3b6a57b2);
    TimesFlip(d1, Out(c, 2), 0x26508e6d, 0x1ea119fa);
    var d2 := Flip(d1, Out(c, 2), 0x26508e6d);
    TimesFlip(d2, Out(c, 4), 0x1ea119fa, 0x3d4233dd);
    var d3 := Flip(d2, Out(c, 4), 0x1ea119fa);
    TimesFlip(d3, Out(c, 8), 0x3d4233dd, 0x2a1462b3);
    var d4 := Flip(d3, Out(c, 8), 0x3d4233dd);
    TimesFlip(d4, Out(c, 16), 0x2a1462b3, 0x3b6a57b2 ^ 0x3d4233dd);
    Rearranged(Times(d), Out(c, 1), Out(c, 2), Out(c, 4), Out(c, 8), Out(c, 16),
      0x3b6a57b2, 0x26508e6d, 0x1ea119fa, 0x3d4233dd, 0x2a1462b3);
  }

  // ---------- Powers of x ----------

  /** c times x to the n. */
  function Zeros(c: Remainder, n: nat): Remainder { if n == 0 then c else Step(Zeros(c, n - 1), 0) }

  lemma StepPlus(a: Remainder, b: Remainder)
    ensures Step(Plus(a, b), 0) == Plus(Step(a, 0), Step(b, 0))
  {
    StepIsLinear(a, b, 0, 0);
  }

  lemma {:induction false} ZerosAdd(c: Remainder, m: nat, n: nat)
    ensures Zeros(c, m + n) == Zeros(Zeros(c, m), n)
  {
    hide Step;
    if n > 0 { ZerosAdd(c, m, n - 1); }
  }

  lemma {:induction false} ZerosFit(c: Remainder, n: nat)
    requires Fits(c)
    ensures Fits(Zeros(c, n)) && (Zeros(c, n) == ZERO <==> c == ZERO)
  {
    hide Step, Fits;
    if n > 0 {
      ZerosFit(c, n - 1);
      StepFits(Zeros(c, n - 1), 0);
      StepOfZero();
      if Zeros(c, n) == ZERO { StepIsInjective(Zeros(c, n - 1)); }
    }
  }

  lemma {:induction false} ZerosPlus(a: Remainder, b: Remainder, n: nat)
    ensures Zeros(Plus(a, b), n) == Plus(Zeros(a, n), Zeros(b, n))
  {
    hide Step, Plus;
    if n > 0 {
      ZerosPlus(a, b, n - 1);
      StepPlus(Zeros(a, n - 1), Zeros(b, n - 1));
    }
  }

  lemma {:induction false} ZerosTimes(c: Remainder, n: nat)
    requires Fits(c)
    ensures Zeros(Times(c), n) == Times(Zeros(c, n))
  {
    hide Step, Fits, Times;
    if n > 0 {
      ZerosTimes(c, n - 1);
      ZerosFit(c, n - 1);
      TimesStep(Zeros(c, n - 1));
    }
  }

  // ---------- Products ----------

  function Pick(on: bool, w: Remainder): Remainder { if on then w else ZERO }

  /** w times the constant in the low five bits of a. */
  function Scaled(a: bv32, w: Remainder): Remainder {
    var w1 := Times(w);
    var w2 := Times(w1);
    var w3 := Times(w2);
    Plus(Plus(Plus(Plus(Pick(a & 1 != 0, w), Pick(a & 2 != 0, w1)), Pick(a & 4 != 0, w2)), Pick(a & 8 != 0, w3)), Pick(a & 16 != 0, Times(w3)))
  }

  /** The first symbols of a remainder, without its last k ones. */
  function Top(v: Remainder, k: nat): Remainder { if k == 0 then v else Shift(Top(v, k - 1)) }

  function Shift(c: Remainder): Remainder { Remainder(Lowered(c.bits)) }

  function Lowered(x: bv32): bv32 { x >> 5 }

  /** v times w, modulo the generator: symbol by symbol of v, the highest first. */
  function Product(v: Remainder, w: Remainder): Remainder { Horner(v, 0, w) }

  function Horner(v: Remainder, k: nat, w: Remainder): Remainder
    requires k <= 5
    decreases 5 - k
  {
    if k == 5 then Scaled(Top(v, 5).bits, w) else Ahead(Horner(v, k + 1, w), Top(v, k).bits, w)
  }

  function Ahead(c: Remainder, a: bv32, w: Remainder): Remainder { Plus(Step(c, 0), Scaled(a, w)) }

  lemma StepPick(on: bool, w: Remainder)
    ensures Step(Pick(on, w), 0) == Pick(on, Step(w, 0))
  {
    StepOfZero();
  }

  lemma StepScaled(a: bv32, w: Remainder)
    requires Fits(w)
    ensures Step(Scaled(a, w), 0) == Scaled(a, Step(w, 0))
  {
    hide Step, Times, Plus, Fits, Pick;
    var w1 := Times(w);
    var w2 := Times(w1);
    var w3 := Times(w2);
    TimesIsConstant(w);
    TimesIsConstant(w1);
    TimesIsConstant(w2);
    TimesIsConstant(w3);
    TimesStep(w);
    TimesStep(w1);
    TimesStep(w2);
    TimesStep(w3);
    StepPick(a & 1 != 0, w);
    StepPick(a & 2 != 0, w1);
    StepPick(a & 4 != 0, w2);
    StepPick(a & 8 != 0, w3);
    StepPick(a & 16 != 0, Times(w3));
    var p, q, r := Pick(a & 1 != 0, w), Pick(a & 2 != 0, w1), Pick(a & 4 != 0, w2);
    StepPlus(p, q);
    StepPlus(Plus(p, q), r);
    StepPlus(Plus(Plus(p, q), r), Pick(a & 8 != 0, w3));
    StepPlus(Plus(Plus(Plus(p, q), r), Pick(a & 8 != 0, w3)), Pick(a & 16 != 0, Times(w3)));
  }

  lemma StepAhead(c: Remainder, a: bv32, w: Remainder)
    requires Fits(w)
    ensures Step(Ahead(c, a, w), 0) == Ahead(Step(c, 0), a, Step(w, 0))
  {
    hide Step, Plus, Scaled, Fits;
    StepPlus(Step(c, 0), Scaled(a, w));
    StepScaled(a, w);
  }

  lemma {:induction false} StepHorner(v: Remainder, k: nat, w: Remainder)
    requires Fits(w) && k <= 5
    ensures Step(Horner(v, k, w), 0) == Horner(v, k, Step(w, 0))
    decreases 5 - k
  {
    hide Step, Scaled, Ahead, Fits, Top;
    if k == 5 {
      StepScaled(Top(v, 5).bits, w);
    } else {
      StepHorner(v, k + 1, w);
      StepAhead(Horner(v, k + 1, w), Top(v, k).bits, w);
    }
  }

  lemma {:induction false} ZerosProduct(v: Remainder, w: Remainder, n: nat)
    requires Fits(w)
    ensures Zeros(Product(v, w), n) == Product(v, Zeros(w, n))
  {
    hide Step, Horner, Fits;
    if n > 0 {
      ZerosProduct(v, w, n - 1);
      ZerosFit(w, n - 1);
      StepHorner(v, 0, Zeros(w, n - 1));
    }
  }

  lemma ScaledOne(a: bv32)
    ensures Scaled(a, ONE) == Remainder(a & 31)
  {
  }

  function Append(c: Remainder, a: bv32): Remainder { Remainder((c.bits << 5) ^ (a & 31)) }

  predicate Short(c: Remainder) { c.bits < 0x200_0000 }

  lemma AheadOne(c: Remainder, a: bv32)
    requires Short(c)
    ensures Ahead(c, a, ONE) == Append(c, a)
  {
    hide Step, Scaled;
    StepAppends(c, 0);
    ScaledOne(a);
  }

  lemma ShiftBack(c: Remainder)
    requires Fits(c)
    ensures Append(Shift(c), c.bits) == c && Short(Shift(c))
  {
  }

  lemma ShiftBelow(c: Remainder, n: nat)
    requires n < 6 && Below(c, n + 1)
    ensures Below(Shift(c), n)
  {
  }

  lemma {:induction false} TopBelow(v: Remainder, n: nat, k: nat)
    requires k <= n <= 6 && Below(v, n)
    ensures Below(Top(v, k), n - k) && Fits(Top(v, k))
  {
    hide Below, Shift;
    if k > 0 {
      TopBelow(v, n, k - 1);
      ShiftBelow(Top(v, k - 1), n - k);
    }
    BelowFits(Top(v, k), n - k);
  }

  lemma BelowFits(c: Remainder, n: nat)
    requires n <= 6 && Below(c, n)
    ensures Fits(c)
  {
  }

  lemma OneSymbol(c: Remainder)
    requires Below(c, 1)
    ensures Remainder(c.bits & 31) == c
  {
  }

  lemma {:induction false} HornerOne(v: Remainder, k: nat)
    requires Fits(v) && k <= 5
    ensures Horner(v, k, ONE) == Top(v, k)
    decreases 5 - k
  {
    hide Ahead, Append, Scaled, Shift, Below, Fits, Short;
    BelowIs(v);
    TopBelow(v, 6, k);
    if k == 5 {
      ScaledOne(Top(v, 5).bits);
      OneSymbol(Top(v, 5));
    } else {
      HornerOne(v, k + 1);
      ShiftBack(Top(v, k));
      AheadOne(Top(v, k + 1), Top(v, k).bits);
    }
  }

  /** x to the m + n. */
  lemma PowerSum(m: nat, n: nat)
    ensures Zeros(ONE, m + n) == Product(Zeros(ONE, m), Zeros(ONE, n))
  {
    hide Horner, Step;
    ZerosFit(ONE, m);
    ZerosAdd(ONE, m, n);
    HornerOne(Zeros(ONE, m), 0);
    ZerosProduct(Zeros(ONE, m), ONE, n);
  }

  // ---------- Which powers of x are constants ----------

  /** No power of x but the lowest. */
  predicate IsConstant(c: Remainder) { c.bits < 32 }

  predicate Constant(d: nat) { IsConstant(Zeros(ONE, d)) }

  function TimesPower(c: Remainder, j: nat): Remainder { if j == 0 then c else Times(TimesPower(c, j - 1)) }

  lemma TimesKeepsConstant(c: Remainder)
    requires Fits(c)
    ensures Fits(Times(c)) && (IsConstant(Times(c)) <==> IsConstant(c))
  {
    TimesIsConstant(c);
  }

  lemma {:induction false} TimesPowerIs(c: Remainder, j: nat, d: nat)
    requires Fits(c)
    ensures Fits(TimesPower(c, j)) && (IsConstant(TimesPower(c, j)) <==> IsConstant(c))
    ensures Zeros(TimesPower(c, j), d) == TimesPower(Zeros(c, d), j)
  {
    hide Times, Fits, Zeros, IsConstant;
    if j > 0 {
      TimesPowerIs(c, j - 1, d);
      TimesKeepsConstant(TimesPower(c, j - 1));
      ZerosTimes(TimesPower(c, j - 1), d);
    }
  }

  /** The generator's powers are all the constants but zero. */
  lemma IsPower(e: Remainder) returns (j: nat)
    requires IsConstant(e) && e != ZERO
    ensures e == TimesPower(ONE, j)
  {
    Powers();
    match e.bits
    case 1 => j := 0;
    case 2 => j := 1;
    case 3 => j := 14;
    case 4 => j := 2;
    case 5 => j := 28;
    case 6 => j := 15;
    case 7 => j := 22;
    case 8 => j := 3;
    case 9 => j := 5;
    case 10 => j := 29;
    case 11 => j := 26;
    case 12 => j := 16;
    case 13 => j := 7;
    case 14 => j := 23;
    case 15 => j := 11;
    case 16 => j := 4;
    case 17 => j := 25;
    case 18 => j := 6;
    case 19 => j := 10;
    case 20 => j := 30;
    case 21 => j := 13;
    case 22 => j := 27;
    case 23 => j := 21;
    case 24 => j := 17;
    case 25 => j := 18;
    case 26 => j := 8;
    case 27 => j := 19;
    case 28 => j := 24;
    case 29 => j := 9;
    case 30 => j := 12;
    case 31 => j := 20;
  }

  lemma Powers()
    ensures TimesPower(ONE, 0) == Remainder(1) && TimesPower(ONE, 1) == Remainder(2) && TimesPower(ONE, 2) == Remainder(4) && TimesPower(ONE, 3) == Remainder(8)
    ensures TimesPower(ONE, 4) == Remainder(16) && TimesPower(ONE, 5) == Remainder(9) && TimesPower(ONE, 6) == Remainder(18) && TimesPower(ONE, 7) == Remainder(13)
    ensures TimesPower(ONE, 8) == Remainder(26) && TimesPower(ONE, 9) == Remainder(29) && TimesPower(ONE, 10) == Remainder(19) && TimesPower(ONE, 11) == Remainder(15)
    ensures TimesPower(ONE, 12) == Remainder(30) && TimesPower(ONE, 13) == Remainder(21) && TimesPower(ONE, 14) == Remainder(3) && TimesPower(ONE, 15) == Remainder(6)
    ensures TimesPower(ONE, 16) == Remainder(12) && TimesPower(ONE, 17) == Remainder(24) && TimesPower(ONE, 18) == Remainder(25) && TimesPower(ONE, 19) == Remainder(27)
    ensures TimesPower(ONE, 20) == Remainder(31) && TimesPower(ONE, 21) == Remainder(23) && TimesPower(ONE, 22) == Remainder(7) && TimesPower(ONE, 23) == Remainder(14)
    ensures TimesPower(ONE, 24) == Remainder(28) && TimesPower(ONE, 25) == Remainder(17) && TimesPower(ONE, 26) == Remainder(11) && TimesPower(ONE, 27) == Remainder(22)
    ensures TimesPower(ONE, 28) == Remainder(5) && TimesPower(ONE, 29) == Remainder(10) && TimesPower(ONE, 30) == Remainder(20)
  {
    assert TimesPower(ONE, 0) == Remainder(1) && TimesPower(ONE, 1) == Remainder(2) && TimesPower(ONE, 2) == Remainder(4) && TimesPower(ONE, 3) == Remainder(8);
    assert TimesPower(ONE, 4) == Remainder(16) && TimesPower(ONE, 5) == Remainder(9) && TimesPower(ONE, 6) == Remainder(18) && TimesPower(ONE, 7) == Remainder(13);
    assert TimesPower(ONE, 8) == Remainder(26) && TimesPower(ONE, 9) == Remainder(29) && TimesPower(ONE, 10) == Remainder(19) && TimesPower(ONE, 11) == Remainder(15);
    assert TimesPower(ONE, 12) == Remainder(30) && TimesPower(ONE, 13) == Remainder(21) && TimesPower(ONE, 14) == Remainder(3) && TimesPower(ONE, 15) == Remainder(6);
    assert TimesPower(ONE, 16) == Remainder(12) && TimesPower(ONE, 17) == Remainder(24) && TimesPower(ONE, 18) == Remainder(25) && TimesPower(ONE, 19) == Remainder(27);
    assert TimesPower(ONE, 20) == Remainder(31) && TimesPower(ONE, 21) == Remainder(23) && TimesPower(ONE, 22) == Remainder(7) && TimesPower(ONE, 23) == Remainder(14);
    assert TimesPower(ONE, 24) == Remainder(28) && TimesPower(ONE, 25) == Remainder(17) && TimesPower(ONE, 26) == Remainder(11) && TimesPower(ONE, 27) == Remainder(22);
    assert TimesPower(ONE, 28) == Remainder(5) && TimesPower(ONE, 29) == Remainder(10) && TimesPower(ONE, 30) == Remainder(20);
  }

  /** Whether a constant times x to the d is a constant does not depend on the constant. */
  lemma AnyConstant(e: Remainder, d: nat)
    requires IsConstant(e) && e != ZERO
    ensures IsConstant(Zeros(e, d)) <==> Constant(d)
  {
    hide Zeros, TimesPower, Fits, IsConstant;
    var j := IsPower(e);
    OneFits();
    TimesPowerIs(ONE, j, d);
    ZerosFit(ONE, d);
    TimesPowerIs(Zeros(ONE, d), j, 0);
  }

  lemma OneFits()
    ensures Fits(ONE) && ONE != ZERO
  {
  }

  lemma ConstantPlus(m: nat, n: nat)
    requires Constant(m)
    ensures Constant(m + n) <==> Constant(n)
  {
    hide Zeros;
    OneFits();
    ZerosFit(ONE, m);
    ZerosAdd(ONE, m, n);
    AnyConstant(Zeros(ONE, m), n);
  }

  lemma PowersTo33()
    ensures Zeros(ONE, 31) == Remainder(0x63b7a8b) && Zeros(ONE, 33) == Remainder(0x12386a75)
  {
    assert Zeros(ONE, 1) == Remainder(0x20);
    assert Zeros(ONE, 2) == Remainder(0x400);
    assert Zeros(ONE, 3) == Remainder(0x8000);
    assert Zeros(ONE, 4) == Remainder(0x100000);
    assert Zeros(ONE, 5) == Remainder(0x2000000);
    assert Zeros(ONE, 6) == Remainder(0x3b6a57b2);
    assert Zeros(ONE, 7) == Remainder(0x1fd7e966);
    assert Zeros(ONE, 8) == Remainder(0x424df38);
    assert Zeros(ONE, 9) == Remainder(0x22cb696d);
    assert Zeros(ONE, 10) == Remainder(0x81318a1);
    assert Zeros(ONE, 11) == Remainder(0x1cc20dda);
    assert Zeros(ONE, 12) == Remainder(0x1df21f0a);
    assert Zeros(ONE, 13) == Remainder(0x3bf0450a);
    assert Zeros(ONE, 14) == Remainder(0xc95be66);
    assert Zeros(ONE, 15) == Remainder(0x2a465b57);
    assert Zeros(ONE, 16) == Remainder(0x714461b);
    assert Zeros(ONE, 17) == Remainder(0x3fb21abf);
    assert Zeros(ONE, 18) == Remainder(0x228ec6ab);
    assert Zeros(ONE, 19) == Remainder(0xa6e061);
    assert Zeros(ONE, 20) == Remainder(0x14dc0c20);
    assert Zeros(ONE, 21) == Remainder(0x9339b0);
    assert Zeros(ONE, 22) == Remainder(0x12673600);
    assert Zeros(ONE, 23) == Remainder(0xacea46f);
    assert Zeros(ONE, 24) == Remainder(0x3c1fc3a8);
    assert Zeros(ONE, 25) == Remainder(0x2c5fb3f9);
    assert Zeros(ONE, 26) == Remainder(0x19138a04);
    assert Zeros(ONE, 27) == Remainder(0x1926aa7);
    assert Zeros(ONE, 28) == Remainder(0x324d54e0);
    assert Zeros(ONE, 29) == Remainder(0x25969adc);
    assert Zeros(ONE, 30) == Remainder(0x3e97b75e);
    assert Zeros(ONE, 31) == Remainder(0x63b7a8b);
    assert Zeros(ONE, 32) == Remainder(0x1a5588bf);
    assert Zeros(ONE, 33) == Remainder(0x12386a75);
  }

  lemma Power62()
    ensures Product(Remainder(0x63b7a8b), Remainder(0x63b7a8b)) == Remainder(0x388e92bb)
  {
    var v, w := Remainder(0x63b7a8b), Remainder(0x63b7a8b);
    assert Horner(v, 5, w) == Remainder(0xa59aebd);
    assert Horner(v, 4, w) == Remainder(0x24a73755);
    assert Horner(v, 3, w) == Remainder(0x3f956f19);
    assert Horner(v, 2, w) == Remainder(0x30dd0386);
    assert Horner(v, 1, w) == Remainder(0x27a39cff);
  }

  lemma Power93()
    ensures Product(Remainder(0x388e92bb), Remainder(0x63b7a8b)) == Remainder(0x2d3a1897)
  {
    var v, w := Remainder(0x388e92bb), Remainder(0x63b7a8b);
    assert Horner(v, 5, w) == Remainder(0x1adfa5db);
    assert Horner(v, 4, w) == Remainder(0x32f7de7f);
    assert Horner(v, 3, w) == Remainder(0x2e23166c);
    assert Horner(v, 2, w) == Remainder(0x35286353);
    assert Horner(v, 1, w) == Remainder(0x396472b9);
  }

  lemma Power155()
    ensures Product(Remainder(0x2d3a1897), Remainder(0x388e92bb)) == Remainder(0x30871444)
  {
    var v, w := Remainder(0x2d3a1897), Remainder(0x388e92bb);
    assert Horner(v, 5, w) == Remainder(0x3f44aba6);
    assert Horner(v, 4, w) == Remainder(0x2d051c41);
    assert Horner(v, 3, w) == Remainder(0x2e0b76dd);
    assert Horner(v, 2, w) == Remainder(0x1d7f199e);
    assert Horner(v, 1, w) == Remainder(0x3cc7575d);
  }

  lemma Power248()
    ensures Product(Remainder(0x30871444), Remainder(0x2d3a1897)) == Remainder(0x23a0d91b)
  {
    var v, w := Remainder(0x30871444), Remainder(0x2d3a1897);
    assert Horner(v, 5, w) == Remainder(0x2b660b6d);
    assert Horner(v, 4, w) == Remainder(0xa4c2467);
    assert Horner(v, 3, w) == Remainder(0x1a0c749d);
    assert Horner(v, 2, w) == Remainder(0x21dc94ac);
    assert Horner(v, 1, w) == Remainder(0x1b764634);
  }

  lemma Power341()
    ensures Product(Remainder(0x23a0d91b), Remainder(0x2d3a1897)) == Remainder(0x3ca763cb)
  {
    var v, w := Remainder(0x23a0d91b), Remainder(0x2d3a1897);
    assert Horner(v, 5, w) == Remainder(0x2f0e76c6);
    assert Horner(v, 4, w) == Remainder(0x29d7c03c);
    assert Horner(v, 3, w) == Remainder(0x2377645e);
    assert Horner(v, 2, w) == Remainder(0x22b70399);
    assert Horner(v, 1, w) == Remainder(0x2ecc231d);
  }

  lemma Power682()
    ensures Product(Remainder(0x3ca763cb), Remainder(0x3ca763cb)) == Remainder(0x25eded09)
  {
    var v, w := Remainder(0x3ca763cb), Remainder(0x3ca763cb);
    assert Horner(v, 5, w) == Remainder(0x39382b8d);
    assert Horner(v, 4, w) == Remainder(0x999a348);
    assert Horner(v, 3, w) == Remainder(0xce606e3);
    assert Horner(v, 2, w) == Remainder(0x305feaa9);
    assert Horner(v, 1, w) == Remainder(0x25932fc3);
  }

  lemma Power1023()
    ensures Product(Remainder(0x25eded09), Remainder(0x3ca763cb)) == Remainder(0x1)
  {
    var v, w := Remainder(0x25eded09), Remainder(0x3ca763cb);
    assert Horner(v, 5, w) == Remainder(0x33053b22);
    assert Horner(v, 4, w) == Remainder(0x35a34911);
    assert Horner(v, 3, w) == Remainder(0x6e85900);
    assert Horner(v, 2, w) == Remainder(0x3b65dfc);
    assert Horner(v, 1, w) == Remainder(0x18414f8);
  }

  /** The order of x is 1023, and no proper divisor of it gives a constant. */
  lemma OrderOfX()
    ensures !Constant(33) && !Constant(93) && !Constant(341) && Zeros(ONE, 1023) == ONE
  {
    hide Zeros, Product;
    PowersTo33();
    PowerSum(31, 31);
    Power62();
    PowerSum(62, 31);
    Power93();
    PowerSum(93, 62);
    Power155();
    PowerSum(155, 93);
    Power248();
    PowerSum(248, 93);
    Power341();
    PowerSum(341, 341);
    Power682();
    PowerSum(682, 341);
    Power1023();
  }

  lemma Divisors(g: nat)
    requires 0 < g < 1023 && 1023 % g == 0
    ensures 33 % g == 0 || 93 % g == 0 || 341 % g == 0
  {
    var q := 1023 / g;
    assert g * q == 1023;
    if g < 32 {
      SmallDivisor(g);
    } else {
      if q >= 32 { MulMono(q, 32, g); }
      DivideOff(0, q, g);
      SmallDivisor(q);
    }
  }

  lemma SmallDivisor(g: nat)
    requires 0 < g < 32 && 1023 % g == 0
    ensures g == 1 || g == 3 || g == 11 || g == 31
  {
  }

  /** A property of exponents that holds for sums and differences, like being a power that is one. */
  ghost predicate Closed(p: nat -> bool) {
    p(0) && forall m: nat, n: nat | p(m) :: p(m + n) <==> p(n)
  }

  lemma {:induction false} ClosedMultiple(p: nat -> bool, m: nat, k: nat)
    requires Closed(p) && p(m)
    ensures p(m * k)
  {
    if k > 0 {
      ClosedMultiple(p, m, k - 1);
      assert m + m * (k - 1) == m * k;
    }
  }

  lemma ClosedRemainder(p: nat -> bool, n: nat, m: nat)
    requires Closed(p) && p(m) && m > 0
    ensures p(n) <==> p(n % m)
  {
    ClosedMultiple(p, m, n / m);
    assert m * (n / m) + n % m == n;
  }

  lemma {:induction false} Least(p: nat -> bool, d: nat, g0: nat) returns (g: nat)
    requires 0 < g0 <= d && p(d) && forall k | 0 < k < g0 :: !p(k)
    ensures 0 < g <= d && p(g) && forall k | 0 < k < g :: !p(k)
    decreases d - g0
  {
    if p(g0) { g := g0; } else { g := Least(p, d, g0 + 1); }
  }

  /** What holds of 1023 but of none of its largest proper divisors holds of the multiples of 1023 only. */
  lemma Order(p: nat -> bool, d: nat)
    requires Closed(p) && p(1023) && !p(33) && !p(93) && !p(341)
    ensures p(d) <==> d % 1023 == 0
  {
    ClosedRemainder(p, d, 1023);
    var r := d % 1023;
    if r > 0 && p(r) {
      var g := Least(p, r, 1);
      ClosedRemainder(p, 1023, g);
      ClosedRemainder(p, 33, g);
      ClosedRemainder(p, 93, g);
      ClosedRemainder(p, 341, g);
      Divisors(g);
    }
  }

  lemma ConstantsClosed()
    ensures Closed(Constant)
  {
    hide Constant;
    OneIsConstant();
    forall m: nat, n: nat | Constant(m) ensures Constant(m + n) <==> Constant(n) { ConstantPlus(m, n); }
  }

  /** x to the d is a constant exactly if 1023 divides d. */
  lemma ConstantIff(d: nat)
    ensures Constant(d) <==> d % 1023 == 0
  {
    hide Closed, Zeros, IsConstant;
    OrderOfX();
    OneIsConstant();
    ConstantsClosed();
    Order(Constant, d);
  }

  lemma OneIsConstant()
    ensures IsConstant(ONE) && Zeros(ONE, 0) == ONE && Constant(0)
  {
  }

  /** x to the 1023 changes no constant, however often. */
  lemma {:induction false} WholeOrders(e: Remainder, k: nat)
    requires IsConstant(e) && e != ZERO
    ensures Zeros(e, 1023 * k) == e
  {
    hide Zeros, IsConstant, TimesPower, Fits;
    OneFits();
    var j := IsPower(e);
    OrderOfX();
    TimesPowerIs(ONE, j, 1023);
    if k == 0 {
      NoZeros(e);
    } else {
      WholeOrders(e, k - 1);
      ZerosAdd(e, 1023 * (k - 1), 1023);
    }
  }

  lemma NoZeros(c: Remainder)
    ensures Zeros(c, 0) == c && Zeros(c, 1) == Step(c, 0)
  {
    hide Step;
  }

  // ---------- Two wrong symbols ----------

  lemma {:induction false} PolyOfZeros(c: Remainder, d: Data)
    requires forall i | 0 <= i < |d| :: d[i] == 0
    ensures Poly(c, d) == Zeros(c, |d|)
    decreases |d|
  {
    hide Step;
    if d != [] {
      PolyOfZeros(Step(c, 0), d[1..]);
      NoZeros(c);
      ZerosAdd(c, 1, |d| - 1);
    }
  }

  function AsConstant(v: bv8): Remainder { Remainder(v as bv32) }

  lemma AsConstantIs(u: bv8, v: bv8)
    requires u < 32
    ensures IsConstant(AsConstant(u)) && Fits(AsConstant(u)) && (AsConstant(u) == ZERO <==> u == 0)
    ensures AsConstant(u) == AsConstant(v) <==> u == v
  {
  }

  lemma StepOnZero(v: bv8)
    requires v < 32
    ensures Step(ZERO, v) == AsConstant(v)
  {
    hide Step;
    StepAppends(ZERO, v);
  }

  lemma StepIsPlus(c: Remainder, v: bv8)
    requires v < 32
    ensures Step(c, v) == Plus(Step(c, 0), AsConstant(v))
  {
    hide Step, AsConstant;
    StepOnZero(v);
    StepIsLinear(c, ZERO, 0, v);
    assert Plus(c, ZERO) == c;
    assert 0 ^ v == v;
  }

  /** Two symbols, the second `apart` places after the first, cancel exactly if they are the same and
      1023 divides the distance. */
  lemma Cancels(u: bv8, v: bv8, apart: nat)
    requires 0 < u < 32 && 0 < v < 32
    ensures Plus(Zeros(AsConstant(u), apart), AsConstant(v)) == ZERO <==> u == v && apart % 1023 == 0
  {
    hide Zeros, Plus, IsConstant, AsConstant, Constant, Fits;
    AsConstantIs(u, v);
    AsConstantIs(v, u);
    PlusSelf(Zeros(AsConstant(u), apart), AsConstant(v));
    AnyConstant(AsConstant(u), apart);
    ConstantIff(apart);
    if apart % 1023 == 0 { WholeOrders(AsConstant(u), apart / 1023); }
  }

  /** x and y differ in the symbols i and j, and nowhere else. */
  ghost predicate DifferAt(x: Data, y: Data, i: nat, j: nat) {
    && i < j < |x| == |y| && x[i] != y[i] && x[j] != y[j]
    && forall k | 0 <= k < |x| && k != i && k != j :: x[k] == y[k]
  }

  lemma AppendSymbol(c: Remainder, d: Data, i: nat)
    requires i < |d|
    ensures Poly(c, d[..i + 1]) == Step(Poly(c, d[..i]), d[i])
  {
    hide Step;
    assert d[..i + 1] == d[..i] + [d[i]];
    PolyConcat(c, d[..i], [d[i]]);
  }

  lemma FirstSymbol(d: Data, i: nat)
    requires i < |d| && d[i] < 32 && forall k | 0 <= k < i :: d[k] == 0
    ensures Poly(ZERO, d[..i + 1]) == AsConstant(d[i])
  {
    hide Step, AsConstant, Poly;
    ZerosStay(d[..i]);
    AppendSymbol(ZERO, d, i);
    StepOnZero(d[i]);
  }

  /** From one symbol to the next that may not be zero. */
  lemma NextSymbol(d: Data, i: nat, j: nat)
    requires i < j < |d| && d[j] < 32 && forall k | i < k < j :: d[k] == 0
    ensures Poly(ZERO, d[..j + 1]) == Plus(Zeros(Poly(ZERO, d[..i + 1]), j - i), AsConstant(d[j]))
  {
    hide Step, Plus, Zeros, AsConstant, Poly;
    var u := Poly(ZERO, d[..i + 1]);
    assert d[..j] == d[..i + 1] + d[i + 1..j];
    PolyConcat(ZERO, d[..i + 1], d[i + 1..j]);
    PolyOfZeros(u, d[i + 1..j]);
    AppendSymbol(ZERO, d, j);
    StepIsPlus(Poly(ZERO, d[..j]), d[j]);
    ZerosAdd(u, j - i - 1, 1);
    NoZeros(Zeros(u, j - i - 1));
  }

  /** The zeros at the end cancel nothing. */
  lemma LastSymbol(d: Data, j: nat)
    requires j < |d| && Symbols(d) && forall k | j < k < |d| :: d[k] == 0
    ensures Poly(ZERO, d) == ZERO <==> Poly(ZERO, d[..j + 1]) == ZERO
  {
    hide Zeros, Poly, Fits;
    assert d == d[..j + 1] + d[j + 1..];
    PolyConcat(ZERO, d[..j + 1], d[j + 1..]);
    PolyOfZeros(Poly(ZERO, d[..j + 1]), d[j + 1..]);
    ZeroFits();
    PolyFits(ZERO, d[..j + 1]);
    ZerosFit(Poly(ZERO, d[..j + 1]), |d| - j - 1);
  }

  lemma ZeroFits()
    ensures Fits(ZERO)
  {
  }

  /** What is left of a list in which only the symbols i and j are not zero. */
  lemma TwoRemain(d: Data, i: nat, j: nat)
    requires i < j < |d| && 0 < d[i] < 32 && 0 < d[j] < 32 && forall k | 0 <= k < |d| && k != i && k != j :: d[k] == 0
    ensures Poly(ZERO, d) == ZERO <==> d[i] == d[j] && (j - i) % 1023 == 0
  {
    hide Step, Plus, Zeros, AsConstant, Poly;
    FirstSymbol(d, i);
    NextSymbol(d, i, j);
    LastSymbol(d, j);
    Cancels(d[i], d[j], j - i);
  }

  lemma DifferenceOfTwo(x: Data, y: Data, i: nat, j: nat)
    requires Symbols(x) && Symbols(y) && DifferAt(x, y, i, j)
    ensures var d := Xor(x, y);
            && 0 < d[i] < 32 && 0 < d[j] < 32 && d[i] == x[i] ^ y[i] && d[j] == x[j] ^ y[j]
            && forall k | 0 <= k < |d| && k != i && k != j :: d[k] == 0
  {
    forall k | 0 <= k < |x| ensures 0 <= x[k] ^ y[k] < 32 && (x[k] ^ y[k] == 0 <==> x[k] == y[k]) { XorSymbols(x[k], y[k]); }
  }

  /** Two lists that differ in exactly two symbols have the same checksum exactly if the symbols are
      changed alike and 1023 divides their distance. */
  lemma TwoDetected(x: Data, y: Data, i: nat, j: nat)
    requires Symbols(x) && Symbols(y) && DifferAt(x, y, i, j)
    ensures Poly(ONE, x) == Poly(ONE, y) <==> x[i] ^ y[i] == x[j] ^ y[j] && (j - i) % 1023 == 0
  {
    hide Plus, Poly, Xor;
    PolyIsLinear(ONE, ONE, x, y);
    PlusSelf(Poly(ONE, x), Poly(ONE, y));
    PlusSelf(ONE, ONE);
    DifferenceOfTwo(x, y, i, j);
    TwoRemain(Xor(x, y), i, j);
  }
}
