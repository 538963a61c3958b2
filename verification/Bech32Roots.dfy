/** Three wrong symbols within 1023: the generator has three successive powers of an element of
    GF(1024) as roots. Section "Checksum" of BIP 173. */
module Bech32Roots {
  import opened Bech32Checksum
  import opened Bech32Distance

  // ---------- GF(1024) ----------

  /** An element of GF(1024): a sum of powers of z below the tenth, z^10 being z^8 + z^5 + z + 1. */
  type Element = Remainder

  ghost predicate Small(c: Element) { c.bits < 0x400 }

  predicate Carry(c: Element) { c.bits & 0x200 != 0 }

  function Double(c: Element): Element { Remainder((c.bits & 0x1ff) << 1) }

  /** c times z. */
  function Z(c: Element): Element { Flip(Double(c), Carry(c), 0x123) }

  lemma DoublePlus(a: Element, b: Element)
    ensures Double(Plus(a, b)) == Plus(Double(a), Double(b))
  {
  }

  lemma CarryPlus(a: Element, b: Element)
    ensures Carry(Plus(a, b)) == (Carry(a) != Carry(b))
  {
  }

  lemma ZPlus(a: Element, b: Element)
    ensures Z(Plus(a, b)) == Plus(Z(a), Z(b))
  {
    hide Double, Carry, Flip, Plus;
    DoublePlus(a, b);
    CarryPlus(a, b);
    FlipIsLinear(Double(a), Double(b), Carry(a), Carry(b), 0x123);
  }

  lemma ZIs(c: Element)
    requires Small(c)
    ensures Small(Z(c)) && (Z(c) == ZERO <==> c == ZERO)
  {
  }

  /** c times z to the n. */
  function ZPow(c: Element, n: nat): Element { if n == 0 then c else Z(ZPow(c, n - 1)) }

  lemma {:induction false} ZPowAdd(c: Element, m: nat, n: nat)
    ensures ZPow(c, m + n) == ZPow(ZPow(c, m), n)
  {
    hide Z;
    if n > 0 { ZPowAdd(c, m, n - 1); }
  }

  lemma {:induction false} ZPowPlus(a: Element, b: Element, n: nat)
    ensures ZPow(Plus(a, b), n) == Plus(ZPow(a, n), ZPow(b, n))
  {
    hide Z, Plus;
    if n > 0 {
      ZPowPlus(a, b, n - 1);
      ZPlus(ZPow(a, n - 1), ZPow(b, n - 1));
    }
  }

  lemma {:induction false} ZPowIs(c: Element, n: nat)
    requires Small(c)
    ensures Small(ZPow(c, n)) && (ZPow(c, n) == ZERO <==> c == ZERO)
  {
    hide Z, Small;
    if n > 0 {
      ZPowIs(c, n - 1);
      ZIs(ZPow(c, n - 1));
    }
  }

  // ---------- GF(32) inside GF(1024) ----------

  predicate Has(a: bv32, k: bv32) { a & k != 0 }

  /** The constant in the low five bits of a. */
  function Lift(a: bv32): Element {
    Flip(Flip(Flip(Flip(Flip(ZERO, Has(a, 1), 0x1), Has(a, 2), 0xe), Has(a, 4), 0x54), Has(a, 8), 0x358), Has(a, 16), 0xbf)
  }

  lemma HasOne(a: Remainder, b: Remainder)
    ensures Has(Plus(a, b).bits, 1) == (Has(a.bits, 1) != Has(b.bits, 1))
  {
  }

  lemma HasTwo(a: Remainder, b: Remainder)
    ensures Has(Plus(a, b).bits, 2) == (Has(a.bits, 2) != Has(b.bits, 2))
  {
  }

  lemma HasFour(a: Remainder, b: Remainder)
    ensures Has(Plus(a, b).bits, 4) == (Has(a.bits, 4) != Has(b.bits, 4))
  {
  }

  lemma HasEight(a: Remainder, b: Remainder)
    ensures Has(Plus(a, b).bits, 8) == (Has(a.bits, 8) != Has(b.bits, 8))
  {
  }

  lemma HasSixteen(a: Remainder, b: Remainder)
    ensures Has(Plus(a, b).bits, 16) == (Has(a.bits, 16) != Has(b.bits, 16))
  {
  }

  lemma LiftPlus(a: Remainder, b: Remainder)
    ensures Lift(Plus(a, b).bits) == Plus(Lift(a.bits), Lift(b.bits))
  {
    hide Flip, Has, Plus;
    var x, y := a.bits, b.bits;
    HasOne(a, b);
    HasTwo(a, b);
    HasFour(a, b);
    HasEight(a, b);
    HasSixteen(a, b);
    PlusSelf(ZERO, ZERO);
    FlipIsLinear(ZERO, ZERO, Has(x, 1), Has(y, 1), 0x1);
    var a1, b1 := Flip(ZERO, Has(x, 1), 0x1), Flip(ZERO, Has(y, 1), 0x1);
    FlipIsLinear(a1, b1, Has(x, 2), Has(y, 2), 0xe);
    var a2, b2 := Flip(a1, Has(x, 2), 0xe), Flip(b1, Has(y, 2), 0xe);
    FlipIsLinear(a2, b2, Has(x, 4), Has(y, 4), 0x54);
    var a3, b3 := Flip(a2, Has(x, 4), 0x54), Flip(b2, Has(y, 4), 0x54);
    FlipIsLinear(a3, b3, Has(x, 8), Has(y, 8), 0x358);
    FlipIsLinear(Flip(a3, Has(x, 8), 0x358), Flip(b3, Has(y, 8), 0x358), Has(x, 16), Has(y, 16), 0xbf);
  }

  lemma LiftIs(a: Remainder)
    ensures Small(Lift(a.bits)) && Lift(1) == ONE
    ensures a.bits < 32 ==> (Lift(a.bits) == ZERO <==> a == ZERO)
  {
  }

  lemma LiftOfMultiple(a: Remainder)
    requires a.bits & 31 == 0
    ensures Lift(a.bits) == ZERO
  {
  }

  // ---------- Evaluation ----------

  /** The polynomial of which c holds the coefficients, without the last k ones, at z to the r. */
  function Value(c: Remainder, k: nat, r: nat): Element
    requires k <= 5
    decreases 5 - k
  {
    if k == 5 then Lift(Top(c, 5).bits) else Plus(ZPow(Value(c, k + 1, r), r), Lift(Top(c, k).bits))
  }

  lemma ShiftPlus(a: Remainder, b: Remainder)
    ensures Shift(Plus(a, b)) == Plus(Shift(a), Shift(b))
  {
  }

  lemma {:induction false} TopPlus(a: Remainder, b: Remainder, k: nat)
    ensures Top(Plus(a, b), k) == Plus(Top(a, k), Top(b, k))
  {
    hide Shift, Plus;
    if k > 0 {
      TopPlus(a, b, k - 1);
      ShiftPlus(Top(a, k - 1), Top(b, k - 1));
    }
  }

  lemma {:induction false} ValuePlus(a: Remainder, b: Remainder, k: nat, r: nat)
    requires k <= 5
    ensures Value(Plus(a, b), k, r) == Plus(Value(a, k, r), Value(b, k, r))
    decreases 5 - k
  {
    hide Plus, Lift, ZPow, Top;
    TopPlus(a, b, k);
    LiftPlus(Top(a, k), Top(b, k));
    if k < 5 {
      ValuePlus(a, b, k + 1, r);
      ZPowPlus(Value(a, k + 1, r), Value(b, k + 1, r), r);
      FourSum(ZPow(Value(a, k + 1, r), r), ZPow(Value(b, k + 1, r), r), Lift(Top(a, k).bits), Lift(Top(b, k).bits));
    }
  }

  lemma SmallSum(a: Element, b: Element)
    requires Small(a) && Small(b)
    ensures Small(Plus(a, b))
  {
  }

  /** Multiplying by x before the evaluation is multiplying by z to the r after it. */
  ghost predicate Evaluates(c: Remainder, r: nat) { Value(Step(c, 0), 0, r) == ZPow(Value(c, 0, r), r) }

  lemma EvaluatesPlus(a: Remainder, b: Remainder, r: nat)
    requires Evaluates(a, r) && Evaluates(b, r)
    ensures Evaluates(Plus(a, b), r)
  {
    hide Plus, Step, Value, ZPow;
    StepPlus(a, b);
    ValuePlus(a, b, 0, r);
    ValuePlus(Step(a, 0), Step(b, 0), 0, r);
    ZPowPlus(Value(a, 0, r), Value(b, 0, r), r);
  }

  lemma EvaluatesFlip(c: Remainder, on: bool, g: bv32, r: nat)
    requires Evaluates(c, r) && Evaluates(Remainder(g), r)
    ensures Evaluates(Flip(c, on, g), r)
  {
    hide Plus, Evaluates;
    if on { EvaluatesPlus(c, Remainder(g), r); }
  }

  lemma AppendBack(c: Remainder)
    requires Short(c)
    ensures Shift(Append(c, 0)) == c && Append(c, 0).bits & 31 == 0
  {
  }

  lemma {:induction false} TopOfAppended(c: Remainder, k: nat)
    requires Short(c)
    ensures Top(Append(c, 0), k + 1) == Top(c, k)
  {
    hide Append, Shift, Short;
    AppendBack(c);
    if k > 0 { TopOfAppended(c, k - 1); }
  }

  lemma {:induction false} ValueOfAppended(c: Remainder, k: nat, r: nat)
    requires Short(c) && k <= 4
    ensures Value(Append(c, 0), k + 1, r) == Value(c, k, r)
    decreases 4 - k
  {
    hide Append, Lift, ZPow, Top, Short, Plus;
    TopOfAppended(c, k);
    if k == 4 {
      TopOfShort(c);
      ZPowOfZero(r);
      PlusSelf(Lift(Top(c, 4).bits), ZERO);
    } else {
      ValueOfAppended(c, k + 1, r);
    }
  }

  lemma TopOfShort(c: Remainder)
    requires Short(c)
    ensures Lift(Top(c, 5).bits) == ZERO
  {
    hide Top;
    TopBelow(c, 5, 5);
    LiftIs(Top(c, 5));
  }

  lemma {:induction false} ZPowOfZero(n: nat)
    ensures ZPow(ZERO, n) == ZERO
  {
    if n > 0 { ZPowOfZero(n - 1); }
  }

  lemma EvaluatesShort(c: Remainder, r: nat)
    requires Short(c)
    ensures Evaluates(c, r)
  {
    hide Append, Lift, ZPow, Top, Short, Step, Plus;
    StepIsAppend(c);
    ValueOfAppended(c, 0, r);
    AppendBack(c);
    NoTop(Append(c, 0));
    LiftOfMultiple(Append(c, 0));
    PlusSelf(ZPow(Value(c, 0, r), r), ZERO);
    PlusZero(ZPow(Value(c, 0, r), r));
  }

  lemma NoTop(c: Remainder)
    ensures Top(c, 0) == c
  {
  }

  lemma PlusZero(c: Remainder)
    ensures Plus(c, ZERO) == c
  {
  }

  lemma StepIsAppend(c: Remainder)
    requires Short(c)
    ensures Step(c, 0) == Append(c, 0)
  {
    hide Step, Append, Scaled, Plus;
    AheadOne(c, 0);
    ScaledOne(0);
    assert (0 as bv32) & 31 == 0;
    PlusZero(Step(c, 0));
  }

  // ---------- The roots ----------

  /** c times the image of the generator of GF(32), which is z + z^2 + z^3. */
  function M(c: Element): Element { Plus(Plus(Z(c), Z(Z(c))), Z(Z(Z(c)))) }

  lemma LiftTimes(a: Remainder)
    ensures Lift(Times(a).bits) == M(Lift(a.bits))
  {
  }

  lemma FourOfFive(x: bv32)
    requires x < 0x4000_0000
    ensures ((x & 0x1ef7_bdef) << 1) >> 5 == ((x >> 5) & 0x1ef7_bdef) << 1
  {
  }

  lemma LowerThenDouble(x: bv32)
    requires x < 0x4000_0000
    ensures Lowered(DoubledBits(x)) == DoubledBits(Lowered(x))
  {
    assert DoubledBits(x) == (x & 0x1ef7_bdef) << 1;
    assert Lowered(DoubledBits(x)) == ((x & 0x1ef7_bdef) << 1) >> 5;
    assert Lowered(x) == x >> 5;
    assert DoubledBits(Lowered(x)) == ((x >> 5) & 0x1ef7_bdef) << 1;
    FourOfFive(x);
  }

  lemma ShiftDoubled(c: Remainder)
    requires Fits(c)
    ensures Shift(Doubled(c)) == Doubled(Shift(c))
  {
    hide Lowered, DoubledBits;
    LowerThenDouble(c.bits);
  }

  lemma ShiftCarried(c: Remainder)
    requires Fits(c)
    ensures Shift(Carried(c)) == Carried(Shift(c))
  {
  }

  lemma ShiftTimes(c: Remainder)
    requires Fits(c)
    ensures Shift(Times(c)) == Times(Shift(c))
  {
    hide Shift, Doubled, Carried, Plus;
    ShiftDoubled(c);
    ShiftCarried(c);
    ShiftPlus(Doubled(c), Carried(c));
  }

  lemma {:induction false} TopTimes(c: Remainder, k: nat)
    requires Fits(c) && k <= 5
    ensures Top(Times(c), k) == Times(Top(c, k))
  {
    hide Shift, Times, Fits, Below;
    if k > 0 {
      TopTimes(c, k - 1);
      BelowIs(c);
      TopBelow(c, 6, k - 1);
      ShiftTimes(Top(c, k - 1));
    }
  }

  lemma MPlus(a: Element, b: Element)
    ensures M(Plus(a, b)) == Plus(M(a), M(b))
  {
    hide Z, Plus;
    var a2, b2 := Z(Z(a)), Z(Z(b));
    ZPlus(a, b);
    ZPlus(Z(a), Z(b));
    ZPlus(a2, b2);
    FourSum(Z(a), Z(b), a2, b2);
    FourSum(Plus(Z(a), a2), Plus(Z(b), b2), Z(a2), Z(b2));
  }

  lemma {:induction false} MZPow(c: Element, n: nat)
    ensures M(ZPow(c, n)) == ZPow(M(c), n)
  {
    hide Z, Plus;
    if n > 0 {
      MZPow(c, n - 1);
      var d := ZPow(c, n - 1);
      ZPlus(Plus(Z(d), Z(Z(d))), Z(Z(Z(d))));
      ZPlus(Z(d), Z(Z(d)));
    }
  }

  lemma {:induction false} ValueTimes(c: Remainder, k: nat, r: nat)
    requires Fits(c) && k <= 5
    ensures Value(Times(c), k, r) == M(Value(c, k, r))
    decreases 5 - k
  {
    hide M, Plus, Times, Fits, Lift, Top, ZPow;
    TopTimes(c, k);
    LiftTimes(Top(c, k));
    if k < 5 {
      ValueTimes(c, k + 1, r);
      MZPow(Value(c, k + 1, r), r);
      MPlus(ZPow(Value(c, k + 1, r), r), Lift(Top(c, k).bits));
    }
  }

  lemma EvaluatesTimes(c: Remainder, r: nat)
    requires Fits(c) && Evaluates(c, r)
    ensures Evaluates(Times(c), r)
  {
    hide M, Times, Fits, Step, Value, ZPow;
    TimesStep(c);
    StepFits(c, 0);
    ValueTimes(c, 0, r);
    ValueTimes(Step(c, 0), 0, r);
    MZPow(Value(c, 0, r), r);
  }

  function Z4(c: Element): Element { Z(Z(Z(Z(c)))) }

  lemma ZPow4(c: Element)
    ensures ZPow(c, 1) == Z(c) && ZPow(c, 2) == Z(Z(c)) && ZPow(c, 4) == Z4(c)
  {
    hide Z;
    assert ZPow(c, 0) == c && ZPow(c, 1) == Z(c);
    assert ZPow(c, 2) == Z(Z(c));
    assert ZPow(c, 3) == Z(Z(Z(c)));
  }

  function Z24(c: Element): Element { Z4(Z4(Z4(Z4(Z4(Z4(c)))))) }

  /** One of the three exponents. */
  predicate Root(r: nat) { 24 <= r <= 26 }

  function ZRoot(c: Element, r: nat): Element
    requires Root(r)
  {
    if r == 24 then Z24(c) else if r == 25 then Z(Z24(c)) else Z(Z(Z24(c)))
  }

  lemma ZRootIs(c: Element, r: nat)
    requires Root(r)
    ensures ZPow(c, r) == ZRoot(c, r)
  {
    hide Z, Z4, ZPow;
    var c1 := Z4(c);
    var c2 := Z4(c1);
    var c3 := Z4(c2);
    var c4 := Z4(c3);
    var c5 := Z4(c4);
    ZPow4(c);
    ZPow4(c1);
    ZPow4(c2);
    ZPow4(c3);
    ZPow4(c4);
    ZPow4(c5);
    ZPow4(Z4(c5));
    ZPowAdd(c, 4, 4);
    ZPowAdd(c, 8, 4);
    ZPowAdd(c, 12, 4);
    ZPowAdd(c, 16, 4);
    ZPowAdd(c, 20, 4);
    ZPowAdd(c, 24, r - 24);
    assert r == 24 ==> ZPow(ZPow(c, 24), 0) == ZPow(c, 24) by { NoPower(ZPow(c, 24)); }
  }

  lemma NoPower(c: Element)
    ensures ZPow(c, 0) == c
  {
  }

  /** The fifth power of x, the last one that is not reduced. */
  const X5 := Remainder(0x200_0000)

  const X6 := Remainder(0x3b6a57b2)

  lemma ValueAt(c: Remainder, k: nat, r: nat)
    requires Root(r) && k <= 5
    ensures Value(c, k, r) == if k == 5 then Lift(Top(c, 5).bits) else Plus(ZRoot(Value(c, k + 1, r), r), Lift(Top(c, k).bits))
  {
    hide Lift, Top, ZPow, ZRoot, Plus;
    if k < 5 { ZRootIs(Value(c, k + 1, r), r); }
  }

  lemma TopsOfX5()
    ensures Top(X5, 0) == Remainder(0x2000000) && Top(X5, 1) == Remainder(0x100000) && Top(X5, 2) == Remainder(0x8000)
    ensures Top(X5, 3) == Remainder(0x400) && Top(X5, 4) == Remainder(0x20) && Top(X5, 5) == Remainder(0x1)
  {
    assert Top(X5, 0) == Remainder(0x2000000);
    assert Top(X5, 1) == Remainder(0x100000);
    assert Top(X5, 2) == Remainder(0x8000);
    assert Top(X5, 3) == Remainder(0x400);
    assert Top(X5, 4) == Remainder(0x20);
    assert Top(X5, 5) == Remainder(0x1);
  }

  lemma TopsOfX6()
    ensures Top(X6, 0) == Remainder(0x3b6a57b2) && Top(X6, 1) == Remainder(0x1db52bd) && Top(X6, 2) == Remainder(0xeda95)
    ensures Top(X6, 3) == Remainder(0x76d4) && Top(X6, 4) == Remainder(0x3b6) && Top(X6, 5) == Remainder(0x1d)
  {
    assert Top(X6, 0) == Remainder(0x3b6a57b2);
    assert Top(X6, 1) == Remainder(0x1db52bd);
    assert Top(X6, 2) == Remainder(0xeda95);
    assert Top(X6, 3) == Remainder(0x76d4);
    assert Top(X6, 4) == Remainder(0x3b6);
    assert Top(X6, 5) == Remainder(0x1d);
  }

  lemma LiftsOfX6()
    ensures Lift(0x3b6a57b2) == Remainder(0xb1) && Lift(0x1db52bd) == Remainder(0x3b2) && Lift(0xeda95) == Remainder(0xea)
    ensures Lift(0x76d4) == Remainder(0xeb) && Lift(0x3b6) == Remainder(0xe5) && Lift(0x1d) == Remainder(0x3b2)
  {
  }

  lemma X5At24()
    ensures Value(X5, 0, 24) == Remainder(0x9)
  {
    hide Value, Top;
    TopsOfX5();
    ValueAt(X5, 5, 24);
    assert Value(X5, 5, 24) == Remainder(0x1);
    ValueAt(X5, 4, 24);
    assert Value(X5, 4, 24) == Remainder(0x3f0);
    ValueAt(X5, 3, 24);
    assert Value(X5, 3, 24) == Remainder(0x24d);
    ValueAt(X5, 2, 24);
    assert Value(X5, 2, 24) == Remainder(0x2b9);
    ValueAt(X5, 1, 24);
    assert Value(X5, 1, 24) == Remainder(0xb9);
    ValueAt(X5, 0, 24);
  }

  lemma X6At24()
    ensures Value(X6, 0, 24) == Remainder(0x2ba)
  {
    hide Value, Top;
    TopsOfX6();
    LiftsOfX6();
    ValueAt(X6, 5, 24);
    ValueAt(X6, 4, 24);
    assert ZRoot(Remainder(0x3b2), 24) == Remainder(0x98);
    ValueAt(X6, 3, 24);
    assert ZRoot(Remainder(0x7d), 24) == Remainder(0x96);
    ValueAt(X6, 2, 24);
    assert ZRoot(Remainder(0x7d), 24) == Remainder(0x96);
    ValueAt(X6, 1, 24);
    assert ZRoot(Remainder(0x7c), 24) == Remainder(0x366);
    ValueAt(X6, 0, 24);
    assert ZRoot(Remainder(0xd4), 24) == Remainder(0x20b);
  }

  lemma X5At25()
    ensures Value(X5, 0, 25) == Remainder(0x120)
  {
    hide Value, Top;
    TopsOfX5();
    ValueAt(X5, 5, 25);
    assert Value(X5, 5, 25) == Remainder(0x1);
    ValueAt(X5, 4, 25);
    assert Value(X5, 4, 25) == Remainder(0x2c3);
    ValueAt(X5, 3, 25);
    assert Value(X5, 3, 25) == Remainder(0x372);
    ValueAt(X5, 2, 25);
    assert Value(X5, 2, 25) == Remainder(0x144);
    ValueAt(X5, 1, 25);
    assert Value(X5, 1, 25) == Remainder(0x1d6);
    ValueAt(X5, 0, 25);
  }

  lemma X6At25()
    ensures Value(X6, 0, 25) == Remainder(0xa6)
  {
    hide Value, Top;
    TopsOfX6();
    LiftsOfX6();
    ValueAt(X6, 5, 25);
    ValueAt(X6, 4, 25);
    assert ZRoot(Remainder(0x3b2), 25) == Remainder(0x130);
    ValueAt(X6, 3, 25);
    assert ZRoot(Remainder(0x1d5), 25) == Remainder(0x346);
    ValueAt(X6, 2, 25);
    assert ZRoot(Remainder(0x3ad), 25) == Remainder(0x83);
    ValueAt(X6, 1, 25);
    assert ZRoot(Remainder(0x69), 25) == Remainder(0x6d);
    ValueAt(X6, 0, 25);
    assert ZRoot(Remainder(0x3df), 25) == Remainder(0x17);
  }

  lemma X5At26()
    ensures Value(X5, 0, 26) == Remainder(0x27d)
  {
    hide Value, Top;
    TopsOfX5();
    ValueAt(X5, 5, 26);
    assert Value(X5, 5, 26) == Remainder(0x1);
    ValueAt(X5, 4, 26);
    assert Value(X5, 4, 26) == Remainder(0xa5);
    ValueAt(X5, 3, 26);
    assert Value(X5, 3, 26) == Remainder(0x2ad);
    ValueAt(X5, 2, 26);
    assert Value(X5, 2, 26) == Remainder(0x66);
    ValueAt(X5, 1, 26);
    assert Value(X5, 1, 26) == Remainder(0x3aa);
    ValueAt(X5, 0, 26);
  }

  lemma X6At26()
    ensures Value(X6, 0, 26) == Remainder(0x98)
  {
    hide Value, Top;
    TopsOfX6();
    LiftsOfX6();
    ValueAt(X6, 5, 26);
    ValueAt(X6, 4, 26);
    assert ZRoot(Remainder(0x3b2), 26) == Remainder(0x260);
    ValueAt(X6, 3, 26);
    assert ZRoot(Remainder(0x285), 26) == Remainder(0x41);
    ValueAt(X6, 2, 26);
    assert ZRoot(Remainder(0xaa), 26) == Remainder(0x1dd);
    ValueAt(X6, 1, 26);
    assert ZRoot(Remainder(0x137), 26) == Remainder(0x221);
    ValueAt(X6, 0, 26);
    assert ZRoot(Remainder(0x193), 26) == Remainder(0x29);
  }

  lemma X5Steps()
    ensures Step(X5, 0) == X6
  {
  }

  lemma VanishesAt24()
    ensures Evaluates(X5, 24)
  {
    hide Step, Value, ZPow;
    X5Steps();
    X5At24();
    X6At24();
    ZRootIs(Remainder(0x9), 24);
  }

  lemma VanishesAt25()
    ensures Evaluates(X5, 25)
  {
    hide Step, Value, ZPow;
    X5Steps();
    X5At25();
    X6At25();
    ZRootIs(Remainder(0x120), 25);
  }

  lemma VanishesAt26()
    ensures Evaluates(X5, 26)
  {
    hide Step, Value, ZPow;
    X5Steps();
    X5At26();
    X6At26();
    ZRootIs(Remainder(0x27d), 26);
  }

  lemma TimesX5()
    ensures Times(X5) == Remainder(0x400_0000) && Times(Times(X5)) == Remainder(0x800_0000)
    ensures Times(Times(Times(X5))) == Remainder(0x1000_0000) && Times(Times(Times(Times(X5)))) == Remainder(0x2000_0000)
    ensures Fits(X5) && Fits(Times(X5)) && Fits(Times(Times(X5))) && Fits(Times(Times(Times(X5))))
  {
  }

  function LowPart(c: Remainder): Remainder { Remainder(c.bits & 0x1ff_ffff) }

  function HighPart(c: Remainder): Remainder { Remainder(c.bits & 0x3e00_0000) }

  lemma SplitTop(c: Remainder)
    requires Fits(c)
    ensures Plus(LowPart(c), HighPart(c)) == c
  {
  }

  lemma LowIsShort(c: Remainder)
    ensures Short(LowPart(c)) && Short(ZERO)
  {
  }

  lemma HighBits(c: Remainder)
    requires Fits(c)
    ensures HighPart(c) == Flip(Flip(Flip(Flip(Flip(ZERO,
              Out(c, 1), 0x200_0000), Out(c, 2), 0x400_0000), Out(c, 4), 0x800_0000), Out(c, 8), 0x1000_0000), Out(c, 16), 0x2000_0000)
  {
  }

  /** Evaluation at the roots turns multiplication by x into multiplication by z to the r. */
  lemma EvaluatesAll(c: Remainder, r: nat)
    requires Fits(c) && Root(r)
    ensures Evaluates(c, r)
  {
    hide Evaluates, Short, Flip, Out, Fits, Times, LowPart, HighPart, Plus;
    TimesX5();
    if r == 24 { VanishesAt24(); } else if r == 25 { VanishesAt25(); } else { VanishesAt26(); }
    EvaluatesTimes(X5, r);
    EvaluatesTimes(Times(X5), r);
    EvaluatesTimes(Times(Times(X5)), r);
    EvaluatesTimes(Times(Times(Times(X5))), r);
    SplitTop(c);
    LowIsShort(c);
    HighBits(c);
    EvaluatesShort(LowPart(c), r);
    EvaluatesShort(ZERO, r);
    EvaluatesFlip(ZERO, Out(c, 1), 0x200_0000, r);
    var c1 := Flip(ZERO, Out(c, 1), 0x200_0000);
    EvaluatesFlip(c1, Out(c, 2), 0x400_0000, r);
    var c2 := Flip(c1, Out(c, 2), 0x400_0000);
    EvaluatesFlip(c2, Out(c, 4), 0x800_0000, r);
    var c3 := Flip(c2, Out(c, 4), 0x800_0000);
    EvaluatesFlip(c3, Out(c, 8), 0x1000_0000, r);
    EvaluatesFlip(Flip(c3, Out(c, 8), 0x1000_0000), Out(c, 16), 0x2000_0000, r);
    EvaluatesPlus(LowPart(c), HighPart(c), r);
  }

  lemma {:induction false} ValueOfZeros(c: Remainder, r: nat, n: nat, e: nat)
    requires Fits(c) && Root(r) && e == r * n
    ensures Value(Zeros(c, n), 0, r) == ZPow(Value(c, 0, r), e)
  {
    hide Value, ZPow, Fits, Step;
    if n == 0 {
      NoPower(Value(c, 0, r));
    } else {
      assert e - r == r * (n - 1) && e - r >= 0;
      ValueOfZeros(c, r, n - 1, e - r);
      ZerosFit(c, n - 1);
      EvaluatesAll(Zeros(c, n - 1), r);
      ZPowAdd(Value(c, 0, r), e - r, r);
    }
  }

  lemma {:induction false} ValueOfNothing(c: Remainder, k: nat, r: nat)
    requires k <= 5 && Top(c, k) == ZERO
    ensures Value(c, k, r) == ZERO
    decreases 5 - k
  {
    hide ZPow;
    if k < 5 {
      assert Top(c, k + 1) == ZERO;
      ValueOfNothing(c, k + 1, r);
      ZPowOfZero(r);
    }
  }

  lemma ValueOfConstant(c: Remainder, r: nat)
    requires IsConstant(c)
    ensures Value(c, 0, r) == Lift(c.bits)
  {
    hide ZPow, Lift;
    assert Top(c, 0) == c && Top(c, 1) == Shift(c) == ZERO;
    ValueOfNothing(c, 1, r);
    ZPowOfZero(r);
    PlusSelf(Lift(c.bits), ZERO);
  }

  // ---------- The order of z ----------

  predicate IsOne(d: nat) { ZPow(ONE, d) == ONE }

  lemma IsOnePlus(m: nat, n: nat)
    requires IsOne(m)
    ensures IsOne(m + n) <==> IsOne(n)
  {
    ZPowAdd(ONE, m, n);
  }

  lemma OneAtRoots(r: nat)
    requires Root(r)
    ensures ZPow(ONE, r * 1023) == ONE
  {
    hide Zeros, Value, ZPow, Lift;
    OneFits();
    OneIsConstant();
    OrderOfX();
    ValueOfZeros(ONE, r, 1023, r * 1023);
    ValueOfConstant(ONE, r);
    LiftIs(ONE);
  }

  lemma PowerOf99()
    ensures ZPow(ONE, 99) == Remainder(0xeb)
  {
    hide ZPow;
    NoPower(ONE);
    NextPower(0, 24, Remainder(0x1), Remainder(0x3f0));
    NextPower(24, 25, Remainder(0x3f0), Remainder(0x1b9));
    NextPower(49, 25, Remainder(0x1b9), Remainder(0xa2));
    NextPower(74, 25, Remainder(0xa2), Remainder(0xeb));
  }

  lemma PowerOf177()
    ensures ZPow(ONE, 177) == Remainder(0x3a7)
  {
    hide ZPow;
    PowerOf99();
    NextPower(99, 26, Remainder(0xeb), Remainder(0x120));
    NextPower(125, 26, Remainder(0x120), Remainder(0x14c));
    NextPower(151, 26, Remainder(0x14c), Remainder(0x3a7));
  }

  lemma PowerOf279()
    ensures ZPow(ONE, 279) == Remainder(0x19e)
  {
    hide ZPow;
    PowerOf177();
    NextPower(177, 26, Remainder(0x3a7), Remainder(0x47));
    NextPower(203, 26, Remainder(0x47), Remainder(0x323));
    NextPower(229, 25, Remainder(0x323), Remainder(0x3a0));
    NextPower(254, 25, Remainder(0x3a0), Remainder(0x19e));
  }

  lemma PowerOf195()
    ensures ZPow(ONE, 195) == Remainder(0x122)
  {
    hide ZPow;
    PowerOf99();
    NextPower(99, 24, Remainder(0xeb), Remainder(0x48));
    NextPower(123, 24, Remainder(0x48), Remainder(0x15c));
    NextPower(147, 24, Remainder(0x15c), Remainder(0x335));
    NextPower(171, 24, Remainder(0x335), Remainder(0x122));
  }

  lemma PowerOf291()
    ensures ZPow(ONE, 291) == Remainder(0x174)
  {
    hide ZPow;
    PowerOf195();
    NextPower(195, 24, Remainder(0x122), Remainder(0x290));
    NextPower(219, 24, Remainder(0x290), Remainder(0x208));
    NextPower(243, 24, Remainder(0x208), Remainder(0x1fa));
    NextPower(267, 24, Remainder(0x1fa), Remainder(0x174));
  }

  lemma PowerOf341()
    ensures ZPow(ONE, 341) == Remainder(0x36)
  {
    hide ZPow;
    PowerOf291();
    NextPower(291, 25, Remainder(0x174), Remainder(0x1cb));
    NextPower(316, 25, Remainder(0x1cb), Remainder(0x36));
  }

  lemma NextPower(m: nat, r: nat, c: Element, d: Element)
    requires ZPow(ONE, m) == c && Root(r) && ZRoot(c, r) == d
    ensures ZPow(ONE, m + r) == d
  {
    hide ZRoot;
    ZPowAdd(ONE, m, r);
    ZRootIs(c, r);
  }

  lemma OnesClosed()
    ensures Closed(IsOne)
  {
    hide IsOne;
    OneIsOne();
    forall m: nat, n: nat | IsOne(m) ensures IsOne(m + n) <==> IsOne(n) { IsOnePlus(m, n); }
  }

  lemma OneIsOne()
    ensures IsOne(0)
  {
  }

  /** z to the d is one exactly if 1023 divides d. */
  lemma OrderOfZ(d: nat)
    ensures IsOne(d) <==> d % 1023 == 0
  {
    hide Closed, ZPow;
    OneAtRoots(24);
    OneAtRoots(25);
    ZPowAdd(ONE, 24 * 1023, 1023);
    NoPower(ONE);
    PowerOf99();
    PowerOf279();
    PowerOf341();
    OnesClosed();
    if IsOne(33) { ClosedMultiple(IsOne, 33, 3); }
    if IsOne(93) { ClosedMultiple(IsOne, 93, 3); }
    Order(IsOne, d);
  }
}
