/** base_uint: unsigned integers of BITS bits as an array of 32-bit limbs, changed in place. */
module ArithUint {
  import opened Arithmetic
  import opened UintValue
  import opened UintLemmas
  import opened UintShift
  import opened UintDivision

  class BaseUint {
    const pn: array<Limb>

    /** The number this object stands for. */
    function N(): (v: nat)
      reads pn
    {
      Value(pn[..])
    }

    /** 2^BITS. */
    ghost function Modulus(): nat { W(pn.Length) }

    lemma InRange()
      ensures N() < Modulus()
    {
      ValBound(pn[..], pn.Length);
    }

    constructor (width: nat)
      ensures fresh(pn) && pn.Length == width && N() == 0
    {
      pn := new Limb[width];
      new;
      for i := 0 to width
        invariant forall j | 0 <= j < i :: pn[j] == 0
      {
        pn[i] := 0;
      }
      ZeroVal(pn[..], width);
    }

    constructor Copy(b: BaseUint)
      ensures fresh(pn) && pn[..] == b.pn[..] && N() == b.N()
    {
      pn := new Limb[b.pn.Length];
      new;
      for i := 0 to pn.Length
        invariant pn[..i] == b.pn[..i]
      {
        pn[i] := b.pn[i];
      }
      assert pn[..] == b.pn[..];
    }

    /** operator=(uint64_t) */
    method Set(b: Uint64)
      requires pn.Length >= 2
      modifies pn
      ensures N() == b
    {
      pn[0] := b % B;
      pn[1] := b / B;
      for i := 2 to pn.Length
        invariant pn[0] == b % B && pn[1] == b / B && forall j | 2 <= j < i :: pn[j] == 0
      {
        pn[i] := 0;
      }
      HighZero(pn[..], 2, pn.Length);
      TwoLimbs(pn[..]);
    }

    /** operator+= */
    method Add(b: BaseUint)
      requires b.pn.Length == pn.Length
      modifies pn
      ensures N() == (old(N()) + old(b.N())) % Modulus()
    {
      hide W;
      var carry: Uint64 := 0;
      ghost var x, y := pn[..], b.pn[..];
      for i := 0 to pn.Length
        invariant carry <= 1
        invariant pn[i..] == x[i..] && b.pn[i..] == y[i..]
        invariant Val(pn[..], i) + carry * W(i) == Val(x, i) + Val(y, i)
      {
        ghost var before := pn[..];
        assert pn[i] == x[i] && b.pn[i] == y[i] by { assert pn[i..][0] == x[i..][0] && b.pn[i..][0] == y[i..][0]; }
        var n: Uint64 := carry + pn[i] + b.pn[i];
        Carry(n, W(i));
        WStep(i);
        assert n * W(i) == carry * W(i) + x[i] * W(i) + y[i] * W(i);
        pn[i] := n % B;
        carry := n / B;
        SameVal(pn[..], before, i);
      }
      ValBound(pn[..], pn.Length);
      Dropped(N(), W(pn.Length), carry, Value(x) + Value(y));
    }

    /** operator- */
    method Negate() returns (r: BaseUint)
      requires pn.Length > 0
      ensures fresh(r) && fresh(r.pn) && r.pn.Length == pn.Length
      ensures r.N() == (Modulus() - N()) % Modulus()
    {
      hide W;
      r := new BaseUint(pn.Length);
      for i := 0 to pn.Length
        invariant forall j | 0 <= j < i :: r.pn[j] == B - 1 - pn[j]
      {
        r.pn[i] := B - 1 - pn[i];
      }
      FlipVal(pn[..], r.pn[..], pn.Length);
      InRange();
      r.Increment();
    }

    /** operator-= */
    method Subtract(b: BaseUint)
      requires b.pn.Length == pn.Length > 0
      modifies pn
      ensures N() == (old(N()) - old(b.N())) % Modulus()
    {
      hide W, Value;
      ghost var x, y, m := N(), b.N(), Modulus();
      b.InRange();
      SubtractIs(x, y, m);
      var minus := b.Negate();
      Add(minus);
    }

    /** operator++ */
    method Increment()
      requires pn.Length > 0
      modifies pn
      ensures N() == (old(N()) + 1) % Modulus()
    {
      hide W, Val;
      var i := 0;
      ghost var x := pn[..];
      WStep(0);
      ValStep(x, 0);
      while true
        invariant i < pn.Length && pn[i..] == x[i..]
        invariant Val(pn[..], i) + W(i) == Val(x, i) + 1
        decreases pn.Length - i
      {
        ghost var before := pn[..];
        assert pn[i] == x[i] by { assert pn[i..][0] == x[i..][0]; }
        WStep(i);
        pn[i] := (pn[i] + 1) % B;
        SameVal(pn[..], before, i);
        ValStep(x, i);
        ValStep(pn[..], i);
        assert pn[i + 1..] == x[i + 1..];
        if !(pn[i] == 0 && i < pn.Length - 1) { break; }
        i := i + 1;
      }
      StepLimb(x[i], W(i));
      SameAbove(pn[..], x, i + 1, pn.Length);
      ValBound(pn[..], pn.Length);
      if pn[i] == 0 {
        Dropped(N(), W(pn.Length), 1, Value(x) + 1);
      } else {
        Dropped(N(), W(pn.Length), 0, Value(x) + 1);
      }
    }

    /** operator-- */
    method Decrement()
      requires pn.Length > 0
      modifies pn
      ensures N() == (old(N()) - 1) % Modulus()
    {
      hide W, Val;
      var i := 0;
      ghost var x := pn[..];
      WStep(0);
      ValStep(x, 0);
      while true
        invariant i < pn.Length && pn[i..] == x[i..]
        invariant Val(pn[..], i) + 1 == Val(x, i) + W(i)
        decreases pn.Length - i
      {
        ghost var before := pn[..];
        assert pn[i] == x[i] by { assert pn[i..][0] == x[i..][0]; }
        WStep(i);
        pn[i] := (pn[i] - 1) % B;
        SameVal(pn[..], before, i);
        ValStep(pn[..], i);
        ValStep(x, i);
        StepBack(x[i], W(i));
        assert pn[i + 1..] == x[i + 1..];
        if !(pn[i] == B - 1 && i < pn.Length - 1) { break; }
        i := i + 1;
      }
      SameAbove(pn[..], x, i + 1, pn.Length);
      ValBound(pn[..], pn.Length);
      if pn[i] == B - 1 {
        DivideOff(N(), W(pn.Length), -1);
      } else {
        DivideOff(N(), W(pn.Length), 0);
      }
    }

    /** operator+=(uint64_t) */
    method AddWord(b64: Uint64)
      requires pn.Length >= 2
      modifies pn
      ensures N() == (old(N()) + b64) % Modulus()
    {
      hide W, Value;
      var b := new BaseUint(pn.Length);
      b.Set(b64);
      Add(b);
    }

    /** operator-=(uint64_t) */
    method SubtractWord(b64: Uint64)
      requires pn.Length >= 2
      modifies pn
      ensures N() == (old(N()) - b64) % Modulus()
    {
      hide W, Value;
      var b := new BaseUint(pn.Length);
      b.Set(b64);
      b.InRange();
      SubtractIs(N(), b64, Modulus());
      var minus := b.Negate();
      Add(minus);
    }

    /** operator*=(uint32_t) */
    method MultiplyWord(b32: Limb)
      modifies pn
      ensures N() == (old(N()) * b32) % Modulus()
    {
      hide W;
      var carry: Uint64 := 0;
      ghost var x := pn[..];
      WStep(0);
      for i := 0 to pn.Length
        invariant carry < B && pn[i..] == x[i..]
        invariant Val(pn[..], i) + carry * W(i) == Val(x, i) * b32
      {
        ghost var before := pn[..];
        assert pn[i] == x[i] by { assert pn[i..][0] == x[i..][0]; }
        NoOverflow(carry, 0, b32, pn[i]);
        MulStep(carry, 0, b32, pn[i], W(i), 1);
        WStep(i);
        ThreeFactors(Val(x, i), x[i], W(i), b32);
        assert (b32 * (x[i] * W(i))) * 1 == x[i] * b32 * W(i) by { MulAssoc(b32, x[i], W(i)); MulComm(b32, x[i]); }
        var n: Uint64 := carry + b32 * pn[i];
        pn[i] := n % B;
        carry := n / B;
        SameVal(pn[..], before, i);
      }
      ValBound(pn[..], pn.Length);
      Dropped(N(), W(pn.Length), carry, Value(x) * b32);
    }

    /** The inner loop of operator*=: add aj times b, j limbs up. */
    method AddRow(aj: Limb, b: BaseUint, j: nat) returns (carry: Uint64)
      requires b.pn.Length == pn.Length && j < pn.Length
      modifies pn
      ensures b.pn != pn ==> N() + carry * Modulus() == old(N()) + aj * Val(b.pn[..], pn.Length - j) * W(j)
      ensures b.pn == pn && old(N()) == 0 ==> N() == 0
    {
      hide W, Val, RowSum;
      carry := 0;
      ghost var x, y := pn[..], b.pn[..];
      RowStart(aj, x, y, j);
      var i := 0;
      while i + j < pn.Length
        invariant i + j <= pn.Length && carry < B && pn[i + j..] == x[i + j..]
        invariant b.pn != pn ==> b.pn[..] == y && RowSum(pn[..], x, y, aj, i, j, carry)
        invariant b.pn == pn && Value(x) == 0 ==> carry == 0 && pn[..] == x
      {
        ghost var before, c := pn[..], carry;
        assert pn[i + j] == x[i + j] by { assert pn[i + j..][0] == x[i + j..][0]; }
        NoOverflow(carry, pn[i + j], aj, b.pn[i]);
        if b.pn == pn && Value(x) == 0 { AllZero(x); }
        var n: Uint64 := carry + pn[i + j] + aj * b.pn[i];
        pn[i + j] := n % B;
        carry := n / B;
        if b.pn != pn { RowNext(before, pn[..], x, y, aj, i, j, c, carry); }
        i := i + 1;
      }
      assert i + j == pn.Length;
      WAdd(i, j);
      if b.pn != pn { RowEnd(pn[..], x, y, aj, i, j, carry); }
    }

    /** operator*=. The product modulo 2^BITS, except that multiplying an object by itself gives zero:
        the argument is cleared together with the result. */
    method Multiply(b: BaseUint)
      requires b.pn.Length == pn.Length >= 2
      modifies pn
      ensures N() == if b.pn == pn then 0 else (old(N()) * old(b.N())) % Modulus()
    {
      hide W, Congruent;
      var a := new BaseUint.Copy(this);
      Set(0);
      ghost var x, y := a.pn[..], b.pn[..];
      CongruentBy(N(), 0, Modulus(), 0);
      for j := 0 to pn.Length
        invariant a.pn[..] == x
        invariant b.pn != pn ==> b.pn[..] == y && Congruent(N(), Val(x, j) * Value(y), Modulus())
        invariant b.pn == pn ==> N() == 0
      {
        ghost var before := N();
        var carry := AddRow(a.pn[j], b, j);
        if b.pn != pn { RowDone(x[j], y, j, N(), before, Val(x, j), carry, Value(y)); }
      }
      InRange();
      if b.pn != pn { CongruentRemainder(N(), Value(x) * Value(y), Modulus()); }
    }

    /** CompareTo */
    method CompareTo(b: BaseUint) returns (r: int)
      requires b.pn.Length == pn.Length
      ensures r == if N() < b.N() then -1 else if N() > b.N() then 1 else 0
    {
      for i := pn.Length downto 0
        invariant forall j | i <= j < pn.Length :: pn[j] == b.pn[j]
      {
        if pn[i] < b.pn[i] {
          HighestDecides(pn[..], b.pn[..], i, pn.Length);
          return -1;
        }
        if pn[i] > b.pn[i] {
          HighestDecides(b.pn[..], pn[..], i, pn.Length);
          return 1;
        }
      }
      assert pn[..] == b.pn[..];
      return 0;
    }

    /** EqualTo(uint64_t) */
    method EqualTo(b: Uint64) returns (r: bool)
      requires pn.Length >= 2
      ensures r <==> N() == b
    {
      for i := pn.Length downto 2
        invariant forall j | i <= j < pn.Length :: pn[j] == 0
      {
        if pn[i] != 0 {
          LimbBelow(pn[..], i, 2, pn.Length);
          return false;
        }
      }
      HighZero(pn[..], 2, pn.Length);
      TwoLimbs(pn[..]);
      if pn[1] != b / B { return false; }
      if pn[0] != b % B { return false; }
      return true;
    }

    /** GetLow64 */
    method GetLow64() returns (r: Uint64)
      requires pn.Length >= 2
      ensures r == N() % 0x1_0000_0000_0000_0000
    {
      hide W;
      Pow2Values();
      OrAdds(pn[1], pn[0], 32);
      r := Or(pn[0], B * pn[1]);
      TwoLimbs(pn[..]);
      WStep(0);
      WStep(1);
      CutOff(pn[..], 2, pn.Length);
      CongruentFlip(N(), Val(pn[..], 2), W(2));
      CongruentRemainder(r, N(), W(2));
    }

    /** bits: the number of bits up to the highest one set. */
    method Bits() returns (r: nat)
      ensures r == BitLength(N())
    {
      for pos := pn.Length downto 0
        invariant forall j | pos <= j < pn.Length :: pn[j] == 0
      {
        if pn[pos] != 0 {
          HighZero(pn[..], pos + 1, pn.Length);
          Pow2Values();
          for bits := 32 downto 1
            invariant pn[pos] < Pow2(bits)
          {
            PowPositive(2, bits);
            if pn[pos] / Pow2(bits) % 2 == 1 {
              TopBit(pn[..], pos, bits);
              return 32 * pos + bits + 1;
            }
            BitUnset(pn[pos], bits);
          }
          TopBit(pn[..], pos, 0);
          return 32 * pos + 1;
        }
      }
      HighZero(pn[..], 0, pn.Length);
      return 0;
    }

    /** operator<<= */
    method ShiftLeft(shift0: nat)
      modifies pn
      ensures N() == (old(N()) * Pow2(shift0)) % Modulus()
    {
      hide W, Lo, Hi, LeftLimb;
      var a := new BaseUint.Copy(this);
      ghost var x := a.pn[..];
      for i := 0 to pn.Length
        invariant forall j | 0 <= j < i :: pn[j] == 0
        invariant a.pn[..] == x
      {
        pn[i] := 0;
      }
      var k, shift := shift0 / 32, shift0 % 32;
      LeftNone(x, k, shift);
      for i := 0 to pn.Length
        invariant a.pn[..] == x
        invariant forall m | 0 <= m < pn.Length :: pn[m] == LeftLimb(x, k, shift, i, m)
      {
        LeftNext(x, k, shift, i);
        if i + k + 1 < pn.Length && shift != 0 {
          OrZero(Hi(a.pn[i], shift));
          pn[i + k + 1] := Or(pn[i + k + 1], Hi(a.pn[i], shift));
        }
        if i + k < pn.Length {
          pn[i + k] := Or(pn[i + k], Lo(a.pn[i], shift));
        }
      }
      LeftShifted(x, pn[..], k, shift);
    }

    /** operator>>= */
    method ShiftRight(shift0: nat)
      modifies pn
      ensures Pow2(shift0) > 0 && N() == old(N()) / Pow2(shift0)
    {
      hide W, Lo, Hi, RightLimb;
      var a := new BaseUint.Copy(this);
      ghost var x := a.pn[..];
      for i := 0 to pn.Length
        invariant forall j | 0 <= j < i :: pn[j] == 0
        invariant a.pn[..] == x
      {
        pn[i] := 0;
      }
      var k, shift := shift0 / 32, shift0 % 32;
      RightNone(x, k, shift);
      for i := 0 to pn.Length
        invariant a.pn[..] == x
        invariant forall m | 0 <= m < pn.Length :: pn[m] == RightLimb(x, k, shift, i, m)
      {
        RightNext(x, k, shift, i);
        if i - k - 1 >= 0 && shift != 0 {
          pn[i - k - 1] := Or(pn[i - k - 1], Lo(a.pn[i], 32 - shift));
        }
        if i - k >= 0 {
          OrZero(Hi(a.pn[i], 32 - shift));
          pn[i - k] := Or(pn[i - k], Hi(a.pn[i], 32 - shift));
        }
      }
      RightShifted(x, pn[..], k, shift);
    }

    /** operator/=. Without a divisor this fails, the object having been cleared already. The remainder
        is what is left in the local copy of the dividend. */
    method Divide(b: BaseUint) returns (ok: bool, ghost remainder: nat)
      requires b.pn.Length == pn.Length >= 2
      modifies pn
      ensures ok <==> old(b.N()) != 0
      ensures ok ==> N() == old(N()) / old(b.N()) && remainder == old(N()) % old(b.N())
      ensures !ok ==> N() == 0
    {
      hide W, Pow2, Value, Clear, Dividing;
      ghost var n, d := N(), b.N();
      InRange();
      var div := new BaseUint.Copy(b);
      var num := new BaseUint.Copy(this);
      Set(0);
      remainder := n;
      var numBits := num.Bits();
      var divBits := div.Bits();
      BitLengthIs(d);
      if divBits == 0 { return false, 0; }
      BitLengthIs(n);
      if divBits > numBits {
        SmallDividend(n, d);
        return true, n;
      }
      var shift: int := numBits - divBits;
      StartDividing(n, d, pn.Length);
      div.ShiftLeft(shift);
      ZeroIsClear(pn[..], shift + 1);
      while shift >= 0
        invariant -1 <= shift < 32 * pn.Length
        invariant Dividing(n, d, num.N(), N(), div.N(), shift)
        invariant Clear(pn[..], shift + 1)
        decreases shift
      {
        DivideRound(num, div, shift, n, d);
        shift := shift - 1;
      }
      remainder := num.N();
      DoneDividing(n, d, num.N(), N(), div.N());
      ok := true;
    }

    /** One round of the loop of operator/=: subtract if possible, then shift the divisor back. */
    method DivideRound(num: BaseUint, div: BaseUint, shift: nat, ghost n: nat, ghost d: nat)
      requires num.pn.Length == div.pn.Length == pn.Length && num.pn != div.pn && num.pn != pn && div.pn != pn
      requires shift < 32 * pn.Length && Dividing(n, d, num.N(), N(), div.N(), shift) && Clear(pn[..], shift + 1)
      modifies pn, num.pn, div.pn
      ensures Dividing(n, d, num.N(), N(), div.N(), shift - 1) && Clear(pn[..], shift)
    {
      hide W, Pow2, Value, Clear, Dividing, Or;
      ghost var x, y, q, before := num.N(), div.N(), N(), pn[..];
      SetBit(before, shift);
      NextRound(n, d, x, q, y, shift);
      num.InRange();
      SmallDifference(x, y, Modulus());
      var c := num.CompareTo(div);
      if c >= 0 {
        num.Subtract(div);
        pn[shift / 32] := Or(pn[shift / 32], Pow2(shift % 32));
        assert pn[..] == before[shift / 32 := Or(before[shift / 32], Pow2(shift % 32))];
      } else {
        StillClear(before, shift);
      }
      div.ShiftRight(1);
    }
  }

  /** Where the division loop stands. */
  ghost predicate Dividing(n: nat, d: nat, num: nat, q: nat, div: nat, shift: int)
    requires shift >= -1
  {
    && (shift >= 0 ==> div == d * Pow2(shift))
    && num + q * d == n && num < d * Pow2(shift + 1)
  }

  lemma StartDividing(n: nat, d: nat, m: nat)
    requires 0 < d && n < W(m) && BitLength(d) <= BitLength(n)
    ensures var shift := BitLength(n) - BitLength(d);
            shift < 32 * m && Dividing(n, d, n, 0, d * Pow2(shift) % W(m), shift)
  {
    hide Pow2, W;
    Aligned(n, d, m);
  }

  lemma DoneDividing(n: nat, d: nat, num: nat, q: nat, div: nat)
    requires Dividing(n, d, num, q, div, -1)
    ensures d > 0 && q == n / d && num == n % d
  {
    assert Pow2(0) == 1;
    QuotientIs(n, num, q, d);
  }

  lemma NextRound(n: nat, d: nat, num: nat, q: nat, div: nat, shift: nat)
    requires Dividing(n, d, num, q, div, shift)
    ensures Pow2(1) == 2
    ensures if num >= div then Dividing(n, d, num - div, q + Pow2(shift), div / 2, shift - 1)
            else Dividing(n, d, num, q, div / 2, shift - 1)
  {
    hide Pow2;
    Round(n, num, q, d, shift);
    if shift > 0 { HalveShifted(d, shift); }
    Pow2One();
  }

  lemma Pow2One()
    ensures Pow2(1) == 2
  {
  }

  lemma SmallDividend(n: nat, d: nat)
    requires BitLength(n) < BitLength(d)
    ensures d > 0 && 0 == n / d && n == n % d
  {
    BitLengthIs(n);
    BitLengthIs(d);
    Pow2Mono(BitLength(n), BitLength(d) - 1);
    DivideOff(n, d, 0);
  }

  lemma SmallDifference(x: nat, y: nat, m: nat)
    requires x < m
    ensures y <= x ==> (x - y) % m == x - y
  {
    if y <= x { DivideOff(x - y, m, 0); }
  }

  lemma StillClear(s: seq<Limb>, e: nat)
    requires Clear(s, e + 1)
    ensures Clear(s, e)
  {
    forall m | 0 <= m < |s| && 32 * m < e ensures s[m] % Pow2Of(if e - 32 * m < 32 then e - 32 * m else 32) == 0 {
      if e - 32 * m < 32 {
        assert s[m] % Pow2Of(e - 32 * m + 1) == 0;
        HalfDivides(s[m], e - 32 * m);
      } else {
        assert s[m] % Pow2Of(32) == 0;
      }
    }
  }

  lemma HalfDivides(x: nat, t: nat)
    requires x % Pow2Of(t + 1) == 0
    ensures x % Pow2Of(t) == 0
  {
    hide Pow2;
    var p, q := Pow2(t), x / Pow2Of(t + 1);
    Pow2Sum(0, t);
    PositivePow2(t);
    assert x == 2 * p * q;
    MulComm(2, p);
    MulAssoc(p, 2, q);
    DivideOff(0, p, 2 * q);
  }

  lemma LeftNone(x: seq<Limb>, k: nat, s: nat)
    requires s <= 32
    ensures forall m: nat :: LeftLimb(x, k, s, 0, m) == 0
  {
  }

  /** What one round of the loop of operator<<= does to each limb. */
  lemma LeftNext(x: seq<Limb>, k: nat, s: nat, i: nat)
    requires s < 32 && i < |x|
    ensures LeftLimb(x, k, s, i, i + k + 1) == 0 && LeftLimb(x, k, s, i + 1, i + k + 1) == Hi(x[i], s) < B
    ensures s == 0 ==> Hi(x[i], s) == 0
    ensures Or(LeftLimb(x, k, s, i, i + k), Lo(x[i], s)) == LeftLimb(x, k, s, i + 1, i + k) < B
    ensures forall m: nat | m != i + k && m != i + k + 1 :: LeftLimb(x, k, s, i + 1, m) == LeftLimb(x, k, s, i, m)
  {
    hide Lo, Hi, Or, Pow2;
    WordIs(s);
    LimbShift(x[i], s);
    Joined(0, 0, 0, s);
    if i > 0 {
      LimbShift(x[i - 1], s);
      Joined(Hi(x[i - 1], s), Lo(x[i], s), x[i] % Pow2(32 - s), s);
    } else {
      OrZero(Lo(x[i], s));
    }
    HiSmall(x[i], s);
  }

  lemma HiSmall(a: Limb, s: nat)
    requires s <= 32
    ensures Hi(a, s) < B && (s == 0 ==> Hi(a, s) == 0)
  {
    hide Pow2;
    WordIs(s);
    Pow2Values();
    LimbShift(a, s);
    if s == 0 {
      assert Pow2(0) == 1;
    }
  }

  lemma RightNone(x: seq<Limb>, k: nat, s: nat)
    requires s <= 32
    ensures forall m: nat :: RightLimb(x, k, s, 0, m) == 0
  {
  }

  /** What one round of the loop of operator>>= does to each limb. */
  lemma RightNext(x: seq<Limb>, k: nat, s: nat, i: nat)
    requires s < 32 && i < |x|
    ensures i >= k ==> RightLimb(x, k, s, i, i - k) == 0 && RightLimb(x, k, s, i + 1, i - k) == Hi(x[i], 32 - s) < B
    ensures i >= k + 1 ==>
      && Or(RightLimb(x, k, s, i, i - k - 1), Lo(x[i], 32 - s)) == RightLimb(x, k, s, i + 1, i - k - 1) < B
      && (s == 0 ==> RightLimb(x, k, s, i + 1, i - k - 1) == RightLimb(x, k, s, i, i - k - 1))
    ensures forall m: nat | m + k != i && m + k + 1 != i :: RightLimb(x, k, s, i + 1, m) == RightLimb(x, k, s, i, m)
  {
    hide Lo, Hi, Or, Pow2;
    WordIs(32 - s);
    LimbShift(x[i], 32 - s);
    HiSmall(x[i], 32 - s);
    if i >= k + 1 {
      LimbShift(x[i - 1], 32 - s);
      Joined(Hi(x[i - 1], 32 - s), Lo(x[i], 32 - s), x[i] % Pow2(32 - (32 - s)), 32 - s);
      if s == 0 { LoWord(x[i]); }
    }
  }

  lemma LoWord(a: Limb)
    ensures Lo(a, 32) == 0
  {
    Pow2Values();
    DivideOff(0, B, a);
  }

  lemma StepBack(x: Limb, w: nat)
    ensures var n := (x - 1) % B; n * w == x * w - w + if n == B - 1 then B * w else 0
  {
  }

  lemma RowStep(carry: Limb, aj: Limb, x: seq<Limb>, y: seq<Limb>, i: nat, j: nat, done: int)
    requires i < |y| && i + j < |x|
    requires done + carry * (W(i) * W(j)) == Val(x, i + j) + (aj * Val(y, i)) * W(j)
    ensures var n := carry + x[i + j] + aj * y[i];
            done + (n % B) * W(i + j) + (n / B) * (W(i + 1) * W(j)) == Val(x, i + j + 1) + (aj * Val(y, i + 1)) * W(j)
  {
    hide W;
    MulStep(carry, x[i + j], aj, y[i], W(i), W(j));
    WAdd(i, j);
    WStep(i);
    MulAssoc(B, W(i), W(j));
    var p, q := Val(y, i), y[i] * W(i);
    assert (aj * (p + q)) * W(j) == (aj * p) * W(j) + (aj * q) * W(j) by { Split(aj, p, q, W(j)); }
  }

  /** Where AddRow stands: i limbs of y, times aj, have been added to x from limb j on, up to the carry. */
  ghost predicate RowSum(s: seq<Limb>, x: seq<Limb>, y: seq<Limb>, aj: Limb, i: nat, j: nat, carry: nat) {
    && i + j <= |s| == |x| && i <= |y|
    && Val(s, i + j) + carry * (W(i) * W(j)) == Val(x, i + j) + (aj * Val(y, i)) * W(j)
  }

  lemma RowStart(aj: Limb, x: seq<Limb>, y: seq<Limb>, j: nat)
    requires j <= |x|
    ensures RowSum(x, x, y, aj, 0, j, 0)
  {
    hide W;
    ValStep(y, 0);
  }

  lemma RowNext(s: seq<Limb>, t: seq<Limb>, x: seq<Limb>, y: seq<Limb>, aj: Limb, i: nat, j: nat, c: Limb, carry: nat)
    requires RowSum(s, x, y, aj, i, j, c) && i < |y| && i + j < |x| && s[i + j] == x[i + j]
    requires var n := c + x[i + j] + aj * y[i]; t == s[i + j := n % B] && carry == n / B
    ensures RowSum(t, x, y, aj, i + 1, j, carry)
  {
    hide W, Val;
    RowStep(c, aj, x, y, i, j, Val(s, i + j));
    SameVal(t, s, i + j);
    ValStep(t, i + j);
  }

  lemma RowEnd(s: seq<Limb>, x: seq<Limb>, y: seq<Limb>, aj: Limb, i: nat, j: nat, carry: nat)
    requires RowSum(s, x, y, aj, i, j, carry) && i + j == |s|
    ensures Value(s) + carry * W(|s|) == Value(x) + aj * Val(y, i) * W(j)
  {
    hide W, Val;
    WAdd(i, j);
  }

  lemma Split(a: int, p: int, q: int, w: int)
    ensures (a * (p + q)) * w == (a * p) * w + (a * q) * w
  {
    assert a * (p + q) == a * p + a * q;
  }

  lemma {:induction false} LimbBelow(s: seq<Limb>, i: nat, k: nat, n: nat)
    requires k <= i < n <= |s| && s[i] != 0
    ensures Val(s, n) >= W(k)
  {
    hide W;
    if i < n - 1 {
      LimbBelow(s, i, k, n - 1);
    } else {
      MulMono(W(i), 1, s[i]);
      WAdd(k, i - k);
      MulMono(W(k), 1, W(i - k));
    }
  }

  lemma AllZero(s: seq<Limb>)
    requires Value(s) == 0
    ensures forall i | 0 <= i < |s| :: s[i] == 0
  {
    forall i | 0 <= i < |s| ensures s[i] == 0 {
      if s[i] != 0 { LimbBelow(s, i, 0, |s|); }
    }
  }

  lemma BitUnset(x: nat, bits: nat)
    requires x < Pow2(bits + 1) && Pow2(bits) > 0 && x / Pow2(bits) % 2 != 1
    ensures x < Pow2(bits)
  {
    var p := Pow2(bits);
    if x >= p { DivideOff(x - p, p, 1); }
  }

  /** A limb with its highest bit at `bits`, all limbs above it zero. */
  lemma TopBit(s: seq<Limb>, pos: nat, bits: nat)
    requires pos < |s| && bits < 32 && Val(s, |s|) == Val(s, pos + 1)
    requires Pow2(bits) > 0 && s[pos] < Pow2(bits + 1) && s[pos] / Pow2(bits) % 2 == 1
    ensures BitLength(Value(s)) == 32 * pos + bits + 1
  {
    hide W, Pow2;
    var p, w := Pow2(bits), W(pos);
    if s[pos] < p { DivideOff(s[pos], p, 0); }
    NextPow2(bits);
    WIsPow2(pos);
    Pow2Add(bits, 32 * pos);
    Pow2Add(bits + 1, 32 * pos);
    ValBound(s, pos);
    Scaled(p, s[pos], Val(s, pos), w);
    BitLengthUnique(Value(s), 32 * pos + bits + 1);
  }

  lemma Scaled(p: nat, x: nat, low: nat, w: nat)
    requires p <= x < 2 * p && low < w
    ensures p * w <= low + x * w < (2 * p) * w
  {
    MulMono(w, p, x);
    MulMono(w, x + 1, 2 * p);
  }

  lemma TwoLimbs(s: seq<Limb>)
    requires |s| >= 2
    ensures Val(s, 2) == s[0] + B * s[1]
  {
    assert Val(s, 1) == s[0];
    WStep(0);
  }

  lemma SubtractIs(x: int, y: nat, m: nat)
    requires y < m
    ensures (x + (m - y) % m) % m == (x - y) % m
  {
    var z := (m - y) % m;
    assert z == if y == 0 then 0 else m - y by {
      if y == 0 { DivideOff(0, m, 1); } else { DivideOff(m - y, m, 0); }
    }
    var q, r := (x - y) / m, (x - y) % m;
    if y == 0 {
    } else {
      assert x + z == r + m * (q + 1);
      DivideOff(r, m, q + 1);
    }
  }

  lemma StepLimb(x: Limb, w: nat)
    ensures var n := (x + 1) % B; n * w + (if n == 0 then B * w else 0) == x * w + w
  {
  }

  lemma {:induction false} SameAbove(s: seq<Limb>, t: seq<Limb>, i: nat, n: nat)
    requires i <= n <= |s| == |t| && s[i..] == t[i..]
    ensures Val(s, n) - Val(s, i) == Val(t, n) - Val(t, i)
  {
    hide W;
    if i < n {
      SameAbove(s, t, i, n - 1);
      assert s[n - 1] == s[i..][n - 1 - i] == t[i..][n - 1 - i] == t[n - 1];
    }
  }
}
