/** Why up to three wrong symbols within 1023 are detected. Section "Checksum" of BIP 173. */
module Bech32Triples {
  import opened Arithmetic
  import opened Bech32Checksum
  import opened Bech32Distance
  import opened Bech32Roots

  // ---------- Every element but zero is a power of z ----------

  ghost function Powers(n: nat): set<Element> { set k | 0 <= k < n :: ZPow(ONE, k) }

  lemma Cancel(a: Element, b: Element, n: nat)
    requires Small(a) && Small(b) && ZPow(a, n) == ZPow(b, n)
    ensures a == b
  {
    hide ZPow, Plus, Small;
    ZPowPlus(a, b, n);
    PlusSelf(ZPow(a, n), ZPow(b, n));
    PlusSelf(a, b);
    SmallSum(a, b);
    ZPowIs(Plus(a, b), n);
  }

  lemma OneIsSmall()
    ensures Small(ONE) && Small(ZERO) && ONE != ZERO
  {
  }

  lemma Repeats(m: nat, n: nat)
    requires m < n && ZPow(ONE, m) == ZPow(ONE, n)
    ensures (n - m) % 1023 == 0
  {
    hide ZPow, Small;
    OneIsSmall();
    ZPowIs(ONE, n - m);
    ZPowAdd(ONE, n - m, m);
    Cancel(ZPow(ONE, n - m), ONE, m);
    OrderOfZ(n - m);
  }

  lemma {:induction false} PowersSize(n: nat)
    requires n <= 1023
    ensures |Powers(n)| == n
  {
    hide ZPow;
    if n > 0 {
      PowersSize(n - 1);
      assert Powers(n) == Powers(n - 1) + {ZPow(ONE, n - 1)};
      if ZPow(ONE, n - 1) in Powers(n - 1) {
        var k :| 0 <= k < n - 1 && ZPow(ONE, k) == ZPow(ONE, n - 1);
        Repeats(k, n - 1);
      }
    }
  }

  /** All elements of which only the lowest k bits may be set. */
  ghost function Elements(k: nat): set<Element> {
    if k == 0 then {ZERO} else Elements(k - 1) + Raised(Elements(k - 1), k - 1)
  }

  ghost function Raised(s: set<Element>, k: nat): set<Element> { set c | c in s :: Plus(c, BitOf(k)) }

  function BitOf(k: nat): Element {
    match k
    case 0 => Remainder(0x1)
    case 1 => Remainder(0x2)
    case 2 => Remainder(0x4)
    case 3 => Remainder(0x8)
    case 4 => Remainder(0x10)
    case 5 => Remainder(0x20)
    case 6 => Remainder(0x40)
    case 7 => Remainder(0x80)
    case 8 => Remainder(0x100)
    case _ => Remainder(0x200)
  }

  predicate Within(c: Element, k: nat)
    requires k <= 10
  {
    if k == 10 then c.bits < 0x400 else c.bits < BitOf(k).bits
  }

  lemma ClearTop(c: Element, k: nat)
    requires 0 < k <= 10 && Within(c, k) && !Within(c, k - 1)
    ensures Within(Plus(c, BitOf(k - 1)), k - 1)
  {
  }

  lemma PlusTwice(c: Element, d: Element)
    ensures Plus(Plus(c, d), d) == c
  {
  }

  lemma NothingWithin(c: Element)
    requires Within(c, 0)
    ensures c == ZERO
  {
  }

  lemma {:induction false} ElementsAre(c: Element, k: nat)
    requires k <= 10 && Within(c, k)
    ensures c in Elements(k)
    decreases k
  {
    hide Within, Plus, BitOf;
    if k == 0 {
      NothingWithin(c);
    } else if Within(c, k - 1) {
      ElementsAre(c, k - 1);
    } else {
      ClearTop(c, k);
      ElementsAre(Plus(c, BitOf(k - 1)), k - 1);
      PlusTwice(c, BitOf(k - 1));
      assert c in Raised(Elements(k - 1), k - 1);
    }
  }

  lemma {:induction false} RaisedSize(s: set<Element>, k: nat)
    ensures |Raised(s, k)| <= |s|
  {
    hide Plus, BitOf;
    if s == {} {
      assert Raised(s, k) == {};
    } else {
      var c :| c in s;
      RaisedSize(s - {c}, k);
      assert Raised(s, k) == Raised(s - {c}, k) + {Plus(c, BitOf(k))};
    }
  }

  lemma {:induction false} ElementsSize(k: nat)
    ensures |Elements(k)| <= Pow2(k)
  {
    hide Raised;
    if k > 0 {
      ElementsSize(k - 1);
      RaisedSize(Elements(k - 1), k - 1);
    }
  }

  lemma Thousand()
    ensures Pow2(10) == 1024
  {
    assert Pow2(5) == 32;
    PowAdd(2, 5, 5);
  }

  lemma SmallIsWithin(c: Element)
    ensures Small(c) <==> Within(c, 10)
  {
  }

  lemma {:induction false} SubsetIsAll(a: set<Element>, b: set<Element>)
    requires a <= b && |a| >= |b|
    ensures a == b
  {
    if exists x :: x in b && x !in a {
      var x :| x in b && x !in a;
      SubsetSize(a, b - {x});
    }
  }

  lemma {:induction false} SubsetSize(a: set<Element>, b: set<Element>)
    requires a <= b
    ensures |a| <= |b|
  {
    if a != {} {
      var x :| x in a;
      SubsetSize(a - {x}, b - {x});
    }
  }

  lemma IsPowerOfZ(w: Element) returns (k: nat)
    requires Small(w) && w != ZERO
    ensures w == ZPow(ONE, k)
  {
    hide ZPow, Small, Within, Elements, Pow2;
    OneIsSmall();
    var a, b := Powers(1023) + {ZERO}, Elements(10);
    PowersSize(1023);
    ElementsSize(10);
    Thousand();
    forall c | c in a ensures c in b && (c in Powers(1023) ==> c != ZERO) {
      if c in Powers(1023) {
        var k: nat :| k < 1023 && c == ZPow(ONE, k);
        ZPowIs(ONE, k);
      }
      SmallIsWithin(c);
      ElementsAre(c, 10);
    }
    assert |a| == 1024;
    SubsetIsAll(a, b);
    SmallIsWithin(w);
    ElementsAre(w, 10);
    k :| 0 <= k < 1023 && w == ZPow(ONE, k);
  }

  /** Multiplying by z to the d moves every element but zero, unless 1023 divides d. */
  lemma FixedPoint(w: Element, d: nat)
    requires Small(w) && w != ZERO && ZPow(w, d) == w
    ensures d % 1023 == 0
  {
    hide ZPow, Small;
    var k := IsPowerOfZ(w);
    ZPowAdd(ONE, k, d);
    if d > 0 { Repeats(k, k + d); }
  }

  // ---------- Three terms ----------

  /** If three elements, weighted with the powers of z to the a, z to the b and one, sum to zero for the
      zeroth, first and second powers of the weights, they are all zero: a Vandermonde determinant. */
  lemma ThreeTerms(x: Element, y: Element, w: Element, a: nat, b: nat)
    requires Small(x) && Small(y) && b < a && a % 1023 != 0 && b % 1023 != 0 && (a - b) % 1023 != 0
    requires Plus(Plus(x, y), w) == ZERO
    requires Plus(Plus(ZPow(x, a), ZPow(y, b)), w) == ZERO
    requires Plus(Plus(ZPow(x, 2 * a), ZPow(y, 2 * b)), w) == ZERO
    ensures x == ZERO && y == ZERO && w == ZERO
  {
    hide ZPow, Small, Plus;
    var x1, y1 := ZPow(x, a), ZPow(y, b);
    ZPowAdd(x, a, a);
    ZPowAdd(y, b, b);
    SameSums(x, y, x1, y1, w);
    SameSums(x1, y1, ZPow(x1, a), ZPow(y1, b), w);
    var p := Plus(x, x1);
    ZPowIs(x, a);
    ZPowIs(y, b);
    SmallSum(x, x1);
    ZPowPlus(x, x1, a);
    ZPowPlus(y, y1, b);
    assert p == Plus(y, y1) && ZPow(p, a) == ZPow(p, b);
    if p != ZERO {
      ZPowIs(p, b);
      ZPowAdd(p, b, a - b);
      FixedPoint(ZPow(p, b), a - b);
    }
    PlusSelf(x, x1);
    PlusSelf(y, y1);
    if x != ZERO { FixedPoint(x, a); }
    if y != ZERO { FixedPoint(y, b); }
    PlusSelf(ZERO, w);
    PlusSelf(ZERO, ZERO);
  }

  lemma SameSums(x: Element, y: Element, x1: Element, y1: Element, w: Element)
    requires Plus(Plus(x, y), w) == ZERO && Plus(Plus(x1, y1), w) == ZERO
    ensures Plus(x, x1) == Plus(y, y1)
  {
  }

  // ---------- Three wrong symbols ----------

  lemma ValueOfSymbol(v: bv8, n: nat, r: nat, e: nat)
    requires v < 32 && Root(r) && e == r * n
    ensures Value(Zeros(AsConstant(v), n), 0, r) == ZPow(Lift(AsConstant(v).bits), e)
  {
    hide Zeros, Value, ZPow, Lift, IsConstant, Fits;
    AsConstantIs(v, 0);
    ValueOfZeros(AsConstant(v), r, n, e);
    ValueOfConstant(AsConstant(v), r);
  }

  lemma ValueOfThree(u: bv8, v: bv8, w: bv8, a: nat, b: nat, r: nat, ra: nat, rb: nat)
    requires u < 32 && v < 32 && w < 32 && Root(r) && ra == r * a && rb == r * b
    requires Plus(Plus(Zeros(AsConstant(u), a), Zeros(AsConstant(v), b)), AsConstant(w)) == ZERO
    ensures Plus(Plus(ZPow(Lift(AsConstant(u).bits), ra), ZPow(Lift(AsConstant(v).bits), rb)), Lift(AsConstant(w).bits)) == ZERO
  {
    hide Zeros, Value, ZPow, Lift, Plus, AsConstant, Root;
    var x, y, z := Zeros(AsConstant(u), a), Zeros(AsConstant(v), b), AsConstant(w);
    ValuePlus(x, y, 0, r);
    ValuePlus(Plus(x, y), z, 0, r);
    ValueOfSymbol(u, a, r, ra);
    ValueOfSymbol(v, b, r, rb);
    ValueOfSymbol(w, 0, r, 0);
    NoZeros(z);
    NoPower(Lift(AsConstant(w).bits));
    ZeroHasNoValue(r);
  }

  lemma ZeroHasNoValue(r: nat)
    ensures Value(ZERO, 0, r) == ZERO
  {
    NoTop(ZERO);
    ValueOfNothing(ZERO, 0, r);
  }

  lemma SymbolIsZero(v: bv8)
    requires v < 32
    ensures Small(Lift(AsConstant(v).bits)) && (Lift(AsConstant(v).bits) == ZERO <==> v == 0)
  {
    LiftIs(AsConstant(v));
    AsConstantIs(v, 0);
  }

  /** Three symbols at distances that 1023 does not divide never cancel. */
  lemma ThreeCancel(u: bv8, v: bv8, w: bv8, a: nat, b: nat)
    requires u < 32 && v < 32 && w < 32 && b < a && a % 1023 != 0 && b % 1023 != 0 && (a - b) % 1023 != 0
    requires Plus(Plus(Zeros(AsConstant(u), a), Zeros(AsConstant(v), b)), AsConstant(w)) == ZERO
    ensures u == 0 && v == 0 && w == 0
  {
    hide Zeros, ZPow, Lift, Plus, AsConstant, Small;
    ValueOfThree(u, v, w, a, b, 24, 24 * a, 24 * b);
    ValueOfThree(u, v, w, a, b, 25, 25 * a, 25 * b);
    ValueOfThree(u, v, w, a, b, 26, 26 * a, 26 * b);
    var x, y := Lift(AsConstant(u).bits), Lift(AsConstant(v).bits);
    SymbolIsZero(u);
    SymbolIsZero(v);
    SymbolIsZero(w);
    ZPowAdd(x, 24 * a, a);
    ZPowAdd(y, 24 * b, b);
    ZPowAdd(x, 24 * a, 2 * a);
    ZPowAdd(y, 24 * b, 2 * b);
    ZPowIs(x, 24 * a);
    ZPowIs(y, 24 * b);
    ThreeTerms(ZPow(x, 24 * a), ZPow(y, 24 * b), Lift(AsConstant(w).bits), a, b);
  }

  /** What is left of a list in which only the symbols i, j and k may not be zero. */
  lemma ThreeRemain(d: Data, i: nat, j: nat, k: nat)
    requires i < j < k < |d| && Symbols(d) && forall m | 0 <= m < |d| && m != i && m != j && m != k :: d[m] == 0
    requires (j - i) % 1023 != 0 && (k - j) % 1023 != 0 && (k - i) % 1023 != 0
    requires Poly(ZERO, d) == ZERO
    ensures d[i] == 0 && d[j] == 0 && d[k] == 0
  {
    hide Step, Plus, Zeros, AsConstant, Fits, IsConstant, Poly;
    var u, v, w := AsConstant(d[i]), AsConstant(d[j]), AsConstant(d[k]);
    FirstSymbol(d, i);
    NextSymbol(d, i, j);
    NextSymbol(d, j, k);
    LastSymbol(d, k);
    ZerosPlus(Zeros(u, j - i), v, k - j);
    ZerosAdd(u, j - i, k - j);
    ThreeCancel(d[i], d[j], d[k], k - i, k - j);
  }

  /** x and y differ, but in no symbols except i, j and k. */
  ghost predicate DifferAmong(x: Data, y: Data, i: nat, j: nat, k: nat) {
    && i < j < k < |x| == |y| && x != y
    && forall m | 0 <= m < |x| && m != i && m != j && m != k :: x[m] == y[m]
  }

  /** Lists that differ in up to three symbols, no two of them at a distance that 1023 divides, never
      have the same checksum. */
  lemma ThreeDetected(x: Data, y: Data, i: nat, j: nat, k: nat)
    requires Symbols(x) && Symbols(y) && DifferAmong(x, y, i, j, k)
    requires (j - i) % 1023 != 0 && (k - j) % 1023 != 0 && (k - i) % 1023 != 0
    ensures Poly(ONE, x) != Poly(ONE, y)
  {
    hide Plus, Poly;
    PolyIsLinear(ONE, ONE, x, y);
    PlusSelf(Poly(ONE, x), Poly(ONE, y));
    PlusSelf(ONE, ONE);
    var d := Xor(x, y);
    forall m | 0 <= m < |d| ensures 0 <= d[m] < 32 && (d[m] == 0 <==> x[m] == y[m]) { XorSymbols(x[m], y[m]); }
    if Poly(ZERO, d) == ZERO { ThreeRemain(d, i, j, k); }
  }
}
