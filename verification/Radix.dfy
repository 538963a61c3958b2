/** Digits, most significant first, and why the buffers of the base 58 codec are large enough. */
module Radix {
  import opened Arithmetic

  ghost predicate Digits(base: nat, s: seq<nat>) { forall i | 0 <= i < |s| :: s[i] < base }

  /** The number that the digits stand for. */
  function Num(base: nat, s: seq<nat>): nat {
    if s == [] then 0 else Num(base, s[..|s| - 1]) * base + s[|s| - 1]
  }

  /** The digits of n, without leading zeros. */
  function ToBase(base: nat, n: nat): (s: seq<nat>)
    requires base > 1
    decreases n
  {
    if n == 0 then []
    else
      Shrinks(n, base);
      ToBase(base, n / base) + [n % base]
  }

  lemma Shrinks(n: nat, base: nat)
    requires base > 1 && n > 0
    ensures n / base < n
  {
    var q, r := n / base, n % base;
    assert n == base * q + r;
    MulMono(q, 2, base);
    MulComm(q, base);
  }

  lemma Divided(n: nat, base: nat)
    requires base > 1
    ensures n / base * base + n % base == n && 0 <= n % base < base
  {
    MulComm(base, n / base);
  }

  lemma {:induction false} ToBaseIs(base: nat, n: nat)
    requires base > 1
    ensures Num(base, ToBase(base, n)) == n && Digits(base, ToBase(base, n))
    ensures n > 0 ==> ToBase(base, n) != [] && ToBase(base, n)[0] != 0
  {
    if n > 0 {
      Shrinks(n, base);
      ToBaseIs(base, n / base);
      var s := ToBase(base, n / base);
      assert (s + [n % base])[..|s|] == s;
      Divided(n, base);
    }
  }

  /** Digits without leading zeros are determined by the number. */
  lemma {:induction false} ToBaseUnique(base: nat, s: seq<nat>)
    requires base > 1 && Digits(base, s) && (s != [] ==> s[0] != 0)
    ensures ToBase(base, Num(base, s)) == s
  {
    if s != [] {
      var t, d := s[..|s| - 1], s[|s| - 1];
      ToBaseUnique(base, t);
      MulComm(base, Num(base, t));
      DivideOff(d, base, Num(base, t));
      if t != [] {
        Positive(base, t);
        MulMono(base, 1, Num(base, t));
      }
    }
  }

  lemma {:induction false} Positive(base: nat, s: seq<nat>)
    requires base > 1 && s != [] && s[0] != 0
    ensures Num(base, s) > 0
  {
    if |s| > 1 {
      Positive(base, s[..|s| - 1]);
      MulMono(base, 1, Num(base, s[..|s| - 1]));
    }
  }

  // ---------- Digits from the end ----------

  /** The value of the n last digits. */
  function Low(base: nat, a: seq<nat>, n: nat): nat
    requires n <= |a|
  {
    if n == 0 then 0 else Low(base, a, n - 1) + a[|a| - n] * Pow(base, n - 1)
  }

  lemma {:induction false} LowSame(base: nat, a: seq<nat>, b: seq<nat>, n: nat)
    requires n <= |a| == |b| && a[|a| - n..] == b[|a| - n..]
    ensures Low(base, a, n) == Low(base, b, n)
  {
    if n > 0 {
      var k := |a| - n;
      assert a[k] == a[k..][0] == b[k..][0] == b[k];
      assert a[k + 1..] == a[k..][1..] == b[k..][1..] == b[k + 1..];
      LowSame(base, a, b, n - 1);
    }
  }

  lemma {:induction false} LowZeros(base: nat, a: seq<nat>, n: nat, m: nat)
    requires n <= m <= |a| && forall j | |a| - m <= j < |a| - n :: a[j] == 0
    ensures Low(base, a, m) == Low(base, a, n)
  {
    if n < m { LowZeros(base, a, n, m - 1); }
  }

  lemma {:induction false} NumFront(base: nat, d: nat, s: seq<nat>)
    ensures Num(base, [d] + s) == d * Pow(base, |s|) + Num(base, s)
  {
    var t := [d] + s;
    if s == [] {
      assert t[..|t| - 1] == [];
    } else {
      var r := s[..|s| - 1];
      assert t[..|t| - 1] == [d] + r;
      NumFront(base, d, r);
      FactorOut(d, Pow(base, |r|), Num(base, r), base);
    }
  }

  lemma FactorOut(d: nat, p: nat, n: nat, base: nat)
    ensures (d * p + n) * base == d * (base * p) + n * base
  {
    MulAssoc(d, p, base);
    MulComm(p, base);
  }

  lemma {:induction false} LowIsNum(base: nat, a: seq<nat>, n: nat)
    requires n <= |a|
    ensures Low(base, a, n) == Num(base, a[|a| - n..])
  {
    if n > 0 {
      var k := |a| - n;
      assert a[k..] == [a[k]] + a[k + 1..];
      LowIsNum(base, a, n - 1);
      NumFront(base, a[k], a[k + 1..]);
    }
  }

  // ---------- Sizes ----------

  lemma {:induction false} PowMono(b: nat, m: nat, n: nat)
    requires b > 0 && m <= n
    ensures Pow(b, m) <= Pow(b, n)
  {
    if m < n {
      PowMono(b, m, n - 1);
      PowPositive(b, n - 1);
      MulMono(Pow(b, n - 1), 1, b);
    }
  }

  lemma {:induction false} PowMul(b: nat, m: nat, n: nat)
    ensures Pow(b, m * n) == Pow(Pow(b, m), n)
  {
    if n > 0 {
      PowMul(b, m, n - 1);
      assert m * n == m + m * (n - 1);
      PowAdd(b, m, m * (n - 1));
    } else {
      assert m * n == 0;
    }
  }

  lemma {:induction false} PowBaseMono(a: nat, b: nat, n: nat)
    requires a <= b
    ensures Pow(a, n) <= Pow(b, n)
  {
    if n > 0 {
      PowBaseMono(a, b, n - 1);
      Product(a, b, Pow(a, n - 1), Pow(b, n - 1));
    }
  }

  lemma Product(a: nat, b: nat, c: nat, d: nat)
    requires a <= b && c <= d
    ensures a * c <= b * d && (a < b && d > 0 ==> a * c < b * d)
  {
    MulMono(a, c, d);
    MulMono(d, a, b);
    MulComm(a, d);
    MulComm(b, d);
    if a < b { MulMono(d, a + 1, b); }
  }

  lemma {:induction false} PowBaseStrict(a: nat, b: nat, n: nat)
    requires a < b && n > 0
    ensures Pow(a, n) < Pow(b, n)
  {
    PowBaseMono(a, b, n - 1);
    PowPositive(b, n - 1);
    Product(a, b, Pow(a, n - 1), Pow(b, n - 1));
  }

  /** If q digits in base x always fit into p digits in base y, then so do any l digits into l * p / q + 1. */
  lemma RatioBound(x: nat, y: nat, p: nat, q: nat, l: nat)
    requires x > 0 && y > 0 && q > 0 && Pow(x, q) <= Pow(y, p)
    ensures Pow(x, l) <= Pow(y, l * p / q + 1)
  {
    hide Pow;
    var k := l * p / q + 1;
    PowMul(x, l, q);
    PowMul(x, q, l);
    MulComm(l, q);
    PowBaseMono(Pow(x, q), Pow(y, p), l);
    PowMul(y, p, l);
    MulComm(l, p);
    RoundedUp(p * l, q);
    PowMono(y, p * l, k * q);
    PowMul(y, k, q);
    if Pow(x, l) > Pow(y, k) { PowBaseStrict(Pow(y, k), Pow(x, l), q); }
  }

  lemma RoundedUp(n: nat, q: nat)
    requires q > 0
    ensures n <= (n / q + 1) * q
  {
    MulComm(q, n / q);
  }

  /** 8 bytes fit into 11 digits in base 58; hence 100 bytes into 138. */
  lemma BytesFit(l: nat)
    ensures Pow(256, l) <= Pow(58, l * 138 / 100 + 1)
  {
    hide Pow;
    ElevenDigits();
    Repeat(256, 58, 8, 11, 12, 4, 6);
    RatioBound(256, 58, 138, 100, l);
  }

  /** 71 digits in base 58 fit into 52 bytes; hence 1000 digits into 733. */
  lemma DigitsFit(l: nat)
    ensures Pow(58, l) <= Pow(256, l * 733 / 1000 + 1)
  {
    hide Pow;
    FiftyTwoBytes();
    Repeat(58, 256, 71, 52, 14, 6, 5);
    RatioBound(58, 256, 733, 1000, l);
  }

  lemma Repeat(x: nat, y: nat, q: nat, p: nat, times: nat, r: nat, k: nat)
    requires Pow(x, q) <= Pow(y, p) && Pow(x, r) <= Pow(y, k)
    ensures Pow(x, q * times + r) <= Pow(y, p * times + k)
  {
    PowMul(x, q, times);
    PowMul(y, p, times);
    PowBaseMono(Pow(x, q), Pow(y, p), times);
    PowAdd(x, q * times, r);
    PowAdd(y, p * times, k);
    var a, b, c, d := Pow(x, q * times), Pow(y, p * times), Pow(x, r), Pow(y, k);
    Product(a, b, c, d);
  }

  lemma ElevenDigits()
    ensures Pow(256, 8) <= Pow(58, 11) && Pow(256, 4) <= Pow(58, 6)
  {
  }

  /** 58^71 by squaring. */
  lemma FiftyTwoBytes()
    ensures Pow(58, 71) <= Pow(256, 52) && Pow(58, 6) <= Pow(256, 5)
  {
    assert Pow(58, 8) == 128063081718016 && Pow(58, 9) == 7427658739644928;
    PowAdd(58, 8, 9);
    PowAdd(58, 17, 18);
    PowAdd(58, 9, 9);
    PowAdd(58, 35, 36);
    PowAdd(58, 18, 18);
    assert Pow(256, 13) == 20282409603651670423947251286016;
    PowAdd(256, 13, 13);
    PowAdd(256, 26, 26);
    assert Pow(58, 6) <= Pow(256, 5);
  }
}
