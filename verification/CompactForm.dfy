/** The compact form of arith_uint256: a mantissa of 23 bits, a sign bit and a base-256 exponent. */
module CompactForm {
  import opened Arithmetic
  import opened UintValue
  import opened UintDivision
  import opened ArithUint

  const SIGN := 0x80_0000

  const SIZE := 0x100_0000

  // ---------- The form as a function of the number ----------

  /** 256^n. */
  function Bytes(n: nat): (p: nat)
    ensures p > 0
  {
    Pow2Of(8 * n)
  }

  /** The number of bytes of v. */
  function Size(v: nat): nat { (BitLength(v) + 7) / 8 }

  /** The three highest of n bytes. */
  function Top(v: nat, n: nat): nat { if n <= 3 then v * Bytes(3 - n) else v / Bytes(n - 3) }

  /** The exponent and the mantissa: one byte further up where the sign bit would be hit. */
  function Exponent(v: nat): nat { if Top(v, Size(v)) >= SIGN then Size(v) + 1 else Size(v) }

  function Mantissa(v: nat): nat { if Top(v, Size(v)) >= SIGN then Top(v, Size(v)) / 256 else Top(v, Size(v)) }

  function Encoded(v: nat, negative: bool): nat {
    Exponent(v) * SIZE + Mantissa(v) + if negative && Mantissa(v) != 0 then SIGN else 0
  }

  /** The word that SetCompact shifts left, or has shifted right. */
  function Word(c: nat): nat {
    var size, word := c / SIZE, c % SIGN;
    if size <= 3 then DropBytes(word, 3 - size) else word
  }

  function DropBytes(x: nat, n: nat): (q: nat)
    ensures q == x / Bytes(n)
  {
    var b := Bytes(n);
    x / b
  }

  /** The number meant, without a limit. */
  function Meant(c: nat): nat { if c / SIZE <= 3 then Word(c) else Word(c) * Bytes(c / SIZE - 3) }

  function Negative(c: nat): bool { Word(c) != 0 && c / SIGN % 2 == 1 }

  /** v with its n lowest bytes zero. */
  function Truncated(v: nat, n: nat): nat { v - v % Bytes(n) }

  // ---------- Facts ----------

  lemma BytesAdd(m: nat, n: nat)
    ensures Bytes(m + n) == Bytes(m) * Bytes(n)
  {
    PowAdd(2, 8 * m, 8 * n);
  }

  lemma BytesValues()
    ensures Bytes(0) == 1 && Bytes(1) == 256 && Bytes(2) == 0x1_0000 && Bytes(3) == SIZE
    ensures Bytes(32) == W(8)
  {
    Pow2Values();
    WIsPow2(8);
  }

  lemma BytesMono(m: nat, n: nat)
    requires m <= n
    ensures Bytes(m) <= Bytes(n)
  {
    Pow2Mono(8 * m, 8 * n);
  }

  lemma SizeIs(v: nat)
    ensures v < Bytes(Size(v)) && (Size(v) > 0 ==> Bytes(Size(v) - 1) <= v)
    ensures v == 0 <==> Size(v) == 0
  {
    hide Pow2;
    BitLengthIs(v);
    Pow2Mono(BitLength(v), 8 * Size(v));
    if Size(v) > 0 { Pow2Mono(8 * (Size(v) - 1), BitLength(v) - 1); }
  }

  lemma SizeUnique(v: nat, n: nat)
    requires v < Bytes(n) && (n > 0 ==> Bytes(n - 1) <= v)
    ensures Size(v) == n
  {
    hide Size, Bytes;
    SizeIs(v);
    if Size(v) < n { BytesMono(Size(v), n - 1); }
    if n < Size(v) { BytesMono(n, Size(v) - 1); }
  }

  /** The three highest bytes fill 17 to 24 bits, or the number has less than three bytes. */
  lemma TopBounds(v: nat)
    ensures Top(v, Size(v)) < SIZE
    ensures v > 0 ==> 0x1_0000 <= Top(v, Size(v))
    ensures v == 0 ==> Top(v, Size(v)) == 0
  {
    hide Size, Bytes;
    SizeIs(v);
    BytesValues();
    var n := Size(v);
    if 0 < n <= 3 {
      BytesAdd(3 - n, n);
      BytesAdd(3 - n, n - 1);
      var b := Bytes(3 - n);
      MulMono(b, v + 1, Bytes(n));
      MulMono(b, Bytes(n - 1), v);
      MulComm(b, v);
    } else if n > 3 {
      BytesAdd(n - 3, 3);
      BytesAdd(n - 3, 2);
      Between(v, Bytes(n - 3), 0x1_0000, SIZE);
    }
  }

  lemma Between(v: nat, b: nat, low: nat, high: nat)
    requires b > 0 && b * low <= v < b * high
    ensures low <= v / b < high
  {
    var q := v / b;
    assert b * q <= v < b * (q + 1);
    MulOrder(b, q, high);
    if q < low { MulMono(b, q + 1, low); }
  }

  lemma MantissaBounds(v: nat)
    ensures Mantissa(v) < SIGN && (v > 0 ==> 0x8000 <= Mantissa(v)) && (v == 0 ==> Mantissa(v) == 0 == Exponent(v))
  {
    hide Size, Top;
    TopBounds(v);
    SizeIs(v);
  }

  lemma Fields(v: nat, negative: bool)
    ensures Encoded(v, negative) / SIZE == Exponent(v) && Encoded(v, negative) % SIGN == Mantissa(v)
    ensures Encoded(v, negative) / SIGN % 2 == if negative && v != 0 then 1 else 0
  {
    hide Exponent, Mantissa;
    MantissaBounds(v);
    var sign := if negative && Mantissa(v) != 0 then 1 else 0;
    DivideOff(Mantissa(v), SIGN, 2 * Exponent(v) + sign);
    DivideOff(Mantissa(v) + sign * SIGN, SIZE, Exponent(v));
  }

  // ---------- Round trip ----------

  /** Dividing off bytes and multiplying them back. */
  lemma CutAndBack(v: nat, b: nat)
    requires b > 0
    ensures (v / b) * b == v - v % b
  {
  }

  lemma DivideTwice(v: nat, b: nat)
    requires b > 0
    ensures v / b / 256 == v / (256 * b)
  {
    var q, r := v / b, v % b;
    assert v == r + b * q && q == q % 256 + 256 * (q / 256);
    MulMono(b, q % 256 + 1, 256);
    assert v == (r + b * (q % 256)) + (256 * b) * (q / 256) by { MulAssoc(b, 256, q / 256); MulComm(b, 256); }
    DivideOff(r + b * (q % 256), 256 * b, q / 256);
  }

  /** Reading back what was written gives the number with the bytes below the mantissa zero. */
  lemma RoundTrip(v: nat, negative: bool)
    ensures Meant(Encoded(v, negative)) == (if Exponent(v) <= 3 then v else Truncated(v, Exponent(v) - 3))
    ensures Negative(Encoded(v, negative)) <==> negative && v != 0
  {
    hide Size, Bytes, Encoded;
    Fields(v, negative);
    MantissaBounds(v);
    SizeIs(v);
    BytesValues();
    var n := Size(v);
    if n <= 3 {
      SmallBack(v, n);
    } else {
      CutAndBack(v, Bytes(n - 3));
      CutAndBack(v, Bytes(n - 2));
      BytesAdd(1, n - 3);
      DivideTwice(v, Bytes(n - 3));
    }
  }

  lemma SmallBack(v: nat, n: nat)
    requires n == Size(v) <= 3
    ensures var e, m := Exponent(v), Mantissa(v);
            if e <= 3 then m / Bytes(3 - e) == v else e == 4 && m * Bytes(1) == Truncated(v, 1)
  {
    hide Size, Bytes;
    BytesValues();
    var b := Bytes(3 - n);
    assert Top(v, n) == v * b;
    if Top(v, n) < SIGN {
      DivideOff(0, b, v);
      MulComm(v, b);
    } else if n < 3 {
      var c := Bytes(2 - n);
      BytesAdd(1, 2 - n);
      assert v * b == 256 * (v * c) by { MulAssoc(v, 256, c); MulComm(v, 256); MulAssoc(256, v, c); }
      DivideOff(0, 256, v * c);
      MulComm(v, c);
      DivideOff(0, c, v);
    } else {
      CutAndBack(v, 256);
    }
  }

  /** The round trip never exceeds the number, falls short by less than its 2^15th part, and loses
      nothing below 2^23. */
  lemma Precision(v: nat)
    ensures var d := Meant(Encoded(v, false));
            && d <= v && (v > 0 ==> (v - d) * 0x8000 < v) && (v < SIGN ==> d == v)
            && (d == v <==> Exponent(v) <= 3 || v % Bytes(Exponent(v) - 3) == 0)
  {
    hide Size, Bytes, Encoded, Meant, Top, Exponent, Mantissa;
    RoundTrip(v, false);
    MantissaBounds(v);
    BytesValues();
    if Exponent(v) > 3 {
      var b := Bytes(Exponent(v) - 3);
      assert (v - v % b) == Mantissa(v) * b by { MantissaIs(v); }
      MulMono(b, 0x8000, Mantissa(v));
      BigExponent(v);
    }
  }

  lemma MantissaIs(v: nat)
    requires Exponent(v) > 3
    ensures Mantissa(v) == v / Bytes(Exponent(v) - 3) && Mantissa(v) * Bytes(Exponent(v) - 3) == Truncated(v, Exponent(v) - 3)
  {
    hide Size, Bytes;
    BytesValues();
    var n := Size(v);
    CutAndBack(v, Bytes(Exponent(v) - 3));
    if n > 3 {
      BytesAdd(1, n - 3);
      DivideTwice(v, Bytes(n - 3));
    } else {
      assert Top(v, 3) == v * 1;
    }
  }

  lemma BigExponent(v: nat)
    requires Exponent(v) > 3
    ensures v >= SIGN
  {
    hide Size, Bytes;
    BytesValues();
    SizeIs(v);
    if Size(v) > 3 { BytesMono(3, Size(v) - 1); }
  }

  /** What GetCompact returns for a positive number makes SetCompact set neither flag. */
  lemma NoFlags(v: nat)
    requires v < W(8)
    ensures Meant(Encoded(v, false)) % W(8) == Meant(Encoded(v, false)) < W(8) && !Negative(Encoded(v, false))
  {
    hide W, Meant, Encoded, Negative;
    Precision(v);
    RoundTrip(v, false);
    DivideOff(Meant(Encoded(v, false)), W(8), 0);
  }

  /** Another round changes nothing. */
  lemma Idempotent(v: nat)
    ensures Encoded(Meant(Encoded(v, false)), false) == Encoded(v, false)
  {
    hide Size, Bytes, Encoded, Meant, Top;
    RoundTrip(v, false);
    if Exponent(v) > 3 {
      var d, n, k := Truncated(v, Exponent(v) - 3), Size(v), Exponent(v) - 3;
      SameSize(v);
      TopOfTruncated(v);
      assert Encoded(d, false) == Encoded(v, false) by { SameEncoded(v, d); }
    }
  }

  lemma SameEncoded(v: nat, d: nat)
    requires Exponent(v) == Exponent(d) && Mantissa(v) == Mantissa(d)
    ensures Encoded(v, false) == Encoded(d, false)
  {
  }

  lemma SameSize(v: nat)
    requires Exponent(v) > 3
    ensures Size(Truncated(v, Exponent(v) - 3)) == Size(v)
  {
    hide Size, Bytes, Top;
    var k, n := Exponent(v) - 3, Size(v);
    SizeIs(v);
    TopBounds(v);
    BytesValues();
    MantissaIs(v);
    var b, m, d := Bytes(k), Mantissa(v), Truncated(v, Exponent(v) - 3);
    assert d == m * b <= v;
    if Top(v, n) >= SIGN {
      BytesAdd(k, 1);
      MulMono(b, 0x8000, m);
    } else {
      BytesAdd(k, 2);
      MulMono(b, 0x1_0000, m);
    }
    SizeUnique(d, n);
  }

  lemma TopOfTruncated(v: nat)
    requires Exponent(v) > 3 && Size(Truncated(v, Exponent(v) - 3)) == Size(v)
    ensures Exponent(Truncated(v, Exponent(v) - 3)) == Exponent(v) && Mantissa(Truncated(v, Exponent(v) - 3)) == Mantissa(v)
  {
    hide Size, Bytes;
    var k, n := Exponent(v) - 3, Size(v);
    var b, m, d := Bytes(k), Mantissa(v), Truncated(v, Exponent(v) - 3);
    BytesValues();
    MantissaIs(v);
    MulComm(m, b);
    DivideOff(0, b, m);
    if Top(v, n) >= SIGN {
      TopBounds(v);
      if n > 3 {
        BytesAdd(1, n - 3);
        var c := Bytes(n - 3);
        assert d == c * (256 * m) by { MulAssoc(c, 256, m); MulComm(256, c); }
        DivideOff(0, c, 256 * m);
      }
    }
  }

  /** The three conditions that SetCompact tests mean that the number does not fit into 256 bits. */
  lemma OverflowIs(c: nat)
    ensures var size, word := c / SIZE, Word(c);
            (word != 0 && (size > 34 || (word > 0xff && size > 33) || (word > 0xffff && size > 32))) <==> Meant(c) >= W(8)
  {
    hide Bytes, Word, W;
    var size, word := c / SIZE, Word(c);
    BytesValues();
    WordBound(c);
    BytesMono(3, 32);
    if size > 3 {
      if size > 34 { BytesMono(32, size - 3); }
      MulMono(Bytes(size - 3), if word == 0 then 0 else 1, word);
      if size == 34 { BytesAdd(31, 1); Scale(Bytes(31), 0x100, word); }
      if size == 33 { BytesAdd(30, 2); Scale(Bytes(30), 0x1_0000, word); }
      if size <= 32 {
        BytesMono(size - 3, 29);
        BytesAdd(29, 3);
        Scale(Bytes(29), SIZE, word);
        MulMono(word, Bytes(size - 3), Bytes(29));
        MulComm(word, Bytes(29));
      }
    }
  }

  lemma Scale(b: nat, t: nat, word: nat)
    requires b > 0
    ensures word * b >= b * t <==> word >= t
  {
    MulComm(word, b);
    if word >= t { MulMono(b, t, word); } else { MulMono(b, word + 1, t); }
  }

  lemma WordBound(c: nat)
    ensures Word(c) < SIGN
  {
    var b := if c / SIZE <= 3 then Bytes(3 - c / SIZE) else 1;
    Shrinks(c % SIGN, b);
  }

  lemma Shrinks(x: nat, b: nat)
    requires b > 0
    ensures x / b <= x
  {
    MulMono(x / b, 1, b);
  }

  // ---------- SetCompact and GetCompact ----------

  /** arith_uint256::SetCompact: the number meant, modulo 2^256, with the overflow flag telling exactly
      whether anything was lost to the limit of 256 bits. */
  method SetCompact(u: BaseUint, nCompact: Limb) returns (negative: bool, overflow: bool)
    requires u.pn.Length == 8
    modifies u.pn
    ensures u.N() == Meant(nCompact) % W(8)
    ensures negative <==> Negative(nCompact)
    ensures overflow <==> Meant(nCompact) >= W(8)
  {
    hide Bytes, W;
    var size := nCompact / SIZE;
    var word: Limb := nCompact % SIGN;
    OverflowIs(nCompact);
    WordBound(nCompact);
    if size <= 3 {
      Shrinks(word, Bytes(3 - size));
      word := word / Bytes(3 - size);
      SmallMeant(nCompact);
      u.Set(word);
    } else {
      u.Set(word);
      ShiftBytes(size - 3);
      u.ShiftLeft(8 * (size - 3));
    }
    negative := word != 0 && nCompact / SIGN % 2 == 1;
    overflow := word != 0 && (size > 34 || (word > 0xff && size > 33) || (word > 0xffff && size > 32));
  }

  lemma ShiftBytes(n: nat)
    ensures Pow2(8 * n) == Bytes(n)
  {
  }

  lemma SmallMeant(c: nat)
    requires c / SIZE <= 3
    ensures Meant(c) == Word(c) < W(8) && Word(c) % W(8) == Word(c)
  {
    hide Bytes;
    WordBound(c);
    BytesValues();
    BytesMono(3, 32);
    DivideOff(Word(c), W(8), 0);
  }

  /** arith_uint256::GetCompact. The mantissa never reaches the sign bit and the exponent fits a byte. */
  method GetCompact(u: BaseUint, fNegative: bool) returns (nCompact: Limb)
    requires u.pn.Length == 8
    ensures nCompact == Encoded(u.N(), fNegative)
  {
    hide Bytes, W, Or, Size, Mantissa, Exponent;
    ghost var v := u.N();
    var bits := u.Bits();
    var size := (bits + 7) / 8;
    SizeIsBits(v);
    assert size == Size(v);
    u.InRange();
    TopBounds(v);
    LowIsAll(v, size);
    if size <= 3 {
      var low := u.GetLow64();
      ShiftBytes(3 - size);
      nCompact := low * Bytes(3 - size) % B;
    } else {
      var bn := new BaseUint.Copy(u);
      ShiftBytes(size - 3);
      bn.ShiftRight(8 * (size - 3));
      var low := bn.GetLow64();
      nCompact := low % B;
    }
    assert nCompact == Top(v, Size(v));
    CompactFields(v);
    if nCompact / SIGN % 2 == 1 {
      nCompact := nCompact / 256;
      size := size + 1;
    }
    assert nCompact == Mantissa(v) && size == Exponent(v);
    MantissaBounds(v);
    assert nCompact < SIGN && size < 256;
    PutSize(nCompact, size);
    nCompact := Or(nCompact, size * SIZE);
    PutSign(size, nCompact);
    DivideOff(Mantissa(v), SIGN, 2 * size);
    nCompact := Or(nCompact, if fNegative && nCompact % SIGN != 0 then SIGN else 0);
  }

  lemma SizeIsBits(v: nat)
    ensures Size(v) == (BitLength(v) + 7) / 8
  {
  }

  /** Nothing is lost in 64 bits, nor in the 32 bits of the result. */
  lemma LowIsAll(v: nat, n: nat)
    requires n == Size(v) && v < W(8)
    ensures n <= 32
    ensures n <= 3 ==> v % 0x1_0000_0000_0000_0000 == v && v * Bytes(3 - n) % B == Top(v, n)
    ensures n > 3 ==> v / Bytes(n - 3) == Top(v, n) && Top(v, n) % 0x1_0000_0000_0000_0000 % B == Top(v, n)
  {
    hide Bytes, W, Size, Top;
    SizeIs(v);
    BytesValues();
    TopBounds(v);
    if n > 32 { BytesMono(32, n - 1); }
    TopIs(v, n);
    if n <= 3 { BytesMono(n, 3); SmallRemainder(v, 0x1_0000_0000_0000_0000); }
    SmallRemainder(Top(v, n), 0x1_0000_0000_0000_0000);
    SmallRemainder(Top(v, n), B);
  }

  lemma SmallRemainder(x: nat, m: nat)
    requires x < m
    ensures x % m == x
  {
    DivideOff(x, m, 0);
  }

  lemma TopIs(v: nat, n: nat)
    ensures n <= 3 ==> Top(v, n) == v * Bytes(3 - n)
    ensures n > 3 ==> Top(v, n) == v / Bytes(n - 3)
  {
  }

  lemma CompactFields(v: nat)
    ensures Top(v, Size(v)) / SIGN % 2 == 1 <==> Top(v, Size(v)) >= SIGN
    ensures Exponent(v) == (if Top(v, Size(v)) >= SIGN then Size(v) + 1 else Size(v))
    ensures Mantissa(v) == (if Top(v, Size(v)) >= SIGN then Top(v, Size(v)) / 256 else Top(v, Size(v)))
  {
    hide Top, Size;
    TopBounds(v);
  }

  lemma PutSize(m: nat, size: nat)
    requires m < SIGN && size < 256
    ensures Or(m, size * SIZE) == size * SIZE + m < B
  {
    Pow2Values();
    OrAdds(size, m, 24);
  }

  lemma PutSign(size: nat, c: nat)
    requires size < 256 && c / SIZE == size && c % SIZE < SIGN
    ensures Or(c, SIGN) == c + SIGN < B && Or(c, 0) == c
  {
    Pow2Values();
    assert Pow2(24) * size + c % SIZE == c;
    OrMiddle(size, c % SIZE, 23);
  }

  /** A bit that is zero is added by |. */
  lemma {:induction false} OrMiddle(q: nat, r: nat, t: nat)
    requires r < Pow2(t)
    ensures Or(Pow2(t + 1) * q + r, Pow2(t)) == Pow2(t + 1) * q + r + Pow2(t)
  {
    MulAssoc(2, Pow2(t), q);
    if t > 0 { OrMiddle(q, r / 2, t - 1); }
  }
}
