/** The compact form of big numbers in closed form. */
module CompactLaws {
  import opened Arithmetic
  import opened CompactForm

  lemma {:induction false} BytesIs(n: nat)
    ensures Bytes(n) == Pow(256, n)
  {
    if n > 0 {
      BytesIs(n - 1);
      BytesAdd(1, n - 1);
      BytesValues();
    } else {
      BytesValues();
    }
  }

  /** Exponent e, sign s and mantissa m mean m times 256 to e - 3, rounded down, negative if the sign is set and
      this leaves anything of the mantissa. */
  lemma MeantIs(e: nat, s: nat, m: nat)
    requires s <= 1 && m < 0x80_0000
    ensures var c := e * 0x100_0000 + s * 0x80_0000 + m;
            && Pow(256, if e <= 3 then 3 - e else e - 3) > 0
            && Meant(c) == (if e <= 3 then m / Pow(256, 3 - e) else m * Pow(256, e - 3))
            && (Negative(c) <==> s == 1 && (if e <= 3 then m / Pow(256, 3 - e) else m) != 0)
  {
    hide Bytes;
    BytesIs(if e <= 3 then 3 - e else e - 3);
    DivideOff(s * 0x80_0000 + m, 0x100_0000, e);
    DivideOff(m, 0x80_0000, 2 * e + s);
  }

  /** The word for a number: a mantissa of at least two bytes that is the number up to bytes below it, times 256 to
      the exponent less three. */
  lemma EncodedIs(v: nat, negative: bool) returns (e: nat, m: nat)
    ensures Encoded(v, negative) == e * 0x100_0000 + m + if negative && v != 0 then 0x80_0000 else 0
    ensures if v == 0 then e == m == 0 else 0x8000 <= m < 0x80_0000
    ensures v != 0 && e <= 3 ==> m == v * Pow(256, 3 - e)
    ensures v != 0 && e > 3 ==> m * Pow(256, e - 3) <= v < (m + 1) * Pow(256, e - 3)
  {
    hide Exponent, Mantissa, Bytes;
    e, m := Exponent(v), Mantissa(v);
    MantissaBounds(v);
    if v != 0 {
      BytesIs(if e <= 3 then 3 - e else e - 3);
      if e <= 3 { ShortIs(v); } else { LongIs(v); }
    }
  }

  lemma ShortIs(v: nat)
    requires Exponent(v) <= 3
    ensures Mantissa(v) == v * Bytes(3 - Exponent(v))
  {
    hide Bytes, Size;
    var n := Size(v);
    if Top(v, n) >= SIGN {
      BytesValues();
      BytesAdd(1, 2 - n);
      var x := v * Bytes(2 - n);
      MulAssoc(v, 256, Bytes(2 - n));
      MulComm(v, 256);
      MulAssoc(256, v, Bytes(2 - n));
      assert Top(v, n) == 256 * x;
      DivideOff(0, 256, x);
    }
  }

  lemma LongIs(v: nat)
    requires Exponent(v) > 3
    ensures Mantissa(v) * Bytes(Exponent(v) - 3) <= v < (Mantissa(v) + 1) * Bytes(Exponent(v) - 3)
  {
    hide Exponent, Mantissa, Bytes, Encoded;
    Fields(v, false);
    RoundTrip(v, false);
    MantissaBounds(v);
    var m, b := Mantissa(v), Bytes(Exponent(v) - 3);
    assert Meant(Encoded(v, false)) == m * b;
    assert v - v % b == m * b && v % b < b;
  }
}
