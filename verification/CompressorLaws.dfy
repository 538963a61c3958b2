/** The compact form of amounts in closed form, and the values that the tests expect. */
module CompressorLaws {
  import opened Arithmetic
  import opened Compressor

  /** An amount with last digit d before e zeros, fewer than nine, and one with nine zeros or more. */
  lemma CompressedIs(q: nat, d: nat, e: nat, m: nat)
    requires 1 <= d <= 9 && e < 9 && m > 0
    ensures Compressed((10 * q + d) * Pow(10, e)) == 1 + 10 * (9 * q + d - 1) + e
    ensures Compressed(m * Pow(10, 9)) == 10 * m
  {
    hide Pow, Strip;
    StripUndoes(10 * q + d, e, e);
    StripUndoes(m, 9, 9);
    DivideOff(d, 10, q);
  }

  lemma TestPairs()
    ensures Compressed(0) == 0 && Compressed(1) == 1 && Compressed(1000000) == 7 && Compressed(100000000) == 9
    ensures Compressed(50 * 100000000) == 0x32 && Compressed(21000000 * 100000000) == 0x1406f40
  {
    hide Pow, Compressed;
    assert Compressed(0) == 0 by { NothingIsZero(); }
    Tens();
    CompressedIs(0, 1, 0, 5);
    CompressedIs(0, 1, 6, 2100000);
    CompressedIs(0, 1, 8, 1);
  }

  lemma NothingIsZero()
    ensures Compressed(0) == 0
  {
  }

  lemma Tens()
    ensures Pow(10, 0) == 1 && Pow(10, 6) == 1000000 && Pow(10, 8) == 100000000 && Pow(10, 9) == 1000000000
  {
    assert Pow(10, 3) == 1000;
  }
}
