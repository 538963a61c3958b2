/** The first test vector of BIP 173, which fixes every constant of the encoding. */
module Bech32Vector {
  import opened Results
  import opened Bech32Charset
  import opened Bech32Checksum
  import opened Bech32

  lemma PolyNext(c: Remainder, v: Data, i: nat)
    requires i < |v|
    ensures Poly(c, v[i..]) == Poly(Step(c, v[i]), v[i + 1..])
  {
    hide Step;
    assert v[i..][1..] == v[i + 1..];
  }

  lemma FirstSteps()
    ensures Step(Remainder(1), 3) == Remainder(0x23) && Step(Remainder(0x23), 0) == Remainder(0x460)
    ensures Step(Remainder(0x460), 1) == Remainder(0x8c01) && Step(Remainder(0x8c01), 0) == Remainder(0x11_8020)
    ensures Step(Remainder(0x11_8020), 0) == Remainder(0x230_0400)
  {
  }

  lemma LastSteps()
    ensures Step(Remainder(0x230_0400), 0) == Remainder(0x3d6a_d7b2) && Step(Remainder(0x3d6a_d7b2), 0) == Remainder(0x2fd_30b9)
    ensures Step(Remainder(0x2fd_30b9), 0) == Remainder(0x24cc_4092) && Step(Remainder(0x24cc_4092), 0) == Remainder(0x15cc_fe9e)
  {
  }

  lemma HalvesOfA()
    ensures HighBits('a') == 3 && LowBits('a') == 1
  {
    assert CodeOf('a') == 97;
    assert (97 as bv8) >> 5 == 3 && (97 as bv8) & 0x1f == 1;
  }

  lemma ExpandA()
    ensures Expand("a") == [3, 0, 1]
  {
    hide HighBits, LowBits;
    HalvesOfA();
    assert Expand("a")[0] == 3 && Expand("a")[1] == 0 && Expand("a")[2] == 1;
  }

  lemma PolyA()
    ensures Poly(ONE, [3, 0, 1, 0, 0, 0, 0, 0, 0]) == Remainder(0x15cc_fe9e)
  {
    hide Step, Poly;
    var v: Data := [3, 0, 1, 0, 0, 0, 0, 0, 0];
    FirstSteps();
    LastSteps();
    assert v[0..] == v;
    PolyNext(ONE, v, 0);
    PolyNext(Remainder(0x23), v, 1);
    PolyNext(Remainder(0x460), v, 2);
    PolyNext(Remainder(0x8c01), v, 3);
    PolyNext(Remainder(0x11_8020), v, 4);
    PolyNext(Remainder(0x230_0400), v, 5);
    PolyNext(Remainder(0x3d6a_d7b2), v, 6);
    PolyNext(Remainder(0x2fd_30b9), v, 7);
    PolyNext(Remainder(0x24cc_4092), v, 8);
    assert v[9..] == [];
    PolyEnd(Remainder(0x15cc_fe9e));
  }

  lemma PolyEnd(c: Remainder)
    ensures Poly(c, []) == c
  {
  }

  lemma PartsA()
    ensures Parts(0x15cc_fe9f) == [10, 28, 25, 31, 20, 31]
  {
  }

  lemma ChecksumA()
    ensures Checksum("a", []) == [10, 28, 25, 31, 20, 31]
  {
    hide Expand, Poly, Parts, Part;
    ExpandA();
    assert [3, 0, 1] + [] + SIX_ZEROS == [3, 0, 1, 0, 0, 0, 0, 0, 0];
    PolyA();
    PartsA();
  }

  lemma LettersA(v: Data)
    requires v == [10, 28, 25, 31, 20, 31]
    ensures Symbols(v) && Letters(v) == "2uel5l"
  {
    hide Letter;
    FirstHalf();
    SecondHalf();
    forall i | 0 <= i < 6 ensures Letters(v)[i] == "2uel5l"[i] { LetterAt(v, i); }
  }

  /** The part "a" without data is encoded as a12uel5l. */
  lemma EncodedA()
    ensures Encoded("a", []) == "a12uel5l"
    ensures Decoded("a12uel5l") == Some(("a", []))
  {
    hide Checksum, Letters, Decoded;
    ChecksumA();
    var v: Data := [10, 28, 25, 31, 20, 31];
    assert [] + v == v;
    LettersA(v);
    assert Encoded("a", []) == "a" + "1" + "2uel5l";
    DecodeEncoded("a", [], "a12uel5l");
  }
}
