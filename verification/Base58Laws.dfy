/** The alphabet of base 58, the spaces around it, and test vectors. */
module Base58Laws {
  import opened Radix
  import opened Base58Alphabet
  import opened Base58Text

  /** The alphabet: digits and letters in the order of their codes, without 0, I, O and l. */
  lemma AlphabetIs(c: char)
    ensures Index(c) != -1 <==>
              ('1' <= c <= '9' || 'A' <= c <= 'Z' || 'a' <= c <= 'z') && c != 'I' && c != 'O' && c != 'l'
    ensures forall d: char | Index(c) != -1 && Index(d) != -1 :: c < d <==> Index(c) < Index(d)
  {
    hide Index, Letter, ALPHABET;
    if Index(c) != -1 {
      LetterIndex(c);
      LetterIs(Index(c));
      LetterCode(Index(c));
    } else if ('1' <= c <= '9' || 'A' <= c <= 'Z' || 'a' <= c <= 'z') && c != 'I' && c != 'O' && c != 'l' {
      var n := c as int;
      var i := n - if n < 58 then 49 else if n < 73 then 56 else if n < 79 then 57 else if n < 91 then 58 else if n < 108 then 64 else 65;
      LetterCode(i);
      LetterIs(i);
      assert Letter(i) == c;
      IndexLetter(i);
    }
    forall d: char | Index(c) != -1 && Index(d) != -1 ensures c < d <==> Index(c) < Index(d) {
      LetterIndex(c);
      LetterIndex(d);
      if Index(c) < Index(d) { LettersAscend(Index(c), Index(d)); }
      if Index(d) < Index(c) { LettersAscend(Index(d), Index(c)); }
    }
  }

  lemma LetterCode(i: nat)
    requires i < 58
    ensures |ALPHABET| == 58 && Letter(i) == ALPHABET[i]
  {
    hide ALPHABET;
    LetterIs(i);
  }

  /** The spaces of the C locale. */
  lemma SpaceIs(c: char)
    ensures Space(c) <==> c as int in {9, 10, 11, 12, 13, 32}
  {
  }

  /** Three test vectors: one byte, three bytes, and leading zeros. */
  lemma TestVectors()
    ensures Encoded([0x61]) == "2g" && Encoded([0x62, 0x62, 0x62]) == "a3gV" && Encoded([0, 0]) == "11"
  {
    hide Encoded, ToBase, Num, Letter, Nats;
    One();
    Three();
    LetterCodes();
    NatsAre([0x61]);
    NatsAre([0x62, 0x62, 0x62]);
    WithoutZeros([0x61], [1, 39]);
    WithoutZeros([0x62, 0x62, 0x62], [33, 2, 39, 28]);
    assert Letters([1, 39]) == "2g";
    assert Letters([33, 2, 39, 28]) == "a3gV";
    TwoZeros();
  }

  lemma NatsAre(b: seq<Byte>)
    ensures Nats(b) == b
  {
  }

  /** Without leading zeros only the number matters. */
  lemma WithoutZeros(b: seq<Byte>, ds: seq<nat>)
    requires b != [] && b[0] != 0 && ToBase(58, Num(256, Nats(b))) == ds
    ensures Digits(58, ds) && Encoded(b) == Letters(ds)
  {
    hide ToBase, Num, Letters, Nats;
    ToBaseIs(58, Num(256, Nats(b)));
    assert Zeros(b, 0) == 0 && b[0..] == b;
  }

  lemma LetterCodes()
    ensures Letter(1) == '2' && Letter(39) == 'g' && Letter(33) == 'a' && Letter(2) == '3' && Letter(28) == 'V'
  {
    hide ALPHABET;
    LetterIs(1);
    LetterIs(39);
    LetterIs(33);
    LetterIs(2);
    LetterIs(28);
  }

  lemma NumNext(base: nat, s: seq<nat>, d: nat)
    ensures Num(base, s + [d]) == Num(base, s) * base + d && Num(base, []) == 0
  {
    assert (s + [d])[..|s|] == s;
  }

  lemma One()
    ensures Num(256, [0x61]) == 97 && ToBase(58, 97) == [1, 39]
  {
    hide ToBase, Num;
    NumNext(256, [], 0x61);
    assert [] + [0x61] == [0x61];
    NumNext(58, [], 1);
    assert [] + [1] == [1];
    NumNext(58, [1], 39);
    assert [1] + [39] == [1, 39];
    ToBaseUnique(58, [1, 39]);
  }

  lemma Three()
    ensures Num(256, [0x62, 0x62, 0x62]) == 6447714 && ToBase(58, 6447714) == [33, 2, 39, 28]
  {
    hide ToBase, Num;
    NumNext(256, [], 0x62);
    assert [] + [0x62] == [0x62];
    NumNext(256, [0x62], 0x62);
    assert [0x62] + [0x62] == [0x62, 0x62];
    NumNext(256, [0x62, 0x62], 0x62);
    assert [0x62, 0x62] + [0x62] == [0x62, 0x62, 0x62];
    NumNext(58, [], 33);
    assert [] + [33] == [33];
    NumNext(58, [33], 2);
    assert [33] + [2] == [33, 2];
    NumNext(58, [33, 2], 39);
    assert [33, 2] + [39] == [33, 2, 39];
    NumNext(58, [33, 2, 39], 28);
    assert [33, 2, 39] + [28] == [33, 2, 39, 28];
    ToBaseUnique(58, [33, 2, 39, 28]);
  }

  lemma TwoZeros()
    ensures Encoded([0, 0]) == "11"
  {
    var b: seq<Byte> := [0, 0];
    assert Zeros(b, 0) == 2;
  }
}
