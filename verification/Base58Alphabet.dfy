/** The 58 letters of the alphabet and their positions. */
module Base58Alphabet {

  /** Digits and letters without 0, I, O and l, in runs without gaps. */
  const ALPHABET := "123456789" + "ABCDEFGH" + "JKLMN" + "PQRSTUVWXYZ" + "abcdefghijk" + "mnopqrstuvwxyz"

  /** isspace in the C locale. */
  predicate Space(c: char) { c == ' ' || '\t' <= c <= '\r' }

  function Letter(d: nat): char
    requires d < 58
  {
    LetterIs(d);
    ALPHABET[d]
  }

  /** strchr on the alphabet. */
  function IndexFrom(ch: char, n: nat): (r: int)
    requires n <= 58
    ensures -1 <= r < 58
    decreases 58 - n
  {
    if n == 58 then -1 else if Letter(n) == ch then n else IndexFrom(ch, n + 1)
  }

  /** The position of a character in the alphabet, or -1. */
  function Index(ch: char): (r: int)
    ensures -1 <= r < 58
  {
    IndexFrom(ch, 0)
  }

  /** The code of each letter, run by run. */
  lemma LetterIs(i: nat)
    requires i < 58
    ensures |ALPHABET| == 58
    ensures ALPHABET[i] as int == i + if i < 9 then 49 else if i < 17 then 56 else if i < 22 then 57 else if i < 33 then 58 else if i < 44 then 64 else 65
  {
    if i < 22 { LowLetter(i); } else { HighLetter(i); }
  }

  lemma LowLetter(i: nat)
    requires i < 22
    ensures |ALPHABET| == 58 && ALPHABET[i] as int == i + if i < 9 then 49 else if i < 17 then 56 else 57
  {
    if i < 9 {
      assert ALPHABET[i] == "123456789"[i];
    } else if i < 17 {
      assert ALPHABET[i] == "ABCDEFGH"[i - 9];
    } else {
      assert ALPHABET[i] == "JKLMN"[i - 17];
    }
  }

  lemma HighLetter(i: nat)
    requires 22 <= i < 58
    ensures |ALPHABET| == 58 && ALPHABET[i] as int == i + if i < 33 then 58 else if i < 44 then 64 else 65
  {
    if i < 33 {
      assert ALPHABET[i] == "PQRSTUVWXYZ"[i - 22];
    } else if i < 44 {
      assert ALPHABET[i] == "abcdefghijk"[i - 33];
    } else {
      assert ALPHABET[i] == "mnopqrstuvwxyz"[i - 44];
    }
  }

  lemma LettersAscend(i: nat, j: nat)
    requires i < j < 58
    ensures Letter(i) < Letter(j) && Letter(0) == '1' && Letter(i) != ' ' && Letter(j) > '\r'
  {
    hide ALPHABET;
    LetterIs(i);
    LetterIs(j);
    LetterIs(0);
  }

  lemma {:induction false} IndexFromIs(ch: char, n: nat)
    requires n <= 58
    ensures var r := IndexFrom(ch, n);
            if r == -1 then forall i | n <= i < 58 :: Letter(i) != ch else r >= n && Letter(r) == ch
    decreases 58 - n
  {
    hide Letter;
    if n < 58 { IndexFromIs(ch, n + 1); }
  }

  lemma LetterIndex(ch: char)
    requires Index(ch) != -1
    ensures Letter(Index(ch)) == ch
  {
    IndexFromIs(ch, 0);
  }

  /** Every letter is found at its own position only, and none is a space or NUL. */
  lemma IndexLetter(i: nat)
    requires i < 58
    ensures Index(Letter(i)) == i && !Space(Letter(i)) && Letter(i) != '\0' && (Letter(i) == '1' <==> i == 0)
  {
    hide Letter, IndexFrom;
    IndexFromIs(Letter(i), 0);
    var j := Index(Letter(i));
    if j != -1 && j < i { LettersAscend(j, i); }
    if j != -1 && i < j { LettersAscend(i, j); }
    if i > 0 { LettersAscend(0, i); } else { LettersAscend(0, 1); FirstLetter(); }
  }

  lemma FirstLetter()
    ensures Letter(0) == '1' && !Space('1') && '1' != '\0'
  {
    hide ALPHABET;
    LetterIs(0);
  }

  lemma FirstIsOne()
    ensures Index('1') == 0 && !Space('1')
  {
    hide Letter, IndexFrom;
    FirstLetter();
    IndexLetter(0);
  }

  lemma AlphabetIsText(ch: char)
    requires Index(ch) != -1
    ensures !Space(ch) && ch != '\0' && (ch == '1' <==> Index(ch) == 0)
  {
    hide Letter, Index;
    LetterIndex(ch);
    IndexLetter(Index(ch));
  }
}
