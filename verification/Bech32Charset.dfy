/** The two tables of Bech32 and why each inverts the other. Section "Bech32" of BIP 173. */
module Bech32Charset {

  /** std::string: characters are bytes. */
  type Text = s: string | forall i | 0 <= i < |s| :: s[i] as int < 256

  const CHARSET := "qpzry9x8" + "gf2tvdw0" + "s3jn54kh" + "ce6mua7l"

  const NONE: seq<int> := [-1, -1, -1, -1, -1, -1, -1, -1, -1, -1, -1, -1, -1, -1, -1, -1]

  const DIGITS: seq<int> := [15, -1, 10, 17, 21, 20, 26, 30, 7, 5, -1, -1, -1, -1, -1, -1]

  const LETTERS_A_TO_O: seq<int> := [-1, 29, -1, 24, 13, 25, 9, 8, 23, -1, 18, 22, 31, 27, 19, -1]

  const LETTERS_P_TO_Z: seq<int> := [1, 0, 3, 16, 11, 28, 12, 14, 6, 4, 2, -1, -1, -1, -1, -1]

  /** CHARSET_REV, 16 characters to a row. */
  const CHARSET_REV := NONE + NONE + NONE + DIGITS + LETTERS_A_TO_O + LETTERS_P_TO_Z + LETTERS_A_TO_O + LETTERS_P_TO_Z

  predicate IsUpper(c: char) { 'A' <= c <= 'Z' }

  predicate IsLower(c: char) { 'a' <= c <= 'z' }

  predicate Printable(c: char) { 33 <= c as int <= 126 }

  function LowerCase(c: char): char { if IsUpper(c) then ((c as int) + 32) as char else c }

  function Letter(d: nat): char
    requires d < 32
  {
    CharsetSize();
    CHARSET[d]
  }

  lemma CharsetSize()
    ensures |CHARSET| == 32
  {
  }

  /** The value of a character, or -1. */
  function Rev(c: char): int {
    TableSize();
    if Printable(c) then CHARSET_REV[c as int] else -1
  }

  lemma TableSize()
    ensures |NONE| == |DIGITS| == |LETTERS_A_TO_O| == |LETTERS_P_TO_Z| == 16 && |CHARSET_REV| == 128
  {
  }

  lemma FirstHalf()
    ensures Letter(0) == 'q' && Letter(1) == 'p' && Letter(2) == 'z' && Letter(3) == 'r'
    ensures Letter(4) == 'y' && Letter(5) == '9' && Letter(6) == 'x' && Letter(7) == '8'
    ensures Letter(8) == 'g' && Letter(9) == 'f' && Letter(10) == '2' && Letter(11) == 't'
    ensures Letter(12) == 'v' && Letter(13) == 'd' && Letter(14) == 'w' && Letter(15) == '0'
  {
  }

  lemma SecondHalf()
    ensures Letter(16) == 's' && Letter(17) == '3' && Letter(18) == 'j' && Letter(19) == 'n'
    ensures Letter(20) == '5' && Letter(21) == '4' && Letter(22) == 'k' && Letter(23) == 'h'
    ensures Letter(24) == 'c' && Letter(25) == 'e' && Letter(26) == '6' && Letter(27) == 'm'
    ensures Letter(28) == 'u' && Letter(29) == 'a' && Letter(30) == '7' && Letter(31) == 'l'
  {
  }

  /** Where the row of a character starts. */
  lemma RowOf(c: char)
    requires Printable(c)
    ensures var n := c as int;
            Rev(c) == if n < 48 then -1 else if n < 64 then DIGITS[n - 48] else if n < 80 then LETTERS_A_TO_O[n - 64]
                      else if n < 96 then LETTERS_P_TO_Z[n - 80] else if n < 112 then LETTERS_A_TO_O[n - 96] else LETTERS_P_TO_Z[n - 112]
  {
    hide NONE, DIGITS, LETTERS_A_TO_O, LETTERS_P_TO_Z;
    TableSize();
    var n := c as int;
    if n < 48 {
      assert CHARSET_REV[n] == NONE[n - 32];
      AllNone(n - 32);
    }
  }

  lemma AllNone(i: nat)
    requires i < 16
    ensures |NONE| == 16 && NONE[i] == -1
  {
  }

  lemma DigitValues(i: nat)
    requires i < 16
    ensures |DIGITS| == 16 && (DIGITS[i] == -1 || (0 <= DIGITS[i] < 32 && i < 10 && Letter(DIGITS[i]) as int == 48 + i))
  {
    hide Letter;
    FirstHalf();
    SecondHalf();
  }

  lemma LowLetterValues(i: nat)
    requires i < 16
    ensures |LETTERS_A_TO_O| == 16
    ensures LETTERS_A_TO_O[i] == -1 || (0 <= LETTERS_A_TO_O[i] < 32 && 0 < i && Letter(LETTERS_A_TO_O[i]) as int == 96 + i)
  {
    hide Letter;
    FirstHalf();
    SecondHalf();
  }

  lemma HighLetterValues(i: nat)
    requires i < 16
    ensures |LETTERS_P_TO_Z| == 16
    ensures LETTERS_P_TO_Z[i] == -1 || (0 <= LETTERS_P_TO_Z[i] < 32 && i <= 10 && Letter(LETTERS_P_TO_Z[i]) as int == 112 + i)
  {
    hide Letter;
    FirstHalf();
    SecondHalf();
  }

  /** A character with a value is, in lower case, the letter for that value. */
  lemma LetterOfRev(c: char)
    ensures Rev(c) == -1 || (0 <= Rev(c) < 32 && Printable(c) && Letter(Rev(c)) == LowerCase(c))
  {
    hide Letter, Rev, DIGITS, LETTERS_A_TO_O, LETTERS_P_TO_Z;
    if Printable(c) {
      RowOf(c);
      var n := c as int;
      if 48 <= n < 64 { DigitValues(n - 48); }
      if 64 <= n < 80 { LowLetterValues(n - 64); }
      if 80 <= n < 96 { HighLetterValues(n - 80); }
      if 96 <= n < 112 { LowLetterValues(n - 96); }
      if 112 <= n { HighLetterValues(n - 112); }
    } else {
      NoValue(c);
    }
  }

  lemma NoValue(c: char)
    requires !Printable(c)
    ensures Rev(c) == -1
  {
  }

  lemma FirstHalfBack()
    ensures Rev('q') == 0 && Rev('p') == 1 && Rev('z') == 2 && Rev('r') == 3
    ensures Rev('y') == 4 && Rev('9') == 5 && Rev('x') == 6 && Rev('8') == 7
    ensures Rev('g') == 8 && Rev('f') == 9 && Rev('2') == 10 && Rev('t') == 11
    ensures Rev('v') == 12 && Rev('d') == 13 && Rev('w') == 14 && Rev('0') == 15
  {
    RowsBack();
  }

  lemma SecondHalfBack()
    ensures Rev('s') == 16 && Rev('3') == 17 && Rev('j') == 18 && Rev('n') == 19
    ensures Rev('5') == 20 && Rev('4') == 21 && Rev('k') == 22 && Rev('h') == 23
    ensures Rev('c') == 24 && Rev('e') == 25 && Rev('6') == 26 && Rev('m') == 27
    ensures Rev('u') == 28 && Rev('a') == 29 && Rev('7') == 30 && Rev('l') == 31
  {
    RowsBack();
  }

  /** The rows of the table hold the rest of it as an offset. */
  lemma RowsBack()
    ensures forall c: char | Printable(c) && 48 <= c as int < 64 :: |DIGITS| == 16 && Rev(c) == DIGITS[c as int - 48]
    ensures forall c: char | Printable(c) && 96 <= c as int < 112 :: |LETTERS_A_TO_O| == 16 && Rev(c) == LETTERS_A_TO_O[c as int - 96]
    ensures forall c: char | Printable(c) && 112 <= c as int :: |LETTERS_P_TO_Z| == 16 && Rev(c) == LETTERS_P_TO_Z[c as int - 112]
  {
    hide Rev, NONE, DIGITS, LETTERS_A_TO_O, LETTERS_P_TO_Z, CHARSET_REV;
    TableSize();
    forall c: char | Printable(c) ensures var n := c as int;
        && (48 <= n < 64 ==> Rev(c) == DIGITS[n - 48]) && (96 <= n < 112 ==> Rev(c) == LETTERS_A_TO_O[n - 96])
        && (112 <= n ==> Rev(c) == LETTERS_P_TO_Z[n - 112])
    {
      RowOf(c);
    }
  }

  /** Every letter has its own value back; letters are printable, not upper case, and none is the separator. */
  lemma RevOfLetter(d: nat)
    requires d < 32
    ensures Rev(Letter(d)) == d && Printable(Letter(d)) && !IsUpper(Letter(d)) && Letter(d) != '1'
  {
    hide Rev, Letter;
    if d < 16 {
      FirstHalf();
      FirstHalfBack();
      assert d in {0, 1, 2, 3, 4, 5, 6, 7, 8, 9, 10, 11, 12, 13, 14, 15};
    } else {
      SecondHalf();
      SecondHalfBack();
      assert d in {16, 17, 18, 19, 20, 21, 22, 23, 24, 25, 26, 27, 28, 29, 30, 31};
    }
  }
}
