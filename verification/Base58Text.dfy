/** What base 58 text stands for: the alphabet, spaces, and the two directions of the code. */
module Base58Text {
  import opened Radix
  import opened Results
  import opened Base58Alphabet

  type Byte = x: nat | x < 256

  // ---------- Strings ----------

  /** A C string ends at the first NUL. */
  function UpToNul(s: string): (c: string)
    ensures |c| <= |s| && c == s[..|c|] && (|c| < |s| ==> s[|c|] == '\0') && '\0' !in c
  {
    if s == [] || s[0] == '\0' then [] else [s[0]] + UpToNul(s[1..])
  }

  function LeadingSpaces(c: string): (n: nat)
    ensures n <= |c| && (forall i | 0 <= i < n :: Space(c[i])) && (n < |c| ==> !Space(c[n]))
  {
    if c == [] || !Space(c[0]) then 0 else 1 + LeadingSpaces(c[1..])
  }

  /** Where the trailing spaces start. */
  function TextEnd(c: string): (n: nat)
    ensures n <= |c| && (forall i | n <= i < |c| :: Space(c[i])) && (n > 0 ==> !Space(c[n - 1]))
  {
    if c == [] || !Space(c[|c| - 1]) then |c| else TextEnd(c[..|c| - 1])
  }

  /** c without the spaces around it. */
  function Trimmed(c: string): string {
    if LeadingSpaces(c) <= TextEnd(c) then c[LeadingSpaces(c)..TextEnd(c)] else []
  }

  /** A stretch that does not start or end with a space, with only spaces around it, is the trimmed string. */
  lemma TrimmedIs(c: string, i: nat, j: nat)
    requires i <= j <= |c| && (forall k | 0 <= k < i || j <= k < |c| :: Space(c[k]))
    requires i < j ==> !Space(c[i]) && !Space(c[j - 1])
    ensures Trimmed(c) == c[i..j]
  {
    var a, b := LeadingSpaces(c), TextEnd(c);
    if i < j {
      assert a == i && b == j;
    } else {
      assert forall k | 0 <= k < |c| :: Space(c[k]);
    }
  }

  lemma InTrimmed(c: string, k: nat, l: nat, m: nat)
    requires k <= l <= m < |c| && !Space(c[k]) && !Space(c[m])
    ensures c[l] in Trimmed(c)
  {
    var a, b := LeadingSpaces(c), TextEnd(c);
    assert a <= k && m < b;
    assert c[a..b][l - a] == c[l];
  }

  // ---------- The code ----------

  function Zeros<T(==)>(s: seq<T>, zero: T): (n: nat)
    ensures n <= |s| && (forall i | 0 <= i < n :: s[i] == zero) && (n < |s| ==> s[n] != zero)
  {
    if s == [] || s[0] != zero then 0 else 1 + Zeros(s[1..], zero)
  }

  lemma ZerosIs<T>(s: seq<T>, zero: T, n: nat)
    requires n <= |s| && (forall i | 0 <= i < n :: s[i] == zero) && (n < |s| ==> s[n] != zero)
    ensures Zeros(s, zero) == n
  {
  }

  function Repeated<T>(x: T, n: nat): (s: seq<T>)
    ensures |s| == n && forall i | 0 <= i < n :: s[i] == x
  {
    seq(n, i => x)
  }

  predicate InAlphabet(t: string) { forall i | 0 <= i < |t| :: Index(t[i]) != -1 }

  function Values(t: string): (s: seq<nat>)
    requires InAlphabet(t)
    ensures |s| == |t| && forall i | 0 <= i < |t| :: s[i] == Index(t[i]) < 58
  {
    seq(|t|, i requires 0 <= i < |t| => Index(t[i]))
  }

  function Letters(s: seq<nat>): (t: string)
    requires Digits(58, s)
    ensures |t| == |s| && forall i | 0 <= i < |s| :: t[i] == Letter(s[i])
  {
    seq(|s|, i requires 0 <= i < |s| => Letter(s[i]))
  }

  lemma LettersValues(s: seq<nat>)
    requires Digits(58, s)
    ensures InAlphabet(Letters(s)) && Values(Letters(s)) == s
  {
    hide Index, Letter;
    forall i | 0 <= i < |s| ensures Index(Letters(s)[i]) == s[i] { IndexLetter(s[i]); }
  }

  lemma ValuesLetters(t: string)
    requires InAlphabet(t)
    ensures Letters(Values(t)) == t
  {
    hide Index, Letter;
    forall i | 0 <= i < |t| ensures Letters(Values(t))[i] == t[i] { LetterIndex(t[i]); }
  }

  function Nats(b: seq<Byte>): (s: seq<nat>)
    ensures |s| == |b| && Digits(256, s) && forall i | 0 <= i < |b| :: s[i] == b[i]
  {
    seq(|b|, i requires 0 <= i < |b| => b[i])
  }

  function Bytes(s: seq<nat>): (b: seq<Byte>)
    requires Digits(256, s)
    ensures |b| == |s| && forall i | 0 <= i < |b| :: s[i] == b[i]
  {
    seq(|s|, i requires 0 <= i < |s| => s[i])
  }

  /** Leading zero bytes become ones; the rest is one big number. */
  function Encoded(b: seq<Byte>): string {
    var z := Zeros(b, 0);
    var n := Num(256, Nats(b[z..]));
    ToBaseIs(58, n);
    Repeated('1', z) + Letters(ToBase(58, n))
  }

  function DecodedText(t: string): (b: seq<Byte>)
    requires InAlphabet(t)
  {
    var z := Zeros(t, '1');
    var n := Num(58, Values(t[z..]));
    ToBaseIs(256, n);
    Repeated(0, z) + Bytes(ToBase(256, n))
  }

  /** What DecodeBase58 makes of a string. */
  function Decoded(s: string): Option<seq<Byte>> {
    var t := Trimmed(UpToNul(s));
    if InAlphabet(t) then Some(DecodedText(t)) else None
  }

  // ---------- Round trips ----------

  lemma SplitZeros<T>(x: T, z: nat, r: seq<T>, s: seq<T>)
    requires s == Repeated(x, z) + r && (r != [] ==> r[0] != x)
    ensures Zeros(s, x) == z && s[z..] == r
  {
    ZerosIs(s, x, z);
  }

  lemma {:induction false} NoLeadingZero(base: nat, n: nat)
    requires base > 1
    ensures ToBase(base, n) != [] ==> ToBase(base, n)[0] != 0
  {
    ToBaseIs(base, n);
    if n == 0 { assert ToBase(base, n) == []; }
  }

  /** Decoding what was encoded gives the bytes back, whatever they are. */
  lemma DecodeEncoded(b: seq<Byte>)
    ensures InAlphabet(Encoded(b)) && DecodedText(Encoded(b)) == b
  {
    hide Letters, Values, Nats, Bytes, ToBase, Num, Repeated, Index, Letter, Digits;
    var z := Zeros(b, 0);
    var r := Nats(b[z..]);
    var n := Num(256, r);
    ToBaseIs(58, n);
    NoLeadingZero(58, n);
    var ds := ToBase(58, n);
    var t := Encoded(b);
    LettersValues(ds);
    forall i | 0 <= i < |t| ensures Index(t[i]) != -1 {
      FirstIsOne();
      if i < z { assert t[i] == '1'; } else { assert t[i] == Letters(ds)[i - z]; }
    }
    if ds != [] {
      IndexLetter(ds[0]);
      FirstIsOne();
    }
    SplitZeros('1', z, Letters(ds), t);
    ToBaseUnique(256, r);
    assert DecodedText(t) == b;
  }

  lemma EncodeDecodedText(t: string)
    requires InAlphabet(t)
    ensures Encoded(DecodedText(t)) == t
  {
    hide Letters, Values, Nats, Bytes, ToBase, Num, Repeated, Index, Letter, Digits;
    var z := Zeros(t, '1');
    var r := t[z..];
    var vs := Values(r);
    var n := Num(58, vs);
    if vs != [] { AlphabetIsText(r[0]); }
    ToBaseIs(256, n);
    NoLeadingZero(256, n);
    ToBaseUnique(58, vs);
    var ds := ToBase(256, n);
    var b := DecodedText(t);
    SplitZeros(0, z, Bytes(ds), b);
    assert Nats(Bytes(ds)) == ds;
    ValuesLetters(r);
    assert Encoded(b) == Repeated('1', z) + r;
    assert Repeated('1', z) == t[..z];
  }

  lemma NoSpaces(t: string)
    requires InAlphabet(t)
    ensures UpToNul(t) == t && Trimmed(t) == t
  {
    hide Index, Letter;
    forall i | 0 <= i < |t| ensures !Space(t[i]) && t[i] != '\0' { AlphabetIsText(t[i]); }
    TrimmedIs(t, 0, |t|);
  }

  lemma DecodeInvertsEncode(b: seq<Byte>)
    ensures Decoded(Encoded(b)) == Some(b)
  {
    hide Encoded, DecodedText, Trimmed;
    DecodeEncoded(b);
    NoSpaces(Encoded(b));
  }

  /** Only the spaces around the text are lost when decoding succeeds. */
  lemma EncodeInvertsDecode(s: string)
    requires Decoded(s).Some?
    ensures Encoded(Decoded(s).value) == Trimmed(UpToNul(s))
  {
    EncodeDecodedText(Trimmed(UpToNul(s)));
  }
}
