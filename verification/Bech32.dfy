/** bech32::Encode and bech32::Decode and why they are inverses. Section "Bech32" of BIP 173. */
module Bech32 {
  import opened Results
  import opened Bech32Charset
  import opened Bech32Checksum
  import opened Bech32Triples

  // ---------- The human-readable part ----------

  function CodeOf(c: char): bv8
    requires c as int < 256
  {
    (c as int) as bv8
  }

  function HighBits(c: char): bv8
    requires c as int < 256
  {
    CodeOf(c) >> 5
  }

  function LowBits(c: char): bv8
    requires c as int < 256
  {
    CodeOf(c) & 0x1f
  }

  /** The human-readable part as symbols: high bits, a zero, low bits. */
  function Expand(hrp: Text): (v: Data)
    ensures |v| == 2 * |hrp| + 1
  {
    var n := |hrp|;
    seq(2 * n + 1, i requires 0 <= i < 2 * n + 1 =>
      if i < n then HighBits(hrp[i]) else if i == n then 0 else LowBits(hrp[i - n - 1]))
  }

  lemma HalvesAreSymbols(c: char)
    requires c as int < 256
    ensures HighBits(c) < 32 && LowBits(c) < 32
  {
    hide CodeOf;
  }

  lemma ExpandIsSymbols(hrp: Text)
    ensures Symbols(Expand(hrp))
  {
    hide HighBits, LowBits;
    var v, n := Expand(hrp), |hrp|;
    forall i | 0 <= i < |v| ensures v[i] < 32 {
      if i < n { HalvesAreSymbols(hrp[i]); } else if i > n { HalvesAreSymbols(hrp[i - n - 1]); }
    }
  }

  method ExpandHRP(hrp: Text) returns (v: Data)
    ensures v == Expand(hrp)
  {
    hide HighBits, LowBits;
    var n := |hrp|;
    var ret := new bv8[n * 2 + 1](i => 0);
    for i := 0 to n
      invariant forall j | 0 <= j < i :: ret[j] == HighBits(hrp[j]) && ret[j + n + 1] == LowBits(hrp[j])
    {
      ret[i] := HighBits(hrp[i]);
      ret[i + n + 1] := LowBits(hrp[i]);
    }
    ret[n] := 0;
    v := ret[..];
    forall i | 0 <= i < |v| ensures v[i] == Expand(hrp)[i] {
      if i > n { assert ret[(i - n - 1) + n + 1] == LowBits(hrp[i - n - 1]); }
    }
  }

  // ---------- Creating and verifying ----------

  ghost predicate Verifies(hrp: Text, values: Data) { Poly(ONE, Expand(hrp) + values) == ONE }

  method VerifyChecksum(hrp: Text, values: Data) returns (ok: bool)
    ensures ok <==> Verifies(hrp, values)
  {
    var enc := ExpandHRP(hrp);
    var c := PolyMod(enc + values);
    ok := c == 1;
  }

  /** The i-th of the six symbols packed into m: (m >> 5 * (5 - i)) & 31. */
  function Part(m: bv32, i: nat): bv8
    requires i < 6
  {
    match i
    case 0 => FiveBits(m >> 25)
    case 1 => FiveBits(m >> 20)
    case 2 => FiveBits(m >> 15)
    case 3 => FiveBits(m >> 10)
    case 4 => FiveBits(m >> 5)
    case 5 => FiveBits(m)
  }

  function FiveBits(x: bv32): bv8 { (x & 31) as bv8 }

  lemma FiveBitsAre(x: bv32)
    ensures FiveBits(x) < 32 && FiveBits(x) as bv32 == x & 31
  {
  }

  function Parts(m: bv32): (v: Data)
    ensures |v| == 6 && forall i | 0 <= i < 6 :: v[i] == Part(m, i)
  {
    [Part(m, 0), Part(m, 1), Part(m, 2), Part(m, 3), Part(m, 4), Part(m, 5)]
  }

  const SIX_ZEROS: Data := [0, 0, 0, 0, 0, 0]

  ghost function Checksum(hrp: Text, values: Data): (v: Data)
    ensures |v| == 6
  {
    Parts(Plus(Poly(ONE, Expand(hrp) + values + SIX_ZEROS), ONE).bits)
  }

  method CreateChecksum(hrp: Text, values: Data) returns (ret: Data)
    ensures ret == Checksum(hrp, values)
  {
    hide Part, Poly;
    var enc := ExpandHRP(hrp);
    var poly := PolyMod(enc + values + SIX_ZEROS);
    var mod := poly ^ 1;
    assert Remainder(mod) == Plus(Remainder(poly), ONE);
    var a := new bv8[6](i => 0);
    for i := 0 to 6
      invariant forall j | 0 <= j < i :: a[j] == Part(mod, j)
    {
      a[i] := Part(mod, i);
    }
    ret := a[..];
    assert ret == Parts(mod);
  }

  lemma PartsAre(m: bv32)
    ensures Symbols(Parts(m))
    ensures Part(m, 0) as bv32 == (m >> 25) & 31 && Part(m, 1) as bv32 == (m >> 20) & 31 && Part(m, 2) as bv32 == (m >> 15) & 31
    ensures Part(m, 3) as bv32 == (m >> 10) & 31 && Part(m, 4) as bv32 == (m >> 5) & 31 && Part(m, 5) as bv32 == m & 31
  {
    hide FiveBits;
    FiveBitsAre(m >> 25);
    FiveBitsAre(m >> 20);
    FiveBitsAre(m >> 15);
    FiveBitsAre(m >> 10);
    FiveBitsAre(m >> 5);
    FiveBitsAre(m);
  }

  /** Six symbols are packed without loss. */
  lemma Packed(m: bv32)
    requires m < 0x4000_0000
    ensures Poly(ZERO, Parts(m)) == Remainder(m)
  {
    hide Step, Poly, Part, Below;
    PartsAre(m);
    var p := Parts(m);
    SixSteps(p);
    BelowIs(ZERO);
    var c1 := Step(ZERO, p[0]);
    AppendGrows(ZERO, p[0], 0);
    Appended(ZERO, p[0], 0);
    var c2 := Step(c1, p[1]);
    AppendGrows(c1, p[1], 1);
    Appended(c1, p[1], 1);
    var c3 := Step(c2, p[2]);
    AppendGrows(c2, p[2], 2);
    Appended(c2, p[2], 2);
    var c4 := Step(c3, p[3]);
    AppendGrows(c3, p[3], 3);
    Appended(c3, p[3], 3);
    var c5 := Step(c4, p[4]);
    AppendGrows(c4, p[4], 4);
    Appended(c4, p[4], 4);
    Appended(c5, p[5], 5);
    PutTogether(m);
  }

  lemma Appended(c: Remainder, v: bv8, n: nat)
    requires n < 6 && Below(c, n) && v < 32
    ensures Step(c, v).bits == (c.bits << 5) ^ (v as bv32)
  {
    StepAppends(c, v);
  }

  lemma PutTogether(m: bv32)
    requires m < 0x4000_0000
    ensures (((((((((((0 << 5) ^ ((m >> 25) & 31)) << 5) ^ ((m >> 20) & 31)) << 5) ^ ((m >> 15) & 31)) << 5)
              ^ ((m >> 10) & 31)) << 5) ^ ((m >> 5) & 31)) << 5) ^ (m & 31) == m
  {
  }

  lemma SixSteps(p: Data)
    requires |p| == 6
    ensures Poly(ZERO, p) == Step(Step(Step(Step(Step(Step(ZERO, p[0]), p[1]), p[2]), p[3]), p[4]), p[5])
  {
    hide Step;
    TwoSteps(ZERO, p);
    var c := Step(Step(ZERO, p[0]), p[1]);
    TwoSteps(c, p[2..]);
    var d := Step(Step(c, p[2]), p[3]);
    assert p[2..][2..] == p[4..];
    TwoSteps(d, p[4..]);
    assert p[4..][2..] == [];
  }

  lemma TwoSteps(c: Remainder, p: Data)
    requires |p| >= 2
    ensures Poly(c, p) == Poly(Step(Step(c, p[0]), p[1]), p[2..])
  {
    hide Step;
    assert p[1..][1..] == p[2..];
  }

  /** A created checksum verifies. */
  lemma ChecksumVerifies(hrp: Text, values: Data)
    requires Symbols(values)
    ensures Verifies(hrp, values + Checksum(hrp, values)) && Symbols(Checksum(hrp, values))
  {
    hide Poly, Plus, Part, Step, Fits;
    var x := Expand(hrp) + values;
    var before := Poly(ONE, x + SIX_ZEROS);
    var m := Plus(before, ONE);
    var w := Parts(m.bits);
    ExpandIsSymbols(hrp);
    PartsAre(m.bits);
    ChecksumFits(x);
    Packed(m.bits);
    DifferByTail(x, w);
    assert Expand(hrp) + (values + w) == x + w;
    Cancelled(before, Poly(ONE, x + w));
  }

  lemma ChecksumFits(x: Data)
    requires Symbols(x)
    ensures Plus(Poly(ONE, x + SIX_ZEROS), ONE).bits < 0x4000_0000
  {
    hide Poly;
    PolyFits(ONE, x + SIX_ZEROS);
  }

  lemma Cancelled(a: Remainder, b: Remainder)
    requires Plus(a, b) == Plus(a, ONE)
    ensures b == ONE
  {
  }

  /** Lists that differ in their last six symbols: the difference of the checksums is that of the tails. */
  lemma DifferByTail(x: Data, w: Data)
    requires |w| == 6
    ensures Plus(Poly(ONE, x + SIX_ZEROS), Poly(ONE, x + w)) == Poly(ZERO, w)
  {
    hide Poly, Plus;
    PolyIsLinear(ONE, ONE, x + SIX_ZEROS, x + w);
    PlusSelf(ONE, ONE);
    var d := Xor(x + SIX_ZEROS, x + w);
    XorTail(x, w, d);
    ZerosStay(d[..|x|]);
    assert d == d[..|x|] + w;
    PolyConcat(ZERO, d[..|x|], w);
  }

  lemma XorTail(x: Data, w: Data, d: Data)
    requires |w| == 6 && d == Xor(x + SIX_ZEROS, x + w)
    ensures d[|x|..] == w && forall i | 0 <= i < |x| :: d[i] == 0
  {
    forall i | 0 <= i < |d| ensures d[i] == if i < |x| then 0 else w[i - |x|] {
      XorSelf(x, w, i);
    }
  }

  lemma XorSelf(x: Data, w: Data, i: nat)
    requires |w| == 6 && i < |x| + 6
    ensures (x + SIX_ZEROS)[i] ^ (x + w)[i] == if i < |x| then 0 else w[i - |x|]
  {
    if i < |x| {
      XorByte(x[i]);
    } else {
      assert (x + SIX_ZEROS)[i] == 0;
      XorByte(w[i - |x|]);
    }
  }

  lemma XorByte(b: bv8)
    ensures b ^ b == 0 && 0 ^ b == b
  {
  }

  /** No other six symbols verify. */
  lemma ChecksumUnique(hrp: Text, values: Data, w: Data)
    requires Symbols(values) && Symbols(w) && |w| == 6 && Verifies(hrp, values + w)
    ensures w == Checksum(hrp, values)
  {
    hide Poly, Plus, Part;
    var x, v := Expand(hrp) + values, Checksum(hrp, values);
    ChecksumVerifies(hrp, values);
    ExpandIsSymbols(hrp);
    assert Expand(hrp) + (values + w) == x + w && Expand(hrp) + (values + v) == x + v;
    if w != v {
      assert (x + w)[|x|..] == w && (x + v)[|x|..] == v;
      WindowDetected(x + w, x + v, |x|);
    }
  }

  // ---------- Encoding ----------

  function ByteOf(d: bv8): (n: nat)
    ensures n < 256
  {
    d as int
  }

  lemma ByteIs(d: bv8)
    ensures d < 32 <==> ByteOf(d) < 32
    ensures ByteOf(d) as bv8 == d
  {
  }

  lemma ByteBack(n: nat)
    requires n < 32
    ensures n as bv8 < 32 && ByteOf(n as bv8) == n
  {
  }

  function Letters(v: Data): (t: string)
    requires Symbols(v)
    ensures |t| == |v|
  {
    seq(|v|, i requires 0 <= i < |v| =>
      ByteIs(v[i]);
      Letter(ByteOf(v[i])))
  }

  lemma LetterAt(v: Data, i: nat)
    requires Symbols(v) && i < |v|
    ensures ByteOf(v[i]) < 32 && Letters(v)[i] == Letter(ByteOf(v[i]))
  {
    ByteIs(v[i]);
  }

  lemma SymbolsAppend(v: Data, w: Data)
    requires Symbols(v) && Symbols(w)
    ensures Symbols(v + w)
  {
  }

  ghost function Encoded(hrp: Text, values: Data): string
    requires Symbols(values)
  {
    ChecksumVerifies(hrp, values);
    SymbolsAppend(values, Checksum(hrp, values));
    hrp + "1" + Letters(values + Checksum(hrp, values))
  }

  /** bech32::Encode; a value of 32 or more would index past the character set. */
  method Encode(hrp: Text, values: Data) returns (ret: string)
    requires Symbols(values)
    ensures ret == Encoded(hrp, values)
  {
    hide Letter, Poly, Parts, Verifies, Checksum, ByteOf;
    var checksum := CreateChecksum(hrp, values);
    ChecksumVerifies(hrp, values);
    var combined := values + checksum;
    SymbolsAppend(values, checksum);
    ret := hrp + "1";
    for i := 0 to |combined|
      invariant ret == hrp + "1" + Letters(combined)[..i]
    {
      LetterAt(combined, i);
      ret := ret + [Letter(ByteOf(combined[i]))];
    }
    assert Letters(combined)[..|combined|] == Letters(combined);
  }

  // ---------- Decoding ----------

  /** rfind('1'); the length of the string stands for npos. */
  function LastOne(s: string, n: nat): (p: nat)
    requires n <= |s|
    ensures p < n || p == |s|
    ensures p < |s| ==> s[p] == '1' && forall i | p < i < n :: s[i] != '1'
    ensures p == |s| ==> forall i | 0 <= i < n :: s[i] != '1'
  {
    if n == 0 then |s| else if s[n - 1] == '1' then n - 1 else LastOne(s, n - 1)
  }

  lemma LastOneIs(s: string, p: nat)
    requires p < |s| && s[p] == '1' && forall i | p < i < |s| :: s[i] != '1'
    ensures LastOne(s, |s|) == p
  {
  }

  ghost predicate AllPrintable(s: string) { forall i | 0 <= i < |s| :: Printable(s[i]) }

  ghost predicate Mixed(s: string) { (exists i :: 0 <= i < |s| && IsLower(s[i])) && exists i :: 0 <= i < |s| && IsUpper(s[i]) }

  ghost predicate HaveValues(s: string) { forall i | 0 <= i < |s| :: Rev(s[i]) != -1 }

  function ValueOf(c: char): bv8 {
    LetterOfRev(c);
    if Rev(c) == -1 then 0 else Rev(c) as bv8
  }

  ghost function ValuesOf(s: string): (v: Data)
    ensures |v| == |s|
  {
    seq(|s|, i requires 0 <= i < |s| => ValueOf(s[i]))
  }

  ghost function Lower(s: Text): (t: Text)
    ensures |t| == |s| && forall i | 0 <= i < |s| :: t[i] == LowerCase(s[i])
  {
    seq(|s|, i requires 0 <= i < |s| => LowerCase(s[i]))
  }

  /** Well-formed apart from the checksum. */
  ghost predicate WellFormed(s: Text) {
    && AllPrintable(s) && !Mixed(s)
    && var pos := LastOne(s, |s|);
       |s| <= 90 && pos < |s| && pos != 0 && pos + 7 <= |s| && HaveValues(s[pos + 1..])
  }

  /** What bech32::Decode accepts, and what it gives. */
  ghost function Decoded(s: Text): Option<(Text, Data)> {
    if !WellFormed(s) then None
    else
      var pos := LastOne(s, |s|);
      var hrp, values := Lower(s[..pos]), ValuesOf(s[pos + 1..]);
      if Verifies(hrp, values) then Some((hrp, values[..|values| - 6])) else None
  }

  /** The scan for unprintable characters and for mixed case. */
  method CheckCase(str: Text) returns (printable: bool, lower: bool, upper: bool)
    ensures printable <==> AllPrintable(str)
    ensures printable ==> (lower && upper <==> Mixed(str))
  {
    lower, upper := false, false;
    for i := 0 to |str|
      invariant forall j | 0 <= j < i :: Printable(str[j])
      invariant lower <==> exists j :: 0 <= j < i && IsLower(str[j])
      invariant upper <==> exists j :: 0 <= j < i && IsUpper(str[j])
    {
      if !Printable(str[i]) { return false, lower, upper; }
      if IsLower(str[i]) { lower := true; }
      if IsUpper(str[i]) { upper := true; }
    }
    printable := true;
  }

  method DecodeValues(str: Text, pos: nat) returns (ok: bool, values: Data)
    requires pos < |str|
    ensures ok <==> HaveValues(str[pos + 1..])
    ensures ok ==> values == ValuesOf(str[pos + 1..])
  {
    hide Rev;
    ghost var rest := str[pos + 1..];
    var a := new bv8[|str| - 1 - pos](i => 0);
    for i := 0 to |str| - 1 - pos
      invariant forall j | 0 <= j < i :: Rev(rest[j]) != -1 && a[j] == ValueOf(rest[j])
    {
      var c := str[i + pos + 1];
      assert c == rest[i];
      if Rev(c) == -1 { return false, []; }
      a[i] := ValueOf(c);
    }
    return true, a[..];
  }

  /** bech32::Decode: an empty pair on failure. */
  method Decode(str: Text) returns (hrp: Text, v: Data)
    ensures Decoded(str) == None ==> hrp == "" && v == []
    ensures Decoded(str).Some? ==> (hrp, v) == Decoded(str).value
  {
    hide Verifies, ValuesOf, HaveValues, AllPrintable, Mixed;
    hrp, v := "", [];
    var printable, lower, upper := CheckCase(str);
    if !printable { return; }
    if lower && upper { return; }
    var pos := LastOne(str, |str|);
    if |str| > 90 || pos == |str| || pos == 0 || pos + 7 > |str| { return; }
    var ok, values := DecodeValues(str, pos);
    if !ok { return; }
    var part := "";
    for i := 0 to pos
      invariant part == Lower(str[..pos])[..i]
    {
      part := part + [LowerCase(str[i])];
    }
    assert part == Lower(str[..pos]);
    var verified := VerifyChecksum(part, values);
    if !verified { return; }
    hrp, v := part, values[..|values| - 6];
  }

  // ---------- Round trips ----------

  lemma ValueOfLetter(d: bv8)
    requires d < 32
    ensures ByteOf(d) < 32 && ValueOf(Letter(ByteOf(d))) == d
    ensures var c := Letter(ByteOf(d)); Rev(c) != -1 && Printable(c) && !IsUpper(c) && c != '1'
  {
    hide Letter, Rev, ByteOf;
    ByteIs(d);
    RevOfLetter(ByteOf(d));
  }

  lemma LetterOfValue(c: char)
    requires Rev(c) != -1
    ensures ValueOf(c) < 32 && ByteOf(ValueOf(c)) < 32 && Letter(ByteOf(ValueOf(c))) == LowerCase(c)
  {
    hide Letter, Rev, ByteOf;
    LetterOfRev(c);
    ByteBack(Rev(c));
  }

  /** A human-readable part that survives the round trip: printable, and without upper case. */
  ghost predicate Readable(hrp: Text) {
    hrp != "" && forall i | 0 <= i < |hrp| :: Printable(hrp[i]) && !IsUpper(hrp[i])
  }

  lemma LettersAre(v: Data)
    requires Symbols(v)
    ensures HaveValues(Letters(v)) && ValuesOf(Letters(v)) == v
    ensures forall i | 0 <= i < |v| :: var c := Letters(v)[i]; Printable(c) && !IsUpper(c) && c != '1'
  {
    hide Letter, Rev, ValueOf, ByteOf;
    forall i | 0 <= i < |v|
      ensures var c := Letters(v)[i]; Rev(c) != -1 && ValueOf(c) == v[i] && Printable(c) && !IsUpper(c) && c != '1'
    {
      LetterAt(v, i);
      ValueOfLetter(v[i]);
    }
  }

  lemma LowerIsSame(s: Text)
    ensures Lower(s) == s <==> forall i | 0 <= i < |s| :: !IsUpper(s[i])
  {
    if forall i | 0 <= i < |s| :: !IsUpper(s[i]) {
      assert Lower(s) == s;
    } else {
      var i :| 0 <= i < |s| && IsUpper(s[i]);
      assert Lower(s)[i] != s[i];
    }
  }

  /** Where the separator of an encoded string is, and what is on either side. */
  lemma EncodedParts(hrp: Text, v: Data)
    requires Symbols(v)
    ensures var s := Encoded(hrp, v);
            var w := v + Checksum(hrp, v);
            && Symbols(w) && |s| == |hrp| + 7 + |v| && (forall i | 0 <= i < |s| :: s[i] as int < 256)
            && LastOne(s, |s|) == |hrp| && s[..|hrp|] == hrp
            && s[|hrp| + 1..] == Letters(w) && HaveValues(s[|hrp| + 1..]) && ValuesOf(s[|hrp| + 1..]) == w
            && (AllPrintable(s) <==> AllPrintable(hrp)) && (Readable(hrp) ==> !Mixed(s))
            && Verifies(hrp, w)
  {
    hide Letters, HaveValues, ValuesOf, Verifies, Checksum, Symbols;
    var s, w := Encoded(hrp, v), v + Checksum(hrp, v);
    ChecksumVerifies(hrp, v);
    SymbolsAppend(v, Checksum(hrp, v));
    LettersAre(w);
    var t := Letters(w);
    assert s[|hrp| + 1..] == t;
    forall i | |hrp| < i < |s| ensures s[i] == t[i - |hrp| - 1] {}
    LastOneIs(s, |hrp|);
    if AllPrintable(s) {
      forall i | 0 <= i < |hrp| ensures Printable(hrp[i]) { assert s[i] == hrp[i]; }
    }
  }

  /** Decoding what was encoded gives it back exactly when the human-readable part is not empty,
      printable and without upper case, and the whole is at most 90 characters. */
  lemma DecodeEncoded(hrp: Text, v: Data, s: Text)
    requires Symbols(v) && s == Encoded(hrp, v)
    ensures Decoded(s) == Some((hrp, v)) <==> Readable(hrp) && |hrp| + 7 + |v| <= 90
  {
    hide Letters, HaveValues, ValuesOf, Verifies, Checksum, Symbols, Encoded;
    EncodedParts(hrp, v);
    LowerIsSame(hrp);
    var w := v + Checksum(hrp, v);
    assert w[..|w| - 6] == v;
  }

  /** What decodes is the encoding of what it decodes to, up to case. */
  lemma EncodeDecoded(s: Text)
    requires Decoded(s).Some?
    ensures var (hrp, v) := Decoded(s).value;
            Symbols(v) && Encoded(hrp, v) == Lower(s)
  {
    hide Letters, HaveValues, ValuesOf, Verifies, Checksum, AllPrintable, Mixed, Poly, Rev, Letter;
    var pos := LastOne(s, |s|);
    var rest := s[pos + 1..];
    var hrp, values := Lower(s[..pos]), ValuesOf(rest);
    LettersOfValues(rest);
    var v, w := values[..|values| - 6], values[|values| - 6..];
    assert values == v + w;
    ChecksumUnique(hrp, v, w);
    ChecksumVerifies(hrp, v);
    forall i | 0 <= i < |s| ensures Encoded(hrp, v)[i] == Lower(s)[i] {
      if i > pos { assert rest[i - pos - 1] == s[i]; }
    }
  }

  lemma LettersOfValues(t: string)
    requires HaveValues(t)
    ensures Symbols(ValuesOf(t)) && forall i | 0 <= i < |t| :: Letters(ValuesOf(t))[i] == LowerCase(t[i])
  {
    hide Rev, Letter, ValueOf, ByteOf;
    var v := ValuesOf(t);
    forall i | 0 <= i < |t| ensures v[i] < 32 { LetterOfValue(t[i]); }
    forall i | 0 <= i < |t| ensures Letters(v)[i] == LowerCase(t[i]) {
      LetterAt(v, i);
      LetterOfValue(t[i]);
    }
  }

  /** Two strings that decode with the same human-readable part never differ only within six characters
      of the data part, case aside. */
  lemma BurstDetected(s: Text, t: Text, k: nat)
    requires WellFormed(s) && WellFormed(t) && |s| == |t| && Lower(s) != Lower(t)
    requires LastOne(s, |s|) == LastOne(t, |t|) < k
    requires forall i | 0 <= i < |s| && !(k <= i < k + 6) :: LowerCase(s[i]) == LowerCase(t[i])
    ensures Decoded(s) == None || Decoded(t) == None
  {
    hide Decoded, WellFormed, Verifies, HaveValues, DifferWithin, ValuesOf, Lower, LowerCase;
    DecodedVerifies(s);
    DecodedVerifies(t);
    var pos := LastOne(s, |s|);
    var x, y := s[pos + 1..], t[pos + 1..];
    var j := EitherSide(s, t, pos, k);
    ValuesDiffer(x, y, k - pos - 1, j);
    BurstChanges(Lower(s[..pos]), ValuesOf(x), ValuesOf(y), k - pos - 1);
  }

  /** Either side of the separator, when only characters from k on differ. */
  lemma EitherSide(s: Text, t: Text, pos: nat, k: nat) returns (j: nat)
    requires |s| == |t| && pos < |s| && pos < k && Lower(s) != Lower(t)
    requires forall i | 0 <= i < |s| && !(k <= i < k + 6) :: LowerCase(s[i]) == LowerCase(t[i])
    ensures Lower(s[..pos]) == Lower(t[..pos])
    ensures var x, y := s[pos + 1..], t[pos + 1..];
            && j < |x| && LowerCase(x[j]) != LowerCase(y[j])
            && forall i | 0 <= i < |x| && !(k - pos - 1 <= i < k - pos + 5) :: LowerCase(x[i]) == LowerCase(y[i])
  {
    hide LowerCase;
    var m :| 0 <= m < |s| && LowerCase(s[m]) != LowerCase(t[m]);
    j := m - pos - 1;
    var x, y := s[pos + 1..], t[pos + 1..];
    forall i | 0 <= i < |x| && !(k - pos - 1 <= i < k - pos + 5) ensures LowerCase(x[i]) == LowerCase(y[i]) {
      assert x[i] == s[pos + 1 + i] && y[i] == t[pos + 1 + i];
    }
  }

  lemma DecodedVerifies(s: Text)
    requires WellFormed(s)
    ensures var pos := LastOne(s, |s|);
            pos < |s| && HaveValues(s[pos + 1..]) && (Decoded(s).Some? ==> Verifies(Lower(s[..pos]), ValuesOf(s[pos + 1..])))
  {
  }

  lemma ValuesDiffer(x: string, y: string, k: nat, j: nat)
    requires HaveValues(x) && HaveValues(y) && j < |x| == |y| && LowerCase(x[j]) != LowerCase(y[j])
    requires forall i | 0 <= i < |x| && !(k <= i < k + 6) :: LowerCase(x[i]) == LowerCase(y[i])
    ensures Symbols(ValuesOf(x)) && Symbols(ValuesOf(y)) && DifferWithin(ValuesOf(x), ValuesOf(y), k)
  {
    hide HaveValues, ValuesOf, LowerCase, Symbols;
    ValuesAgree(x, y);
  }

  lemma ValuesAgree(x: string, y: string)
    requires HaveValues(x) && HaveValues(y) && |x| == |y|
    ensures Symbols(ValuesOf(x)) && Symbols(ValuesOf(y)) && |ValuesOf(x)| == |ValuesOf(y)| == |x|
    ensures forall i | 0 <= i < |x| :: ValuesOf(x)[i] == ValuesOf(y)[i] <==> LowerCase(x[i]) == LowerCase(y[i])
  {
    hide Rev, Letter, ValueOf, ByteOf;
    var u, v := ValuesOf(x), ValuesOf(y);
    LettersOfValues(x);
    LettersOfValues(y);
    forall i | 0 <= i < |x| ensures u[i] == v[i] <==> LowerCase(x[i]) == LowerCase(y[i]) {
      LetterAt(u, i);
      LetterAt(v, i);
      SameLetter(u[i], v[i]);
    }
  }

  lemma SameLetter(a: bv8, b: bv8)
    requires a < 32 && b < 32 && ByteOf(a) < 32 && ByteOf(b) < 32
    ensures Letter(ByteOf(a)) == Letter(ByteOf(b)) <==> a == b
  {
    hide Letter, ByteOf;
    ValueOfLetter(a);
    ValueOfLetter(b);
  }

  lemma BurstChanges(hrp: Text, u: Data, v: Data, k: nat)
    requires Symbols(u) && Symbols(v) && DifferWithin(u, v, k)
    ensures !(Verifies(hrp, u) && Verifies(hrp, v))
  {
    hide Poly;
    var h := Expand(hrp);
    ExpandIsSymbols(hrp);
    assert (h + u)[|h|..] == u && (h + v)[|h|..] == v;
    WindowDetected(h + u, h + v, |h| + k);
  }

  /** Nor do they ever differ in just one, two or three characters of the data part, wherever those are. */
  lemma ThreeErrorsDetected(s: Text, t: Text, i: nat, j: nat, k: nat)
    requires WellFormed(s) && WellFormed(t) && LettersDifferAmong(s, t, i, j, k)
    requires LastOne(s, |s|) == LastOne(t, |t|) < i
    ensures Decoded(s) == None || Decoded(t) == None
  {
    hide Decoded, WellFormed, Verifies, HaveValues, DifferAmong, LettersDifferAmong, ValuesOf, Lower, LowerCase, LastOne;
    DecodedVerifies(s);
    DecodedVerifies(t);
    IsShort(s, t, i, j, k);
    var pos := LastOne(s, |s|);
    var x, y := s[pos + 1..], t[pos + 1..];
    ThreeSides(s, t, pos, i, j, k);
    ThreeValuesDiffer(x, y, i - pos - 1, j - pos - 1, k - pos - 1);
    ThreeChange(Lower(s[..pos]), ValuesOf(x), ValuesOf(y), i - pos - 1, j - pos - 1, k - pos - 1);
  }

  lemma IsShort(s: Text, t: Text, i: nat, j: nat, k: nat)
    requires WellFormed(s) && LettersDifferAmong(s, t, i, j, k)
    ensures i < j < k < |s| == |t| && |s| <= 90
  {
    hide LowerCase;
  }

  /** Case aside, x and y differ, but in no characters except i, j and k. */
  ghost predicate LettersDifferAmong(x: string, y: string, i: nat, j: nat, k: nat) {
    && i < j < k < |x| == |y| && (exists m :: 0 <= m < |x| && LowerCase(x[m]) != LowerCase(y[m]))
    && forall m | 0 <= m < |x| && m != i && m != j && m != k :: LowerCase(x[m]) == LowerCase(y[m])
  }

  lemma ThreeSides(s: Text, t: Text, pos: nat, i: nat, j: nat, k: nat)
    requires LettersDifferAmong(s, t, i, j, k) && pos < i
    ensures Lower(s[..pos]) == Lower(t[..pos])
    ensures LettersDifferAmong(s[pos + 1..], t[pos + 1..], i - pos - 1, j - pos - 1, k - pos - 1)
  {
    hide LowerCase;
    var x, y := s[pos + 1..], t[pos + 1..];
    forall m | 0 <= m < |x| ensures x[m] == s[pos + 1 + m] && y[m] == t[pos + 1 + m] {}
    var m :| 0 <= m < |s| && LowerCase(s[m]) != LowerCase(t[m]);
    assert LowerCase(x[m - pos - 1]) != LowerCase(y[m - pos - 1]);
  }

  lemma ThreeValuesDiffer(x: string, y: string, i: nat, j: nat, k: nat)
    requires HaveValues(x) && HaveValues(y) && LettersDifferAmong(x, y, i, j, k)
    ensures Symbols(ValuesOf(x)) && Symbols(ValuesOf(y)) && DifferAmong(ValuesOf(x), ValuesOf(y), i, j, k)
  {
    hide HaveValues, ValuesOf, LowerCase, Symbols;
    ValuesAgree(x, y);
  }

  lemma ThreeChange(hrp: Text, u: Data, v: Data, i: nat, j: nat, k: nat)
    requires Symbols(u) && Symbols(v) && DifferAmong(u, v, i, j, k) && k - i < 1023
    ensures !(Verifies(hrp, u) && Verifies(hrp, v))
  {
    hide Poly;
    var h := Expand(hrp);
    ExpandIsSymbols(hrp);
    assert (h + u)[|h|..] == u && (h + v)[|h|..] == v;
    ThreeDetected(h + u, h + v, |h| + i, |h| + j, |h| + k);
  }
}
