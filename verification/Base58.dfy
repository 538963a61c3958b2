/** EncodeBase58 and DecodeBase58, digit by digit in a buffer, and the forms with a checksum. */
module Base58 {
  import opened Arithmetic
  import opened Radix
  import opened Results
  import opened Base58Alphabet
  import opened Base58Text

  /** The length highest places of a buffer are in use; all others are still zero. */
  ghost predicate Buffer(base: nat, a: seq<nat>, length: nat) {
    length <= |a| && Digits(base, a) && forall i | 0 <= i < |a| - length :: a[i] == 0
  }

  lemma MulAddStep(base: nat, mult: nat, d: nat, carry: nat, p: nat)
    requires base > 0
    ensures var n := carry + mult * d;
            (n % base) * p + (n / base) * (base * p) == carry * p + (d * p) * mult
  {
    var n := carry + mult * d;
    var q, r := n / base, n % base;
    assert n * p == r * p + q * (base * p) by {
      assert n == r + base * q;
      assert (r + base * q) * p == r * p + (base * q) * p;
      MulComm(base, q);
      MulAssoc(q, base, p);
    }
    assert n * p == carry * p + (mult * d) * p;
    MulAssoc(mult, d, p);
    MulComm(mult, d * p);
  }

  lemma CarryBound(base: nat, mult: nat, d: nat, carry: nat)
    requires carry < mult && d < base
    ensures 0 <= (carry + mult * d) / base < mult && 0 <= carry + mult * d < mult * base
  {
    var n := carry + mult * d;
    MulMono(mult, d + 1, base);
    MulComm(mult, base);
    NotNegative(n, base);
    MulOrder(base, n / base, mult);
  }

  lemma NotNegative(n: nat, base: nat)
    requires base > 0
    ensures n / base >= 0
  {
  }

  lemma TooBig(base: nat, low: nat, carry: nat, p: nat)
    requires low + carry * p < p
    ensures carry == 0
  {
    if carry > 0 { MulMono(p, 1, carry); }
  }

  lemma LowStep(base: nat, a: seq<nat>, n: nat)
    requires n <= |a|
    ensures n < |a| ==> Low(base, a, n + 1) == Low(base, a, n) + a[|a| - n - 1] * Pow(base, n)
    ensures Low(base, a, 0) == 0
  {
  }

  lemma PowStep(base: nat, n: nat)
    ensures Pow(base, n + 1) == base * Pow(base, n) && Pow(base, 0) == 1
  {
  }

  lemma Distribute(x: nat, y: nat, m: nat)
    ensures (x + y) * m == x * m + y * m
  {
  }

  lemma DigitDone(base: nat, mult: nat, d: nat, carry: nat, i: nat, now: nat, before: nat)
    requires 0 < base <= 256 && carry < mult <= 256 && d < base
    ensures var n := carry + mult * d;
            && 0 <= n < 0x8000_0000 && 0 <= n / base < mult && 0 <= n % base < base
            && now + (n % base) * Pow(base, i) + (n / base) * Pow(base, i + 1) - (before + d * Pow(base, i)) * mult
               == now + carry * Pow(base, i) - before * mult
  {
    hide Pow;
    MulAddStep(base, mult, d, carry, Pow(base, i));
    CarryBound(base, mult, d, carry);
    MulMono(mult, base, 256);
    PowStep(base, i);
    Distribute(before, d * Pow(base, i), mult);
  }

  /** The i last places of x have been multiplied, with a carry left over. */
  ghost predicate MulAdding(base: nat, mult: nat, c: nat, x: seq<nat>, a: seq<nat>, i: nat, carry: nat) {
    && i <= |a| == |x| && carry < mult && Digits(base, a)
    && (forall j | 0 <= j < |a| - i :: a[j] == x[j])
    && Low(base, a, i) + carry * Pow(base, i) == Low(base, x, i) * mult + c
  }

  lemma MulAddStart(base: nat, mult: nat, c: nat, x: seq<nat>)
    requires c < mult && Digits(base, x)
    ensures MulAdding(base, mult, c, x, x, 0, c)
  {
    LowStep(base, x, 0);
    PowStep(base, 0);
  }

  lemma MulAddNext(base: nat, mult: nat, c: nat, x: seq<nat>, a: seq<nat>, i: nat, carry: nat)
    requires 0 < base <= 256 && mult <= 256 && MulAdding(base, mult, c, x, a, i, carry) && i < |a|
    ensures var k := |a| - 1 - i;
            var n := carry + mult * a[k];
            && n < 0x8000_0000 && n / base >= 0
            && MulAdding(base, mult, c, x, a[k := n % base], i + 1, n / base)
  {
    hide Pow, Low;
    var k := |a| - 1 - i;
    var n := carry + mult * a[k];
    var b := a[k := n % base];
    DigitDone(base, mult, a[k], carry, i, Low(base, a, i), Low(base, x, i));
    MulAddSum(base, mult, c, x, a, i, carry);
    forall j | 0 <= j < |b| - (i + 1) ensures b[j] == x[j] {}
    assert Digits(base, b);
  }

  lemma MulAddSum(base: nat, mult: nat, c: nat, x: seq<nat>, a: seq<nat>, i: nat, carry: nat)
    requires 0 < base <= 256 && mult <= 256 && MulAdding(base, mult, c, x, a, i, carry) && i < |a|
    ensures var k := |a| - 1 - i;
            var n := carry + mult * a[k];
            Low(base, a[k := n % base], i + 1) + (n / base) * Pow(base, i + 1) == Low(base, x, i + 1) * mult + c
  {
    hide Pow, Low;
    var k := |a| - 1 - i;
    var n := carry + mult * a[k];
    var b := a[k := n % base];
    LowStep(base, x, i);
    DigitDone(base, mult, a[k], carry, i, Low(base, a, i), Low(base, x, i));
    LowSame(base, a, b, i);
    LowStep(base, b, i);
  }

  lemma MulAddDone(base: nat, mult: nat, c: nat, x: seq<nat>, length: nat, a: seq<nat>, i: nat, carry: nat)
    requires MulAdding(base, mult, c, x, a, i, carry) && Buffer(base, x, length)
    requires i == |a| || (carry == 0 && length <= i)
    requires Low(base, x, |x|) * mult + c < Pow(base, |x|)
    ensures carry == 0 && Buffer(base, a, if length <= i then i else |a|) && Low(base, a, |a|) == Low(base, x, |x|) * mult + c
  {
    hide Pow, Low;
    if i == |a| {
      TooBig(base, Low(base, a, i), carry, Pow(base, i));
    } else {
      LowZeros(base, x, i, |x|);
      LowZeros(base, a, i, |a|);
    }
  }

  /** The inner loop of both directions: multiply the number in the buffer by mult and add c. The carry
      fits into an int and is used up before the buffer is. */
  method MulAdd(base: nat, a: array<nat>, length: nat, mult: nat, c: nat) returns (newLength: nat)
    requires 1 < base <= 256 && c < mult <= 256
    requires Buffer(base, a[..], length)
    requires Low(base, a[..], a.Length) * mult + c < Pow(base, a.Length)
    modifies a
    ensures Buffer(base, a[..], newLength)
    ensures Low(base, a[..], a.Length) == Low(base, old(a[..]), a.Length) * mult + c
  {
    hide Pow, Low, MulAdding;
    var carry, i := c, 0;
    ghost var x := a[..];
    MulAddStart(base, mult, c, x);
    while (carry != 0 || i < length) && i < a.Length
      invariant 0 <= i <= a.Length && 0 <= carry && MulAdding(base, mult, c, x, a[..], i, carry)
    {
      ghost var before := a[..];
      MulAddNext(base, mult, c, x, before, i, carry);
      var k := a.Length - 1 - i;
      carry := carry + mult * a[k];
      assert carry < 0x8000_0000;
      a[k] := carry % base;
      carry := carry / base;
      assert a[..] == before[k := a[k]];
      i := i + 1;
    }
    MulAddDone(base, mult, c, x, length, a[..], i, carry);
    assert carry == 0;
    newLength := i;
  }

  /** Skip the leading zeros of the buffer. */
  method FirstDigit(base: nat, a: array<nat>, length: nat) returns (it: nat)
    requires base > 1 && Buffer(base, a[..], length)
    ensures it <= a.Length && a[it..] == ToBase(base, Low(base, a[..], a.Length))
  {
    it := a.Length - length;
    while it < a.Length && a[it] == 0
      invariant it <= a.Length && forall i | 0 <= i < it :: a[i] == 0
    {
      it := it + 1;
    }
    LowZeros(base, a[..], a.Length - it, a.Length);
    LowIsNum(base, a[..], a.Length - it);
    assert a[..][it..] == a[it..];
    ToBaseUnique(base, a[it..]);
  }

  lemma Append(base: nat, s: seq<nat>, d: nat)
    ensures Num(base, s + [d]) == Num(base, s) * base + d
  {
    assert (s + [d])[..|s|] == s;
  }

  /** The number built up so far leaves room for another digit. */
  lemma Room(n: nat, base: nat, c: nat, done: nat, all: nat, limit: nat)
    requires base > 0 && n < Pow(base, done) && c < base && done < all && Pow(base, all) <= limit
    ensures n * base + c < Pow(base, done + 1) && n * base + c < limit
  {
    MulMono(base, n + 1, Pow(base, done));
    MulComm(base, n);
    PowMono(base, done + 1, all);
  }

  // ---------- Encoding ----------

  method EncodeBase58(b: seq<Byte>) returns (str: string)
    ensures str == Encoded(b)
  {
    hide ToBase, Num, Pow, Low, Encoded;
    var zeroes, length, p := 0, 0, 0;
    while p < |b| && b[p] == 0
      invariant p == zeroes <= |b| && forall i | 0 <= i < p :: b[i] == 0
    {
      p, zeroes := p + 1, zeroes + 1;
    }
    ZerosIs(b, 0, p);
    ghost var z := p;
    var size := (|b| - p) * 138 / 100 + 1;
    BytesFit(|b| - p);
    var b58 := new nat[size](i => 0);
    EmptyBuffer(58, b58[..]);
    StartNumber(256, Nats(b[z..p]));
    while p < |b|
      invariant z <= p <= |b| && Buffer(58, b58[..], length)
      invariant Low(58, b58[..], size) == Num(256, Nats(b[z..p])) < Pow(256, p - z)
    {
      Room(Low(58, b58[..], size), 256, b[p], p - z, |b| - z, Pow(58, size));
      length := MulAdd(58, b58, length, 256, b[p]);
      assert Nats(b[z..p + 1]) == Nats(b[z..p]) + [b[p]];
      Append(256, Nats(b[z..p]), b[p]);
      p := p + 1;
    }
    assert b[z..p] == b[z..];
    var it := FirstDigit(58, b58, length);
    ghost var n := Num(256, Nats(b[z..]));
    ToBaseIs(58, n);
    str := Translate(Repeated('1', zeroes), b58, it);
    EncodedIs(b, z, n);
  }

  method Translate(str0: string, b58: array<nat>, start: nat) returns (str: string)
    requires start <= b58.Length && Digits(58, b58[start..])
    ensures str == str0 + Letters(b58[start..])
  {
    hide Index, Letter;
    str := str0;
    var it := start;
    while it < b58.Length
      invariant start <= it <= b58.Length
      invariant str == str0 + Letters(b58[start..])[..it - start]
    {
      assert b58[start..][it - start] == b58[it];
      str := str + [Letter(b58[it])];
      it := it + 1;
    }
  }

  lemma EncodedIs(b: seq<Byte>, z: nat, n: nat)
    requires z == Zeros(b, 0) && n == Num(256, Nats(b[z..])) && Digits(58, ToBase(58, n))
    ensures Encoded(b) == Repeated('1', z) + Letters(ToBase(58, n))
  {
  }

  lemma {:induction false} EmptyBuffer(base: nat, a: seq<nat>)
    requires base > 0 && forall i | 0 <= i < |a| :: a[i] == 0
    ensures Buffer(base, a, 0) && Low(base, a, |a|) == 0
  {
    LowZeros(base, a, 0, |a|);
  }

  lemma StartNumber(base: nat, s: seq<nat>)
    requires s == []
    ensures Num(base, s) == 0 < Pow(base, 0)
  {
  }

  // ---------- Decoding ----------

  /** *psz, the NUL at the end included. */
  function At(c: string, p: nat): char { if p < |c| then c[p] else '\0' }

  method SkipSpaces(c: string, p0: nat) returns (p: nat)
    requires p0 <= |c| && '\0' !in c
    ensures p0 <= p <= |c| && (forall i | p0 <= i < p :: Space(c[i])) && (p < |c| ==> !Space(c[p]))
  {
    p := p0;
    while At(c, p) != '\0' && Space(At(c, p))
      invariant p0 <= p <= |c| && forall i | p0 <= i < p :: Space(c[i])
      decreases |c| - p
    {
      p := p + 1;
    }
  }

  method SkipOnes(c: string, p0: nat) returns (p: nat, zeroes: nat)
    requires p0 <= |c| && '\0' !in c
    ensures p0 <= p == p0 + zeroes <= |c| && (forall i | p0 <= i < p :: c[i] == '1') && At(c, p) != '1'
  {
    p, zeroes := p0, 0;
    while At(c, p) == '1'
      invariant p0 <= p == p0 + zeroes <= |c| && forall i | p0 <= i < p :: c[i] == '1'
      decreases |c| - p
    {
      p, zeroes := p + 1, zeroes + 1;
    }
  }

  /** The loop over the characters: up to the end, a space, or a character outside the alphabet. */
  method DecodeDigits(c: string, z: nat, b256: array<nat>) returns (valid: bool, p: nat, length: nat)
    requires z <= |c| && '\0' !in c && b256.Length == (|c| - z) * 733 / 1000 + 1
    requires forall i | 0 <= i < b256.Length :: b256[i] == 0
    modifies b256
    ensures z <= p <= |c| && Buffer(256, b256[..], length)
    ensures !valid ==> p < |c| && !Space(c[p]) && Index(c[p]) == -1
    ensures valid ==> InAlphabet(c[z..p]) && (p == |c| || Space(c[p]))
    ensures valid ==> Low(256, b256[..], b256.Length) == Num(58, Values(c[z..p]))
  {
    hide Num, Pow, Low, Letter, Index, Values, Buffer;
    p, length := z, 0;
    DigitsFit(|c| - p);
    EmptyBuffer(256, b256[..]);
    StartNumber(58, Values(c[z..p]));
    ghost var n: nat, done, all, limit := 0, 0, |c| - z, Pow(256, b256.Length);
    assert Pow(58, all) <= limit;
    while At(c, p) != '\0' && !Space(At(c, p))
      invariant z <= p <= |c| && Buffer(256, b256[..], length) && InAlphabet(c[z..p])
      invariant n == Low(256, b256[..], b256.Length) == Num(58, Values(c[z..p])) && n < Pow(58, done) && done == p - z
      decreases |c| - p
    {
      var digit := Index(c[p]);
      if digit == -1 { return false, p, length; }
      Room(n, 58, digit, done, all, limit);
      length := MulAdd(256, b256, length, 58, digit);
      NextValue(c, z, p);
      n := n * 58 + digit;
      p, done := p + 1, done + 1;
    }
    valid := true;
  }

  /** DecodeBase58 on a C string: the result is left alone when it fails. */
  method DecodeText(c: string, vch0: seq<Byte>) returns (ok: bool, vch: seq<Byte>)
    requires '\0' !in c
    ensures ok <==> InAlphabet(Trimmed(c))
    ensures vch == if ok then DecodedText(Trimmed(c)) else vch0
  {
    hide ToBase, Num, Pow, Low, DecodedText, Index, Letter, Trimmed, Values, Bytes, Buffer;
    vch := vch0;
    var start := SkipSpaces(c, 0);
    var z, zeroes := SkipOnes(c, start);
    var size := (|c| - z) * 733 / 1000 + 1;
    var b256 := new nat[size](i => 0);
    var valid, end, length := DecodeDigits(c, z, b256);
    if !valid {
      InTrimmed(c, end, end, end);
      return false, vch0;
    }
    var p := SkipSpaces(c, end);
    if At(c, p) != '\0' {
      FirstIsOne();
      LeftOver(c, start, end, p);
      return false, vch0;
    }
    var it := FirstDigit(256, b256, length);
    DecodedIs(c, start, z, end);
    vch := CopyBytes(Repeated(0, zeroes), b256, it);
    ok := true;
  }

  lemma NextValue(c: string, z: nat, p: nat)
    requires z <= p < |c| && InAlphabet(c[z..p]) && Index(c[p]) != -1
    ensures InAlphabet(c[z..p + 1])
    ensures Num(58, Values(c[z..p + 1])) == Num(58, Values(c[z..p])) * 58 + Index(c[p])
  {
    hide Index, Letter, Num;
    assert c[z..p + 1] == c[z..p] + [c[p]];
    assert Values(c[z..p + 1]) == Values(c[z..p]) + [Index(c[p])];
    Append(58, Values(c[z..p]), Index(c[p]));
  }

  /** Text after a space, with text before it: the space is inside. */
  lemma LeftOver(c: string, start: nat, end: nat, p: nat)
    requires start <= end <= p < |c| && '\0' !in c && !Space(c[p])
    requires end < |c| && Space(c[end]) && !Space(c[start])
    ensures !InAlphabet(Trimmed(c))
  {
    hide Index, Trimmed, Letter;
    InTrimmed(c, start, end, p);
    var t := Trimmed(c);
    var i :| 0 <= i < |t| && t[i] == c[end];
    if Index(t[i]) != -1 { AlphabetIsText(t[i]); }
  }

  lemma ScannedText(c: string, start: nat, z: nat, end: nat)
    requires start <= z <= end <= |c| && (forall i | start <= i < z :: c[i] == '1') && InAlphabet(c[z..end])
    ensures InAlphabet(c[start..end]) && forall i | start <= i < end :: !Space(c[i])
  {
    hide Index, Letter;
    FirstIsOne();
    forall i | start <= i < end ensures Index(c[i]) != -1 && !Space(c[i]) {
      if i >= z { assert c[i] == c[z..end][i - z]; }
      AlphabetIsText(c[i]);
    }
  }

  /** What the scan went over is the trimmed text. */
  lemma DecodedIs(c: string, start: nat, z: nat, end: nat)
    requires start <= z <= end <= |c| && (forall i | 0 <= i < start || end <= i < |c| :: Space(c[i]))
    requires (forall i | start <= i < z :: c[i] == '1') && At(c, z) != '1' && InAlphabet(c[z..end])
    ensures Trimmed(c) == c[start..end] && InAlphabet(c[start..end])
    ensures var n := Num(58, Values(c[z..end]));
            Digits(256, ToBase(256, n)) && DecodedText(c[start..end]) == Repeated(0, z - start) + Bytes(ToBase(256, n))
  {
    hide Index, Letter, Num, ToBase, Trimmed, Bytes, Values, Digits, InAlphabet, Repeated, DecodedText;
    ScannedText(c, start, z, end);
    TrimmedIs(c, start, end);
    assert c[start..end][z - start..] == c[z..end];
    DecodedTextIs(c[start..end], z - start);
  }

  lemma DecodedTextIs(t: string, z: nat)
    requires InAlphabet(t) && z <= |t| && (forall i | 0 <= i < z :: t[i] == '1') && (z < |t| ==> t[z] != '1')
    ensures InAlphabet(t[z..]) && Digits(256, ToBase(256, Num(58, Values(t[z..]))))
    ensures DecodedText(t) == Repeated(0, z) + Bytes(ToBase(256, Num(58, Values(t[z..]))))
  {
    hide Index, Letter, Num, ToBase, Bytes, Digits, Repeated;
    ZerosIs(t, '1', z);
    ToBaseIs(256, Num(58, Values(t[z..])));
  }

  method CopyBytes(vch0: seq<Byte>, b256: array<nat>, start: nat) returns (vch: seq<Byte>)
    requires start <= b256.Length && Digits(256, b256[start..])
    ensures vch == vch0 + Bytes(b256[start..])
  {
    vch := vch0;
    var it := start;
    while it < b256.Length
      invariant start <= it <= b256.Length
      invariant vch == vch0 + Bytes(b256[start..])[..it - start]
    {
      assert b256[start..][it - start] == b256[it];
      vch := vch + [b256[it]];
      it := it + 1;
    }
  }

  /** DecodeBase58 on a std::string, of which it sees what comes before the first NUL. */
  method DecodeBase58(s: string, vch0: seq<Byte>) returns (ok: bool, vch: seq<Byte>)
    ensures ok <==> Decoded(s).Some?
    ensures vch == if ok then Decoded(s).value else vch0
  {
    ok, vch := DecodeText(UpToNul(s), vch0);
  }

  // ---------- With a checksum ----------

  type Hash256 = h: seq<Byte> | |h| == 32 witness Repeated(0, 32)

  /** EncodeBase58Check; hash is the double SHA-256 of the original. */
  method EncodeBase58Check(hash: seq<Byte> -> Hash256, b: seq<Byte>) returns (str: string)
    ensures str == Encoded(b + hash(b)[..4])
  {
    str := EncodeBase58(b + hash(b)[..4]);
  }

  /** What DecodeBase58Check makes of a string. */
  function Checked(hash: seq<Byte> -> Hash256, s: string): Option<seq<Byte>> {
    match Decoded(s)
    case None => None
    case Some(v) =>
      if |v| >= 4 && hash(v[..|v| - 4])[..4] == v[|v| - 4..] then Some(v[..|v| - 4]) else None
  }

  /** DecodeBase58Check clears the result when it fails. */
  method DecodeBase58Check(hash: seq<Byte> -> Hash256, s: string, vch0: seq<Byte>) returns (ok: bool, vch: seq<Byte>)
    ensures ok <==> Checked(hash, s).Some?
    ensures vch == if ok then Checked(hash, s).value else []
  {
    hide Decoded;
    ok, vch := DecodeBase58(s, vch0);
    if !ok || |vch| < 4 { return false, []; }
    var h := hash(vch[..|vch| - 4]);
    if h[..4] != vch[|vch| - 4..] { return false, []; }
    vch := vch[..|vch| - 4];
  }

  /** A string passes the check with payload b exactly if its trimmed text is the encoding of b followed
      by the first four bytes of its hash. */
  lemma CheckedIffEncoded(hash: seq<Byte> -> Hash256, s: string, b: seq<Byte>)
    ensures Checked(hash, s) == Some(b) <==> Trimmed(UpToNul(s)) == Encoded(b + hash(b)[..4])
  {
    hide Encoded, DecodedText, Trimmed, UpToNul, Index, Letter;
    var t, v := Trimmed(UpToNul(s)), b + hash(b)[..4];
    assert v[..|v| - 4] == b && v[|v| - 4..] == hash(b)[..4];
    if Checked(hash, s) == Some(b) {
      var w := Decoded(s).value;
      assert w == w[..|w| - 4] + w[|w| - 4..];
      EncodeDecodedText(t);
    }
    if t == Encoded(v) { DecodeEncoded(v); }
  }

  /** CBase58Data: version bytes and data. */
  class Base58Data {
    var vchVersion: seq<Byte>
    var vchData: seq<Byte>

    constructor ()
      ensures vchVersion == [] && vchData == []
    {
      vchVersion, vchData := [], [];
    }

    method ToString(hash: seq<Byte> -> Hash256) returns (str: string)
      ensures Checked(hash, str) == Some(vchVersion + vchData)
      ensures str == Encoded(vchVersion + vchData + hash(vchVersion + vchData)[..4])
    {
      hide Encoded, Checked, DecodedText;
      str := EncodeBase58Check(hash, vchVersion + vchData);
      DecodeEncoded(vchVersion + vchData + hash(vchVersion + vchData)[..4]);
      NoSpaces(str);
      CheckedIffEncoded(hash, str, vchVersion + vchData);
    }

    /** SetString: split what the string holds after the version bytes, or clear everything. */
    method SetString(hash: seq<Byte> -> Hash256, s: string, nVersionBytes: nat) returns (ok: bool)
      modifies this
      ensures ok <==> Checked(hash, s).Some? && |Checked(hash, s).value| >= nVersionBytes
      ensures ok ==> vchVersion + vchData == Checked(hash, s).value && |vchVersion| == nVersionBytes
      ensures !ok ==> vchVersion == [] && vchData == []
    {
      hide Checked;
      var vchTemp;
      ok, vchTemp := DecodeBase58Check(hash, s, []);
      if !ok || |vchTemp| < nVersionBytes {
        vchData, vchVersion := [], [];
        return false;
      }
      vchVersion, vchData := vchTemp[..nVersionBytes], vchTemp[nVersionBytes..];
    }
  }
}
