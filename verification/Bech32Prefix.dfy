/** The human-readable part of a Bech32 string: that its expansion loses nothing, which errors in it are detected,
    and exactly which strings decode. Section "Bech32" of BIP 173. */
module Bech32Prefix {
  import opened Arithmetic
  import opened Results
  import opened Bech32Charset
  import opened Bech32Checksum
  import opened Bech32Triples
  import opened Bech32

  // ---------- The expansion ----------

  /** A character is split without loss. */
  lemma SplitIs(c: char)
    requires c as int < 256
    ensures (HighBits(c) << 5) | LowBits(c) == CodeOf(c) && LowBits(c) < 32 && HighBits(c) < 8
  {
    PutBack(CodeOf(c));
  }

  lemma PutBack(x: bv8)
    ensures ((x >> 5) << 5) | (x & 0x1f) == x && x & 0x1f < 32 && x >> 5 < 8
  {
  }

  lemma SameHalves(c: char, d: char)
    requires c as int < 256 && d as int < 256
    ensures HighBits(c) == HighBits(d) && LowBits(c) == LowBits(d) <==> c == d
  {
    hide HighBits, LowBits, CodeOf;
    SplitIs(c);
    SplitIs(d);
    CodeIs(c);
    CodeIs(d);
  }

  lemma CodeIs(c: char)
    requires c as int < 256
    ensures CodeOf(c) as int == c as int
  {
    ByteValue(c as int);
  }

  /** The high half of character i is symbol i, its low half is |hrp| + 1 symbols later, and zero separates them. */
  lemma ExpandAt(hrp: Text, i: nat)
    requires i < |hrp|
    ensures var v := Expand(hrp); (v[i] << 5) | v[i + |hrp| + 1] == CodeOf(hrp[i]) && v[i + |hrp| + 1] < 32 && v[|hrp|] == 0
  {
    hide HighBits, LowBits, CodeOf;
    SplitIs(hrp[i]);
  }

  /** Parts of the same length have expansions that differ in one or both symbols of each character that differs. */
  lemma ExpandDiffers(g: Text, h: Text, i: nat)
    requires i < |g| == |h|
    ensures Expand(g)[i] == Expand(h)[i] && Expand(g)[i + |g| + 1] == Expand(h)[i + |g| + 1] <==> g[i] == h[i]
  {
    hide HighBits, LowBits;
    SameHalves(g[i], h[i]);
  }

  lemma ExpandIsInjective(g: Text, h: Text)
    requires |g| == |h|
    ensures Expand(g) == Expand(h) <==> g == h
  {
    hide Expand;
    forall i | 0 <= i < |g| && Expand(g) == Expand(h) ensures g[i] == h[i] { ExpandDiffers(g, h, i); }
  }

  // ---------- Errors in the human-readable part ----------

  /** Two strings that decode never differ, case aside, in one character of the human-readable part and no more
      than one of the data part. */
  lemma PrefixErrorDetected(s: Text, t: Text, i: nat, k: nat)
    requires WellFormed(s) && WellFormed(t) && |s| == |t| && i < LastOne(s, |s|) == LastOne(t, |t|) < k < |s|
    requires LowerCase(s[i]) != LowerCase(t[i])
    requires forall m | 0 <= m < |s| && m != i && m != k :: LowerCase(s[m]) == LowerCase(t[m])
    ensures Decoded(s) == None || Decoded(t) == None
  {
    hide Decoded, WellFormed, Verifies, HaveValues, ValuesOf, Lower, LowerCase, LastOne;
    DecodedVerifies(s);
    DecodedVerifies(t);
    assert |s| <= 90 by { AtMostNinety(s); }
    var pos := LastOne(s, |s|);
    var g, h, x, y := Lower(s[..pos]), Lower(t[..pos]), s[pos + 1..], t[pos + 1..];
    forall m | 0 <= m < |x| ensures x[m] == s[pos + 1 + m] && y[m] == t[pos + 1 + m] {}
    ValuesAgree(x, y);
    PrefixChange(g, h, ValuesOf(x), ValuesOf(y), i, k - pos - 1);
  }

  lemma AtMostNinety(s: Text)
    requires WellFormed(s)
    ensures |s| <= 90
  {
  }

  lemma PrefixChange(g: Text, h: Text, u: Data, v: Data, i: nat, k: nat)
    requires Symbols(u) && Symbols(v) && i < |g| == |h| < 100 && k < |u| == |v| < 100 && g[i] != h[i]
    requires forall m | 0 <= m < |g| && m != i :: g[m] == h[m]
    requires forall m | 0 <= m < |u| && m != k :: u[m] == v[m]
    ensures !(Verifies(g, u) && Verifies(h, v))
  {
    hide Poly, Expand, Symbols;
    var n := |g|;
    var x, y := Expand(g) + u, Expand(h) + v;
    ExpandIsSymbols(g);
    ExpandIsSymbols(h);
    SymbolsAppend(Expand(g), u);
    SymbolsAppend(Expand(h), v);
    ExpandDiffers(g, h, i);
    forall m | 0 <= m < |x| && m != i && m != i + n + 1 && m != 2 * n + 1 + k ensures x[m] == y[m] {
      if m < n { ExpandDiffers(g, h, m); }
      else if m == n { MiddleIsZero(g); MiddleIsZero(h); }
      else if m < 2 * n + 1 { ExpandDiffers(g, h, m - n - 1); }
      else { assert x[m] == u[m - 2 * n - 1] && y[m] == v[m - 2 * n - 1]; }
    }
    assert x[i] == Expand(g)[i] && x[i + n + 1] == Expand(g)[i + n + 1];
    assert y[i] == Expand(h)[i] && y[i + n + 1] == Expand(h)[i + n + 1];
    assert DifferAmong(x, y, i, i + n + 1, 2 * n + 1 + k);
    ThreeDetected(x, y, i, i + n + 1, 2 * n + 1 + k);
  }

  lemma MiddleIsZero(hrp: Text)
    ensures Expand(hrp)[|hrp|] == 0
  {
  }

  // ---------- Exactly what decodes ----------

  function UpperCase(c: char): char { if 'a' <= c <= 'z' then ((c as int) - 32) as char else c }

  ghost function Upper(s: string): (t: string)
    ensures |t| == |s| && forall i | 0 <= i < |s| :: t[i] == UpperCase(s[i])
    ensures (forall i | 0 <= i < |s| :: s[i] as int < 256) ==> forall i | 0 <= i < |t| :: t[i] as int < 256
  {
    seq(|s|, i requires 0 <= i < |s| => UpperCase(s[i]))
  }

  /** The table has the same value for both cases of a letter. */
  lemma RevOfLower(c: char)
    ensures Rev(LowerCase(c)) == Rev(c) && (Printable(LowerCase(c)) <==> Printable(c)) && (LowerCase(c) == '1' <==> c == '1')
  {
    hide Rev, LETTERS_A_TO_O, LETTERS_P_TO_Z, DIGITS;
    TableSize();
    if IsUpper(c) {
      RowOf(c);
      RowOf(LowerCase(c));
    }
  }

  lemma ValueOfLower(c: char)
    ensures ValueOf(LowerCase(c)) == ValueOf(c)
  {
    hide Rev;
    RevOfLower(c);
  }

  /** Decoding a string that is not in mixed case is decoding it in lower case. */
  lemma DecodeLower(s: Text)
    requires !Mixed(s)
    ensures Decoded(Lower(s)) == Decoded(s)
  {
    hide Verifies, Rev, ValueOf, LastOne;
    var l, n := Lower(s), |s|;
    forall i | 0 <= i < n ensures Rev(l[i]) == Rev(s[i]) && (Printable(l[i]) <==> Printable(s[i])) && (l[i] == '1' <==> s[i] == '1')
      ensures ValueOf(l[i]) == ValueOf(s[i])
    {
      RevOfLower(s[i]);
      ValueOfLower(s[i]);
    }
    SameLastOne(l, s, n);
    assert !Mixed(l) by { forall i | 0 <= i < n ensures !IsUpper(l[i]) {} }
    assert AllPrintable(l) <==> AllPrintable(s) by { if AllPrintable(l) { forall i | 0 <= i < n ensures Printable(s[i]) { assert Printable(l[i]); } } }
    var pos := LastOne(s, n);
    if pos < n {
      var x, y := l[pos + 1..], s[pos + 1..];
      forall i | 0 <= i < |y| ensures x[i] == l[pos + 1 + i] && y[i] == s[pos + 1 + i] {}
      assert ValuesOf(x) == ValuesOf(y);
      assert Lower(l[..pos]) == Lower(s[..pos]);
      assert HaveValues(x) <==> HaveValues(y) by { SameHaveValues(x, y); }
    }
  }

  lemma SameHaveValues(x: string, y: string)
    requires |x| == |y| && forall i | 0 <= i < |x| :: Rev(x[i]) == Rev(y[i])
    ensures HaveValues(x) <==> HaveValues(y)
  {
    hide Rev;
    if HaveValues(x) { forall i | 0 <= i < |y| ensures Rev(y[i]) != -1 { assert Rev(x[i]) != -1; } }
  }

  lemma {:induction false} SameLastOne(x: string, y: string, n: nat)
    requires n <= |x| == |y| && forall i | 0 <= i < |x| :: x[i] == '1' <==> y[i] == '1'
    ensures LastOne(x, n) == LastOne(y, n)
  {
    if n > 0 { SameLastOne(x, y, n - 1); }
  }

  lemma CaseIs(c: char)
    ensures !IsLower(c) ==> UpperCase(LowerCase(c)) == c
    ensures !IsUpper(c) ==> LowerCase(UpperCase(c)) == c && LowerCase(c) == c
    ensures !IsLower(UpperCase(c)) && !IsUpper(LowerCase(c)) && (UpperCase(c) as int < 256 <==> c as int < 256)
  {
  }

  /** A string not in mixed case is in lower case or is the upper case of that. */
  lemma OneCase(s: Text)
    requires !Mixed(s)
    ensures s == Lower(s) || s == Upper(Lower(s))
  {
    hide LowerCase, UpperCase, IsLower, IsUpper;
    forall i | 0 <= i < |s| ensures
      && (!IsUpper(s[i]) ==> Lower(s)[i] == s[i]) && (!IsLower(s[i]) ==> Upper(Lower(s))[i] == s[i])
    {
      CaseIs(s[i]);
    }
    if exists i :: 0 <= i < |s| && IsUpper(s[i]) {
      assert forall i | 0 <= i < |s| :: !IsLower(s[i]);
      assert s == Upper(Lower(s));
    } else {
      assert s == Lower(s);
    }
  }

  lemma UpperIs(e: Text)
    ensures Lower(e) == e ==> Lower(Upper(e)) == e
    ensures !Mixed(Upper(e))
  {
    hide LowerCase, UpperCase, IsLower, IsUpper;
    forall i | 0 <= i < |e| ensures !IsLower(Upper(e)[i]) { CaseIs(e[i]); }
    if Lower(e) == e {
      forall i | 0 <= i < |e| ensures Lower(Upper(e))[i] == e[i] { assert LowerCase(e[i]) == e[i]; CaseIs(e[i]); LowerTwice(e[i]); }
    }
  }

  lemma LowerTwice(c: char)
    ensures LowerCase(c) == c <==> !IsUpper(c)
  {
  }

  lemma DecodedIsReadable(s: Text, hrp: Text, v: Data)
    requires Decoded(s) == Some((hrp, v))
    ensures Readable(hrp) && |s| <= 90 && !Mixed(s)
  {
    hide Verifies, ValuesOf, Rev, LastOne;
    var pos := LastOne(s, |s|);
    forall i | 0 <= i < pos ensures Printable(hrp[i]) && !IsUpper(hrp[i]) {
      assert Printable(s[i]) && hrp[i] == LowerCase(s[i]);
    }
  }

  lemma ReadableIs(hrp: Text)
    ensures Readable(hrp) <==> hrp != "" && forall i | 0 <= i < |hrp| :: 33 <= hrp[i] as int <= 126 && !('A' <= hrp[i] <= 'Z')
  {
  }

  /** A string decodes to a part and symbols exactly if it is their encoding, all in lower or all in upper case, of
      at most 90 characters, and the part is not empty and of printable characters without upper case. */
  lemma DecodesIff(s: Text, hrp: Text, v: Data)
    ensures Decoded(s) == Some((hrp, v)) <==>
              && Symbols(v) && |s| <= 90 && hrp != ""
              && (forall i | 0 <= i < |hrp| :: 33 <= hrp[i] as int <= 126 && !('A' <= hrp[i] <= 'Z'))
              && (s == Encoded(hrp, v) || s == Upper(Encoded(hrp, v)))
  {
    hide Decoded, Encoded, Mixed, Readable, Upper, Lower, Symbols;
    ReadableIs(hrp);
    if Decoded(s) == Some((hrp, v)) {
      EncodeDecoded(s);
      DecodedIsReadable(s, hrp, v);
      OneCase(s);
    }
    if Symbols(v) {
      EncodedParts(hrp, v);
      var e: Text := Encoded(hrp, v);
      if Readable(hrp) && |e| <= 90 {
        DecodeEncoded(hrp, v, e);
        EncodeDecoded(e);
        UpperIs(e);
        DecodeLower(Upper(e));
      }
    }
  }
}
