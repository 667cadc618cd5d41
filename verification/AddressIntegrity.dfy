/** What the checksum of a friendly address guarantees, and its computation on words. */
module AddressIntegrity {
  import opened Text
  import opened Crc16
  import opened CrcWords
  import opened Base64
  import opened TonAddress

  // ----- decodeFriendlyTonAddress as written

  function OrWord(c: bv16, d: bv16): bv16 { c | d }

  function Widen(b: bv8): bv16 { b as bv16 }

  function AndWord(c: bv16, m: bv16): bv16 { c & m }

  lemma TestIsAnd(c: bv16, m: bv16)
    ensures Test(c, m) == (AndWord(c, m) != 0)
  {}

  lemma AndOr(c: bv16, d: bv16, m: bv16)
    ensures AndWord(OrWord(c, d), m) == OrWord(AndWord(c, m), AndWord(d, m))
  {}

  lemma OrIsZero(x: bv16, y: bv16)
    ensures OrWord(x, y) == 0 <==> x == 0 && y == 0
  {}

  lemma TestOrWord(c: bv16, d: bv16, m: bv16)
    ensures Test(OrWord(c, d), m) == (Test(c, m) || Test(d, m))
  {
    TestIsAnd(OrWord(c, d), m);
    TestIsAnd(c, m);
    TestIsAnd(d, m);
    AndOr(c, d, m);
    OrIsZero(AndWord(c, m), AndWord(d, m));
  }

  lemma LowMaskTable()
    ensures forall i :: 0 <= i < 8 ==> Mask(i) & 0x00FF == 0 && Mask(i + 8) == Widen(ByteMask(i))
  {
    MaskTable();
    ByteMasks();
    assert Mask(0) == 0x8000 && Mask(1) == 0x4000 && Mask(2) == 0x2000 && Mask(3) == 0x1000;
    assert Mask(4) == 0x800 && Mask(5) == 0x400 && Mask(6) == 0x200 && Mask(7) == 0x100;
    assert Mask(8) == 0x80 && Mask(9) == 0x40 && Mask(10) == 0x20 && Mask(11) == 0x10;
    assert Mask(12) == 8 && Mask(13) == 4 && Mask(14) == 2 && Mask(15) == 1;
  }

  /** uint16(h)<<8 | uint16(l) */
  function Expected(h: bv8, l: bv8): bv16 { OrWord(Upper(h), Widen(l)) }

  lemma ExpectedBit(h: bv8, l: bv8, i: nat)
    requires i < 16
    ensures WordBit(Expected(h, l), i) == (BitsOf(h) + BitsOf(l))[i]
  {
    TestOrWord(Upper(h), Widen(l), Mask(i));
    LowMaskTable();
    MaskTable();
    if i >= 8 {
      TestUpperLow(h, Mask(i));
      assert Mask((i - 8) + 8) == Widen(ByteMask(i - 8));
    }
  }

  lemma ExpectedBits(h: bv8, l: bv8)
    ensures Bits16(Expected(h, l)) == BitsOf(h) + BitsOf(l)
  {
    forall i | 0 <= i < 16 ensures WordBit(Expected(h, l), i) == (BitsOf(h) + BitsOf(l))[i] { ExpectedBit(h, l, i); }
  }

  lemma NoBits(x: bv16)
    requires !Test(x, 0x8000) && !Test(x, 0x4000) && !Test(x, 0x2000) && !Test(x, 0x1000)
    requires !Test(x, 0x800) && !Test(x, 0x400) && !Test(x, 0x200) && !Test(x, 0x100)
    requires !Test(x, 0x80) && !Test(x, 0x40) && !Test(x, 0x20) && !Test(x, 0x10)
    requires !Test(x, 8) && !Test(x, 4) && !Test(x, 2) && !Test(x, 1)
    ensures x == 0
  {}

  /** A word is determined by its bits. */
  lemma Bits16Injective(c: bv16, d: bv16)
    requires Bits16(c) == Bits16(d)
    ensures c == d
  {
    BitsXor(c, d);
    var x := XorWord(c, d);
    assert forall i :: 0 <= i < 16 ==> !Bits16(x)[i];
    BitsAreMasks(x);
    NoBits(x);
  }

  lemma BitsAreMasks(x: bv16)
    requires forall i :: 0 <= i < 16 ==> !WordBit(x, i)
    ensures !Test(x, 0x8000) && !Test(x, 0x4000) && !Test(x, 0x2000) && !Test(x, 0x1000)
    ensures !Test(x, 0x800) && !Test(x, 0x400) && !Test(x, 0x200) && !Test(x, 0x100)
    ensures !Test(x, 0x80) && !Test(x, 0x40) && !Test(x, 0x20) && !Test(x, 0x10)
    ensures !Test(x, 8) && !Test(x, 4) && !Test(x, 2) && !Test(x, 1)
  {
    assert !WordBit(x, 0) && !WordBit(x, 1) && !WordBit(x, 2) && !WordBit(x, 3);
    assert !WordBit(x, 4) && !WordBit(x, 5) && !WordBit(x, 6) && !WordBit(x, 7);
    assert !WordBit(x, 8) && !WordBit(x, 9) && !WordBit(x, 10) && !WordBit(x, 11);
    assert !WordBit(x, 12) && !WordBit(x, 13) && !WordBit(x, 14) && !WordBit(x, 15);
    assert Mask(0) == 0x8000 && Mask(1) == 0x4000 && Mask(2) == 0x2000 && Mask(3) == 0x1000;
    assert Mask(4) == 0x800 && Mask(5) == 0x400 && Mask(6) == 0x200 && Mask(7) == 0x100;
    assert Mask(8) == 0x80 && Mask(9) == 0x40 && Mask(10) == 0x20 && Mask(11) == 0x10;
    assert Mask(12) == 8 && Mask(13) == 4 && Mask(14) == 2 && Mask(15) == 1;
  }

  /** decodeFriendlyTonAddress: shape, base64, tag, then the word comparison of checksums. */
  method DecodeFriendlyTonAddress(addr: string) returns (r: Option<seq<bv8>>)
    ensures r == DecodeFriendly(addr)
  {
    if !IsFriendlyShape(addr) {
      return None;
    }
    var decoded := DecodeBase64(addr);
    if !IsTag(decoded[0]) {
      return None;
    }
    var expected := Expected(decoded[34], decoded[35]);
    var crc := Crc16Ton(decoded[..34]);
    ExpectedBits(decoded[34], decoded[35]);
    if crc != expected {
      if Bits16(crc) == Bits16(expected) { Bits16Injective(crc, expected); }
      return None;
    }
    return Some(decoded);
  }

  // ----- Corruption detection

  lemma ChecksumSyndrome(d: seq<bv8>)
    requires |d| == 36
    ensures Crc(d[..34]) == BitsOf(d[34]) + BitsOf(d[35]) <==> Crc(d) == Zeros(16)
  {
    assert d == d[..34] + [d[34]] + [d[35]];
    CrcAppended(d[..34], d[34], d[35]);
  }

  lemma DecodedBits(s: string)
    requires IsFriendlyShape(s)
    ensures AllBits(DecodeBase64(s)) == TextBits(s) && |DecodeBase64(s)| == 36
  {
    WholeBytes(|s|);
    AllBitsToBytes(TextBits(s));
  }

  /** The 288 text bits of an accepted address leave remainder zero. */
  lemma AcceptedSyndrome(s: string)
    requires DecodeFriendly(s).Some?
    ensures FeedBits(Zeros(16), TextBits(s)) == Zeros(16)
  {
    DecodedBits(s);
    ChecksumSyndrome(DecodeBase64(s));
  }

  /** t differs from s at most in the characters i and i+1. */
  predicate DifferOnlyAt(s: string, t: string, i: nat) {
    |s| == |t| && forall k :: 0 <= k < |s| && k != i && k != i + 1 ==> s[k] == t[k]
  }

  lemma ErrorPattern(s: string, t: string, i: nat)
    requires AllInAlphabet(s) && AllInAlphabet(t) && DifferOnlyAt(s, t, i) && i + 2 <= |s|
    ensures var x := Xor(TextBits(s), TextBits(t));
            AllFalse(x[..6 * i]) && AllFalse(x[6 * i + 12..])
  {}

  lemma SameBitsIfNoError(a: Bits, b: Bits)
    requires |a| == |b| && AllFalse(Xor(a, b))
    ensures a == b
  {
    forall i | 0 <= i < |a| ensures a[i] == b[i] { assert !Xor(a, b)[i]; }
  }

  /** The remainder of the error is the error of the remainders. */
  lemma ErrorRemainder(a: Bits, b: Bits)
    requires |a| == |b| && FeedBits(Zeros(16), a) == Zeros(16) && FeedBits(Zeros(16), b) == Zeros(16)
    ensures FeedBits(Zeros(16), Xor(a, b)) == Zeros(16)
  {
    var z := Zeros(16);
    assert Xor(z, z) == z;
    FeedBitsLinear(z, z, a, b);
  }

  /** Equal remainders and an error confined to sixteen bits: there is no error. */
  lemma BurstMeansEqual(a: Bits, b: Bits, i: nat, k: nat)
    requires |a| == |b| && i + k <= |a| && k <= 16
    requires AllFalse(Xor(a, b)[..i]) && AllFalse(Xor(a, b)[i + k..])
    requires FeedBits(Zeros(16), a) == Zeros(16) && FeedBits(Zeros(16), b) == Zeros(16)
    ensures a == b
  {
    var x := Xor(a, b);
    var before, burst, after := x[..i], x[i..i + k], x[i + k..];
    assert x == before + burst + after;
    ErrorRemainder(a, b);
    BurstDetected(before, burst, after);
    AllFalseParts(before, burst, after);
    SameBitsIfNoError(a, b);
  }

  /** Two accepted addresses that differ only in two adjacent characters hold the same bytes. */
  lemma AdjacentChangeDetected(s: string, t: string, i: nat)
    requires DecodeFriendly(s).Some? && DecodeFriendly(t).Some? && DifferOnlyAt(s, t, i) && i < 47
    ensures DecodeFriendly(s) == DecodeFriendly(t)
  {
    AcceptedSyndrome(s);
    AcceptedSyndrome(t);
    NoErrorInText(s, t, i);
    SameTextBits(s, t);
  }

  lemma NoErrorInText(s: string, t: string, i: nat)
    requires AllInAlphabet(s) && AllInAlphabet(t) && DifferOnlyAt(s, t, i) && i + 2 <= |s|
    requires FeedBits(Zeros(16), TextBits(s)) == Zeros(16) && FeedBits(Zeros(16), TextBits(t)) == Zeros(16)
    ensures TextBits(s) == TextBits(t)
  {
    ErrorPattern(s, t, i);
    BurstMeansEqual(TextBits(s), TextBits(t), 6 * i, 12);
  }

  lemma SameTextBits(s: string, t: string)
    requires IsFriendlyShape(s) && IsFriendlyShape(t) && TextBits(s) == TextBits(t)
    ensures DecodeFriendly(s) == DecodeFriendly(t)
  {
    assert DecodeBase64(s) == DecodeBase64(t);
  }

  lemma AllFalseParts(a: Bits, b: Bits, c: Bits)
    requires AllFalse(a) && AllFalse(b) && AllFalse(c)
    ensures AllFalse(a + b + c)
  {}

  // ----- In terms of the public validator

  lemma {:induction false} CutLength(s: string, sep: char)
    requires Cut(s, sep).found
    ensures |s| == |Cut(s, sep).before| + 1 + |Cut(s, sep).after|
  {
    if s[0] != sep { CutLength(s[1..], sep); }
  }

  /** A 48-character string is accepted only as a friendly address, untrimmed. */
  lemma FortyEight(t: string)
    requires |t| == 48
    ensures ValidateMerchantNFT(t) <==> DecodeFriendly(t).Some?
  {
    TrimResult(GoSpace, t);
    var u := Trim(GoSpace, t);
    TrimResult(GoSpace, u);
    if IsRawShape(u) { CutLength(u, ':'); }
    if DecodeFriendly(t).Some? { AlphabetNotSpace(t); }
    if DecodeFriendly(u).Some? { TrimKeepsLength(t); }
  }

  lemma AlphabetNotSpace(t: string)
    requires AllInAlphabet(t)
    ensures Trimmed(GoSpace, t)
  {}

  lemma TrimKeepsLength(t: string)
    requires |Trim(GoSpace, t)| == |t|
    ensures Trim(GoSpace, t) == t
  {
    TrimLeftResult(GoSpace, t);
    TrimRightResult(GoSpace, TrimLeft(GoSpace, t));
  }

  lemma AcceptedThenAliases(s: string, t: string, i: nat)
    requires DecodeFriendly(s).Some? && DecodeFriendly(t).Some? && DifferOnlyAt(s, t, i) && i < 47
    ensures Aliases(s, t)
  {
    AdjacentChangeDetected(s, t, i);
    SameBytesIffAliases(s, t);
  }

  lemma AliasesAccepted(s: string, t: string)
    requires DecodeFriendly(s).Some? && AllInAlphabet(t) && Aliases(s, t)
    ensures DecodeFriendly(t) == DecodeFriendly(s)
  {
    SameBytesIffAliases(s, t);
  }

  /** A change confined to two adjacent characters is accepted exactly when it only swaps aliases. */
  lemma ChangeAcceptedIff(s: string, t: string, i: nat)
    requires |s| == 48 && ValidateMerchantNFT(s) && DifferOnlyAt(s, t, i) && i < 47
    ensures ValidateMerchantNFT(t) <==> AllInAlphabet(t) && Aliases(s, t)
    ensures ValidateMerchantNFT(t) ==> DecodeFriendly(t) == DecodeFriendly(s)
  {
    FortyEight(s);
    FortyEight(t);
    if DecodeFriendly(t).Some? { AcceptedThenAliases(s, t, i); }
    if AllInAlphabet(t) && Aliases(s, t) { AliasesAccepted(s, t); }
  }

  /**
   * Changing one character of an accepted friendly address, to anything, gives a
   * string that is rejected unless the new character is an alias of the old one.
   */
  lemma SingleChangeRejected(s: string, i: nat, c: char)
    requires |s| == 48 && ValidateMerchantNFT(s) && i < 48
    ensures ValidateMerchantNFT(s[i := c]) <==> InAlphabet(c) && Standard(c) == Standard(s[i])
  {
    var t := s[i := c];
    FortyEight(s);
    ChangeAcceptedIff(s, t, if i < 47 then i else 46);
    OneChange(s, i, c);
  }

  lemma OneChange(s: string, i: nat, c: char)
    requires AllInAlphabet(s) && i < |s|
    ensures AllInAlphabet(s[i := c]) && Aliases(s, s[i := c]) <==> InAlphabet(c) && Standard(c) == Standard(s[i])
  {
    var t := s[i := c];
    assert t[i] == c && forall k :: 0 <= k < |s| && k != i ==> t[k] == s[k];
  }

  /** Swapping two adjacent characters is rejected unless they are aliases of each other. */
  lemma SwapRejected(s: string, i: nat)
    requires |s| == 48 && ValidateMerchantNFT(s) && i < 47
    ensures ValidateMerchantNFT(s[i := s[i + 1]][i + 1 := s[i]]) <==> Standard(s[i]) == Standard(s[i + 1])
  {
    var t := s[i := s[i + 1]][i + 1 := s[i]];
    FortyEight(s);
    ChangeAcceptedIff(s, t, i);
    assert t[i] == s[i + 1] && t[i + 1] == s[i];
  }
}
