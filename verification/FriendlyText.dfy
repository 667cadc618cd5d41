/** The friendly spellings of TEP-2, written as an encoder: which strings decodeFriendlyTonAddress accepts. */
module FriendlyText {
  import opened Text
  import opened Decimal
  import opened Crc16
  import opened CrcWords
  import opened Base64
  import opened TonAddress
  import opened AddressIntegrity

  // ----- Base64 encoding

  /** One more bit on the right. */
  function Append(n: nat, b: bool): nat { 2 * n + Bit(b) }

  function SixNumber(b: Bits): (n: nat)
    requires |b| == 6
    ensures n < 64
  {
    Append(Append(Append(Append(Append(Bit(b[0]), b[1]), b[2]), b[3]), b[4]), b[5])
  }

  /** The standard alphabet. */
  function Letter(n: nat): (c: char)
    requires n < 64
    ensures InAlphabet(c) && Index(c) == n
  {
    if n < 26 then ('A' as int + n) as char
    else if n < 52 then ('a' as int + n - 26) as char
    else if n < 62 then ('0' as int + n - 52) as char
    else if n == 62 then '+' else '/'
  }

  lemma HalfOf(n: nat, b: bool)
    ensures Append(n, b) / 2 == n && (Append(n, b) % 2 == 1) == b
  {}

  lemma SixBitsOfNumber(b: Bits)
    requires |b| == 6
    ensures SixBits(SixNumber(b)) == b
  {
    var n4 := Append(Bit(b[0]), b[1]);
    var n3 := Append(n4, b[2]);
    var n2 := Append(n3, b[3]);
    var n1 := Append(n2, b[4]);
    HalfOf(n1, b[5]);
    HalfOf(n2, b[4]);
    HalfOf(n3, b[3]);
    HalfOf(n4, b[2]);
    HalfOf(Bit(b[0]), b[1]);
    Halvings(Append(n1, b[5]), n1, n2, n3, n4, Bit(b[0]));
  }

  lemma Halvings(n: nat, n1: nat, n2: nat, n3: nat, n4: nat, n5: nat)
    requires n / 2 == n1 && n1 / 2 == n2 && n2 / 2 == n3 && n3 / 2 == n4 && n4 / 2 == n5
    ensures SixBits(n) == [n5 % 2 == 1, n4 % 2 == 1, n3 % 2 == 1, n2 % 2 == 1, n1 % 2 == 1, n % 2 == 1]
  {}

  function EncodeText(bits: Bits): (s: string)
    requires |bits| % 6 == 0
    ensures 6 * |s| == |bits| && AllInAlphabet(s)
  {
    if bits == [] then [] else [Letter(SixNumber(bits[..6]))] + EncodeText(bits[6..])
  }

  lemma DropSlice(bits: Bits, n: nat, a: nat, b: nat)
    requires a <= b && n + b <= |bits|
    ensures bits[n..][a..b] == bits[n + a..n + b]
  {}

  lemma EncodeStep(bits: Bits)
    requires |bits| % 6 == 0 && bits != []
    ensures |bits| >= 6 && |bits[6..]| % 6 == 0
    ensures EncodeText(bits) == [Letter(SixNumber(bits[..6]))] + EncodeText(bits[6..])
  {}

  lemma {:induction false} EncodedGroup(bits: Bits, i: nat)
    requires |bits| % 6 == 0 && 6 * i < |bits|
    ensures Index(EncodeText(bits)[i]) == SixNumber(bits[6 * i..6 * i + 6])
  {
    EncodeStep(bits);
    if i > 0 {
      var tail, k := bits[6..], 6 * (i - 1);
      EncodedGroup(tail, i - 1);
      DropSlice(bits, 6, k, k + 6);
      assert EncodeText(bits)[i] == EncodeText(tail)[i - 1];
    }
  }

  lemma EncodedBit(bits: Bits, i: nat, j: nat)
    requires |bits| % 6 == 0 && 6 * i < |bits| && j < 6
    ensures SixBits(Index(EncodeText(bits)[i]))[j] == bits[6 * i + j]
  {
    EncodedGroup(bits, i);
    SixBitsOfNumber(bits[6 * i..6 * i + 6]);
  }

  lemma DecodedBit(bits: Bits, k: nat)
    requires |bits| % 6 == 0 && k < |bits|
    ensures TextBits(EncodeText(bits))[k] == bits[k]
  {
    var s, i, j := EncodeText(bits), k / 6, k % 6;
    assert k == 6 * i + j;
    EncodedBit(bits, i, j);
    GroupBit(s, i, j);
  }

  lemma DecodedText(bits: Bits)
    requires |bits| % 6 == 0
    ensures TextBits(EncodeText(bits)) == bits
  {
    forall k | 0 <= k < |bits| ensures TextBits(EncodeText(bits))[k] == bits[k] { DecodedBit(bits, k); }
  }

  lemma ByteOfBits(b: bv8)
    ensures Byte(BitsOf(b)) == b
  {
    ByteMasks();
  }

  lemma {:induction false} ToBytesAllBits(bytes: seq<bv8>)
    ensures ToBytes(AllBits(bytes)) == bytes
  {
    if bytes != [] {
      ToBytesAllBits(bytes[1..]);
      ByteOfBits(bytes[0]);
      var bits := AllBits(bytes);
      assert bits[..8] == BitsOf(bytes[0]) && bits[8..] == AllBits(bytes[1..]);
    }
  }

  lemma SixTimes(k: nat)
    ensures (6 * k) % 6 == 0
  {}

  lemma WholeGroups(n: nat)
    requires n % 3 == 0
    ensures (8 * n) % 6 == 0
  {
    var q := n / 3;
    assert n == 3 * q && 8 * n == 6 * (4 * q);
    SixTimes(4 * q);
  }

  lemma WholeText(n: nat, length: nat)
    requires n % 3 == 0 && 6 * length == 8 * n
    ensures length % 4 == 0
  {
    var q := n / 3;
    assert n == 3 * q && length == 4 * q;
  }

  /** Base64 of a whole number of three-byte groups. */
  function EncodeBase64(bytes: seq<bv8>): (s: string)
    requires |bytes| % 3 == 0
    ensures 6 * |s| == 8 * |bytes| && |s| % 4 == 0 && AllInAlphabet(s)
  {
    WholeGroups(|bytes|);
    var s := EncodeText(AllBits(bytes));
    WholeText(|bytes|, |s|);
    s
  }

  lemma DecodeEncoded(bytes: seq<bv8>)
    requires |bytes| % 3 == 0
    ensures DecodeBase64(EncodeBase64(bytes)) == bytes
  {
    WholeGroups(|bytes|);
    DecodedText(AllBits(bytes));
    ToBytesAllBits(bytes);
  }

  // ----- The friendly spelling of an account

  datatype Flags = Flags(bounceable: bool, testOnly: bool)

  function TagByte(f: Flags): bv8 {
    if f.bounceable then (if f.testOnly then 0x91 else 0x11) else if f.testOnly then 0xD1 else 0x51
  }

  function FlagsOf(tag: bv8): Flags { Flags(tag == 0x11 || tag == 0x91, tag == 0x91 || tag == 0xD1) }

  lemma TagIff(tag: bv8)
    ensures IsTag(tag) <==> TagByte(FlagsOf(tag)) == tag
  {}

  lemma TagOf(f: Flags)
    ensures IsTag(TagByte(f))
  {}

  function Checked(data: seq<bv8>): (r: seq<bv8>)
    ensures |r| == |data| + 2
  {
    data + ToBytes(Crc(data))
  }

  function Friendly(f: Flags, workchain: bv8, hash: seq<bv8>): (s: string)
    requires |hash| == 32
    ensures |s| == 48 && AllInAlphabet(s)
  {
    EncodeBase64(Checked([TagByte(f), workchain] + hash))
  }

  lemma CheckedIff(d: seq<bv8>)
    requires |d| == 36
    ensures Crc(d[..34]) == BitsOf(d[34]) + BitsOf(d[35]) <==> d == Checked(d[..34])
  {
    var check := d[34..];
    assert AllBits(check) == BitsOf(d[34]) + BitsOf(d[35]) by {
      assert check[1..][1..] == [];
      assert AllBits(check[1..]) == BitsOf(d[35]) + [];
    }
    ToBytesAllBits(check);
    AllBitsToBytes(Crc(d[..34]));
    assert d == d[..34] + check;
    assert Checked(d[..34])[34..] == ToBytes(Crc(d[..34]));
  }

  lemma CheckedParts(f: Flags, workchain: bv8, hash: seq<bv8>)
    requires |hash| == 32
    ensures var data := [TagByte(f), workchain] + hash; var d := Checked(data);
            |d| == 36 && d[..34] == data && d[0] == TagByte(f) && d[1] == workchain && d[2..34] == hash
  {}

  lemma FriendlyDecodes(f: Flags, workchain: bv8, hash: seq<bv8>)
    requires |hash| == 32
    ensures DecodeFriendly(Friendly(f, workchain, hash)) == Some(Checked([TagByte(f), workchain] + hash))
  {
    var d := Checked([TagByte(f), workchain] + hash);
    CheckedParts(f, workchain, hash);
    TagOf(f);
    DecodeEncoded(d);
    CheckedIff(d);
  }

  /** Each friendly spelling of an account, its workchain given as a signed byte, is accepted and names it. */
  lemma FriendlyNames(f: Flags, workchain: bv8, hash: seq<bv8>)
    requires |hash| == 32
    ensures DecodeFriendly(Friendly(f, workchain, hash)) == Some(Checked([TagByte(f), workchain] + hash))
    ensures Named(Friendly(f, workchain, hash)) == Some(Account(Int8(workchain), hash))
  {
    FriendlyDecodes(f, workchain, hash);
    CheckedParts(f, workchain, hash);
    FriendlyNamed(Friendly(f, workchain, hash));
  }

  /** An accepted friendly text is read as such: it is trimmed and never a raw address. */
  lemma FriendlyNamed(s: string)
    requires DecodeFriendly(s).Some?
    ensures Named(s) == Some(Account(Int8(DecodeFriendly(s).value[1]), DecodeFriendly(s).value[2..34]))
  {
    AlphabetNotSpace(s);
    TrimResult(GoSpace, s);
    if IsRawShape(s) { CutLength(s, ':'); }
  }

  lemma WorkchainNamed(f: Flags, b: bv8, hash: seq<bv8>)
    requires |hash| == 32
    ensures var s := Friendly(f, b, hash);
            && Named(s) == Some(Account(Int8(b), hash))
            && CanonicalizeTonAddress(s) == Some(IntText(Int8(b)) + ":" + HexEncode(hash))
  {
    FriendlyNames(f, b, hash);
    CanonicalizeRenders(Friendly(f, b, hash));
  }

  /** Friendly spellings name the signed value of their workchain byte and canonicalise to its decimal text. */
  lemma SignedWorkchain(f: Flags, workchain: int, b: bv8, hash: seq<bv8>)
    requires -128 <= workchain < 128 && (b as int == workchain || b as int == workchain + 256) && |hash| == 32
    ensures var s := Friendly(f, b, hash);
            && Named(s) == Some(Account(workchain, hash))
            && CanonicalizeTonAddress(s) == Some(IntText(workchain) + ":" + HexEncode(hash))
  {
    SignedByte(b, workchain);
    WorkchainNamed(f, b, hash);
  }

  /** The masterchain byte 0xFF is workchain -1. */
  lemma Masterchain(f: Flags, hash: seq<bv8>)
    requires |hash| == 32
    ensures CanonicalizeTonAddress(Friendly(f, 0xFF, hash)) == Some("-1:" + HexEncode(hash))
  {
    MinusOne();
    WorkchainNamed(f, 0xFF, hash);
  }

  lemma MinusOne()
    ensures Int8(0xFF) == -1 && IntText(-1) + ":" == "-1:"
  {
    assert IntText(-1) == "-1";
  }

  ghost predicate Spelled(s: string, f: Flags, workchain: bv8, hash: seq<bv8>) {
    |hash| == 32 && Aliases(s, Friendly(f, workchain, hash))
  }

  lemma AcceptedIsSpelled(s: string) returns (f: Flags, workchain: bv8, hash: seq<bv8>)
    requires DecodeFriendly(s).Some?
    ensures Spelled(s, f, workchain, hash)
  {
    var d := DecodeFriendly(s).value;
    f, workchain, hash := FlagsOf(d[0]), d[1], d[2..34];
    TagIff(d[0]);
    assert d[..34] == [TagByte(f), workchain] + hash;
    CheckedIff(d);
    DecodeEncoded(d);
    SameBytesIffAliases(s, Friendly(f, workchain, hash));
  }

  /** A spelling, up to the aliases, is accepted and names the account it was written for. */
  lemma SpelledIsAccepted(s: string, f: Flags, workchain: bv8, hash: seq<bv8>)
    requires AllInAlphabet(s) && Spelled(s, f, workchain, hash)
    ensures DecodeFriendly(s).Some? && Named(s) == Some(Account(Int8(workchain), hash))
  {
    FriendlyDecodes(f, workchain, hash);
    CheckedParts(f, workchain, hash);
    AliasesAccepted(Friendly(f, workchain, hash), s);
    FriendlyNamed(s);
  }

  ghost predicate HasSpelling(s: string) { exists f, workchain, hash :: Spelled(s, f, workchain, hash) }

  lemma AcceptedHasSpelling(s: string)
    requires DecodeFriendly(s).Some?
    ensures AllInAlphabet(s) && HasSpelling(s)
  {
    var f, workchain, hash := AcceptedIsSpelled(s);
  }

  lemma SpellingAccepted(s: string)
    requires AllInAlphabet(s) && HasSpelling(s)
    ensures DecodeFriendly(s).Some?
  {
    var f, workchain, hash :| Spelled(s, f, workchain, hash);
    SpelledIsAccepted(s, f, workchain, hash);
  }

  /** The accepted friendly texts are exactly the spellings, in the standard or URL-safe alphabet or a mix of them. */
  lemma AcceptedIffSpelled(s: string)
    ensures DecodeFriendly(s).Some? <==> AllInAlphabet(s) && HasSpelling(s)
  {
    if DecodeFriendly(s).Some? { AcceptedHasSpelling(s); }
    if AllInAlphabet(s) && HasSpelling(s) { SpellingAccepted(s); }
  }
}
