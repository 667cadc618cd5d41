/** Base64 (sections 4 and 5 of RFC 4648) and hexadecimal text of byte strings. */
module Base64 {
  import opened Crc16
  import opened CrcWords

  predicate InAlphabet(c: char) {
    'A' <= c <= 'Z' || 'a' <= c <= 'z' || '0' <= c <= '9' || c in "+/_-"
  }

  /** The replacer's aliases: - for + and _ for /. */
  function Standard(c: char): char {
    if c == '-' then '+' else if c == '_' then '/' else c
  }

  /** Position in the standard alphabet, after replacement. */
  function Index(c: char): (n: nat)
    requires InAlphabet(c)
    ensures n < 64
  {
    var d := Standard(c);
    if 'A' <= d <= 'Z' then d as int - 'A' as int
    else if 'a' <= d <= 'z' then d as int - 'a' as int + 26
    else if '0' <= d <= '9' then d as int - '0' as int + 52
    else if d == '+' then 62
    else 63
  }

  function SixBits(n: nat): (r: Bits)
    ensures |r| == 6
  {
    [n / 2 / 2 / 2 / 2 / 2 % 2 == 1, n / 2 / 2 / 2 / 2 % 2 == 1, n / 2 / 2 / 2 % 2 == 1, n / 2 / 2 % 2 == 1, n / 2 % 2 == 1, n % 2 == 1]
  }

  predicate AllInAlphabet(s: string) { forall i :: 0 <= i < |s| ==> InAlphabet(s[i]) }

  /** The concatenated six-bit groups of the text. */
  function TextBits(s: string): (r: Bits)
    requires AllInAlphabet(s)
    ensures |r| == 6 * |s| && forall k :: 0 <= k < 6 * |s| ==> r[k] == SixBits(Index(s[k / 6]))[k % 6]
  {
    seq(6 * |s|, k requires 0 <= k < 6 * |s| => SixBits(Index(s[k / 6]))[k % 6])
  }

  function Weight(b: bool, m: bv8): bv8 { if b then m else 0 }

  function Or(a: bv8, b: bv8): bv8 { a | b }

  function Byte(bits: Bits): bv8
    requires |bits| == 8
  {
    Or(Or(Or(Weight(bits[0], 0x80), Weight(bits[1], 0x40)), Or(Weight(bits[2], 0x20), Weight(bits[3], 0x10))),
       Or(Or(Weight(bits[4], 0x08), Weight(bits[5], 0x04)), Or(Weight(bits[6], 0x02), Weight(bits[7], 0x01))))
  }

  /** Bytes of a bit string whose length is a multiple of eight. */
  function ToBytes(bits: Bits): (r: seq<bv8>)
    requires |bits| % 8 == 0
    ensures 8 * |r| == |bits|
  {
    if bits == [] then [] else [Byte(bits[..8])] + ToBytes(bits[8..])
  }

  lemma EightTimes(k: nat)
    ensures (8 * k) % 8 == 0
  {}

  lemma WholeBytes(n: nat)
    requires n % 4 == 0
    ensures (6 * n) % 8 == 0
  {
    var q := n / 4;
    assert n == 4 * q && 6 * n == 8 * (3 * q);
    EightTimes(3 * q);
  }

  /** Base64 decoding of a text whose length is a multiple of four. */
  function DecodeBase64(s: string): (r: seq<bv8>)
    requires AllInAlphabet(s) && |s| % 4 == 0
    ensures 4 * |r| == 3 * |s|
  {
    WholeBytes(|s|);
    ToBytes(TextBits(s))
  }

  // ----- Bits and bytes

  lemma ByteMasks()
    ensures ByteMask(0) == 0x80 && ByteMask(1) == 0x40 && ByteMask(2) == 0x20 && ByteMask(3) == 0x10
    ensures ByteMask(4) == 0x08 && ByteMask(5) == 0x04 && ByteMask(6) == 0x02 && ByteMask(7) == 0x01
  {}

  lemma TestWeights(b: bool, i: nat, j: nat)
    requires i < 8 && j < 8
    ensures TestByte(Weight(b, ByteMask(i)), ByteMask(j)) == (b && i == j)
  {
    ByteMasks();
  }

  lemma ByteBitOf(bits: Bits, j: nat)
    requires |bits| == 8 && j < 8
    ensures ByteBit(Byte(bits), j) == bits[j]
  {
    ByteMasks();
    var m := ByteMask(j);
    var w := i requires 0 <= i < 8 => Weight(bits[i], ByteMask(i));
    forall i | 0 <= i < 8 ensures TestByte(w(i), m) == (bits[i] && i == j) { TestWeights(bits[i], i, j); }
  }

  lemma BitsOfByte(bits: Bits)
    requires |bits| == 8
    ensures BitsOf(Byte(bits)) == bits
  {
    forall j | 0 <= j < 8 ensures ByteBit(Byte(bits), j) == bits[j] { ByteBitOf(bits, j); }
  }

  lemma {:induction false} AllBitsToBytes(bits: Bits)
    requires |bits| % 8 == 0
    ensures AllBits(ToBytes(bits)) == bits
  {
    if bits != [] {
      BitsOfByte(bits[..8]);
      AllBitsToBytes(bits[8..]);
      assert ToBytes(bits)[1..] == ToBytes(bits[8..]);
      assert bits == bits[..8] + bits[8..];
    }
  }

  lemma SixBitsInjective(m: nat, n: nat)
    requires m < 64 && n < 64 && SixBits(m) == SixBits(n)
    ensures m == n
  {
    var a, b := SixBits(m), SixBits(n);
    assert a[0] == b[0] && a[1] == b[1] && a[2] == b[2] && a[3] == b[3] && a[4] == b[4] && a[5] == b[5];
    SixValue(m);
    SixValue(n);
  }

  function Bit(b: bool): nat { if b then 1 else 0 }

  lemma HalfBit(n: nat)
    ensures n == 2 * (n / 2) + Bit(n % 2 == 1)
  {}

  lemma SixValue(n: nat)
    requires n < 64
    ensures var s := SixBits(n);
            n == 32 * Bit(s[0]) + 16 * Bit(s[1]) + 8 * Bit(s[2]) + 4 * Bit(s[3]) + 2 * Bit(s[4]) + Bit(s[5])
  {
    var n1 := n / 2;
    var n2 := n1 / 2;
    var n3 := n2 / 2;
    var n4 := n3 / 2;
    var n5 := n4 / 2;
    HalfBit(n);
    HalfBit(n1);
    HalfBit(n2);
    HalfBit(n3);
    HalfBit(n4);
    assert n5 < 2;
    var s := SixBits(n);
    assert s[0] == (n5 % 2 == 1) && s[1] == (n4 % 2 == 1) && s[2] == (n3 % 2 == 1);
    assert s[3] == (n2 % 2 == 1) && s[4] == (n1 % 2 == 1) && s[5] == (n % 2 == 1);
  }

  lemma GroupBit(s: string, i: nat, j: nat)
    requires AllInAlphabet(s) && i < |s| && j < 6
    ensures TextBits(s)[6 * i + j] == SixBits(Index(s[i]))[j]
  {
    assert (6 * i + j) / 6 == i && (6 * i + j) % 6 == j;
  }

  lemma SameGroup(s: string, t: string, i: nat)
    requires AllInAlphabet(s) && AllInAlphabet(t) && |s| == |t| && TextBits(s) == TextBits(t) && i < |s|
    ensures Standard(s[i]) == Standard(t[i])
  {
    var a, b := SixBits(Index(s[i])), SixBits(Index(t[i]));
    forall j | 0 <= j < 6 ensures a[j] == b[j] {
      GroupBit(s, i, j);
      GroupBit(t, i, j);
    }
    SixBitsInjective(Index(s[i]), Index(t[i]));
  }

  ghost predicate Aliases(s: string, t: string) {
    |s| == |t| && forall i :: 0 <= i < |s| ==> Standard(s[i]) == Standard(t[i])
  }

  lemma AliasesSameBits(s: string, t: string)
    requires AllInAlphabet(s) && AllInAlphabet(t) && Aliases(s, t)
    ensures TextBits(s) == TextBits(t)
  {}

  lemma SameBitsIffAliases(s: string, t: string)
    requires AllInAlphabet(s) && AllInAlphabet(t) && |s| == |t|
    ensures TextBits(s) == TextBits(t) <==> Aliases(s, t)
  {
    if Aliases(s, t) { AliasesSameBits(s, t); }
    if TextBits(s) == TextBits(t) {
      forall i | 0 <= i < |s| ensures Standard(s[i]) == Standard(t[i]) { SameGroup(s, t, i); }
    }
  }

  lemma ToBytesInjective(a: Bits, b: Bits)
    requires |a| % 8 == 0 && |b| % 8 == 0
    ensures ToBytes(a) == ToBytes(b) <==> a == b
  {
    AllBitsToBytes(a);
    AllBitsToBytes(b);
  }

  /** Two texts of one length decode to the same bytes exactly when they agree up to the aliases. */
  lemma SameBytesIffAliases(s: string, t: string)
    requires AllInAlphabet(s) && AllInAlphabet(t) && |s| == |t| && |s| % 4 == 0
    ensures DecodeBase64(s) == DecodeBase64(t) <==> Aliases(s, t)
  {
    WholeBytes(|s|);
    ToBytesInjective(TextBits(s), TextBits(t));
    SameBitsIffAliases(s, t);
  }

  // ----- Hexadecimal

  predicate IsHex(c: char) { '0' <= c <= '9' || 'a' <= c <= 'f' || 'A' <= c <= 'F' }

  predicate AllHex(s: string) { forall i :: 0 <= i < |s| ==> IsHex(s[i]) }

  /** strings.ToLower on hexadecimal text. */
  function Lower(c: char): char {
    if 'A' <= c <= 'F' then (c as int + 32) as char else c
  }

  function ToLower(s: string): (r: string)
    ensures |r| == |s| && forall i :: 0 <= i < |s| ==> r[i] == Lower(s[i])
  {
    seq(|s|, i requires 0 <= i < |s| => Lower(s[i]))
  }

  function High(b: bv8): bv8 { b >> 4 }

  function Low(b: bv8): bv8 { b & 0x0F }

  function Joined(h: bv8, l: bv8): bv8 { (h << 4) | l }

  function Nibble(c: char): bv8 {
    match c
    case '0' => 0 case '1' => 1 case '2' => 2 case '3' => 3 case '4' => 4 case '5' => 5 case '6' => 6 case '7' => 7
    case '8' => 8 case '9' => 9 case 'a' => 10 case 'b' => 11 case 'c' => 12 case 'd' => 13 case 'e' => 14 case 'f' => 15
    case 'A' => 10 case 'B' => 11 case 'C' => 12 case 'D' => 13 case 'E' => 14 case 'F' => 15
    case _ => 0
  }

  function HexOf(n: bv8): char {
    match n
    case 0 => '0' case 1 => '1' case 2 => '2' case 3 => '3' case 4 => '4' case 5 => '5' case 6 => '6' case 7 => '7'
    case 8 => '8' case 9 => '9' case 10 => 'a' case 11 => 'b' case 12 => 'c' case 13 => 'd' case 14 => 'e' case _ => 'f'
  }

  /** hex.EncodeToString */
  function HexEncode(bytes: seq<bv8>): (r: string)
    ensures |r| == 2 * |bytes|
  {
    if bytes == [] then [] else [HexOf(High(bytes[0])), HexOf(Low(bytes[0]))] + HexEncode(bytes[1..])
  }

  /** hex.DecodeString on text of even length. */
  function HexDecode(s: string): (r: seq<bv8>)
    requires |s| % 2 == 0
    ensures 2 * |r| == |s|
  {
    if s == [] then [] else [Joined(Nibble(s[0]), Nibble(s[1]))] + HexDecode(s[2..])
  }

  lemma NibbleOfHex(n: bv8)
    requires n < 16
    ensures Nibble(HexOf(n)) == n && IsHex(HexOf(n)) && Lower(HexOf(n)) == HexOf(n)
  {}

  lemma HexOfNibble(c: char)
    requires IsHex(c)
    ensures Nibble(c) < 16 && HexOf(Nibble(c)) == Lower(c)
  {}

  lemma {:induction false} DecodeEncode(bytes: seq<bv8>)
    ensures HexDecode(HexEncode(bytes)) == bytes && AllHex(HexEncode(bytes))
  {
    if bytes != [] {
      DecodeEncode(bytes[1..]);
      var h, l := High(bytes[0]), Low(bytes[0]);
      NibbleOfHex(h);
      NibbleOfHex(l);
      assert HexEncode(bytes)[2..] == HexEncode(bytes[1..]);
    }
  }

  lemma EncodeStep(b: bv8, bytes: seq<bv8>)
    ensures HexEncode([b] + bytes) == [HexOf(High(b)), HexOf(Low(b))] + HexEncode(bytes)
  {}

  lemma PairText(c: char, d: char)
    requires IsHex(c) && IsHex(d)
    ensures var b := Joined(Nibble(c), Nibble(d));
            HexOf(High(b)) == Lower(c) && HexOf(Low(b)) == Lower(d)
  {
    HexOfNibble(c);
    HexOfNibble(d);
  }

  lemma {:induction false} EncodeDecode(s: string)
    requires |s| % 2 == 0 && AllHex(s)
    ensures HexEncode(HexDecode(s)) == ToLower(s)
  {
    if s != [] {
      EncodeDecode(s[2..]);
      PairText(s[0], s[1]);
      EncodeStep(Joined(Nibble(s[0]), Nibble(s[1])), HexDecode(s[2..]));
    }
  }
}
