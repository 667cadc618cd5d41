/** crc16Ton on machine words, and bytes as bit strings. */
module CrcWords {
  import opened Crc16

  // Word operations, named so that proofs can treat them as single symbols.

  function Half(m: bv16): bv16 { m >> 1 }

  function Twice(c: bv16): bv16 { c << 1 }

  function XorWord(c: bv16, d: bv16): bv16 { c ^ d }

  /** A byte in the upper half of a word. */
  function Upper(b: bv8): bv16 { (b as bv16) << 8 }

  predicate Test(c: bv16, m: bv16) { c & m != 0 }

  predicate TestByte(b: bv8, m: bv8) { b & m != 0 }

  /** The mask of bit i, counting from the most significant. */
  function Mask(i: nat): bv16 {
    if i == 0 then 0x8000 else Half(Mask(i - 1))
  }

  function ByteMask(i: nat): bv8 {
    if i == 0 then 0x80 else ByteMask(i - 1) >> 1
  }

  predicate WordBit(c: bv16, i: nat) { Test(c, Mask(i)) }

  predicate ByteBit(b: bv8, i: nat) { TestByte(b, ByteMask(i)) }

  function Bits16(c: bv16): (r: Bits)
    ensures |r| == 16 && forall i :: 0 <= i < 16 ==> r[i] == WordBit(c, i)
  {
    seq(16, i requires 0 <= i < 16 => WordBit(c, i))
  }

  function BitsOf(b: bv8): (r: Bits)
    ensures |r| == 8 && forall i :: 0 <= i < 8 ==> r[i] == ByteBit(b, i)
  {
    seq(8, i requires 0 <= i < 8 => ByteBit(b, i))
  }

  function AllBits(bytes: seq<bv8>): (r: Bits)
    ensures |r| == 8 * |bytes|
  {
    if bytes == [] then [] else BitsOf(bytes[0]) + AllBits(bytes[1..])
  }

  /** The remainder of the message bits: what crc16Ton computes. */
  function Crc(data: seq<bv8>): (r: Bits)
    ensures |r| == 16
  {
    FeedBits(Zeros(16), AllBits(data))
  }

  // ----- Word facts, each decided bit by bit

  predicate OneBit(m: bv16) { m & (m - 1) == 0 }

  lemma TestXor(c: bv16, d: bv16, m: bv16)
    requires OneBit(m)
    ensures Test(XorWord(c, d), m) == (Test(c, m) != Test(d, m))
  {
    AndOneBit(c, m);
    AndOneBit(d, m);
  }

  lemma AndOneBit(x: bv16, m: bv16)
    requires OneBit(m)
    ensures x & m == 0 || x & m == m
  {}

  lemma TestUpperLow(b: bv8, m: bv16)
    requires m & 0xFF00 == 0
    ensures !Test(Upper(b), m)
  {}

  // ----- Word operations on bit strings

  lemma {:induction false} MaskOneBit(i: nat)
    ensures OneBit(Mask(i))
  {
    if i > 0 {
      MaskOneBit(i - 1);
    }
  }

  lemma BitsXor(c: bv16, d: bv16)
    ensures Bits16(XorWord(c, d)) == Xor(Bits16(c), Bits16(d))
  {
    forall i | 0 <= i < 16 ensures WordBit(XorWord(c, d), i) == (WordBit(c, i) != WordBit(d, i)) {
      MaskOneBit(i);
      TestXor(c, d, Mask(i));
    }
  }

  lemma MaskTable()
    ensures forall i :: 0 <= i < 8 ==> Mask(i) == Upper(ByteMask(i))
    ensures forall i :: 8 <= i < 16 ==> Mask(i) & 0xFF00 == 0
    ensures Mask(16) == 0
  {
    assert Mask(0) == 0x8000 && Mask(1) == 0x4000 && Mask(2) == 0x2000 && Mask(3) == 0x1000;
    assert Mask(4) == 0x800 && Mask(5) == 0x400 && Mask(6) == 0x200 && Mask(7) == 0x100;
    assert ByteMask(0) == 0x80 && ByteMask(1) == 0x40 && ByteMask(2) == 0x20 && ByteMask(3) == 0x10;
    assert ByteMask(4) == 8 && ByteMask(5) == 4 && ByteMask(6) == 2 && ByteMask(7) == 1;
    assert Mask(8) == 0x80 && Mask(9) == 0x40 && Mask(10) == 0x20 && Mask(11) == 0x10;
    assert Mask(12) == 8 && Mask(13) == 4 && Mask(14) == 2 && Mask(15) == 1 && Mask(16) == 0;
  }

  lemma WordBitTwice(c: bv16, i: nat)
    ensures WordBit(Twice(c), i) == WordBit(c, i + 1)
  {}

  lemma WordBitOut(c: bv16)
    ensures !WordBit(c, 16)
  {
    MaskTable();
  }

  lemma BitsTwice(c: bv16)
    ensures Bits16(Twice(c)) == Bits16(c)[1..] + [false]
  {
    forall i | 0 <= i < 16 ensures WordBit(Twice(c), i) == (if i < 15 then Bits16(c)[i + 1] else false) {
      WordBitTwice(c, i);
      if i == 15 { WordBitOut(c); }
    }
  }

  lemma BitsOfPoly()
    ensures Bits16(0x1021) == POLY
  {
    var c: bv16 := 0x1021;
    assert !WordBit(c, 0) && !WordBit(c, 1) && !WordBit(c, 2) && WordBit(c, 3);
    assert !WordBit(c, 4) && !WordBit(c, 5) && !WordBit(c, 6) && !WordBit(c, 7);
    assert !WordBit(c, 8) && !WordBit(c, 9) && WordBit(c, 10) && !WordBit(c, 11);
    assert !WordBit(c, 12) && !WordBit(c, 13) && !WordBit(c, 14) && WordBit(c, 15);
  }

  /** The inner loop body of crc16Ton. */
  function ShiftWord(c: bv16): bv16 {
    if Test(c, 0x8000) then XorWord(Twice(c), 0x1021) else Twice(c)
  }

  lemma ShiftWordIsShift(c: bv16)
    ensures Bits16(ShiftWord(c)) == Shift(Bits16(c))
  {
    BitsTwice(c);
    BitsOfPoly();
    BitsXor(Twice(c), 0x1021);
    var t := Bits16(c)[1..] + [false];
    assert Xor(t, Zeros(16)) == t;
    assert Bits16(c)[0] == Test(c, 0x8000);
  }

  /** The upper half of the word is the byte, the lower half is empty. */
  lemma BitsOfUpper(b: bv8)
    ensures Bits16(Upper(b)) == BitsOf(b) + Zeros(8)
  {
    MaskTable();
    var u := Upper(b);
    forall i | 0 <= i < 16 ensures WordBit(u, i) == (BitsOf(b) + Zeros(8))[i] {
      if i >= 8 { TestUpperLow(b, Mask(i)); }
    }
  }

  // ----- The checksum loop

  lemma {:induction false} AllBitsAppend(bytes: seq<bv8>, b: bv8)
    ensures AllBits(bytes + [b]) == AllBits(bytes) + BitsOf(b)
  {
    if bytes == [] {
      assert AllBits([b]) == BitsOf(b) + AllBits([]);
    } else {
      assert (bytes + [b])[1..] == bytes[1..] + [b];
      AllBitsAppend(bytes[1..], b);
    }
  }

  lemma {:induction false} ShiftByLast(n: nat, c: Bits)
    requires |c| == 16
    ensures ShiftBy(n + 1, c) == Shift(ShiftBy(n, c))
  {
    if n > 0 { ShiftByLast(n - 1, Shift(c)); }
  }

  /** XOR-ing a byte into the top half and shifting eight times feeds its eight bits. */
  lemma ByteStep(c: Bits, b: bv8)
    requires |c| == 16
    ensures ShiftBy(8, Xor(c, BitsOf(b) + Zeros(8))) == FeedBits(c, BitsOf(b))
  {
    FeedAtOnce(c, BitsOf(b));
  }

  lemma NextByte(data: seq<bv8>, k: nat)
    requires k < |data|
    ensures Crc(data[..k + 1]) == FeedBits(Crc(data[..k]), BitsOf(data[k]))
  {
    assert data[..k + 1] == data[..k] + [data[k]];
    AllBitsAppend(data[..k], data[k]);
    FeedBitsConcat(Zeros(16), AllBits(data[..k]), BitsOf(data[k]));
  }

  lemma ByteEnters(crc: bv16, b: bv8)
    ensures Bits16(XorWord(crc, Upper(b))) == Xor(Bits16(crc), BitsOf(b) + Zeros(8))
  {
    BitsXor(crc, Upper(b));
    BitsOfUpper(b);
  }

  /** The inner loop of crc16Ton. */
  method ShiftEight(word: bv16) returns (crc: bv16)
    ensures Bits16(crc) == ShiftBy(8, Bits16(word))
  {
    crc := word;
    for i := 0 to 8
      invariant Bits16(crc) == ShiftBy(i, Bits16(word))
    {
      ShiftWordIsShift(crc);
      ShiftByLast(i, Bits16(word));
      crc := ShiftWord(crc);
    }
  }

  /** data * x^16 == q * (x^16 + x^12 + x^5 + 1) + crc over GF(2), for some quotient q. */
  ghost predicate IsRemainder(data: seq<bv8>, crc: Bits) {
    exists q :: Divides(AllBits(data), q, crc)
  }

  /** Crc is the one remainder of the message polynomial. */
  lemma CrcIsRemainder(data: seq<bv8>, r: Bits)
    ensures IsRemainder(data, r) <==> r == Crc(data)
  {
    RemainderIsUnique(AllBits(data), [], []);
    if IsRemainder(data, r) {
      var q :| Divides(AllBits(data), q, r);
      RemainderIsUnique(AllBits(data), q, r);
    }
  }

  /** crc16Ton: the word it returns is the remainder of data * x^16. */
  method Crc16Ton(data: seq<bv8>) returns (crc: bv16)
    ensures Bits16(crc) == Crc(data)
    ensures IsRemainder(data, Bits16(crc))
  {
    crc := 0;
    for k := 0 to |data|
      invariant Bits16(crc) == Crc(data[..k])
    {
      ByteEnters(crc, data[k]);
      ByteStep(Bits16(crc), data[k]);
      NextByte(data, k);
      crc := ShiftEight(XorWord(crc, Upper(data[k])));
    }
    assert data[..|data|] == data;
    CrcIsRemainder(data, Bits16(crc));
  }

  // ----- The checksum as a function of bytes

  function XorByte(a: bv8, b: bv8): bv8 { a ^ b }

  function XorBytes(a: seq<bv8>, b: seq<bv8>): (r: seq<bv8>)
    requires |a| == |b|
    ensures |r| == |a|
  {
    if a == [] then [] else [XorByte(a[0], b[0])] + XorBytes(a[1..], b[1..])
  }

  lemma ByteMaskOneBit(i: nat)
    requires i < 8
    ensures ByteMask(i) & (ByteMask(i) - 1) == 0
  {}

  lemma BitsOfXor(a: bv8, b: bv8)
    ensures BitsOf(XorByte(a, b)) == Xor(BitsOf(a), BitsOf(b))
  {
    forall i | 0 <= i < 8 ensures ByteBit(XorByte(a, b), i) == (ByteBit(a, i) != ByteBit(b, i)) {
      ByteMaskOneBit(i);
    }
  }

  lemma XorConcat(a: Bits, b: Bits, c: Bits, d: Bits)
    requires |a| == |c| && |b| == |d|
    ensures Xor(a + b, c + d) == Xor(a, c) + Xor(b, d)
  {}

  lemma {:induction false} AllBitsXor(a: seq<bv8>, b: seq<bv8>)
    requires |a| == |b|
    ensures AllBits(XorBytes(a, b)) == Xor(AllBits(a), AllBits(b))
  {
    if a != [] {
      BitsOfXor(a[0], b[0]);
      AllBitsXor(a[1..], b[1..]);
      XorConcat(BitsOf(a[0]), AllBits(a[1..]), BitsOf(b[0]), AllBits(b[1..]));
    }
  }

  /** The checksum is linear: XOR of equally long data becomes XOR of checksums. */
  lemma CrcLinear(a: seq<bv8>, b: seq<bv8>)
    requires |a| == |b|
    ensures Crc(XorBytes(a, b)) == Xor(Crc(a), Crc(b))
  {
    AllBitsXor(a, b);
    FeedBitsLinear(Zeros(16), Zeros(16), AllBits(a), AllBits(b));
    assert Xor(Zeros(16), Zeros(16)) == Zeros(16);
  }

  /** Appending two bytes gives checksum zero exactly when they are the checksum. */
  lemma CrcAppended(data: seq<bv8>, h: bv8, l: bv8)
    ensures Crc(data + [h] + [l]) == Zeros(16) <==> BitsOf(h) + BitsOf(l) == Crc(data)
  {
    AllBitsAppend(data, h);
    AllBitsAppend(data + [h], l);
    assert AllBits(data) + BitsOf(h) + BitsOf(l) == AllBits(data) + (BitsOf(h) + BitsOf(l));
    AppendedRemainder(AllBits(data), BitsOf(h) + BitsOf(l));
  }
}
