/**
 * The checksum of TON friendly addresses (crc16Ton in sdk-go/models.go):
 * polynomial division over GF(2) by x^16 + x^12 + x^5 + 1.
 *
 * Bit strings are most significant bit first; as polynomials their first
 * element is the highest coefficient.
 */
module Crc16 {

  type Bits = seq<bool>

  function Zeros(n: nat): (r: Bits)
    ensures |r| == n && forall i :: 0 <= i < n ==> !r[i]
  {
    seq(n, i => false)
  }

  function Xor(a: Bits, b: Bits): (r: Bits)
    requires |a| == |b|
    ensures |r| == |a| && forall i :: 0 <= i < |a| ==> r[i] == (a[i] != b[i])
  {
    seq(|a|, i requires 0 <= i < |a| => a[i] != b[i])
  }

  predicate AllFalse(bits: Bits) { forall i :: 0 <= i < |bits| ==> !bits[i] }

  /** x^12 + x^5 + 1, the polynomial without its leading term. */
  const POLY: Bits :=
    [false, false, false, true, false, false, false, false, false, false, true, false, false, false, false, true]

  // ----- The division register

  function Scaled(b: bool, p: Bits): (r: Bits)
    ensures |r| == |p| && forall i :: 0 <= i < |p| ==> r[i] == (b && p[i])
  {
    if b then p else Zeros(|p|)
  }

  /** Multiply by x and reduce. */
  function Shift(c: Bits): (r: Bits)
    requires |c| == 16
    ensures |r| == 16
  {
    Xor(c[1..] + [false], Scaled(c[0], POLY))
  }

  function ShiftBy(n: nat, c: Bits): (r: Bits)
    requires |c| == 16
    ensures |r| == 16
    decreases n
  {
    if n == 0 then c else ShiftBy(n - 1, Shift(c))
  }

  function FeedBit(c: Bits, b: bool): (r: Bits)
    requires |c| == 16
    ensures |r| == 16
  {
    Shift(c[0 := c[0] != b])
  }

  function FeedBits(c: Bits, bits: Bits): (r: Bits)
    requires |c| == 16
    ensures |r| == 16
    decreases |bits|
  {
    if bits == [] then c else FeedBits(FeedBit(c, bits[0]), bits[1..])
  }

  // ----- Linearity and injectivity

  lemma ShiftLinear(a: Bits, b: Bits)
    requires |a| == 16 && |b| == 16
    ensures Shift(Xor(a, b)) == Xor(Shift(a), Shift(b))
  {}

  lemma FeedLinear(a: Bits, b: Bits, x: bool, y: bool)
    requires |a| == 16 && |b| == 16
    ensures FeedBit(Xor(a, b), x != y) == Xor(FeedBit(a, x), FeedBit(b, y))
  {
    var a', b' := a[0 := a[0] != x], b[0 := b[0] != y];
    assert Xor(a, b)[0 := Xor(a, b)[0] != (x != y)] == Xor(a', b');
    ShiftLinear(a', b');
  }

  /** XOR of inputs of one length becomes XOR of the remainders. */
  lemma {:induction false} FeedBitsLinear(a: Bits, b: Bits, x: Bits, y: Bits)
    requires |a| == 16 && |b| == 16 && |x| == |y|
    ensures FeedBits(Xor(a, b), Xor(x, y)) == Xor(FeedBits(a, x), FeedBits(b, y))
    decreases |x|
  {
    if x != [] {
      FeedLinear(a, b, x[0], y[0]);
      assert Xor(x, y)[1..] == Xor(x[1..], y[1..]);
      FeedBitsLinear(FeedBit(a, x[0]), FeedBit(b, y[0]), x[1..], y[1..]);
    }
  }

  lemma {:induction false} FeedBitsConcat(c: Bits, x: Bits, y: Bits)
    requires |c| == 16
    ensures FeedBits(c, x + y) == FeedBits(FeedBits(c, x), y)
    decreases |x|
  {
    if x == [] {
      assert x + y == y;
    } else {
      assert (x + y)[1..] == x[1..] + y;
      FeedBitsConcat(FeedBit(c, x[0]), x[1..], y);
    }
  }

  /** The register step is a bijection; in particular only zero becomes zero. */
  lemma ShiftInjective(a: Bits, b: Bits)
    requires |a| == 16 && |b| == 16 && Shift(a) == Shift(b)
    ensures a == b
  {
    assert Shift(a)[15] == a[0] && Shift(b)[15] == b[0];
    forall i | 0 < i < 16 ensures a[i] == b[i] {
      assert Shift(a)[i - 1] == (a[i] != (a[0] && POLY[i - 1]));
      assert Shift(b)[i - 1] == (b[i] != (b[0] && POLY[i - 1]));
    }
  }

  lemma {:induction false} ShiftByInjective(n: nat, a: Bits, b: Bits)
    requires |a| == 16 && |b| == 16
    ensures ShiftBy(n, a) == ShiftBy(n, b) <==> a == b
  {
    if n > 0 {
      ShiftByInjective(n - 1, Shift(a), Shift(b));
      if Shift(a) == Shift(b) { ShiftInjective(a, b); }
    }
  }

  lemma {:induction false} ShiftByZero(n: nat)
    ensures ShiftBy(n, Zeros(16)) == Zeros(16)
  {
    if n > 0 {
      assert Shift(Zeros(16)) == Zeros(16);
      ShiftByZero(n - 1);
    }
  }

  lemma ShiftByNonzero(n: nat, c: Bits)
    requires |c| == 16
    ensures ShiftBy(n, c) == Zeros(16) <==> c == Zeros(16)
  {
    ShiftByZero(n);
    ShiftByInjective(n, c, Zeros(16));
  }

  // ----- Up to sixteen bits at once

  /** Feeding at most sixteen bits is adding them at the top and shifting. */
  lemma {:induction false} FeedAtOnce(c: Bits, bits: Bits)
    requires |c| == 16 && |bits| <= 16
    ensures FeedBits(c, bits) == ShiftBy(|bits|, Xor(c, bits + Zeros(16 - |bits|)))
    decreases |bits|
  {
    if bits == [] {
      assert Xor(c, bits + Zeros(16)) == c;
    } else {
      var k, rest := |bits|, bits[1..];
      FeedAtOnce(FeedBit(c, bits[0]), rest);
      StepAtOnce(c, bits);
    }
  }

  lemma StepAtOnce(c: Bits, bits: Bits)
    requires |c| == 16 && 1 <= |bits| <= 16
    ensures Xor(FeedBit(c, bits[0]), bits[1..] + Zeros(17 - |bits|)) == Shift(Xor(c, bits + Zeros(16 - |bits|)))
  {
    var x := Xor(c, bits + Zeros(16 - |bits|));
    var left, right := Xor(FeedBit(c, bits[0]), bits[1..] + Zeros(17 - |bits|)), Shift(x);
    forall i | 0 <= i < 16 ensures left[i] == right[i] {
      if i < 15 {
        assert (c[0 := c[0] != bits[0]])[1..][i] == c[i + 1];
        assert (bits[1..] + Zeros(17 - |bits|))[i] == (bits + Zeros(16 - |bits|))[i + 1];
      }
    }
  }

  // ----- Burst errors

  lemma {:induction false} FeedZeros(c: Bits, bits: Bits)
    requires |c| == 16 && AllFalse(bits)
    ensures FeedBits(c, bits) == ShiftBy(|bits|, c)
    decreases |bits|
  {
    if bits != [] {
      assert c[0 := c[0] != false] == c;
      FeedZeros(Shift(c), bits[1..]);
    }
  }

  /** An error confined to sixteen consecutive bits always changes the remainder. */
  lemma BurstDetected(before: Bits, burst: Bits, after: Bits)
    requires AllFalse(before) && AllFalse(after) && |burst| <= 16
    ensures FeedBits(Zeros(16), before + burst + after) == Zeros(16) <==> AllFalse(burst)
  {
    var z := Zeros(16);
    FeedBitsConcat(z, before + burst, after);
    FeedBitsConcat(z, before, burst);
    FeedZeros(z, before);
    ShiftByZero(|before|);
    FeedAtOnce(z, burst);
    var w := Xor(z, burst + Zeros(16 - |burst|));
    ShiftByNonzero(|burst|, w);
    FeedZeros(FeedBits(z, burst), after);
    ShiftByNonzero(|after|, FeedBits(z, burst));
    assert w == z <==> AllFalse(burst) by {
      assert forall i :: 0 <= i < |burst| ==> w[i] == burst[i];
    }
  }

  /** Appending sixteen bits gives remainder zero exactly when they are the remainder. */
  lemma AppendedRemainder(message: Bits, check: Bits)
    requires |check| == 16
    ensures FeedBits(Zeros(16), message + check) == Zeros(16) <==> check == FeedBits(Zeros(16), message)
  {
    var c := FeedBits(Zeros(16), message);
    FeedBitsConcat(Zeros(16), message, check);
    FeedAtOnce(c, check);
    assert check + Zeros(0) == check;
    ShiftByNonzero(16, Xor(c, check));
    assert Xor(c, check) == Zeros(16) <==> c == check by {
      if Xor(c, check) == Zeros(16) {
        assert forall i :: 0 <= i < 16 ==> Xor(c, check)[i] == (c[i] != check[i]);
      }
    }
  }

  // ----- Polynomial division

  /** q(x) * (x^16 + x^12 + x^5 + 1), as |q| + 16 coefficients. */
  function TimesGenerator(q: Bits): (r: Bits)
    ensures |r| == |q| + 16
  {
    if q == [] then Zeros(16)
    else Xor(Scaled(q[0], [true] + POLY) + Zeros(|q| - 1), [false] + TimesGenerator(q[1..]))
  }

  /** The dividend with quotient q and remainder r. */
  function Dividend(q: Bits, r: Bits): (d: Bits)
    requires |r| == 16
    ensures |d| == |q| + 16
  {
    Xor(TimesGenerator(q), Zeros(|q|) + r)
  }

  /** message * x^16 == q * generator + r, with r of degree below 16. */
  ghost predicate Divides(message: Bits, q: Bits, r: Bits)
  {
    |q| == |message| && |r| == 16 &&
    message + Zeros(16) == Dividend(q, r)
  }

  /** The bits that leave the register: the quotient. */
  function Quotient(c: Bits, bits: Bits): (q: Bits)
    requires |c| == 16
    ensures |q| == |bits|
    decreases |bits|
  {
    if bits == [] then [] else [c[0] != bits[0]] + Quotient(FeedBit(c, bits[0]), bits[1..])
  }

  lemma {:induction false} RegisterDivides(c: Bits, bits: Bits)
    requires |c| == 16
    ensures Xor(c + Zeros(|bits|), bits + Zeros(16)) ==
            Dividend(Quotient(c, bits), FeedBits(c, bits))
    decreases |bits|
  {
    if bits == [] {
      assert Xor(c + Zeros(0), [] + Zeros(16)) == c;
      assert Xor(Zeros(16), Zeros(0) + c) == c;
    } else {
      RegisterDivides(FeedBit(c, bits[0]), bits[1..]);
      DivisionStep(c, bits, TimesGenerator(Quotient(FeedBit(c, bits[0]), bits[1..])), FeedBits(c, bits));
    }
  }

  /** The register started at zero ends with the remainder of message * x^16, and nothing else is a remainder. */
  lemma RemainderIsUnique(message: Bits, q: Bits, r: Bits)
    ensures Divides(message, Quotient(Zeros(16), message), FeedBits(Zeros(16), message))
    ensures Divides(message, q, r) ==> r == FeedBits(Zeros(16), message)
  {
    var z := Zeros(16);
    RegisterDivides(z, message);
    assert Xor(z + Zeros(|message|), message + z) == message + z;
    if Divides(message, q, r) {
      DivisionUnique(q, r, Quotient(z, message), FeedBits(z, message));
    }
  }

  /** One subtraction of the shifted generator. */
  lemma DivisionStep(c: Bits, bits: Bits, product: Bits, r: Bits)
    requires |c| == 16 && bits != [] && |product| == |bits| + 15 && |r| == 16
    requires Xor(FeedBit(c, bits[0]) + Zeros(|bits| - 1), bits[1..] + Zeros(16)) == Xor(product, Zeros(|bits| - 1) + r)
    ensures var f := c[0] != bits[0];
            Xor(c + Zeros(|bits|), bits + Zeros(16)) ==
            Xor(Xor(Scaled(f, [true] + POLY) + Zeros(|bits| - 1), [false] + product), Zeros(|bits|) + r)
  {
    var n, f, c' := |bits|, c[0] != bits[0], FeedBit(c, bits[0]);
    var left := Xor(c + Zeros(n), bits + Zeros(16));
    var g := Scaled(f, [true] + POLY) + Zeros(n - 1);
    var right := Xor(Xor(g, [false] + product), Zeros(n) + r);
    var below := Xor(c' + Zeros(n - 1), bits[1..] + Zeros(16));
    forall i | 0 <= i < n + 16 ensures left[i] == right[i] {
      if i > 0 {
        assert below[i - 1] == (product[i - 1] != (Zeros(n - 1) + r)[i - 1]);
        assert (Zeros(n) + r)[i] == (Zeros(n - 1) + r)[i - 1];
        assert (bits + Zeros(16))[i] == (bits[1..] + Zeros(16))[i - 1];
        RegisterBit(c, bits[0], i, n);
      }
    }
  }

  lemma RegisterBit(c: Bits, b: bool, i: nat, n: nat)
    requires |c| == 16 && n >= 1 && 0 < i < n + 16
    ensures (FeedBit(c, b) + Zeros(n - 1))[i - 1] ==
            ((c + Zeros(n))[i] != (Scaled(c[0] != b, [true] + POLY) + Zeros(n - 1))[i])
  {
    var c1 := c[0 := c[0] != b];
    if i < 16 {
      assert c1[1..][i - 1] == c[i];
      assert ([true] + POLY)[i] == POLY[i - 1];
    } else if i == 16 {
      assert ([true] + POLY)[16] == POLY[15];
    }
  }

  lemma DividendStep(q: Bits, r: Bits)
    requires |r| == 16 && q != []
    ensures Dividend(q, r) == Xor(Scaled(q[0], [true] + POLY) + Zeros(|q| - 1), [false] + Dividend(q[1..], r))
  {
    assert Zeros(|q|) + r == [false] + (Zeros(|q| - 1) + r);
  }

  /** Quotient and remainder are unique: the generator is monic. */
  lemma {:induction false} DivisionUnique(q: Bits, r: Bits, q': Bits, r': Bits)
    requires |q| == |q'| && |r| == 16 && |r'| == 16 && Dividend(q, r) == Dividend(q', r')
    ensures q == q' && r == r'
  {
    if q == [] {
      assert Dividend(q, r) == r && Dividend(q', r') == r';
    } else {
      SameDividends(q, r, q', r');
      DivisionUnique(q[1..], r, q'[1..], r');
      assert q == [q[0]] + q[1..] && q' == [q'[0]] + q'[1..];
    }
  }

  /** Equal dividends have equal leading bits, and are equal below them. */
  lemma SameDividends(q: Bits, r: Bits, q': Bits, r': Bits)
    requires |q| == |q'| && q != [] && |r| == 16 && |r'| == 16 && Dividend(q, r) == Dividend(q', r')
    ensures q[0] == q'[0] && Dividend(q[1..], r) == Dividend(q'[1..], r')
  {
    DividendStep(q, r);
    DividendStep(q', r');
    LeadingBit(q, r);
    LeadingBit(q', r');
    var g := Scaled(q[0], [true] + POLY) + Zeros(|q| - 1);
    XorCancel(g, [false] + Dividend(q[1..], r), [false] + Dividend(q'[1..], r'));
    SameTail(false, Dividend(q[1..], r), Dividend(q'[1..], r'));
  }

  /** The generator is monic: the quotient's first bit leads the dividend. */
  lemma LeadingBit(q: Bits, r: Bits)
    requires |r| == 16 && q != []
    ensures Dividend(q, r)[0] == q[0]
  {
    DividendStep(q, r);
    assert (Scaled(q[0], [true] + POLY) + Zeros(|q| - 1))[0] == q[0];
  }

  lemma SameTail(b: bool, x: Bits, y: Bits)
    requires [b] + x == [b] + y
    ensures x == y
  {
    assert ([b] + x)[1..] == x && ([b] + y)[1..] == y;
  }

  lemma XorCancel(a: Bits, b: Bits, c: Bits)
    requires |a| == |b| == |c| && Xor(a, b) == Xor(a, c)
    ensures b == c
  {
    forall i | 0 <= i < |b| ensures b[i] == c[i] {
      assert Xor(a, b)[i] == (a[i] != b[i]) && Xor(a, c)[i] == (a[i] != c[i]);
    }
  }
}
