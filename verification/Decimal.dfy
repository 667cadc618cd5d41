/**
 * Decimal notation: the text produced by toString / strconv.FormatInt and the
 * value read back by BigInt / strconv.ParseInt.
 */
module Decimal {
  import opened Text

  function Pow10(k: nat): (r: nat)
    ensures r >= 1
  {
    if k == 0 then 1 else 10 * Pow10(k - 1)
  }

  function DigitValue(c: char): (d: nat)
    requires IsDigit(c)
    ensures d < 10
  {
    c as int - '0' as int
  }

  function DigitChar(d: nat): (c: char)
    requires d < 10
    ensures IsDigit(c) && DigitValue(c) == d
  {
    '0' + d as char
  }

  /** The number a digit string denotes. */
  function Value(s: string): nat
    requires AllDigits(s)
  {
    if s == [] then 0 else 10 * Value(s[..|s| - 1]) + DigitValue(s[|s| - 1])
  }

  /** The decimal text of a natural number, without leading zeros. */
  function ToDec(n: nat): (s: string)
    ensures |s| >= 1 && AllDigits(s)
  {
    if n < 10 then [DigitChar(n)] else ToDec(n / 10) + [DigitChar(n % 10)]
  }

  function IntText(n: int): string {
    if n < 0 then "-" + ToDec(-n) else ToDec(n)
  }

  /** A digit string without superfluous leading zeros. */
  predicate IsCanonical(s: string) {
    |s| >= 1 && AllDigits(s) && (s[0] != '0' || |s| == 1)
  }

  function Zeros(k: nat): (s: string)
    ensures |s| == k && AllDigits(s)
  {
    seq(k, i => '0')
  }

  /** s.padStart(width, '0') */
  function PadStart(s: string, width: nat): string {
    if |s| >= width then s else Zeros(width - |s|) + s
  }

  lemma {:induction false} Pow10Add(a: nat, b: nat)
    ensures Pow10(a + b) == Pow10(a) * Pow10(b)
  {
    if a != 0 {
      Pow10Add(a - 1, b);
    }
  }

  lemma {:induction false} Pow10Mono(a: nat, b: nat)
    requires a < b
    ensures Pow10(a) < Pow10(b)
  {
    if b > a + 1 { Pow10Mono(a, b - 1); }
  }

  lemma {:induction false} ValueBound(s: string)
    requires AllDigits(s)
    ensures Value(s) < Pow10(|s|)
  {
    if s != [] { ValueBound(s[..|s| - 1]); }
  }

  lemma TenTimes(v: nat, p: nat)
    ensures v * (10 * p) == 10 * (v * p)
  {}

  lemma {:induction false} ValueConcat(a: string, b: string)
    requires AllDigits(a) && AllDigits(b)
    ensures AllDigits(a + b)
    ensures Value(a + b) == Value(a) * Pow10(|b|) + Value(b)
  {
    if b == [] {
      assert a + b == a;
    } else {
      var k := |b| - 1;
      var front := a + b[..k];
      ValueConcat(a, b[..k]);
      assert (a + b)[..|a + b| - 1] == front && (a + b)[|a + b| - 1] == b[k];
      assert Value(a + b) == 10 * Value(front) + DigitValue(b[k]);
      assert 10 * Value(front) == 10 * (Value(a) * Pow10(k)) + 10 * Value(b[..k]);
      TenTimes(Value(a), Pow10(k));
    }
  }

  lemma {:induction false} ValueZeros(k: nat)
    ensures Value(Zeros(k)) == 0
  {
    if k != 0 {
      ValueZeros(k - 1);
      assert Zeros(k)[..k - 1] == Zeros(k - 1);
    }
  }

  /** Reading back the decimal text of n gives n. */
  lemma {:induction false} ValueToDec(n: nat)
    ensures Value(ToDec(n)) == n
  {
    if n >= 10 {
      ValueToDec(n / 10);
      var p := ToDec(n / 10);
      assert (p + [DigitChar(n % 10)])[..|p|] == p;
    }
  }

  lemma {:induction false} ToDecCanonical(n: nat)
    ensures IsCanonical(ToDec(n)) && (n > 0 ==> ToDec(n)[0] != '0')
  {
    if n >= 10 { ToDecCanonical(n / 10); }
  }

  lemma {:induction false} ValuePositive(s: string)
    requires AllDigits(s) && |s| >= 1 && s[0] != '0'
    ensures Value(s) > 0
  {
    if |s| > 1 { ValuePositive(s[..|s| - 1]); }
  }

  /** Printing the value of a canonical digit string gives the string back. */
  lemma {:induction false} ToDecOfValue(s: string)
    requires IsCanonical(s)
    ensures ToDec(Value(s)) == s
  {
    if |s| == 1 {
      assert s[..0] == [];
    } else {
      var p := s[..|s| - 1];
      ValuePositive(p);
      ToDecOfValue(p);
      assert s == p + [s[|s| - 1]];
    }
  }

  /** Two digit strings of one length with one value are the same string. */
  lemma ValueSplit(a: string)
    requires AllDigits(a) && a != []
    ensures AllDigits(a[..|a| - 1]) && Value(a) == 10 * Value(a[..|a| - 1]) + DigitValue(a[|a| - 1])
  {}

  lemma LastDigit(x: nat, d: nat, y: nat, e: nat)
    requires 10 * x + d == 10 * y + e && d < 10 && e < 10
    ensures x == y && d == e
  {}

  lemma {:induction false} ValueInjective(a: string, b: string)
    requires AllDigits(a) && AllDigits(b) && |a| == |b| && Value(a) == Value(b)
    ensures a == b
  {
    if a != [] {
      var k := |a| - 1;
      var x, y := a[..k], b[..k];
      ValueSplit(a);
      ValueSplit(b);
      LastDigit(Value(x), DigitValue(a[k]), Value(y), DigitValue(b[k]));
      ValueInjective(x, y);
      assert a == x + [a[k]] && b == y + [b[k]];
    }
  }

  lemma {:induction false} IntTextInjective(m: int, n: int)
    ensures IntText(m) == IntText(n) ==> m == n
  {
    var a, b := if m < 0 then -m else m, if n < 0 then -n else n;
    ValueToDec(a);
    ValueToDec(b);
    assert IsDigit(ToDec(a)[0]) && IsDigit(ToDec(b)[0]);
    if m < 0 { assert IntText(m)[0] == '-' && IntText(m)[1..] == ToDec(a); }
    if n < 0 { assert IntText(n)[0] == '-' && IntText(n)[1..] == ToDec(b); }
  }

  /** The decimal text of n has at most k characters exactly when n < 10^k. */
  lemma {:induction false} ToDecLength(n: nat, k: nat)
    requires k >= 1
    ensures |ToDec(n)| <= k <==> n < Pow10(k)
  {
    if k == 1 {
      assert Pow10(1) == 10 * Pow10(0);
    } else if n >= 10 {
      ToDecLength(n / 10, k - 1);
    } else {
      Pow10Mono(1, k);
    }
  }

  /** A padded number has exactly the width, is all digits and keeps its value. */
  lemma PadStartResult(n: nat, width: nat)
    requires width >= 1 && n < Pow10(width)
    ensures var s := PadStart(ToDec(n), width);
            |s| == width && AllDigits(s) && Value(s) == n
  {
    ToDecLength(n, width);
    ValueToDec(n);
    if |ToDec(n)| < width {
      var k := width - |ToDec(n)|;
      ValueConcat(Zeros(k), ToDec(n));
      ValueZeros(k);
    }
  }
}
