/**
 * The orders in which the implementations sort object keys: Unicode code points
 * (TypeScript comparator, Python), UTF-8 bytes (Go), UTF-16 code units (the
 * default JavaScript sort) and JavaScript property enumeration.
 */
module KeyOrder {
  import opened Decimal

  // ----- Lexicographic order

  predicate LexLess(a: seq<int>, b: seq<int>) {
    if b == [] then false
    else if a == [] then true
    else if a[0] != b[0] then a[0] < b[0]
    else LexLess(a[1..], b[1..])
  }

  lemma {:induction false} LexIrreflexive(a: seq<int>)
    ensures !LexLess(a, a)
  {
    if a != [] { LexIrreflexive(a[1..]); }
  }

  lemma {:induction false} LexTransitive(a: seq<int>, b: seq<int>, c: seq<int>)
    requires LexLess(a, b) && LexLess(b, c)
    ensures LexLess(a, c)
  {
    if a != [] && a[0] == b[0] == c[0] { LexTransitive(a[1..], b[1..], c[1..]); }
  }

  lemma {:induction false} LexTotal(a: seq<int>, b: seq<int>)
    ensures LexLess(a, b) || a == b || LexLess(b, a)
  {
    if a != [] && b != [] && a[0] == b[0] {
      LexTotal(a[1..], b[1..]);
      assert a == [a[0]] + a[1..] && b == [b[0]] + b[1..];
    }
  }

  lemma {:induction false} LexSamePrefix(p: seq<int>, a: seq<int>, b: seq<int>)
    ensures LexLess(p + a, p + b) == LexLess(a, b)
  {
    if p == [] {
      assert p + a == a && p + b == b;
    } else {
      assert (p + a)[1..] == p[1..] + a && (p + b)[1..] == p[1..] + b;
      LexSamePrefix(p[1..], a, b);
    }
  }

  /** u and v first differ at index j, inside both. */
  predicate DifferAt(u: seq<int>, v: seq<int>, j: nat) {
    j < |u| && j < |v| && u[..j] == v[..j] && u[j] != v[j]
  }

  lemma LexDecided(u: seq<int>, v: seq<int>, j: nat, a: seq<int>, b: seq<int>)
    requires DifferAt(u, v, j)
    ensures LexLess(u + a, v + b) == (u[j] < v[j])
  {
    var p := u[..j];
    assert u + a == p + (u[j..] + a) && v + b == p + (v[j..] + b);
    LexSamePrefix(p, u[j..] + a, v[j..] + b);
  }

  // ----- Encodings

  /** UTF-8 bytes of one code point (section 3 of RFC 3629). */
  function Utf8(c: char): (bytes: seq<int>)
    ensures 1 <= |bytes| <= 4
  {
    var n := c as int;
    if n < 0x80 then [n]
    else if n < 0x800 then [0xC0 + n / 64, 0x80 + n % 64]
    else if n < 0x10000 then [0xE0 + n / 4096, 0x80 + n / 64 % 64, 0x80 + n % 64]
    else [0xF0 + n / 262144, 0x80 + n / 4096 % 64, 0x80 + n / 64 % 64, 0x80 + n % 64]
  }

  /** UTF-16 code units of one code point (section 2.1 of RFC 2781). */
  function Utf16(c: char): (units: seq<int>)
    ensures 1 <= |units| <= 2
  {
    var n := c as int;
    if n < 0x10000 then [n] else [0xD800 + (n - 0x10000) / 1024, 0xDC00 + (n - 0x10000) % 1024]
  }

  datatype Encoding = CodePoint | Utf8Bytes | Utf16Units

  function EncodeChar(e: Encoding, c: char): (u: seq<int>)
    ensures |u| >= 1
  {
    match e
    case CodePoint => [c as int]
    case Utf8Bytes => Utf8(c)
    case Utf16Units => Utf16(c)
  }

  function Encode(e: Encoding, s: string): seq<int> {
    if s == [] then [] else EncodeChar(e, s[0]) + Encode(e, s[1..])
  }

  /** A supplementary character against one of U+E000..U+FFFF: the pairs UTF-16 misorders. */
  predicate Straddles(c: char, d: char) {
    (c as int >= 0x10000 && 0xE000 <= d as int < 0x10000) || (d as int >= 0x10000 && 0xE000 <= c as int < 0x10000)
  }

  lemma Utf8Three(c: char, d: char) returns (j: nat)
    requires 0x800 <= c as int < d as int < 0x10000
    ensures DifferAt(Utf8(c), Utf8(d), j) && Utf8(c)[j] < Utf8(d)[j]
  {
    var u, v, x, y := Utf8(c), Utf8(d), c as int, d as int;
    var x1, y1 := x / 64, y / 64;
    assert x / 4096 == x1 / 64 && y / 4096 == y1 / 64;
    assert u == [0xE0 + x1 / 64, 0x80 + x1 % 64, 0x80 + x % 64];
    assert v == [0xE0 + y1 / 64, 0x80 + y1 % 64, 0x80 + y % 64];
    j := if x1 / 64 != y1 / 64 then 0 else if x1 != y1 then 1 else 2;
    assert forall i :: 0 <= i < j ==> u[i] == v[i];
  }

  /** The bytes of a supplementary character, by repeated division. */
  lemma FourBytes(c: char)
    requires c as int >= 0x10000
    ensures var x := c as int;
            Utf8(c) == [0xF0 + x / 64 / 64 / 64, 0x80 + x / 64 / 64 % 64, 0x80 + x / 64 % 64, 0x80 + x % 64]
  {
    var x := c as int;
    assert x / 4096 == x / 64 / 64 && x / 262144 == x / 64 / 64 / 64;
  }

  lemma Utf8Four(c: char, d: char) returns (j: nat)
    requires 0x10000 <= c as int < d as int
    ensures DifferAt(Utf8(c), Utf8(d), j) && Utf8(c)[j] < Utf8(d)[j]
  {
    var u, v, x, y := Utf8(c), Utf8(d), c as int, d as int;
    var x1, y1 := x / 64, y / 64;
    var x2, y2 := x1 / 64, y1 / 64;
    FourBytes(c);
    FourBytes(d);
    assert u == [0xF0 + x2 / 64, 0x80 + x2 % 64, 0x80 + x1 % 64, 0x80 + x % 64];
    assert v == [0xF0 + y2 / 64, 0x80 + y2 % 64, 0x80 + y1 % 64, 0x80 + y % 64];
    j := if x2 / 64 != y2 / 64 then 0 else if x2 != y2 then 1 else if x1 != y1 then 2 else 3;
    assert forall i :: 0 <= i < j ==> u[i] == v[i];
  }

  lemma Utf8Ordered(c: char, d: char) returns (j: nat)
    requires c < d
    ensures DifferAt(Utf8(c), Utf8(d), j) && Utf8(c)[j] < Utf8(d)[j]
  {
    if |Utf8(c)| == |Utf8(d)| == 3 {
      j := Utf8Three(c, d);
    } else if |Utf8(c)| == |Utf8(d)| == 4 {
      j := Utf8Four(c, d);
    } else if Utf8(c)[0] != Utf8(d)[0] {
      j := 0;
    } else {
      j := 1;
      assert Utf8(c)[..1] == [Utf8(c)[0]] && Utf8(d)[..1] == [Utf8(d)[0]];
    }
  }

  lemma Utf16Ordered(c: char, d: char) returns (j: nat)
    requires c < d
    ensures DifferAt(Utf16(c), Utf16(d), j) && (Utf16(c)[j] < Utf16(d)[j] <==> !Straddles(c, d))
  {
    var u, v := Utf16(c), Utf16(d);
    if u[0] != v[0] {
      j := 0;
    } else {
      j := 1;
      assert u[..1] == [u[0]] && v[..1] == [v[0]];
    }
  }

  /** Two different characters differ inside both encodings, in code-point order except where UTF-16 straddles. */
  lemma CharsOrdered(e: Encoding, c: char, d: char) returns (j: nat)
    requires c < d
    ensures DifferAt(EncodeChar(e, c), EncodeChar(e, d), j)
    ensures EncodeChar(e, c)[j] < EncodeChar(e, d)[j] <==> !(e.Utf16Units? && Straddles(c, d))
  {
    match e
    case CodePoint => j := 0;
    case Utf8Bytes => j := Utf8Ordered(c, d);
    case Utf16Units => j := Utf16Ordered(c, d);
  }

  /** The strings first differ at two characters that UTF-16 misorders. */
  predicate StraddleAtFirstDifference(a: string, b: string) {
    if a == [] || b == [] then false
    else if a[0] != b[0] then Straddles(a[0], b[0])
    else StraddleAtFirstDifference(a[1..], b[1..])
  }

  /**
   * UTF-8 byte order is code-point order on all strings of Unicode scalar
   * values; UTF-16 order is reversed on exactly the straddling pairs.
   */
  lemma {:induction false} EncodedOrder(e: Encoding, a: string, b: string)
    ensures LexLess(Encode(e, a), Encode(e, b)) ==
            if e.Utf16Units? && StraddleAtFirstDifference(a, b)
            then LexLess(Encode(CodePoint, b), Encode(CodePoint, a))
            else LexLess(Encode(CodePoint, a), Encode(CodePoint, b))
  {
    if a != [] && b != [] {
      var p, q := EncodeChar(e, a[0]), EncodeChar(e, b[0]);
      var x, y := Encode(e, a[1..]), Encode(e, b[1..]);
      CodePointHead(a, b);
      CodePointHead(b, a);
      if a[0] == b[0] {
        EncodedOrder(e, a[1..], b[1..]);
        LexSamePrefix(p, x, y);
      } else if a[0] < b[0] {
        var j := CharsOrdered(e, a[0], b[0]);
        LexDecided(p, q, j, x, y);
      } else {
        var j := CharsOrdered(e, b[0], a[0]);
        LexDecided(p, q, j, x, y);
      }
    }
  }

  lemma CodePointHead(a: string, b: string)
    requires a != [] && b != []
    ensures LexLess(Encode(CodePoint, a), Encode(CodePoint, b)) ==
            if a[0] == b[0] then LexLess(Encode(CodePoint, a[1..]), Encode(CodePoint, b[1..])) else a[0] < b[0]
  {}

  /** Each encoding determines the string. */
  lemma {:induction false} EncodeInjective(e: Encoding, a: string, b: string)
    requires Encode(e, a) == Encode(e, b)
    ensures a == b
  {
    LexIrreflexive(Encode(e, a));
    EncodedOrder(e, a, b);
    EncodedOrder(e, b, a);
    StraddleSymmetric(a, b);
    CodePointTotal(a, b);
  }

  lemma {:induction false} StraddleSymmetric(a: string, b: string)
    ensures StraddleAtFirstDifference(a, b) == StraddleAtFirstDifference(b, a)
  {
    if a != [] && b != [] { StraddleSymmetric(a[1..], b[1..]); }
  }

  lemma {:induction false} CodePointTotal(a: string, b: string)
    ensures a == b || LexLess(Encode(CodePoint, a), Encode(CodePoint, b)) || LexLess(Encode(CodePoint, b), Encode(CodePoint, a))
  {
    if a != [] && b != [] {
      CodePointHead(a, b);
      CodePointHead(b, a);
      if a[0] == b[0] {
        CodePointTotal(a[1..], b[1..]);
        assert a == [a[0]] + a[1..] && b == [b[0]] + b[1..];
      }
    }
  }

  // ----- The comparator of the TypeScript SDK

  lemma LexAtPrefix(a: string, b: string, k: nat)
    requires k <= |a| && k <= |b| && a[..k] == b[..k]
    requires k < |a| && k < |b| ==> a[k] != b[k]
    ensures LexLess(Encode(CodePoint, a), Encode(CodePoint, b)) ==
            if k < |a| && k < |b| then a[k] < b[k] else |a| < |b|
    decreases k
  {
    if k == 0 {
      if a != [] && b != [] { CodePointHead(a, b); }
    } else {
      CodePointHead(a, b);
      assert a[0] == a[..k][0] && b[0] == b[..k][0];
      assert a[1..][..k - 1] == a[..k][1..] && b[1..][..k - 1] == b[..k][1..];
      LexAtPrefix(a[1..], b[1..], k - 1);
    }
  }

  /** The comparator's loop: its sign is code-point order, and it is zero only on equal strings. */
  method CompareByCodePoint(a: string, b: string) returns (d: int)
    ensures d < 0 <==> LexLess(Encode(CodePoint, a), Encode(CodePoint, b))
    ensures d > 0 <==> LexLess(Encode(CodePoint, b), Encode(CodePoint, a))
    ensures d == 0 <==> a == b
  {
    var length := if |a| <= |b| then |a| else |b|;
    for i := 0 to length
      invariant a[..i] == b[..i]
    {
      var diff := a[i] as int - b[i] as int;
      if diff != 0 {
        LexAtPrefix(a, b, i);
        LexAtPrefix(b, a, i);
        return diff;
      }
    }
    LexAtPrefix(a, b, length);
    LexAtPrefix(b, a, length);
    assert |a| == |b| ==> a == a[..length] && b == b[..length];
    return |a| - |b|;
  }

  // ----- Sort orders

  /** `IndexFirst` is JavaScript enumeration of an object filled in UTF-16 order: array indices come first. */
  datatype Order = ByEncoding(encoding: Encoding) | IndexFirst

  /** An array index in the sense of ECMA-262: canonical decimal below 2^32 - 1. */
  predicate IsIndexKey(s: string) {
    IsCanonical(s) && Value(s) < 0xFFFF_FFFF
  }

  function SortKey(o: Order, s: string): seq<int> {
    match o
    case ByEncoding(e) => Encode(e, s)
    case IndexFirst => if IsIndexKey(s) then [0, Value(s)] else [1] + Encode(Utf16Units, s)
  }

  predicate Less(o: Order, a: string, b: string) {
    LexLess(SortKey(o, a), SortKey(o, b))
  }

  lemma SortKeyInjective(o: Order, a: string, b: string)
    requires SortKey(o, a) == SortKey(o, b)
    ensures a == b
  {
    match o
    case ByEncoding(e) => EncodeInjective(e, a, b);
    case IndexFirst =>
      assert SortKey(o, a)[0] == (if IsIndexKey(a) then 0 else 1) && SortKey(o, b)[0] == (if IsIndexKey(b) then 0 else 1);
      if IsIndexKey(a) {
        assert Value(a) == SortKey(o, a)[1] == SortKey(o, b)[1] == Value(b);
        ToDecOfValue(a);
        ToDecOfValue(b);
      } else {
        assert SortKey(o, a)[1..] == Encode(Utf16Units, a) && SortKey(o, b)[1..] == Encode(Utf16Units, b);
        EncodeInjective(Utf16Units, a, b);
      }
  }

  lemma LessTotal(o: Order, a: string, b: string)
    ensures Less(o, a, b) || a == b || Less(o, b, a)
    ensures !(Less(o, a, b) && Less(o, b, a)) && !Less(o, a, a)
  {
    LexTotal(SortKey(o, a), SortKey(o, b));
    LexIrreflexive(SortKey(o, a));
    if SortKey(o, a) == SortKey(o, b) { SortKeyInjective(o, a, b); }
    if Less(o, a, b) && Less(o, b, a) { LexTransitive(SortKey(o, a), SortKey(o, b), SortKey(o, a)); }
  }

  lemma LessTransitive(o: Order, a: string, b: string, c: string)
    requires Less(o, a, b) && Less(o, b, c)
    ensures Less(o, a, c)
  {
    LexTransitive(SortKey(o, a), SortKey(o, b), SortKey(o, c));
  }
}
