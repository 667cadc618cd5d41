/**
 * Character classes and the string operations of the Go and JavaScript
 * standard libraries that the protocol code is built from.
 */
module Text {

  datatype Option<+T> = None | Some(value: T)

  predicate IsDigit(c: char) { '0' <= c <= '9' }

  predicate AllDigits(s: string) { forall i :: 0 <= i < |s| ==> IsDigit(s[i]) }

  /** Length of the longest prefix of digits. */
  function DigitRun(s: string): (k: nat)
    ensures k <= |s| && AllDigits(s[..k]) && (k < |s| ==> !IsDigit(s[k]))
  {
    if s != [] && IsDigit(s[0]) then
      var k := DigitRun(s[1..]);
      assert forall i :: 0 < i < k + 1 ==> s[i] == s[1..][i - 1];
      k + 1
    else 0
  }

  lemma {:induction false} DigitRunOf(digits: string, rest: string)
    requires AllDigits(digits) && (rest == [] || !IsDigit(rest[0]))
    ensures DigitRun(digits + rest) == |digits|
  {
    var t := digits + rest;
    if digits == [] {
      assert t == rest;
    } else {
      assert t[1..] == digits[1..] + rest;
      DigitRunOf(digits[1..], rest);
    }
  }

  lemma ConcatAssoc(a: string, b: string, c: string)
    ensures a + b + c == a + (b + c)
  {}

  lemma ConcatFour(a: string, b: string, c: string, d: string)
    ensures a + b + c + d == a + (b + (c + d))
  {}

  /** Code points trimmed by Go's strings.TrimSpace (Unicode White_Space). */
  predicate GoSpace(c: char) {
    var n := c as int;
    || 0x09 <= n <= 0x0D || n == 0x20 || n == 0x85 || n == 0xA0 || n == 0x1680
    || 0x2000 <= n <= 0x200A || n == 0x2028 || n == 0x2029 || n == 0x202F || n == 0x205F || n == 0x3000
  }

  /** Code points trimmed by JavaScript's String.prototype.trim. */
  predicate JsSpace(c: char) {
    var n := c as int;
    || 0x09 <= n <= 0x0D || n == 0x20 || n == 0xA0 || n == 0x1680
    || 0x2000 <= n <= 0x200A || n == 0x2028 || n == 0x2029 || n == 0x202F || n == 0x205F || n == 0x3000
    || n == 0xFEFF
  }

  function TrimLeft(space: char -> bool, s: string): string {
    if s != [] && space(s[0]) then TrimLeft(space, s[1..]) else s
  }

  function TrimRight(space: char -> bool, s: string): string {
    if s != [] && space(s[|s| - 1]) then TrimRight(space, s[..|s| - 1]) else s
  }

  function Trim(space: char -> bool, s: string): string {
    TrimRight(space, TrimLeft(space, s))
  }

  /** Neither end of `s` is white space. */
  predicate Trimmed(space: char -> bool, s: string) {
    s == [] || (!space(s[0]) && !space(s[|s| - 1]))
  }

  lemma {:induction false} TrimRightResult(space: char -> bool, s: string)
    ensures var t := TrimRight(space, s);
            t <= s && (t != [] ==> !space(t[|t| - 1]))
  {
    if s != [] && space(s[|s| - 1]) {
      TrimRightResult(space, s[..|s| - 1]);
    }
  }

  lemma {:induction false} TrimLeftResult(space: char -> bool, s: string)
    ensures var t := TrimLeft(space, s);
            |t| <= |s| && t == s[|s| - |t|..] && (t != [] ==> !space(t[0]))
  {
    if s != [] && space(s[0]) {
      TrimLeftResult(space, s[1..]);
    }
  }

  /** Trimming yields a trimmed contiguous piece of the string, and fixes trimmed strings. */
  lemma TrimResult(space: char -> bool, s: string)
    ensures Trimmed(space, Trim(space, s))
    ensures Trimmed(space, s) ==> Trim(space, s) == s
    ensures forall c :: c in Trim(space, s) ==> c in s
    ensures |Trim(space, s)| <= |s|
  {
    TrimLeftResult(space, s);
    TrimRightResult(space, TrimLeft(space, s));
  }

  predicate AllSpace(space: char -> bool, s: string) { forall i :: 0 <= i < |s| ==> space(s[i]) }

  lemma {:induction false} LeftTrimmed(space: char -> bool, s: string) returns (a: string)
    ensures AllSpace(space, a) && s == a + TrimLeft(space, s)
  {
    a := "";
    if s != [] && space(s[0]) {
      var more := LeftTrimmed(space, s[1..]);
      a := [s[0]] + more;
      assert s == [s[0]] + s[1..];
    }
  }

  lemma {:induction false} RightTrimmed(space: char -> bool, s: string) returns (b: string)
    ensures AllSpace(space, b) && s == TrimRight(space, s) + b
  {
    b := "";
    if s != [] && space(s[|s| - 1]) {
      var front, last := s[..|s| - 1], s[|s| - 1];
      var more := RightTrimmed(space, front);
      b := more + [last];
      assert s == front + [last];
    }
  }

  lemma {:induction false} TrimLeftIs(space: char -> bool, a: string, t: string)
    requires AllSpace(space, a) && (t != [] ==> !space(t[0]))
    ensures TrimLeft(space, a + t) == t
  {
    if a == [] {
      assert a + t == t;
    } else {
      assert (a + t)[1..] == a[1..] + t;
      TrimLeftIs(space, a[1..], t);
    }
  }

  lemma {:induction false} TrimRightIs(space: char -> bool, t: string, b: string)
    requires AllSpace(space, b) && (t != [] ==> !space(t[|t| - 1]))
    ensures TrimRight(space, t + b) == t
  {
    if b == [] {
      assert t + b == t;
    } else {
      assert (t + b)[..|t + b| - 1] == t + b[..|b| - 1];
      TrimRightIs(space, t, b[..|b| - 1]);
    }
  }

  /** A text is trimmed away exactly when it is all white space. */
  lemma TrimBlankIff(space: char -> bool, s: string)
    ensures Trim(space, s) == "" <==> AllSpace(space, s)
  {
    var a := LeftTrimmed(space, s);
    var t := TrimLeft(space, s);
    var b := RightTrimmed(space, t);
    if AllSpace(space, s) {
      assert s + "" == s;
      TrimLeftIs(space, s, "");
    }
  }

  /** Whatever white space surrounds a trimmed text is trimmed away. */
  lemma TrimPadded(space: char -> bool, a: string, t: string, b: string)
    requires AllSpace(space, a) && AllSpace(space, b) && Trimmed(space, t)
    ensures Trim(space, a + t + b) == t
  {
    if t == "" {
      assert AllSpace(space, a + t + b);
      TrimBlankIff(space, a + t + b);
    } else {
      ConcatAssoc(a, t, b);
      TrimLeftIs(space, a, t + b);
      TrimRightIs(space, t, b);
    }
  }

  /** Padding does not change what trimming leaves. */
  lemma TrimAbsorbs(space: char -> bool, a: string, s: string, b: string)
    requires AllSpace(space, a) && AllSpace(space, b)
    ensures Trim(space, a + s + b) == Trim(space, s)
  {
    var t := Trim(space, s);
    var left := LeftTrimmed(space, s);
    var right := RightTrimmed(space, TrimLeft(space, s));
    TrimResult(space, s);
    assert s == left + t + right;
    assert a + s + b == (a + left) + t + (right + b);
    TrimPadded(space, a + left, t, right + b);
  }

  /** Trimming more white space gives the same, where what is left has none of it at its ends. */
  lemma TrimWider(space: char -> bool, wider: char -> bool, s: string)
    requires (forall c :: space(c) ==> wider(c)) && Trimmed(wider, Trim(space, s)) && Trim(space, s) != ""
    ensures Trim(wider, s) == Trim(space, s)
  {
    var core := Trim(space, s);
    var a := LeftTrimmed(space, s);
    var b := RightTrimmed(space, TrimLeft(space, s));
    assert s == a + (core + b);
    TrimLeftIs(wider, a, core + b);
    TrimRightIs(wider, core, b);
  }

  /** strings.Split with a one-character separator. */
  function Split(s: string, sep: char): (parts: seq<string>)
    ensures |parts| >= 1
  {
    if s == [] then [[]]
    else if s[0] == sep then [[]] + Split(s[1..], sep)
    else
      var rest := Split(s[1..], sep);
      [[s[0]] + rest[0]] + rest[1..]
  }

  lemma {:induction false} SplitNone(s: string, sep: char)
    requires sep !in s
    ensures Split(s, sep) == [s]
  {
    if s != [] {
      SplitNone(s[1..], sep);
      assert s == [s[0]] + s[1..];
    }
  }

  lemma {:induction false} SplitFirst(a: string, sep: char, b: string)
    requires sep !in a
    ensures Split(a + [sep] + b, sep) == [a] + Split(b, sep)
  {
    var s := a + [sep] + b;
    if a == [] {
      assert s[1..] == b;
    } else {
      SplitFirst(a[1..], sep, b);
      assert s[1..] == a[1..] + [sep] + b;
      assert a == [a[0]] + a[1..];
    }
  }

  /** The three results of Go's strings.Cut. */
  datatype CutResult = CutResult(before: string, after: string, found: bool)

  function Cut(s: string, sep: char): CutResult {
    if s == [] then CutResult([], [], false)
    else if s[0] == sep then CutResult([], s[1..], true)
    else
      var r := Cut(s[1..], sep);
      CutResult([s[0]] + r.before, r.after, r.found)
  }

  /** Cut splits at the first separator. */
  lemma {:induction false} CutFirst(a: string, sep: char, b: string)
    requires sep !in a
    ensures Cut(a + [sep] + b, sep) == CutResult(a, b, true)
  {
    var s := a + [sep] + b;
    if a == [] {
      assert s[1..] == b;
    } else {
      CutFirst(a[1..], sep, b);
      assert s[1..] == a[1..] + [sep] + b;
      assert a == [a[0]] + a[1..];
    }
  }
}
