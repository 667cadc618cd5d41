/** Number literals of JSON texts (section 6 of RFC 8259). */
module Numerals {
  import opened Text
  import opened Decimal

  // ----- Scanning: what remains after a literal, or None where there is none

  function ScanDigits(s: string): (r: Option<string>)
    ensures r.Some? ==> |r.value| < |s|
  {
    var k := DigitRun(s);
    if k == 0 then None else Some(s[k..])
  }

  /** Digits without superfluous leading zeros. */
  function ScanWhole(s: string): (r: Option<string>)
    ensures r.Some? ==> |r.value| < |s|
  {
    var k := DigitRun(s);
    if IsCanonical(s[..k]) then Some(s[k..]) else None
  }

  /** A point and digits, or nothing. */
  function ScanFraction(s: string): (r: Option<string>)
    ensures r.Some? ==> |r.value| <= |s|
  {
    if s != [] && s[0] == '.' then ScanDigits(s[1..]) else Some(s)
  }

  function Unsigned(s: string): (r: string)
    ensures |r| <= |s|
  {
    if s != [] && (s[0] == '+' || s[0] == '-') then s[1..] else s
  }

  /** A power of ten, or nothing. */
  function ScanExponent(s: string): (r: Option<string>)
    ensures r.Some? ==> |r.value| <= |s|
  {
    if s != [] && (s[0] == 'e' || s[0] == 'E') then ScanDigits(Unsigned(s[1..])) else Some(s)
  }

  function ScanNumber(s: string): (r: Option<string>)
    ensures r.Some? ==> |r.value| < |s|
  {
    ScanMagnitude(if s != [] && s[0] == '-' then s[1..] else s)
  }

  function ScanMagnitude(s: string): (r: Option<string>)
    ensures r.Some? ==> |r.value| < |s|
  {
    match ScanWhole(s)
    case None => None
    case Some(u) =>
      match ScanFraction(u)
      case None => None
      case Some(v) => ScanExponent(v)
  }

  // ----- The grammar

  predicate IsMinus(s: string) { s == "" || s == "-" }

  predicate IsFraction(s: string) { s == "" || (|s| >= 2 && s[0] == '.' && AllDigits(s[1..])) }

  predicate IsExponent(s: string) {
    s == "" || (|s| >= 2 && (s[0] == 'e' || s[0] == 'E') && Unsigned(s[1..]) != "" && AllDigits(Unsigned(s[1..])))
  }

  /** A literal in its four parts. */
  ghost predicate Parts(minus: string, whole: string, fraction: string, exponent: string) {
    IsMinus(minus) && IsCanonical(whole) && IsFraction(fraction) && IsExponent(exponent)
  }

  /** `rest` cannot be mistaken for more of a number before it. */
  predicate Delimited(rest: string) {
    rest == [] || (!IsDigit(rest[0]) && rest[0] != '.' && rest[0] != 'e' && rest[0] != 'E')
  }

  lemma DigitsScanned(digits: string, rest: string)
    requires AllDigits(digits) && (rest == [] || !IsDigit(rest[0]))
    ensures DigitRun(digits + rest) == |digits| && (digits + rest)[..|digits|] == digits && (digits + rest)[|digits|..] == rest
  {
    DigitRunOf(digits, rest);
  }

  lemma DigitPartScanned(digits: string, rest: string)
    requires AllDigits(digits) && digits != "" && (rest == [] || !IsDigit(rest[0]))
    ensures ScanDigits(digits + rest) == Some(rest)
  {
    DigitsScanned(digits, rest);
  }

  lemma UnsignedTail(t: string, rest: string)
    requires Unsigned(t) != ""
    ensures Unsigned(t + rest) == Unsigned(t) + rest
  {
    if Unsigned(t) != t { assert (t + rest)[1..] == t[1..] + rest; }
  }

  lemma ExponentScanned(exponent: string, rest: string)
    requires IsExponent(exponent) && Delimited(rest)
    ensures ScanExponent(exponent + rest) == Some(rest)
    ensures var t := exponent + rest; t == [] || (!IsDigit(t[0]) && t[0] != '.')
  {
    if exponent == "" {
      assert exponent + rest == rest;
    } else {
      assert (exponent + rest)[1..] == exponent[1..] + rest;
      UnsignedTail(exponent[1..], rest);
      DigitPartScanned(Unsigned(exponent[1..]), rest);
    }
  }

  lemma FractionScanned(fraction: string, rest: string)
    requires IsFraction(fraction) && (rest == [] || (!IsDigit(rest[0]) && rest[0] != '.'))
    ensures ScanFraction(fraction + rest) == Some(rest)
    ensures var t := fraction + rest; t == [] || !IsDigit(t[0])
  {
    if fraction == "" {
      assert fraction + rest == rest;
    } else {
      assert (fraction + rest)[1..] == fraction[1..] + rest;
      DigitPartScanned(fraction[1..], rest);
    }
  }

  lemma WholeScanned(whole: string, rest: string)
    requires IsCanonical(whole) && (rest == [] || !IsDigit(rest[0]))
    ensures ScanWhole(whole + rest) == Some(rest) && IsDigit((whole + rest)[0])
  {
    DigitsScanned(whole, rest);
    assert (whole + rest)[0] == whole[0];
  }

  lemma MagnitudeScanned(whole: string, fraction: string, exponent: string, rest: string)
    requires IsCanonical(whole) && IsFraction(fraction) && IsExponent(exponent) && Delimited(rest)
    ensures var t := whole + (fraction + (exponent + rest)); ScanMagnitude(t) == Some(rest) && IsDigit(t[0])
  {
    ExponentScanned(exponent, rest);
    FractionScanned(fraction, exponent + rest);
    WholeScanned(whole, fraction + (exponent + rest));
  }

  lemma NumberScanned(minus: string, whole: string, fraction: string, exponent: string, rest: string)
    requires Parts(minus, whole, fraction, exponent) && Delimited(rest)
    ensures ScanNumber(minus + (whole + (fraction + (exponent + rest)))) == Some(rest)
  {
    var t := whole + (fraction + (exponent + rest));
    MagnitudeScanned(whole, fraction, exponent, rest);
    if minus == "" { assert minus + t == t; } else { assert (minus + t)[1..] == t; }
  }

  lemma DigitPartRead(s: string) returns (digits: string)
    requires ScanDigits(s).Some?
    ensures digits != "" && AllDigits(digits) && s == digits + ScanDigits(s).value
  {
    digits := s[..DigitRun(s)];
  }

  predicate IsSign(s: string) { s == "" || s == "+" || s == "-" }

  lemma SignRead(t: string) returns (sign: string)
    ensures IsSign(sign) && t == sign + Unsigned(t)
  {
    sign := if Unsigned(t) == t then "" else [t[0]];
  }

  lemma ExponentText(e: char, sign: string, digits: string)
    requires (e == 'e' || e == 'E') && IsSign(sign) && digits != "" && AllDigits(digits)
    ensures IsExponent([e] + (sign + digits))
  {
    var t := sign + digits;
    assert IsDigit(digits[0]);
    assert Unsigned(t) == digits by { if sign != "" { assert t[1..] == digits; } else { assert t == digits; } }
    assert ([e] + t)[1..] == t;
  }

  lemma ExponentRead(s: string) returns (exponent: string)
    requires ScanExponent(s).Some?
    ensures IsExponent(exponent) && s == exponent + ScanExponent(s).value
  {
    exponent := "";
    if s != [] && (s[0] == 'e' || s[0] == 'E') {
      var sign := SignRead(s[1..]);
      var digits := DigitPartRead(Unsigned(s[1..]));
      ExponentText(s[0], sign, digits);
      exponent := [s[0]] + (sign + digits);
      ConcatThree(s[0], sign, digits, ScanExponent(s).value);
      assert s == [s[0]] + s[1..];
    }
  }

  lemma ConcatThree(e: char, sign: string, digits: string, rest: string)
    ensures [e] + (sign + digits) + rest == [e] + (sign + (digits + rest))
  {}

  lemma FractionRead(s: string) returns (fraction: string)
    requires ScanFraction(s).Some?
    ensures IsFraction(fraction) && s == fraction + ScanFraction(s).value
  {
    fraction := "";
    if s != [] && s[0] == '.' {
      var digits := DigitPartRead(s[1..]);
      fraction := ['.'] + digits;
      assert fraction[1..] == digits;
    }
  }

  lemma WholeRead(s: string) returns (whole: string)
    requires ScanWhole(s).Some?
    ensures IsCanonical(whole) && s == whole + ScanWhole(s).value
  {
    whole := s[..DigitRun(s)];
  }

  lemma MagnitudeRead(s: string) returns (whole: string, fraction: string, exponent: string)
    requires ScanMagnitude(s).Some?
    ensures IsCanonical(whole) && IsFraction(fraction) && IsExponent(exponent)
    ensures s == whole + (fraction + (exponent + ScanMagnitude(s).value))
  {
    var u := ScanWhole(s).value;
    whole := WholeRead(s);
    fraction := FractionRead(u);
    exponent := ExponentRead(ScanFraction(u).value);
  }

  lemma NumberRead(s: string) returns (minus: string, whole: string, fraction: string, exponent: string)
    requires ScanNumber(s).Some?
    ensures Parts(minus, whole, fraction, exponent)
    ensures s == minus + (whole + (fraction + (exponent + ScanNumber(s).value)))
  {
    if s[0] == '-' {
      minus := "-";
      whole, fraction, exponent := MagnitudeRead(s[1..]);
      assert s == minus + s[1..];
    } else {
      minus := "";
      whole, fraction, exponent := MagnitudeRead(s);
      assert s == minus + s;
    }
  }

  /** The text of a literal, and the same before more text. */
  lemma PartsBefore(minus: string, whole: string, fraction: string, exponent: string, rest: string)
    ensures minus + (whole + (fraction + (exponent + rest))) == minus + (whole + (fraction + exponent)) + rest
  {}

  // ----- Literals

  predicate IsNumberText(s: string) { ScanNumber(s) == Some("") }

  /** A number as written. */
  type NumberText = s: string | IsNumberText(s) witness "0"

  lemma PartsAreLiteral(minus: string, whole: string, fraction: string, exponent: string)
    requires Parts(minus, whole, fraction, exponent)
    ensures IsNumberText(minus + (whole + (fraction + exponent)))
  {
    NumberScanned(minus, whole, fraction, exponent, "");
    assert exponent + "" == exponent;
  }

  /** What is scanned is a literal, then the rest. */
  lemma LiteralRead(s: string) returns (literal: NumberText)
    requires ScanNumber(s).Some?
    ensures s == literal + ScanNumber(s).value
  {
    var minus, whole, fraction, exponent := NumberRead(s);
    PartsAreLiteral(minus, whole, fraction, exponent);
    literal := minus + (whole + (fraction + exponent));
    PartsBefore(minus, whole, fraction, exponent, ScanNumber(s).value);
  }

  /** The scanned literal. */
  function Literal(s: string): (literal: NumberText)
    requires ScanNumber(s).Some?
    ensures s == literal + ScanNumber(s).value
  {
    ScannedIsLiteral(s);
    s[..|s| - |ScanNumber(s).value|]
  }

  lemma ScannedIsLiteral(s: string)
    requires ScanNumber(s).Some?
    ensures var literal := s[..|s| - |ScanNumber(s).value|]; IsNumberText(literal) && s == literal + ScanNumber(s).value
  {
    var literal := LiteralRead(s);
    assert s[..|literal|] == literal;
  }

  /** The literals are exactly the texts of the grammar. */
  lemma NumberTextIff(s: string)
    ensures IsNumberText(s) <==>
            exists minus, whole, fraction, exponent ::
              Parts(minus, whole, fraction, exponent) && s == minus + (whole + (fraction + exponent))
  {
    if IsNumberText(s) {
      var minus, whole, fraction, exponent := NumberRead(s);
      assert exponent + "" == exponent;
    }
    forall minus, whole, fraction, exponent | Parts(minus, whole, fraction, exponent) && s == minus + (whole + (fraction + exponent))
      ensures IsNumberText(s)
    {
      PartsAreLiteral(minus, whole, fraction, exponent);
    }
  }

  /** A literal is scanned up to its end, whatever follows that cannot continue it. */
  lemma LiteralScanned(literal: NumberText, rest: string)
    requires Delimited(rest)
    ensures ScanNumber(literal + rest) == Some(rest)
  {
    var minus, whole, fraction, exponent := NumberRead(literal);
    assert exponent + "" == exponent;
    NumberScanned(minus, whole, fraction, exponent, rest);
    PartsBefore(minus, whole, fraction, exponent, rest);
  }

  /** The decimal text of an integer is a literal. */
  lemma IntTextIsNumber(n: int)
    ensures IsNumberText(IntText(n))
  {
    var a: nat := if n < 0 then -n else n;
    ToDecCanonical(a);
    PartsAreLiteral(if n < 0 then "-" else "", ToDec(a), "", "");
    assert "" + "" == "" && ToDec(a) + "" == ToDec(a) && "" + ToDec(a) == ToDec(a);
  }

  lemma LiteralAscii(literal: NumberText)
    ensures forall i :: 0 <= i < |literal| ==> literal[i] as int < 0x80
  {
    var minus, whole, fraction, exponent := NumberRead(literal);
    assert exponent + "" == exponent;
    ExponentAscii(exponent);
    assert forall i :: 0 <= i < |whole| ==> IsDigit(whole[i]);
    assert fraction == "" || forall i :: 0 < i < |fraction| ==> fraction[i] == fraction[1..][i - 1];
  }

  lemma ExponentAscii(exponent: string)
    requires IsExponent(exponent)
    ensures forall i :: 0 <= i < |exponent| ==> exponent[i] as int < 0x80
  {
    if exponent != "" {
      var t := exponent[1..];
      var sign := SignRead(t);
      assert exponent == [exponent[0]] + (sign + Unsigned(t));
    }
  }

  /** A literal starts with a digit or a minus. */
  lemma LiteralStart(literal: NumberText)
    ensures literal != "" && (IsDigit(literal[0]) || literal[0] == '-')
  {}
}
