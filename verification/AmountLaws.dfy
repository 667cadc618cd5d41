/**
 * Laws of the money text: the two formatters compute one correctly rounded
 * notation, the parser inverts it, and the validator agrees with both.
 */
module AmountLaws {
  import opened Arith
  import opened Text
  import opened Decimal
  import opened JsNumbers
  import opened SdkAmount
  import Dashboard = DashboardAmount

  /** units / 10^d in fixed-point notation. */
  function FixedText(negative: bool, units: nat, d: nat): string {
    (if negative then "-" else "") + ToDec(Div(units, Pow10(d)))
    + (if d == 0 then "" else "." + PadStart(ToDec(Mod(units, Pow10(d))), d))
  }

  /** `units` is amount * 10^d / 10^9 rounded to the nearest integer, halves going up. */
  predicate NearestUnits(amount: nat, d: nat, units: nat) {
    var exact := Mul(amount, Pow10(d));
    2 * NANOCOINS_PER_TBC * units <= 2 * exact + NANOCOINS_PER_TBC < 2 * NANOCOINS_PER_TBC * units + 2 * NANOCOINS_PER_TBC
  }

  lemma NearestUnique(amount: nat, d: nat, r: nat, s: nat)
    requires NearestUnits(amount, d, r) && NearestUnits(amount, d, s)
    ensures r == s
  {}

  lemma Pow10Nine()
    ensures Pow10(9) == NANOCOINS_PER_TBC
  {}

  /** 10^(9-d) * 10^d == 10^9 */
  lemma ScaleSplit(d: nat)
    requires d <= 9
    ensures Pow10(9 - d) * Pow10(d) == NANOCOINS_PER_TBC
  {
    Pow10Add(9 - d, d);
    Pow10Nine();
  }

  // ----- The two formatters

  lemma DashboardRounds(amount: nat, d: nat)
    ensures NearestUnits(amount, d, Dashboard.RoundedUnits(amount, Pow10(d)))
  {}

  lemma RoundsWithinInterval(amount: nat, divisor: nat, tenth: nat, r: nat)
    requires tenth > 0 && divisor == 10 * tenth && r == Div(amount + Div(divisor, 2), divisor)
    ensures divisor * (2 * r) <= 2 * amount + divisor < divisor * (2 * r) + 2 * divisor
  {}

  lemma SdkRounds(amount: nat, d: nat)
    requires d <= 9
    ensures NearestUnits(amount, d, Div(amount + Div(Pow10(9 - d), 2), Pow10(9 - d)))
  {
    ScaleSplit(d);
    if d == 9 {
      assert Pow10(0) == 1;
    } else {
      var divisor := Pow10(9 - d);
      var r := Div(amount + Div(divisor, 2), divisor);
      RoundsWithinInterval(amount, divisor, Pow10(8 - d), r);
      IntervalScaled(amount, divisor, Pow10(d), r);
    }
  }

  /** Beyond nine digits the SDK appends zeros: the notation of amount * 10^(d-9) units. */
  lemma SdkExtends(amount: nat, d: nat)
    requires d > 9
    ensures var units := Mul(amount, Pow10(d - 9));
            && NearestUnits(amount, d, units)
            && Div(units, Pow10(d)) == Div(amount, NANOCOINS_PER_TBC)
            && PadStart(ToDec(Mod(units, Pow10(d))), d) == PadStart(ToDec(Mod(amount, NANOCOINS_PER_TBC)), 9) + Zeros(d - 9)
  {
    var p, rest := Pow10(d - 9), Mod(amount, NANOCOINS_PER_TBC);
    Pow10Add(9, d - 9);
    Pow10Nine();
    DivScaled(amount, NANOCOINS_PER_TBC, p);
    assert amount * Pow10(d) == NANOCOINS_PER_TBC * (amount * p);
    PadStartResult(Mul(rest, p), d);
    PadStartResult(rest, 9);
    ValueConcat(PadStart(ToDec(rest), 9), Zeros(d - 9));
    ValueZeros(d - 9);
    ValueInjective(PadStart(ToDec(Mul(rest, p)), d), PadStart(ToDec(rest), 9) + Zeros(d - 9));
  }

  ghost function SdkUnits(amount: nat, d: nat): (units: nat)
    ensures NearestUnits(amount, d, units)
  {
    if d <= 9 then
      SdkRounds(amount, d);
      Div(amount + Div(Pow10(9 - d), 2), Pow10(9 - d))
    else
      SdkExtends(amount, d);
      Mul(amount, Pow10(d - 9))
  }

  /** The SDK text is the fixed-point notation of the nearest number of units. */
  lemma SdkFormatMeaning(n: int, d: nat)
    ensures FormatDigits(n, d) == FixedText(n < 0, SdkUnits(Abs(n), d), d)
  {
    if d > 9 {
      SdkExtends(Abs(n), d);
    }
    assert Pow10(0) == 1;
    assert Div(SdkUnits(Abs(n), d), 1) == SdkUnits(Abs(n), d);
  }

  /** Both algorithms print the same text for every amount and digit count. */
  lemma FormattersAgree(n: int, d: nat)
    ensures FormatDigits(n, d) == Dashboard.FormatPlaces(n, d)
  {
    SdkFormatMeaning(n, d);
    DashboardRounds(Abs(n), d);
    NearestUnique(Abs(n), d, SdkUnits(Abs(n), d), Dashboard.RoundedUnits(Abs(n), Pow10(d)));
  }

  /**
   * On every JavaScript `decimals` value: the dashboard accepts exactly the
   * integers 0..100 and then agrees with the SDK; the SDK accepts exactly NaN
   * and the reals that truncate into 0..100.
   */
  lemma FormattersAgreeOnNumbers(n: int, decimals: JsNumber)
    ensures Dashboard.FormatTBC(n, decimals).Some? <==>
            decimals.Finite? && IsInteger(decimals.value) && 0.0 <= decimals.value <= 100.0
    ensures Dashboard.FormatTBC(n, decimals).Some? ==> FormatTBC(n, decimals) == Dashboard.FormatTBC(n, decimals)
    ensures FormatTBC(n, decimals).Some? <==>
            decimals.NaN? || (decimals.Finite? && -1.0 < decimals.value < 101.0)
  {
    if decimals.Finite? && 0.0 <= decimals.value {
      FormattersAgree(n, decimals.value.Floor);
    }
  }

  // ----- The parser

  /** The grammar of DECIMAL_AMOUNT without its sign: digits, or digits around a point. */
  predicate Spells(t: string, whole: string, fraction: string) {
    && AllDigits(whole) && AllDigits(fraction) && |whole| + |fraction| >= 1
    && (t == whole + "." + fraction || (fraction == "" && t == whole))
  }

  /** The matcher accepts exactly the grammar, and captures its two digit strings. */
  lemma MatchIsGrammar(t: string, whole: string, fraction: string)
    ensures Spells(t, whole, fraction) ==>
              MatchUnsigned(t) == Some(Parts(if whole == "" then "0" else whole, fraction))
    ensures MatchUnsigned(t).Some? ==> exists w, f :: Spells(t, w, f)
  {
    if Spells(t, whole, fraction) {
      if t == whole + "." + fraction {
        assert t == whole + ("." + fraction);
        DigitRunOf(whole, "." + fraction);
        assert t[|whole| + 1..] == fraction;
        assert t[..|whole|] == whole;
      } else {
        assert t == whole + "";
        DigitRunOf(whole, "");
      }
    }
    if MatchUnsigned(t).Some? {
      var k := DigitRun(t);
      if k == |t| {
        assert t[..k] == t;
        assert Spells(t, t, "");
      } else {
        assert t == t[..k] + "." + t[k + 1..];
        assert Spells(t, t[..k], t[k + 1..]);
      }
    }
  }

  /** The number parseTBC computes from captured digits: exact decimal value * 10^9, truncated. */
  function Truncated(whole: string, fraction: string): nat
    requires AllDigits(whole) && AllDigits(fraction)
  {
    Div(Mul(Value(whole + fraction), NANOCOINS_PER_TBC), Pow10(|fraction|))
  }

  lemma ScaledExactly(w: nat, f: nat, p: nat, z: nat, u: nat)
    requires p > 0 && u == z * p
    ensures Div(Mul(w * p + f, u), p) == w * u + f * z
  {
    var q: nat := Mul(w * p + f, z);
    assert (w * p + f) * z == w * p * z + f * z;
    assert w * p * z == w * u;
    assert Mul(w * p + f, u) == p * q + 0;
    DivModAre(Mul(w * p + f, u), p, q, 0);
  }

  lemma ScaledDown(w: nat, head: nat, tail: nat, z: nat, u: nat, p: nat)
    requires u > 0 && z > 0 && tail < z && p == u * z
    ensures p > 0 && Div(Mul(w * p + (head * z + tail), u), p) == w * u + head
  {
    var n: nat := w * p + (head * z + tail);
    assert w * p == z * (w * u);
    assert n == z * (w * u + head) + tail;
    DivModAre(n, z, w * u + head, tail);
    DivScaled(n, z, u);
  }

  lemma PaddedValue(digits: string, k: nat)
    requires AllDigits(digits)
    ensures AllDigits(digits + Zeros(k)) && Value(digits + Zeros(k)) == Value(digits) * Pow10(k)
  {
    ValueConcat(digits, Zeros(k));
    ValueZeros(k);
  }

  lemma ShortFraction(whole: string, fraction: string)
    requires AllDigits(whole) && AllDigits(fraction) && |fraction| <= 9
    ensures Value(whole) * NANOCOINS_PER_TBC + Value(fraction + Zeros(9 - |fraction|)) == Truncated(whole, fraction)
  {
    var k := |fraction|;
    ValueConcat(whole, fraction);
    PaddedValue(fraction, 9 - k);
    ScaleSplit(k);
    ScaledExactly(Value(whole), Value(fraction), Pow10(k), Pow10(9 - k), NANOCOINS_PER_TBC);
  }

  lemma LongScale(k: nat)
    requires k >= 9
    ensures Pow10(k) == NANOCOINS_PER_TBC * Pow10(k - 9)
  {
    Pow10Add(9, k - 9);
    Pow10Nine();
  }

  lemma LongFraction(whole: string, fraction: string)
    requires AllDigits(whole) && AllDigits(fraction) && |fraction| > 9
    ensures Value(whole) * NANOCOINS_PER_TBC + Value(fraction[..9]) == Truncated(whole, fraction)
  {
    var head, tail := fraction[..9], fraction[9..];
    SplitValue(whole, head, tail);
    assert fraction == head + tail && |head| == 9;
    assert Value(whole + fraction) == Value(whole) * Pow10(|fraction|) + (Value(head) * Pow10(|tail|) + Value(tail));
    ValueBound(tail);
    LongScale(|fraction|);
    ScaledDown(Value(whole), Value(head), Value(tail), Pow10(|tail|), NANOCOINS_PER_TBC, Pow10(|fraction|));
  }

  lemma SplitValue(whole: string, head: string, tail: string)
    requires AllDigits(whole) && AllDigits(head) && AllDigits(tail)
    ensures AllDigits(whole + (head + tail))
    ensures Value(whole + (head + tail)) == Value(whole) * Pow10(|head| + |tail|) + (Value(head) * Pow10(|tail|) + Value(tail))
  {
    ValueConcat(head, tail);
    ValueConcat(whole, head + tail);
  }

  lemma FractionTruncates(whole: string, fraction: string)
    requires AllDigits(whole) && AllDigits(fraction)
    ensures AllDigits((fraction + Zeros(9))[..9])
    ensures Value(whole) * NANOCOINS_PER_TBC + Value((fraction + Zeros(9))[..9]) == Truncated(whole, fraction)
  {
    if |fraction| <= 9 {
      assert (fraction + Zeros(9))[..9] == fraction + Zeros(9 - |fraction|);
      ShortFraction(whole, fraction);
    } else {
      assert (fraction + Zeros(9))[..9] == fraction[..9];
      LongFraction(whole, fraction);
    }
  }

  lemma ZeroWhole(fraction: string)
    requires AllDigits(fraction)
    ensures Truncated("0", fraction) == Truncated("", fraction)
  {
    ValueConcat("0", fraction);
    ValueConcat("", fraction);
    assert Value("0") == 0 && Value("") == 0;
  }

  /** What remains of the input once white space and one plus sign are dropped. */
  function AmountBody(s: string): string {
    var t := Trim(JsSpace, s);
    if t != [] && t[0] == '+' then t[1..] else t
  }

  lemma ParseCaptured(s: string, m: Parts)
    requires AllDigits(m.whole) && AllDigits(m.fraction) && MatchAmount(Trim(JsSpace, s)) == Some(m)
    ensures ParseTBC(s) == Some(Truncated(m.whole, m.fraction))
  {
    FractionTruncates(m.whole, m.fraction);
  }

  /** On any white-space-padded, optionally signed spelling the result is the truncated value. */
  lemma ParseMeaning(s: string, whole: string, fraction: string)
    requires Spells(AmountBody(s), whole, fraction)
    ensures ParseTBC(s) == Some(Truncated(whole, fraction))
  {
    MatchIsGrammar(AmountBody(s), whole, fraction);
    ParseCaptured(s, Parts(if whole == "" then "0" else whole, fraction));
    ZeroWhole(fraction);
  }

  /** Anything else is rejected. */
  lemma ParseRejects(s: string)
    requires forall w, f :: !Spells(AmountBody(s), w, f)
    ensures ParseTBC(s) == None
  {
    MatchIsGrammar(AmountBody(s), "", "");
  }

  // ----- Round trips

  lemma FixedTextSpells(units: nat, d: nat) returns (whole: string, fraction: string)
    ensures AllDigits(whole) && AllDigits(fraction) && whole != "" && |fraction| == d
    ensures IsCanonical(whole) && whole == ToDec(Div(units, Pow10(d)))
    ensures Value(whole + fraction) == units
    ensures FixedText(false, units, d) == if d == 0 then whole else whole + "." + fraction
  {
    var p := Pow10(d);
    whole := ToDec(Div(units, p));
    fraction := if d == 0 then "" else PadStart(ToDec(Mod(units, p)), d);
    Divide(units, p);
    ValueToDec(Div(units, p));
    ToDecCanonical(Div(units, p));
    if d > 0 { PadStartResult(Mod(units, p), d); }
    ValueConcat(whole, fraction);
  }

  lemma FixedTextBody(whole: string, fraction: string)
    requires AllDigits(whole) && AllDigits(fraction) && whole != ""
    ensures var text := if fraction == "" then whole else whole + "." + fraction;
            AmountBody(text) == text && Spells(text, whole, fraction)
  {}

  lemma FixedTextParses(units: nat, d: nat)
    ensures ParseTBC(FixedText(false, units, d)) == Some(Div(Mul(units, NANOCOINS_PER_TBC), Pow10(d)))
  {
    var whole, fraction := FixedTextSpells(units, d);
    FixedTextBody(whole, fraction);
    ParseMeaning(FixedText(false, units, d), whole, fraction);
  }

  lemma ExactQuotient(n: nat, d: nat)
    requires d >= 9
    ensures Div(Mul(Mul(n, Pow10(d - 9)), NANOCOINS_PER_TBC), Pow10(d)) == n
  {
    Pow10Nine();
    Pow10Add(9, d - 9);
    var scaled: nat := Mul(Mul(n, Pow10(d - 9)), NANOCOINS_PER_TBC);
    assert scaled == Pow10(d) * n + 0;
    DivModAre(scaled, Pow10(d), n, 0);
  }

  /** With nine or more digits the round trip is exact. */
  lemma ParseFormatExact(n: nat, d: nat)
    requires d >= 9
    ensures ParseTBC(FormatDigits(n, d)) == Some(n)
  {
    SdkFormatMeaning(n, d);
    SdkExact(n, d);
    NearestUnique(n, d, SdkUnits(n, d), Mul(n, Pow10(d - 9)));
    FixedTextParses(SdkUnits(n, d), d);
    ExactQuotient(n, d);
  }

  lemma SdkExact(n: nat, d: nat)
    requires d >= 9
    ensures NearestUnits(n, d, Mul(n, Pow10(d - 9)))
  {
    if d == 9 {
      Pow10Nine();
      assert Pow10(0) == 1;
    } else {
      SdkExtends(n, d);
    }
  }

  /** The amount a text with d < 9 digits stands for. */
  ghost function Reparsed(n: nat, d: nat): (m: nat)
    requires d < 9
  {
    Mul(SdkUnits(n, d), Pow10(9 - d))
  }

  lemma ReparsedQuotient(n: nat, d: nat)
    requires d < 9
    ensures Div(Mul(SdkUnits(n, d), NANOCOINS_PER_TBC), Pow10(d)) == Reparsed(n, d)
    ensures Mul(Reparsed(n, d), Pow10(d)) == NANOCOINS_PER_TBC * SdkUnits(n, d)
    ensures Mod(Reparsed(n, d), Pow10(9 - d)) == 0
  {
    var units, p, step := SdkUnits(n, d), Pow10(d), Pow10(9 - d);
    var m := Reparsed(n, d);
    ScaleSplit(d);
    assert units * (step * p) == p * (units * step);
    assert Mul(units, NANOCOINS_PER_TBC) == p * m + 0;
    DivModAre(Mul(units, NANOCOINS_PER_TBC), p, m, 0);
    DivModAre(m, step, units, 0);
  }

  /**
   * With d < 9 digits: parsing gives a multiple of the step 10^(9-d) at most
   * half a step away, halves going up, and formatting it again changes nothing.
   */
  lemma ParseFormatRounded(n: nat, d: nat)
    requires d < 9
    ensures ParseTBC(FormatDigits(n, d)) == Some(Reparsed(n, d))
    ensures Mod(Reparsed(n, d), Pow10(9 - d)) == 0
    ensures 2 * Reparsed(n, d) - Pow10(9 - d) <= 2 * n < 2 * Reparsed(n, d) + Pow10(9 - d)
    ensures FormatDigits(Reparsed(n, d), d) == FormatDigits(n, d)
  {
    SdkFormatMeaning(n, d);
    FixedTextParses(SdkUnits(n, d), d);
    ReparsedQuotient(n, d);
    SdkHalfStep(n, d);
    SdkFormatMeaning(Reparsed(n, d), d);
    NearestUnique(Reparsed(n, d), d, SdkUnits(Reparsed(n, d), d), SdkUnits(n, d));
  }

  lemma HalfStep(n: nat, tenth: nat, step: nat, units: nat)
    requires tenth > 0 && step == 10 * tenth && units == Div(n + Div(step, 2), step)
    ensures 2 * Mul(units, step) - step <= 2 * n < 2 * Mul(units, step) + step
  {}

  lemma SdkHalfStep(n: nat, d: nat)
    requires d < 9
    ensures 2 * Reparsed(n, d) - Pow10(9 - d) <= 2 * n < 2 * Reparsed(n, d) + Pow10(9 - d)
  {
    var step := Pow10(9 - d);
    assert step == 10 * Pow10(8 - d);
    HalfStep(n, Pow10(8 - d), step, SdkUnits(n, d));
  }

  lemma ReparsedMonotone(n: nat, n': nat, d: nat)
    requires d < 9 && n <= n'
    ensures Reparsed(n, d) <= Reparsed(n', d)
  {
    var r, r' := SdkUnits(n, d), SdkUnits(n', d);
    MulMonotone(n, n', Pow10(d));
    assert r <= r';
    MulMonotone(r, r', Pow10(9 - d));
  }

  lemma NegativeBody(text: string)
    requires |text| >= 2 && text[0] == '-' && IsDigit(text[|text| - 1])
    ensures ParseTBC(text) == None
  {}

  /** A formatted negative amount is never accepted back. */
  lemma NegativeNotParsed(n: int, d: nat)
    requires n < 0
    ensures ParseTBC(FormatDigits(n, d)) == None
  {
    SdkFormatMeaning(n, d);
    var units := SdkUnits(Abs(n), d);
    if d > 0 { PadStartResult(Mod(units, Pow10(d)), d); }
    NegativeBody(FixedText(true, units, d));
  }

  // ----- Arguments as they are given

  /** White space and one plus sign around a spelling do not matter. */
  lemma PaddedSpelling(a: string, plus: string, t: string, b: string, whole: string, fraction: string)
    requires AllSpace(JsSpace, a) && AllSpace(JsSpace, b) && (plus == "" || plus == "+") && Spells(t, whole, fraction)
    ensures ParseTBC(a + (plus + t) + b) == Some(Truncated(whole, fraction))
  {
    var s := plus + t;
    assert t != "" && (IsDigit(t[0]) || t[0] == '.') && (IsDigit(t[|t| - 1]) || t[|t| - 1] == '.');
    assert s[|s| - 1] == t[|t| - 1];
    TrimPadded(JsSpace, a, s, b);
    if plus == "+" { assert s[1..] == t; } else { assert s == t; }
    ParseMeaning(a + s + b, whole, fraction);
  }

  /** The SDK formats with the integer part of `decimals`; NaN counts as none. */
  lemma SdkDigits(n: int, x: real, k: nat)
    ensures FormatTBC(n, NaN) == Some(FormatDigits(n, 0))
    ensures k as real <= x < k as real + 1.0 && k <= 100 ==> FormatTBC(n, Finite(x)) == Some(FormatDigits(n, k))
    ensures -1.0 < x < 0.0 ==> FormatTBC(n, Finite(x)) == Some(FormatDigits(n, 0))
  {
    if k as real <= x < k as real + 1.0 { assert x.Floor == k; }
    if -1.0 < x < 0.0 { assert (-x).Floor == 0; }
  }
}
