/** Laws of the amount validator and of the thousands-grouped display text. */
module CurrencyLaws {
  import opened Arith
  import opened Text
  import opened Decimal
  import opened SdkAmount
  import opened AmountLaws
  import opened Validation
  import opened DashboardAmount

  // ----- isPositiveDecimal

  lemma MatchDecimalSpells(s: string)
    requires MatchDecimal(s).Some?
    ensures var m := MatchDecimal(s).value;
            && IsCanonical(m.whole) && |m.fraction| <= 9
            && s == if m.fraction == "" then m.whole else m.whole + "." + m.fraction
  {}

  lemma MatchDecimalAccepts(whole: string, fraction: string)
    requires IsCanonical(whole) && AllDigits(fraction) && |fraction| <= 9
    ensures MatchDecimal(if fraction == "" then whole else whole + "." + fraction) == Some(Parts(whole, fraction))
  {
    if fraction == "" {
      assert whole + "" == whole;
      DigitRunOf(whole, "");
      assert whole[..|whole|] == whole;
    } else {
      var s := whole + "." + fraction;
      assert s == whole + ("." + fraction);
      DigitRunOf(whole, "." + fraction);
      assert s[..|whole|] == whole && s[|whole| + 1..] == fraction;
    }
  }

  lemma ScaledIsTruncated(whole: string, fraction: string)
    requires AllDigits(whole) && AllDigits(fraction) && |fraction| <= 9
    ensures ScaledUnits(Parts(whole, fraction)) == Truncated(whole, fraction)
  {
    ShortFraction(whole, fraction);
    assert PadEnd9(fraction) == fraction + Zeros(9 - |fraction|);
  }

  /** A validator match is parsed to exactly the integer the validator computed. */
  lemma MatchDecimalParses(s: string)
    requires MatchDecimal(s).Some?
    ensures ParseTBC(s) == Some(ScaledUnits(MatchDecimal(s).value))
  {
    var m := MatchDecimal(s).value;
    MatchDecimalSpells(s);
    FixedTextBody(m.whole, m.fraction);
    ParseMeaning(s, m.whole, m.fraction);
    ScaledIsTruncated(m.whole, m.fraction);
  }

  /** Every accepted amount is parsed to exactly the positive integer the validator computed. */
  lemma ValidatorAgreesWithParser(s: string)
    requires IsPositiveDecimal(s)
    ensures ParseTBC(s) == Some(ScaledUnits(MatchDecimal(s).value))
    ensures ScaledUnits(MatchDecimal(s).value) > 0
  {
    MatchDecimalParses(s);
  }

  /** Plain notation: no leading zero, and a point only before one to nine digits. */
  predicate PlainNotation(s: string, whole: string, fraction: string) {
    && IsCanonical(whole) && AllDigits(fraction) && |fraction| <= 9
    && s == if fraction == "" then whole else whole + "." + fraction
  }

  /** The plain notation of a positive amount, in at most 80 characters. */
  ghost predicate PositiveAmount(s: string) {
    |s| <= 80 && exists whole, fraction :: PlainNotation(s, whole, fraction) && Truncated(whole, fraction) > 0
  }

  /** The validator accepts exactly the plain notations of positive amounts in at most 80 characters. */
  lemma PositiveDecimalIff(s: string)
    ensures IsPositiveDecimal(s) <==> PositiveAmount(s)
  {
    if IsPositiveDecimal(s) {
      var m := MatchDecimal(s).value;
      MatchDecimalSpells(s);
      ScaledIsTruncated(m.whole, m.fraction);
      assert PlainNotation(s, m.whole, m.fraction);
    }
    forall whole, fraction | PlainNotation(s, whole, fraction)
      ensures MatchDecimal(s) == Some(Parts(whole, fraction))
      ensures ScaledUnits(Parts(whole, fraction)) == Truncated(whole, fraction)
    {
      MatchDecimalAccepts(whole, fraction);
      ScaledIsTruncated(whole, fraction);
    }
  }

  lemma NineDigitText(n: nat) returns (whole: string, fraction: string)
    ensures FormatDigits(n, 9) == whole + "." + fraction
    ensures whole == ToDec(Div(n, Pow10(9))) && IsCanonical(whole) && AllDigits(fraction) && |fraction| == 9
  {
    SdkFormatMeaning(n, 9);
    SdkExact(n, 9);
    assert Pow10(0) == 1;
    NearestUnique(n, 9, SdkUnits(n, 9), Mul(n, 1));
    whole, fraction := FixedTextSpells(n, 9);
  }

  lemma DivBelow(n: nat, m: nat, p: nat)
    requires p > 0
    ensures Div(n, p) < m <==> n < p * m
  {
    Divide(n, p);
    var q := Div(n, p);
    if q < m {
      MulMonotone(q + 1, m, p);
      assert (q + 1) * p == p * q + p && m * p == p * m;
    } else {
      MulMonotone(m, q, p);
      assert m * p == p * m && q * p == p * q;
    }
  }

  lemma NineDigitAccepted(whole: string, fraction: string)
    requires IsCanonical(whole) && AllDigits(fraction) && |fraction| == 9
    ensures var s := whole + "." + fraction;
            && IsPositiveDecimal(s) <==> |whole| <= 70 && ScaledUnits(Parts(whole, fraction)) > 0
    ensures ParseTBC(whole + "." + fraction) == Some(ScaledUnits(Parts(whole, fraction)))
  {
    MatchDecimalAccepts(whole, fraction);
    MatchDecimalParses(whole + "." + fraction);
  }

  lemma WholePartFits(n: nat)
    ensures |ToDec(Div(n, Pow10(9)))| <= 70 <==> n < Pow10(79)
  {
    ToDecLength(Div(n, Pow10(9)), 70);
    DivBelow(n, Pow10(70), Pow10(9));
    Pow10Add(9, 70);
  }

  /** The nine-digit text of n is a valid amount exactly when 0 < n < 10^79 (the 80-character limit). */
  lemma FormattedIsPositiveDecimal(n: nat)
    ensures IsPositiveDecimal(FormatDigits(n, 9)) <==> 0 < n < Pow10(79)
  {
    var whole, fraction := NineDigitText(n);
    NineDigitAccepted(whole, fraction);
    ParseFormatExact(n, 9);
    WholePartFits(n);
  }

  lemma MaxAmountIsAccepted(n: nat)
    requires 0 < n <= MAX_TBC_NANOCOINS
    ensures IsPositiveDecimal(FormatDigits(n, 9))
  {
    Pow10Nine();
    Pow10Add(9, 9);
    Pow10Add(18, 18);
    Pow10Add(36, 1);
    assert Pow10(1) == 10;
    assert Pow10(37) == 10000000000000000000000000000000000000;
    Pow10Mono(37, 79);
    FormattedIsPositiveDecimal(n);
  }

  // ----- formatCurrency

  /** Thousands grouping of a digit string, by definition. */
  function Thousands(digits: string): string {
    if |digits| <= 3 then digits
    else Thousands(digits[..|digits| - 3]) + "," + digits[|digits| - 3..]
  }

  /** A first group of one to three digits, then groups of exactly three. */
  predicate WellGrouped(t: string) {
    if |t| <= 3 then |t| >= 1 && AllDigits(t)
    else t[|t| - 4] == ',' && AllDigits(t[|t| - 3..]) && WellGrouped(t[..|t| - 4])
  }

  function WithoutCommas(t: string): string {
    if t == [] then [] else WithoutCommas(t[..|t| - 1]) + (if t[|t| - 1] == ',' then [] else [t[|t| - 1]])
  }

  lemma {:induction false} WithoutCommasConcat(a: string, b: string)
    ensures WithoutCommas(a + b) == WithoutCommas(a) + WithoutCommas(b)
  {
    if b == [] {
      assert a + b == a;
    } else {
      assert (a + b)[..|a + b| - 1] == a + b[..|b| - 1];
      WithoutCommasConcat(a, b[..|b| - 1]);
    }
  }

  lemma {:induction false} WithoutCommasNone(t: string)
    requires ',' !in t
    ensures WithoutCommas(t) == t
  {
    if t != [] {
      var front, last := t[..|t| - 1], t[|t| - 1];
      assert t == front + [last] && last in t && forall c :: c in front ==> c in t;
      WithoutCommasNone(front);
    }
  }

  lemma WithoutCommasJoin(a: string, b: string)
    ensures WithoutCommas(a + "," + b) == WithoutCommas(a) + WithoutCommas(b)
  {
    WithoutCommasConcat(a + ",", b);
    assert (a + ",")[..|a|] == a;
  }

  lemma {:induction false} ThousandsGrouped(digits: string)
    requires AllDigits(digits) && digits != ""
    ensures WellGrouped(Thousands(digits))
  {
    if |digits| > 3 {
      var front, back := digits[..|digits| - 3], digits[|digits| - 3..];
      ThousandsGrouped(front);
      var t := Thousands(digits);
      assert t == Thousands(front) + "," + back;
      assert t[..|t| - 4] == Thousands(front) && t[|t| - 3..] == back;
    }
  }

  lemma {:induction false} ThousandsWithoutCommas(digits: string)
    requires AllDigits(digits)
    ensures WithoutCommas(Thousands(digits)) == digits
  {
    if |digits| <= 3 {
      WithoutCommasNone(digits);
    } else {
      var front, back := digits[..|digits| - 3], digits[|digits| - 3..];
      ThousandsWithoutCommas(front);
      WithoutCommasJoin(Thousands(front), back);
      WithoutCommasNone(back);
      assert digits == front + back;
    }
  }

  /** Commas placed by counting the digits that remain. */
  function Place(digits: string, i: nat): string
    requires i <= |digits|
    decreases |digits| - i
  {
    if i == |digits| then ""
    else Separator(|digits|, i) + [digits[i]] + Place(digits, i + 1)
  }

  /** The text placed before digit i. */
  function Separator(n: nat, i: nat): string { if i > 0 && (n - i) % 3 == 0 then "," else "" }

  lemma PlaceStep(digits: string, i: nat)
    requires i < |digits|
    ensures Place(digits, i) == (Separator(|digits|, i) + [digits[i]]) + Place(digits, i + 1)
  {}

  lemma SeparatorPeriod(n: nat, i: nat)
    requires i + 3 <= n
    ensures Separator(n, i) == Separator(n - 3, i)
  {}

  lemma {:induction false} PlaceLastGroup(digits: string, i: nat)
    requires |digits| > 3 && i <= |digits| - 3
    ensures Place(digits, i) == Place(digits[..|digits| - 3], i) + ("," + digits[|digits| - 3..])
    decreases |digits| - i
  {
    var front, last := digits[..|digits| - 3], "," + digits[|digits| - 3..];
    if i == |digits| - 3 {
      PlaceTail(digits);
    } else {
      PlaceLastGroup(digits, i + 1);
      PlaceStep(digits, i);
      PlaceStep(front, i);
      SeparatorPeriod(|digits|, i);
      ConcatAssoc(Separator(|digits|, i) + [digits[i]], Place(front, i + 1), last);
    }
  }

  lemma PlaceTail(digits: string)
    requires |digits| > 3
    ensures Place(digits, |digits| - 3) == "," + digits[|digits| - 3..]
  {
    var i := |digits| - 3;
    PlaceShort(digits, i + 1);
    PlaceStep(digits, i);
    assert Separator(|digits|, i) == ",";
    ConcatAssoc(",", [digits[i]], digits[i + 1..]);
    assert digits[i..] == [digits[i]] + digits[i + 1..];
  }

  lemma {:induction false} PlaceIsThousands(digits: string)
    ensures Place(digits, 0) == Thousands(digits)
  {
    if |digits| > 3 {
      var front, back := digits[..|digits| - 3], digits[|digits| - 3..];
      PlaceLastGroup(digits, 0);
      PlaceIsThousands(front);
      ConcatAssoc(Thousands(front), ",", back);
    } else {
      PlaceShort(digits, 0);
    }
  }

  lemma {:induction false} PlaceShort(digits: string, i: nat)
    requires i <= |digits| && (|digits| - i < 3 || (i == 0 && |digits| == 3))
    ensures Place(digits, i) == digits[i..]
    decreases |digits| - i
  {
    if i < |digits| { PlaceShort(digits, i + 1); }
  }

  predicate IsSign(sign: string) { sign == "" || sign == "-" }

  /** The regular expression marks exactly the positions with 3k digits to the right, past the first digit. */
  lemma CommaPositions(sign: string, digits: string, i: nat)
    requires IsSign(sign) && AllDigits(digits) && digits != "" && i <= |sign| + |digits|
    ensures var s := sign + digits;
            CommaBefore(s, i) <==> |sign| < i < |s| && (|s| - i) % 3 == 0
  {
    var s := sign + digits;
    if |sign| < i < |s| && (|s| - i) % 3 == 0 {
      assert IsWord(s[i - 1]) && IsWord(s[i]);
      assert GroupsAhead(s, i, (|s| - i) / 3);
    }
    if CommaBefore(s, i) {
      var k: nat :| 1 <= k <= |s| && GroupsAhead(s, i, k);
      assert s[i..i + 3 * k][0] == s[i];
    }
  }

  lemma InsertStep(sign: string, digits: string, i: nat)
    requires IsSign(sign) && AllDigits(digits) && i < |digits|
    ensures InsertCommas(sign + digits, |sign| + i) ==
            (if i > 0 && (|digits| - i) % 3 == 0 then "," else "") + [digits[i]] + InsertCommas(sign + digits, |sign| + i + 1)
  {
    var s, k := sign + digits, |sign| + i;
    CommaPositions(sign, digits, k);
    assert s[k] == digits[i];
    ConcatAssoc(if CommaBefore(s, k) then "," else "", [s[k]], InsertCommas(s, k + 1));
  }

  lemma {:induction false} InsertIsPlace(sign: string, digits: string, i: nat)
    requires IsSign(sign) && AllDigits(digits) && digits != "" && i <= |digits|
    ensures InsertCommas(sign + digits, |sign| + i) == Place(digits, i)
    decreases |digits| - i
  {
    if i < |digits| {
      InsertStep(sign, digits, i);
      InsertIsPlace(sign, digits, i + 1);
    } else {
      CommaPositions(sign, digits, |sign| + i);
    }
  }

  lemma InsertCommasResult(sign: string, digits: string)
    requires IsSign(sign) && AllDigits(digits) && digits != ""
    ensures InsertCommas(sign + digits, 0) == sign + Thousands(digits)
  {
    InsertIsPlace(sign, digits, 0);
    PlaceIsThousands(digits);
    if sign == "-" {
      CommaPositions(sign, digits, 0);
      assert InsertCommas(sign + digits, 0) == "" + (['-'] + InsertCommas(sign + digits, 1));
    }
  }

  lemma FixedTextSign(negative: bool, units: nat, d: nat)
    ensures FixedText(negative, units, d) == (if negative then "-" else "") + FixedText(false, units, d)
  {}

  lemma TwoPlaces(n: int) returns (digits: string, fraction: string)
    ensures AllDigits(digits) && digits != "" && AllDigits(fraction) && |fraction| == 2
    ensures FormatPlaces(n, 2) == (if n < 0 then "-" else "") + digits + "." + fraction
  {
    FormattersAgree(n, 2);
    SdkFormatMeaning(n, 2);
    digits, fraction := FixedTextSpells(SdkUnits(Abs(n), 2), 2);
    FixedTextSign(n < 0, SdkUnits(Abs(n), 2), 2);
  }

  /**
   * The display text is sign, well-grouped integer part, two fraction digits;
   * removing the commas gives back formatTBC(n, 2).
   */
  lemma CurrencyIsGrouped(n: int) returns (grouped: string, fraction: string)
    ensures FormatCurrency(n) == (if n < 0 then "-" else "") + grouped + "." + fraction + " TBC"
    ensures WellGrouped(grouped) && |fraction| == 2 && AllDigits(fraction)
    ensures WithoutCommas(FormatCurrency(n)) == FormatPlaces(n, 2) + " TBC"
  {
    var sign := if n < 0 then "-" else "";
    var digits, f := TwoPlaces(n);
    fraction, grouped := f, Thousands(digits);
    ThousandsGrouped(digits);
    ThousandsWithoutCommas(digits);
    assert FormatPlaces(n, 2) == (sign + digits) + ['.'] + fraction;
    SplitFirst(sign + digits, '.', fraction);
    SplitNone(fraction, '.');
    InsertCommasResult(sign, digits);
    CurrencyWithoutCommas(sign, grouped, fraction, digits);
  }

  lemma WithoutCommasSuffix(a: string, b: string)
    requires ',' !in b
    ensures WithoutCommas(a + b) == WithoutCommas(a) + b
  {
    WithoutCommasConcat(a, b);
    WithoutCommasNone(b);
  }

  lemma CurrencyWithoutCommas(sign: string, grouped: string, fraction: string, digits: string)
    requires IsSign(sign) && AllDigits(fraction) && WithoutCommas(grouped) == digits
    ensures WithoutCommas(sign + grouped + "." + fraction + " TBC") == sign + digits + "." + fraction + " TBC"
  {
    WithoutCommasSuffix(sign + grouped + "." + fraction, " TBC");
    WithoutCommasSuffix(sign + grouped + ".", fraction);
    WithoutCommasSuffix(sign + grouped, ".");
    WithoutCommasConcat(sign, grouped);
    WithoutCommasNone(sign);
  }
}
