/** sdk/src/amount.ts: nanocoin amounts to decimal text and back. */
module SdkAmount {
  import opened Arith
  import opened Text
  import opened Decimal
  import opened JsNumbers

  const NANOCOINS_PER_TBC: nat := 1_000_000_000
  /** 2^120 - 1 */
  const MAX_TBC_NANOCOINS: nat := 1329227995784915872903807060280344575
  const MAX_FIXED_DECIMALS := 100

  function Abs(n: int): nat { if n < 0 then -n else n }

  /** The number of fraction digits, or None for the RangeError. */
  function NormalizeFixedDecimals(decimals: JsNumber): Option<nat> {
    match decimals
    case NaN => Some(0)
    case PosInfinity => None
    case NegInfinity => None
    case Finite(r) =>
      var digits := Trunc(r);
      if digits < 0 || digits > MAX_FIXED_DECIMALS then None else Some(digits)
  }

  function FormatDigits(nanocoins: int, digits: nat): string {
    var sign := if nanocoins < 0 then "-" else "";
    var amount := Abs(nanocoins);
    if digits <= 9 then
      var roundingDivisor := Pow10(9 - digits);
      var roundedUnits := Div(amount + Div(roundingDivisor, 2), roundingDivisor);
      if digits == 0 then sign + ToDec(roundedUnits)
      else
        var fractionalScale := Pow10(digits);
        var whole := Div(roundedUnits, fractionalScale);
        var fraction := PadStart(ToDec(Mod(roundedUnits, fractionalScale)), digits);
        sign + ToDec(whole) + "." + fraction
    else
      var whole := Div(amount, NANOCOINS_PER_TBC);
      var fraction := PadStart(ToDec(Mod(amount, NANOCOINS_PER_TBC)), 9) + Zeros(digits - 9);
      sign + ToDec(whole) + "." + fraction
  }

  function FormatTBC(nanocoins: int, decimals: JsNumber): Option<string> {
    match NormalizeFixedDecimals(decimals)
    case None => None
    case Some(digits) => Some(FormatDigits(nanocoins, digits))
  }

  datatype Parts = Parts(whole: string, fraction: string)

  /** The capture groups of DECIMAL_AMOUNT after its optional plus sign. */
  function MatchUnsigned(t: string): (r: Option<Parts>)
    ensures r.Some? ==> AllDigits(r.value.whole) && AllDigits(r.value.fraction)
  {
    var k := DigitRun(t);
    if k == |t| then
      if k == 0 then None else Some(Parts(t, ""))
    else if t[k] == '.' && AllDigits(t[k + 1..]) then
      if k > 0 then Some(Parts(t[..k], t[k + 1..]))
      else if |t| > 1 then Some(Parts("0", t[1..]))
      else None
    else None
  }

  function MatchAmount(t: string): (r: Option<Parts>)
    ensures r.Some? ==> AllDigits(r.value.whole) && AllDigits(r.value.fraction)
  {
    if t != [] && t[0] == '+' then MatchUnsigned(t[1..]) else MatchUnsigned(t)
  }

  function ParseTBC(tbc: string): Option<nat> {
    match MatchAmount(Trim(JsSpace, tbc))
    case None => None
    case Some(m) =>
      var nanocoinFraction := (m.fraction + Zeros(9))[..9];
      Some(Value(m.whole) * NANOCOINS_PER_TBC + Value(nanocoinFraction))
  }
}
