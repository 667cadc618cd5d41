/** backend/adapters/validation.ts */
module Validation {
  import opened Text
  import opened Decimal
  import SdkAmount

  /** /^(0|[1-9][0-9]*)(\.[0-9]{1,9})?$/ and the pieces of value.split('.') */
  function MatchDecimal(value: string): (r: Option<SdkAmount.Parts>)
    ensures r.Some? ==> AllDigits(r.value.whole) && AllDigits(r.value.fraction)
  {
    var k := DigitRun(value);
    if !IsCanonical(value[..k]) then None
    else if k == |value| then Some(SdkAmount.Parts(value, ""))
    else if value[k] == '.' && 1 <= |value| - (k + 1) <= 9 && AllDigits(value[k + 1..])
    then Some(SdkAmount.Parts(value[..k], value[k + 1..]))
    else None
  }

  function PadEnd9(fraction: string): string {
    if |fraction| >= 9 then fraction else fraction + Zeros(9 - |fraction|)
  }

  /** The scaled integer the validator compares with zero. */
  function ScaledUnits(m: SdkAmount.Parts): nat
    requires AllDigits(m.whole) && AllDigits(m.fraction)
  {
    Value(m.whole) * 1_000_000_000 + Value(PadEnd9(m.fraction))
  }

  predicate IsPositiveDecimal(value: string) {
    |value| <= 80 && MatchDecimal(value).Some? && ScaledUnits(MatchDecimal(value).value) > 0
  }
}
