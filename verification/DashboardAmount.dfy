/** dashboard/src/utils.ts (repeated in mobile/src/utils.ts): display formatting. */
module DashboardAmount {
  import opened Arith
  import opened Text
  import opened Decimal
  import opened JsNumbers

  const NANOCOINS_PER_TBC: nat := 1_000_000_000

  function AssertDecimalPlaces(decimals: JsNumber): Option<nat> {
    if decimals.Finite? && IsInteger(decimals.value) && 0.0 <= decimals.value <= 100.0
    then Some(decimals.value.Floor) else None
  }

  function RoundedUnits(absoluteAmount: nat, scale: nat): nat {
    Div(Mul(absoluteAmount, scale) + NANOCOINS_PER_TBC / 2, NANOCOINS_PER_TBC)
  }

  function FormatPlaces(amount: int, places: nat): string {
    var sign := if amount < 0 then "-" else "";
    var absoluteAmount: nat := if amount < 0 then -amount else amount;
    var scale := Pow10(places);
    var rounded := RoundedUnits(absoluteAmount, scale);
    var integerPart := Div(rounded, scale);
    if places == 0 then sign + ToDec(integerPart)
    else
      var fractionalPart := PadStart(ToDec(Mod(rounded, scale)), places);
      sign + ToDec(integerPart) + "." + fractionalPart
  }

  function FormatTBC(amount: int, decimals: JsNumber): Option<string> {
    match AssertDecimalPlaces(decimals)
    case None => None
    case Some(places) => Some(FormatPlaces(amount, places))
  }

  predicate IsWord(c: char) {
    'a' <= c <= 'z' || 'A' <= c <= 'Z' || IsDigit(c) || c == '_'
  }

  /** \B: both sides of position i are word characters, or neither is. */
  predicate NotWordBoundary(s: string, i: nat)
    requires i <= |s|
  {
    (i > 0 && IsWord(s[i - 1])) == (i < |s| && IsWord(s[i]))
  }

  /** (?=(\d{3})+(?!\d)) at position i, taking k groups of three digits. */
  predicate GroupsAhead(s: string, i: nat, k: nat) {
    i + 3 * k <= |s| && AllDigits(s[i..i + 3 * k]) && (i + 3 * k == |s| || !IsDigit(s[i + 3 * k]))
  }

  predicate CommaBefore(s: string, i: nat)
    requires i <= |s|
  {
    NotWordBoundary(s, i) && exists k: nat :: 1 <= k <= |s| && GroupsAhead(s, i, k)
  }

  /** The global replacement of /\B(?=(\d{3})+(?!\d))/ by a comma, from position i on. */
  function InsertCommas(s: string, i: nat): string
    requires i <= |s|
    decreases |s| - i
  {
    (if CommaBefore(s, i) then "," else "") + (if i == |s| then "" else [s[i]] + InsertCommas(s, i + 1))
  }

  function FormatCurrency(amount: int): string {
    var parts := Split(FormatPlaces(amount, 2), '.');
    var fraction := if |parts| > 1 then parts[1] else "undefined";
    InsertCommas(parts[0], 0) + "." + fraction + " TBC"
  }
}
