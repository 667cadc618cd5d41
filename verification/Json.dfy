/** JSON values and the compact printer shared by Go's encoder and JSON.stringify. */
module Json {
  import opened Decimal
  import opened Numerals

  datatype Pair<+T> = Pair(key: string, value: T)

  /** Numbers are leaves given by their text. Object entries are listed in the order in which an implementation enumerates them. */
  datatype Json =
    | Null
    | Bool(b: bool)
    | Num(literal: NumberText)
    | Str(s: string)
    | Arr(items: seq<Json>)
    | Obj(entries: seq<Pair<Json>>)

  /** The number an integer is. */
  function IntNum(n: int): Json {
    IntTextIsNumber(n);
    Num(IntText(n))
  }

  // ----- String literals (section 7 of RFC 8259)

  function HexDigit(d: nat): char
    requires d < 16
  {
    "0123456789abcdef"[d]
  }

  /** \uXXXX in lower-case hexadecimal. */
  function UnicodeEscape(c: char): string
    requires c as int < 0x10000
  {
    var n := c as int;
    ['\\', 'u', HexDigit(n / 16 / 16 / 16), HexDigit(n / 16 / 16 % 16), HexDigit(n / 16 % 16), HexDigit(n % 16)]
  }

  /** What JSON.stringify writes for one character of a string. */
  function StringifyChar(c: char): string {
    if c == '\"' then ['\\', '\"']
    else if c == '\\' then ['\\', '\\']
    else if c as int == 0x08 then ['\\', 'b']
    else if c as int == 0x0C then ['\\', 'f']
    else if c == '\n' then ['\\', 'n']
    else if c == '\r' then ['\\', 'r']
    else if c == '\t' then ['\\', 't']
    else if c as int < 0x20 then UnicodeEscape(c)
    else [c]
  }

  predicate IsSeparator(c: char) { c as int == 0x2028 || c as int == 0x2029 }

  /** What Go's encoder (HTML escaping off) writes for one character: also escapes U+2028 and U+2029. */
  function GoChar(c: char): string {
    if IsSeparator(c) then UnicodeEscape(c) else StringifyChar(c)
  }

  /** Which printer: Go / canonical SDK strings, or plain JSON.stringify. */
  datatype Style = Canonical | Stringify

  function EscapeChar(y: Style, c: char): string {
    if y.Canonical? then GoChar(c) else StringifyChar(c)
  }

  function Escape(y: Style, s: string): string {
    if s == [] then [] else EscapeChar(y, s[0]) + Escape(y, s[1..])
  }

  function Quote(y: Style, s: string): string {
    ['\"'] + Escape(y, s) + ['\"']
  }

  // ----- Printer

  function Print(y: Style, v: Json): string
    decreases v, 1
  {
    match v
    case Null => "null"
    case Bool(b) => if b then "true" else "false"
    case Num(literal) => literal
    case Str(s) => Quote(y, s)
    case Arr(items) => ['['] + PrintItems(y, items) + [']']
    case Obj(entries) => ['{'] + PrintEntries(y, entries) + ['}']
  }

  function PrintItems(y: Style, items: seq<Json>): string
    decreases items, 0
  {
    if items == [] then []
    else if |items| == 1 then Print(y, items[0])
    else Print(y, items[0]) + [','] + PrintItems(y, items[1..])
  }

  function PrintEntry(y: Style, e: Pair<Json>): string
    decreases e, 2
  {
    Quote(y, e.key) + [':'] + Print(y, e.value)
  }

  function PrintEntries(y: Style, entries: seq<Pair<Json>>): string
    decreases entries, 0
  {
    if entries == [] then []
    else if |entries| == 1 then PrintEntry(y, entries[0])
    else PrintEntry(y, entries[0]) + [','] + PrintEntries(y, entries[1..])
  }
}
