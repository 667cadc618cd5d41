/**
 * The JavaScript canonicalisers build the text in one recursion: encode each
 * entry, order the encoded entries by key, join. They print the sorted tree.
 */
module DirectText {
  import opened KeyOrder
  import opened Json
  import opened CanonicalJson

  /** value.replace(/c/g, sub) */
  function ReplaceAll(s: string, c: char, sub: string): string {
    if s == [] then [] else (if s[0] == c then sub else [s[0]]) + ReplaceAll(s[1..], c, sub)
  }

  const LINE_SEPARATOR: char := 0x2028 as char
  const PARAGRAPH_SEPARATOR: char := 0x2029 as char

  /** enc / encodeCanonicalString: JSON.stringify, then escape the two separators. */
  function EncodeString(s: string): string {
    EscapeSeparators(Quote(Stringify, s))
  }

  function EscapeSeparators(s: string): string {
    ReplaceAll(ReplaceAll(s, LINE_SEPARATOR, "\\u2028"), PARAGRAPH_SEPARATOR, "\\u2029")
  }

  lemma {:induction false} ReplaceConcat(a: string, b: string, c: char, sub: string)
    ensures ReplaceAll(a + b, c, sub) == ReplaceAll(a, c, sub) + ReplaceAll(b, c, sub)
  {
    if a == [] {
      assert a + b == b;
    } else {
      assert (a + b)[1..] == a[1..] + b;
      ReplaceConcat(a[1..], b, c, sub);
    }
  }

  lemma {:induction false} ReplaceNone(s: string, c: char, sub: string)
    requires c !in s
    ensures ReplaceAll(s, c, sub) == s
  {
    if s != [] {
      ReplaceNone(s[1..], c, sub);
      assert s == [s[0]] + s[1..];
    }
  }

  lemma EscapeSeparatorsConcat(a: string, b: string)
    ensures EscapeSeparators(a + b) == EscapeSeparators(a) + EscapeSeparators(b)
  {
    ReplaceConcat(a, b, LINE_SEPARATOR, "\\u2028");
    ReplaceConcat(ReplaceAll(a, LINE_SEPARATOR, "\\u2028"), ReplaceAll(b, LINE_SEPARATOR, "\\u2028"), PARAGRAPH_SEPARATOR, "\\u2029");
  }

  lemma EscapeSeparatorsNone(s: string)
    requires LINE_SEPARATOR !in s && PARAGRAPH_SEPARATOR !in s
    ensures EscapeSeparators(s) == s
  {
    ReplaceNone(s, LINE_SEPARATOR, "\\u2028");
    ReplaceNone(s, PARAGRAPH_SEPARATOR, "\\u2029");
  }

  lemma EscapeLineSeparator()
    ensures EscapeSeparators([LINE_SEPARATOR]) == "\\u2028"
  {
    assert ReplaceAll([LINE_SEPARATOR], LINE_SEPARATOR, "\\u2028") == "\\u2028";
    ReplaceNone("\\u2028", PARAGRAPH_SEPARATOR, "\\u2029");
  }

  lemma EscapeParagraphSeparator()
    ensures EscapeSeparators([PARAGRAPH_SEPARATOR]) == "\\u2029"
  {
    ReplaceNone([PARAGRAPH_SEPARATOR], LINE_SEPARATOR, "\\u2028");
    assert ReplaceAll([PARAGRAPH_SEPARATOR], PARAGRAPH_SEPARATOR, "\\u2029") == "\\u2029";
  }

  lemma EscapeSeparatorsChar(c: char)
    ensures EscapeSeparators(StringifyChar(c)) == GoChar(c)
  {
    if IsSeparator(c) {
      assert StringifyChar(c) == [c];
      EscapeLineSeparator();
      EscapeParagraphSeparator();
      assert UnicodeEscape(c) == if c == LINE_SEPARATOR then "\\u2028" else "\\u2029";
    } else {
      StringifyCharAscii(c);
      EscapeSeparatorsNone(StringifyChar(c));
    }
  }

  lemma HexDigitAscii(d: nat)
    requires d < 16
    ensures HexDigit(d) as int < 0x80
  {}

  lemma StringifyCharAscii(c: char)
    requires !IsSeparator(c)
    ensures LINE_SEPARATOR !in StringifyChar(c) && PARAGRAPH_SEPARATOR !in StringifyChar(c)
  {
    if c as int < 0x20 {
      var n := c as int;
      HexDigitAscii(n / 16 / 16 / 16);
      HexDigitAscii(n / 16 / 16 % 16);
      HexDigitAscii(n / 16 % 16);
      HexDigitAscii(n % 16);
      assert forall i :: 0 <= i < |StringifyChar(c)| ==> StringifyChar(c)[i] as int < 0x80;
    }
  }

  lemma {:induction false} EscapeSeparatorsText(s: string)
    ensures EscapeSeparators(Escape(Stringify, s)) == Escape(Canonical, s)
  {
    if s == [] {
      EscapeSeparatorsNone([]);
    } else {
      EscapeSeparatorsConcat(StringifyChar(s[0]), Escape(Stringify, s[1..]));
      EscapeSeparatorsChar(s[0]);
      EscapeSeparatorsText(s[1..]);
    }
  }

  /** The two-pass JavaScript encoding is Go's one-pass encoding, on every string. */
  lemma EncodeStringIsGo(s: string)
    ensures EncodeString(s) == Quote(Canonical, s)
  {
    var body := Escape(Stringify, s);
    EscapeSeparatorsConcat(['\"'] + body, ['\"']);
    EscapeSeparatorsConcat(['\"'], body);
    EscapeSeparatorsNone(['\"']);
    EscapeSeparatorsText(s);
  }

  /** The string encoder of each canonicaliser. */
  function Encoded(y: Style, s: string): string {
    if y.Canonical? then EncodeString(s) else Quote(Stringify, s)
  }

  lemma EncodedIsQuote(y: Style, s: string)
    ensures Encoded(y, s) == Quote(y, s)
  {
    EncodeStringIsGo(s);
  }

  // ----- Joining

  function Join(parts: seq<string>): string {
    if parts == [] then [] else if |parts| == 1 then parts[0] else parts[0] + [','] + Join(parts[1..])
  }

  /** Encoded key, colon, encoded value. */
  function Members(y: Style, es: seq<Pair<string>>): (r: seq<string>)
    ensures |r| == |es|
  {
    if es == [] then [] else [Encoded(y, es[0].key) + [':'] + es[0].value] + Members(y, es[1..])
  }

  /** canon of experiments/check405-m2-astral-vector.js; canonicalJson of check-parameter-changes.ts. */
  function Direct(y: Style, o: Order, v: Json): string
    decreases v, 1
  {
    match v
    case Str(s) => Encoded(y, s)
    case Arr(items) => ['['] + Join(DirectItems(y, o, items)) + [']']
    case Obj(es) => ['{'] + Join(Members(y, Sort(o, DirectValues(y, o, es)))) + ['}']
    case _ => Print(y, v)
  }

  function DirectItems(y: Style, o: Order, items: seq<Json>): seq<string>
    decreases items, 0
  {
    if items == [] then [] else [Direct(y, o, items[0])] + DirectItems(y, o, items[1..])
  }

  function DirectValues(y: Style, o: Order, es: seq<Pair<Json>>): seq<Pair<string>>
    decreases es, 0
  {
    if es == [] then [] else [Pair(es[0].key, Direct(y, o, es[0].value))] + DirectValues(y, o, es[1..])
  }

  // ----- Direct text is the printed sorted tree

  function PrintAll(y: Style, items: seq<Json>): (r: seq<string>)
    ensures |r| == |items|
  {
    if items == [] then [] else [Print(y, items[0])] + PrintAll(y, items[1..])
  }

  function PrintValues(y: Style, es: seq<Pair<Json>>): (r: seq<Pair<string>>)
    ensures |r| == |es|
  {
    if es == [] then [] else [Pair(es[0].key, Print(y, es[0].value))] + PrintValues(y, es[1..])
  }

  lemma {:induction false} JoinPrinted(y: Style, items: seq<Json>)
    ensures Join(PrintAll(y, items)) == PrintItems(y, items)
  {
    if |items| > 1 {
      JoinPrinted(y, items[1..]);
      assert PrintAll(y, items)[1..] == PrintAll(y, items[1..]);
    }
  }

  lemma {:induction false} JoinMembers(y: Style, es: seq<Pair<Json>>)
    ensures Join(Members(y, PrintValues(y, es))) == PrintEntries(y, es)
  {
    if es != [] {
      EncodedIsQuote(y, es[0].key);
      var m := Members(y, PrintValues(y, es));
      assert PrintValues(y, es)[1..] == PrintValues(y, es[1..]);
      assert m[0] == PrintEntry(y, es[0]);
      if |es| > 1 {
        JoinMembers(y, es[1..]);
        assert m[1..] == Members(y, PrintValues(y, es[1..]));
      }
    }
  }

  lemma PrintValuesCons(y: Style, e: Pair<Json>, es: seq<Pair<Json>>)
    ensures PrintValues(y, [e] + es) == [Pair(e.key, Print(y, e.value))] + PrintValues(y, es)
  {}

  lemma {:induction false} InsertPrinted(y: Style, o: Order, e: Pair<Json>, es: seq<Pair<Json>>)
    ensures Insert(o, Pair(e.key, Print(y, e.value)), PrintValues(y, es)) == PrintValues(y, Insert(o, e, es))
  {
    if es == [] || Less(o, e.key, es[0].key) {
      PrintValuesCons(y, e, es);
    } else {
      InsertPrinted(y, o, e, es[1..]);
      PrintValuesCons(y, es[0], Insert(o, e, es[1..]));
      assert PrintValues(y, es)[1..] == PrintValues(y, es[1..]);
    }
  }

  /** Sorting looks only at keys: printing values first or last makes no difference. */
  lemma {:induction false} SortPrinted(y: Style, o: Order, es: seq<Pair<Json>>)
    ensures Sort(o, PrintValues(y, es)) == PrintValues(y, Sort(o, es))
  {
    if es != [] {
      SortPrinted(y, o, es[1..]);
      InsertPrinted(y, o, es[0], Sort(o, es[1..]));
      assert PrintValues(y, es)[1..] == PrintValues(y, es[1..]);
    }
  }

  lemma {:induction false} DirectIsPrinted(y: Style, o: Order, v: Json)
    ensures Direct(y, o, v) == CanonicalText(y, o, v)
    decreases v, 1
  {
    match v
    case Str(s) => EncodedIsQuote(y, s);
    case Arr(items) =>
      DirectItemsPrinted(y, o, items);
      JoinPrinted(y, SortItems(o, items));
    case Obj(es) =>
      DirectValuesPrinted(y, o, es);
      SortPrinted(y, o, SortValues(o, es));
      JoinMembers(y, Sort(o, SortValues(o, es)));
    case _ =>
  }

  lemma {:induction false} DirectItemsPrinted(y: Style, o: Order, items: seq<Json>)
    ensures DirectItems(y, o, items) == PrintAll(y, SortItems(o, items))
    decreases items, 0
  {
    if items != [] {
      DirectIsPrinted(y, o, items[0]);
      DirectItemsPrinted(y, o, items[1..]);
      assert SortItems(o, items)[1..] == SortItems(o, items[1..]);
    }
  }

  lemma {:induction false} DirectValuesPrinted(y: Style, o: Order, es: seq<Pair<Json>>)
    ensures DirectValues(y, o, es) == PrintValues(y, SortValues(o, es))
    decreases es, 0
  {
    if es != [] {
      DirectIsPrinted(y, o, es[0].value);
      DirectValuesPrinted(y, o, es[1..]);
      assert SortValues(o, es)[1..] == SortValues(o, es[1..]);
    }
  }
}
