/**
 * Sparse arrays in sdk/src/utils.ts: map skips their holes and join writes
 * nothing for them. Which values get a text at all, and whose text is JSON.
 */
module ArrayHoles {
  import opened Text
  import opened JsNumbers
  import opened Numerals
  import opened Json
  import opened JsonParser
  import opened CanonicalJson
  import opened OrderAgreement
  import opened DirectText
  import opened TsHashing

  // ----- Which values get a text

  /** Every number is a safe integer and every value of a supported type. */
  predicate Supported(v: TsValue) {
    match v
    case TsNumber(x) => IsSafeInteger(x)
    case TsArray(items) => forall i :: 0 <= i < |items| ==> items[i].TsHole? || Supported(items[i])
    case TsObject(es) => forall i :: 0 <= i < |es| ==> Supported(es[i].value)
    case TsExoticObject => false
    case TsOther => false
    case TsHole => false
    case _ => true
  }

  /** A hole occurs only as the single element of its array. */
  predicate HolesAlone(v: TsValue) {
    match v
    case TsArray(items) =>
      items == [TsHole] || forall i :: 0 <= i < |items| ==> !items[i].TsHole? && HolesAlone(items[i])
    case TsObject(es) => forall i :: 0 <= i < |es| ==> HolesAlone(es[i].value)
    case _ => true
  }

  function ItemText(v: TsValue): Option<string> { if v.TsHole? then Some("") else CanonicalJsonTs(v) }

  lemma {:induction false} TextItemsIff(items: seq<TsValue>)
    ensures TextItems(items).Some? <==> forall i :: 0 <= i < |items| ==> ItemText(items[i]).Some?
    ensures TextItems(items).Some? ==> |TextItems(items).value| == |items|
    ensures TextItems(items).Some? ==> forall i :: 0 <= i < |items| ==> Some(TextItems(items).value[i]) == ItemText(items[i])
  {
    if items != [] {
      var tail := items[1..];
      TextItemsIff(tail);
      assert forall i :: 0 < i < |items| ==> items[i] == tail[i - 1];
      if forall i :: 0 <= i < |items| ==> ItemText(items[i]).Some? {
        forall i | 0 <= i < |tail| ensures ItemText(tail[i]).Some? { assert tail[i] == items[i + 1]; }
      }
    }
  }

  lemma {:induction false} TextValuesIff(es: seq<Pair<TsValue>>)
    ensures TextValues(es).Some? <==> forall i :: 0 <= i < |es| ==> CanonicalJsonTs(es[i].value).Some?
    ensures TextValues(es).Some? ==> |TextValues(es).value| == |es|
    ensures TextValues(es).Some? ==>
              forall i :: 0 <= i < |es| ==> Some(TextValues(es).value[i].value) == CanonicalJsonTs(es[i].value)
  {
    if es != [] {
      var tail := es[1..];
      TextValuesIff(tail);
      assert forall i :: 0 < i < |es| ==> es[i] == tail[i - 1];
      if forall i :: 0 <= i < |es| ==> CanonicalJsonTs(es[i].value).Some? {
        forall i | 0 <= i < |tail| ensures CanonicalJsonTs(tail[i].value).Some? { assert tail[i] == es[i + 1]; }
      }
    }
  }

  lemma {:induction false} ItemsToJsonIff(items: seq<TsValue>)
    ensures ItemsToJson(items).Some? <==> forall i :: 0 <= i < |items| ==> ToJson(items[i]).Some?
  {
    if items != [] {
      var tail := items[1..];
      ItemsToJsonIff(tail);
      assert forall i :: 0 < i < |items| ==> items[i] == tail[i - 1];
      if forall i :: 0 <= i < |items| ==> ToJson(items[i]).Some? {
        forall i | 0 <= i < |tail| ensures ToJson(tail[i]).Some? { assert tail[i] == items[i + 1]; }
      }
    }
  }

  lemma {:induction false} ValuesToJsonIff(es: seq<Pair<TsValue>>)
    ensures ValuesToJson(es).Some? <==> forall i :: 0 <= i < |es| ==> ToJson(es[i].value).Some?
  {
    if es != [] {
      var tail := es[1..];
      ValuesToJsonIff(tail);
      assert forall i :: 0 < i < |es| ==> es[i] == tail[i - 1];
      if forall i :: 0 <= i < |es| ==> ToJson(es[i].value).Some? {
        forall i | 0 <= i < |tail| ensures ToJson(tail[i].value).Some? { assert tail[i] == es[i + 1]; }
      }
    }
  }

  /** The canonicaliser throws exactly on unsupported values; holes do not make it throw. */
  lemma {:induction false} TextIffSupported(v: TsValue)
    ensures CanonicalJsonTs(v).Some? <==> Supported(v)
  {
    match v
    case TsArray(items) =>
      TextItemsIff(items);
      forall i | 0 <= i < |items| ensures CanonicalJsonTs(items[i]).Some? <==> Supported(items[i]) { TextIffSupported(items[i]); }
    case TsObject(es) =>
      TextValuesIff(es);
      forall i | 0 <= i < |es| ensures CanonicalJsonTs(es[i].value).Some? <==> Supported(es[i].value) { TextIffSupported(es[i].value); }
    case _ =>
  }

  lemma {:induction false} JsonIff(v: TsValue)
    ensures ToJson(v).Some? <==> Supported(v) && HolesAlone(v)
  {
    match v
    case TsArray(items) =>
      if items == [TsHole] {
        assert forall i :: 0 <= i < |items| ==> items[i].TsHole?;
      } else {
        ItemsToJsonIff(items);
        forall i | 0 <= i < |items| ensures ToJson(items[i]).Some? <==> Supported(items[i]) && HolesAlone(items[i]) { JsonIff(items[i]); }
      }
    case TsObject(es) =>
      ValuesToJsonIff(es);
      forall i | 0 <= i < |es| ensures ToJson(es[i].value).Some? <==> Supported(es[i].value) && HolesAlone(es[i].value) { JsonIff(es[i].value); }
    case _ =>
  }

  // ----- Texts the parser reads, and texts it breaks on

  predicate Starts(t: string) { t != "" && !IsGap(t[0]) && t[0] != ']' }

  ghost predicate Reads(t: string) {
    Starts(t) && forall rest :: Delimited(rest) ==> ParseValue(t + rest).Ok? && ParseValue(t + rest).rest == rest
  }

  ghost predicate Breaks(t: string) {
    Starts(t) && forall rest :: ParseValue(t + rest) == Fail
  }

  lemma PrintedReads(y: Style, v: Json)
    ensures Reads(Print(y, v))
  {
    var t := Print(y, v);
    PlainIs(y, v, []);
    TreeStart(Plain(y, v), []);
    assert t + [] == t;
    forall rest | Delimited(rest) ensures ParseValue(t + rest) == Ok(v, rest, true) { ParseUndoesPrint(y, v, rest); }
  }

  /** What follows a part: a comma and the other parts, or the closing character. */
  function Tail(parts: seq<string>, close: char, rest: string): string
    requires parts != []
  {
    if |parts| == 1 then [close] + rest else [','] + (Join(parts[1..]) + ([close] + rest))
  }

  lemma JoinTail(parts: seq<string>, close: char, rest: string)
    requires parts != []
    ensures Join(parts) + ([close] + rest) == parts[0] + Tail(parts, close, rest)
  {
    if |parts| > 1 {
      ConcatFour(parts[0], [','], Join(parts[1..]), [close] + rest);
    }
  }

  /** Nothing where a value should be. */
  lemma NoValue(s: string)
    requires s != [] && (s[0] == ',' || s[0] == ']')
    ensures ParseValue(s) == Fail
  {
    assert Skip(s) == s;
  }

  ghost predicate GoodOrBroken(t: string) { t == "" || Reads(t) || Breaks(t) }

  lemma {:induction false} ItemsBreak(ts: seq<string>, k: nat, rest: string)
    requires k < |ts| && (ts[k] == "" || Breaks(ts[k])) && forall i :: 0 <= i < |ts| ==> GoodOrBroken(ts[i])
    ensures ParseItems(Join(ts) + ([']'] + rest)) == Fail
  {
    var tail := Tail(ts, ']', rest);
    JoinTail(ts, ']', rest);
    assert GoodOrBroken(ts[0]);
    if ts[0] == "" {
      assert "" + tail == tail;
      NoValue(tail);
    } else if !Breaks(ts[0]) {
      assert Delimited(tail) && Skip(tail) == tail;
      assert tail[1..] == Join(ts[1..]) + ([']'] + rest);
      ItemsBreak(ts[1..], k - 1, rest);
    }
  }

  /** The parser after an opening bracket or brace. */
  lemma AfterBracket(s: string)
    ensures ParseValue(['['] + s) == ParseArray(s) && ParseValue(['{'] + s) == ParseObject(s)
  {}

  lemma ArrayFails(s: string)
    requires s != [] && s[0] != ']' && !IsGap(s[0]) && ParseItems(s) == Fail
    ensures ParseValue(['['] + s) == Fail
  {
    AfterBracket(s);
  }

  lemma ObjectFails(s: string)
    requires s != [] && s[0] == '\"' && ParseEntries(s) == Fail
    ensures ParseValue(['{'] + s) == Fail
  {
    AfterBracket(s);
  }

  /** The first part, or the comma after it, starts the joined text. */
  lemma JoinStart(ts: seq<string>, rest: string)
    requires ts != [] && ts != [""] && GoodOrBroken(ts[0])
    ensures var s := Join(ts) + ([']'] + rest); s != [] && s[0] != ']' && !IsGap(s[0])
  {
    JoinTail(ts, ']', rest);
    assert |ts| == 1 ==> ts[0] != "";
  }

  /** An array text with a gap in it, or with a part that breaks, breaks. */
  lemma ArrayBreaks(ts: seq<string>, k: nat)
    requires k < |ts| && (ts[k] == "" || Breaks(ts[k])) && forall i :: 0 <= i < |ts| ==> GoodOrBroken(ts[i])
    requires ts != [""]
    ensures Breaks(['['] + Join(ts) + [']'])
  {
    forall rest ensures ParseValue(['['] + Join(ts) + [']'] + rest) == Fail {
      ConcatFour(['['], Join(ts), [']'], rest);
      ItemsBreak(ts, k, rest);
      JoinStart(ts, rest);
      ArrayFails(Join(ts) + ([']'] + rest));
    }
  }

  lemma EntryParts(y: Style, key: string, t: string, tail: string)
    ensures ParseEntry(Encoded(y, key) + [':'] + t + tail) ==
            match ParseValue(t + tail) case Fail => Fail case Ok(v, rest, exact) => Ok(Pair(key, v), rest, exact)
  {
    var colon := [':'] + (t + tail);
    KeyRead(y, key, colon);
    ConcatFour(Encoded(y, key), [':'], t, tail);
    ColonSkipped(t + tail);
  }

  lemma KeyRead(y: Style, key: string, rest: string)
    ensures var s := Encoded(y, key) + rest; Skip(s) == s && ParseString(s) == Ok(key, rest, true)
  {
    EncodedIsQuote(y, key);
    PlainString(y, key, rest);
    ReadString(PlainLetters(y, key), rest);
  }

  lemma ColonSkipped(s: string)
    ensures ParseColon([':'] + s) == ParseValue(s)
  {
    assert ([':'] + s)[1..] == s;
  }

  lemma NextEntryFails(s: string, next: string)
    requires ParseEntry(s).Ok? && ParseEntry(s).rest == [','] + next && ParseEntries(next) == Fail
    ensures ParseEntries(s) == Fail
  {
    assert Skip([','] + next) == [','] + next && ([','] + next)[1..] == next;
  }

  lemma {:induction false} EntriesBreak(y: Style, es: seq<Pair<string>>, k: nat, rest: string)
    requires k < |es| && Breaks(es[k].value) && forall i :: 0 <= i < |es| ==> Reads(es[i].value) || Breaks(es[i].value)
    ensures ParseEntries(Join(Members(y, es)) + (['}'] + rest)) == Fail
  {
    var ms := Members(y, es);
    var tail := Tail(ms, '}', rest);
    JoinTail(ms, '}', rest);
    EntryParts(y, es[0].key, es[0].value, tail);
    assert Delimited(tail);
    if !Breaks(es[0].value) {
      assert ms[1..] == Members(y, es[1..]);
      EntriesBreak(y, es[1..], k - 1, rest);
      NextEntryFails(ms[0] + tail, Join(ms[1..]) + (['}'] + rest));
    }
  }

  lemma ObjectBreaks(y: Style, es: seq<Pair<string>>, k: nat)
    requires k < |es| && Breaks(es[k].value) && forall i :: 0 <= i < |es| ==> Reads(es[i].value) || Breaks(es[i].value)
    ensures Breaks(['{'] + Join(Members(y, es)) + ['}'])
  {
    var ms := Members(y, es);
    forall rest ensures ParseValue(['{'] + Join(ms) + ['}'] + rest) == Fail {
      ConcatFour(['{'], Join(ms), ['}'], rest);
      EntriesBreak(y, es, k, rest);
      MembersStart(y, es, rest);
      ObjectFails(Join(ms) + (['}'] + rest));
    }
  }

  lemma MembersStart(y: Style, es: seq<Pair<string>>, rest: string)
    requires es != []
    ensures var s := Join(Members(y, es)) + (['}'] + rest); s != [] && s[0] == '\"'
  {
    JoinTail(Members(y, es), '}', rest);
    EncodedIsQuote(y, es[0].key);
  }

  // ----- Whose text is JSON

  /** The text of a value with a misplaced hole breaks the parser; the text of any other is read. */
  lemma {:induction false} TextReadsOrBreaks(v: TsValue)
    requires CanonicalJsonTs(v).Some?
    ensures if ToJson(v).Some? then Reads(CanonicalJsonTs(v).value) else Breaks(CanonicalJsonTs(v).value)
  {
    if ToJson(v).Some? {
      TextIsDirect(v);
      DirectIsPrinted(Canonical, CODE_POINT, ToJson(v).value);
      PrintedReads(Canonical, SortTree(CODE_POINT, ToJson(v).value));
    } else {
      match v
      case TsArray(items) =>
        var ts := TextItems(items).value;
        TextItemsIff(items);
        ItemsToJsonIff(items);
        forall i | 0 <= i < |items|
          ensures if items[i].TsHole? then ts[i] == "" else if ToJson(items[i]).Some? then Reads(ts[i]) else Breaks(ts[i])
        {
          if !items[i].TsHole? { TextReadsOrBreaks(items[i]); }
        }
        var k :| 0 <= k < |items| && ToJson(items[k]).None?;
        assert |items| == 1 && items[0].TsHole? ==> items == [TsHole];
        ArrayBreaks(ts, k);
      case TsObject(es) => ObjectTextBreaks(es);
    }
  }

  lemma {:induction false} ObjectTextBreaks(es: seq<Pair<TsValue>>)
    requires TextValues(es).Some? && ValuesToJson(es).None?
    ensures Breaks(['{'] + Join(Members(Canonical, Sort(CODE_POINT, TextValues(es).value))) + ['}'])
  {
    var ts := TextValues(es).value;
    var sorted := Sort(CODE_POINT, ts);
    TextValuesIff(es);
    ValuesToJsonIff(es);
    forall i | 0 <= i < |es| ensures if ToJson(es[i].value).Some? then Reads(ts[i].value) else Breaks(ts[i].value) {
      TextReadsOrBreaks(es[i].value);
    }
    var j :| 0 <= j < |es| && ToJson(es[j].value).None?;
    SortMember(CODE_POINT, ts, ts[j]);
    var k :| 0 <= k < |sorted| && sorted[k] == ts[j];
    forall i | 0 <= i < |sorted| ensures Reads(sorted[i].value) || Breaks(sorted[i].value) {
      SortMember(CODE_POINT, ts, sorted[i]);
    }
    ObjectBreaks(Canonical, sorted, k);
  }

  /** A text is JSON exactly when holes stand alone in their arrays. */
  lemma TextIsJsonIff(v: TsValue)
    requires Supported(v)
    ensures CanonicalJsonTs(v).Some?
    ensures Read(CanonicalJsonTs(v).value) != Malformed <==> HolesAlone(v)
  {
    TextIffSupported(v);
    JsonIff(v);
    TextReadsOrBreaks(v);
    var t := CanonicalJsonTs(v).value;
    assert t + [] == t;
  }

  /** Whatever a TypeScript value with a misplaced hole is printed as, no Go value has that text. */
  lemma HoledTextIsForeign(g: Go.GoValue, v: TsValue)
    requires Supported(v) && !HolesAlone(v) && Go.CanonicalJSON(g).Success?
    ensures CanonicalJsonTs(v) != Some(Go.CanonicalJSON(g).value)
  {
    TextIsJsonIff(v);
    RoundTrip(Canonical, SortTree(UTF8, Go.Normalize(g).value));
  }

  /** For instance an array with a hole and a null is written "[,null]". */
  lemma HoledExample()
    ensures CanonicalJsonTs(TsArray([TsHole, TsNull])) == Some("[,null]") && Read("[,null]") == Malformed
  {
    var items := [TsHole, TsNull];
    TextItemsIff(items);
    assert items[1] == TsNull && ItemText(items[0]) == Some("") && ItemText(items[1]) == Some("null");
    assert forall i :: 0 <= i < 2 ==> ItemText(items[i]).Some?;
    assert TextItems(items).value == ["", "null"];
    assert ["", "null"][1..] == ["null"];
    assert Join(["", "null"]) == ",null";
    assert ['['] + ",null" + [']'] == "[,null]";
    assert CanonicalJsonTs(TsArray(items)) == Some("[,null]");
    assert !HolesAlone(TsArray(items)) by { assert items[0].TsHole?; }
    TextIsJsonIff(TsArray(items));
  }

  /** An array of one hole is not told from the empty array. */
  lemma SingleHoleIsEmpty()
    ensures CanonicalJsonTs(TsArray([TsHole])) == CanonicalJsonTs(TsArray([])) == Some("[]")
  {
    assert ToJson(TsArray([])) == Some(Arr([]));
    TextIsDirect(TsArray([TsHole]));
    TextIsDirect(TsArray([]));
    assert Direct(Canonical, CODE_POINT, Arr([])) == "[]";
  }
}
