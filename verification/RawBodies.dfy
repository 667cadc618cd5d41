/**
 * Callback bodies as they arrive: JSON.parse, then the signed text
 * (backend/adapters/nowpayments.ts). What JavaScript makes of a number literal
 * is an arbitrary function.
 */
module RawBodies {
  import opened Text
  import opened Decimal
  import opened Numerals
  import opened Json
  import opened JsonParser
  import opened CanonicalJson
  import opened OrderAgreement
  import opened JsVariants

  /**
   * The text JSON.stringify writes for the number JSON.parse reads from a
   * literal; None for an infinite one, which is written null.
   */
  type Numbers = NumberText -> Option<NumberText>

  /** Every number is written the way JSON.stringify writes it. */
  predicate Shown(js: Numbers, v: Json) {
    match v
    case Num(literal) => js(literal) == Some(literal)
    case Arr(items) => forall i :: 0 <= i < |items| ==> Shown(js, items[i])
    case Obj(es) => forall i :: 0 <= i < |es| ==> Shown(js, es[i].value)
    case _ => true
  }

  predicate HasKey(es: seq<Pair<Json>>, key: string) { exists i :: 0 <= i < |es| && es[i].key == key }

  /** What JSON.parse makes of a value as written: of repeated keys the last counts, numbers are rounded. */
  function JsValue(js: Numbers, v: Json): Json
    decreases v, 1
  {
    match v
    case Num(literal) => (match js(literal) case Some(shown) => Num(shown) case None => Null)
    case Arr(items) => Arr(JsItems(js, items))
    case Obj(es) => Obj(JsEntries(js, es))
    case _ => v
  }

  function JsItems(js: Numbers, items: seq<Json>): seq<Json>
    decreases items, 0
  {
    if items == [] then [] else [JsValue(js, items[0])] + JsItems(js, items[1..])
  }

  function JsEntries(js: Numbers, es: seq<Pair<Json>>): seq<Pair<Json>>
    decreases es, 0
  {
    if es == [] then []
    else (if HasKey(es[1..], es[0].key) then [] else [Pair(es[0].key, JsValue(js, es[0].value))]) + JsEntries(js, es[1..])
  }

  /** A raw JSON body or an already parsed one. */
  datatype Payload = Raw(text: string) | Parsed(value: Json)

  /** A text; or JSON.parse throws; or a string of the body holds a lone surrogate and the text is left open. */
  datatype Outcome = Signed(text: string) | Rejected | NotScalar

  /** canonicalizePayload */
  function CanonicalizePayload(js: Numbers, p: Payload): Outcome {
    match p
    case Parsed(v) => Signed(PayloadText(v))
    case Raw(text) =>
      match Read(text)
      case Malformed => Rejected
      case LoneSurrogate => NotScalar
      case ReadAs(v) => Signed(PayloadText(JsValue(js, v)))
  }

  // ----- What JSON.parse returns

  /** An entry of the merged object is the last entry with its key. */
  lemma {:induction false} LastWinsEntry(js: Numbers, es: seq<Pair<Json>>, x: Pair<Json>)
    ensures x in JsEntries(js, es) <==>
            exists i :: 0 <= i < |es| && es[i].key == x.key && JsValue(js, es[i].value) == x.value && !HasKey(es[i + 1..], x.key)
  {
    if es != [] {
      var tail := es[1..];
      LastWinsEntry(js, tail, x);
      assert forall i :: 0 <= i < |tail| ==> tail[i] == es[i + 1] && tail[i + 1..] == es[i + 1 + 1..];
      if x in JsEntries(js, es) {
        if es[0].key == x.key && JsValue(js, es[0].value) == x.value && !HasKey(tail, x.key) {
          assert es[0 + 1..] == tail;
        } else {
          var i :| 0 <= i < |tail| && tail[i].key == x.key && JsValue(js, tail[i].value) == x.value && !HasKey(tail[i + 1..], x.key);
          assert es[i + 1].key == x.key;
        }
      }
      forall i | 0 <= i < |es| && es[i].key == x.key && JsValue(js, es[i].value) == x.value && !HasKey(es[i + 1..], x.key)
        ensures x in JsEntries(js, es)
      {
        if i > 0 { assert tail[i - 1] == es[i] && tail[i - 1 + 1..] == es[i + 1..]; }
      }
    }
  }

  lemma {:induction false} JsDistinct(js: Numbers, es: seq<Pair<Json>>)
    ensures Distinct(JsEntries(js, es))
  {
    if es != [] {
      var m := JsEntries(js, es[1..]);
      JsDistinct(js, es[1..]);
      forall i | 0 <= i < |m| ensures HasKey(es[1..], m[i].key) {
        LastWinsEntry(js, es[1..], m[i]);
        assert m[i] in m;
      }
    }
  }

  /** What JSON.parse returns has no key twice. */
  lemma {:induction false} JsWellFormed(js: Numbers, v: Json)
    ensures WellFormed(JsValue(js, v))
    decreases v, 1
  {
    match v
    case Arr(items) => JsItemsWellFormed(js, items);
    case Obj(es) =>
      JsDistinct(js, es);
      JsValuesWellFormed(js, es);
    case _ =>
  }

  lemma {:induction false} JsItemsWellFormed(js: Numbers, items: seq<Json>)
    ensures WellFormedItems(JsItems(js, items))
    decreases items, 0
  {
    if items != [] {
      JsWellFormed(js, items[0]);
      JsItemsWellFormed(js, items[1..]);
      assert JsItems(js, items)[1..] == JsItems(js, items[1..]);
    }
  }

  lemma {:induction false} JsValuesWellFormed(js: Numbers, es: seq<Pair<Json>>)
    ensures WellFormedEntries(JsEntries(js, es))
    decreases es, 0
  {
    if es != [] {
      var m, more := JsEntries(js, es), JsEntries(js, es[1..]);
      JsWellFormed(js, es[0].value);
      JsValuesWellFormed(js, es[1..]);
      if HasKey(es[1..], es[0].key) { assert m == more; } else { assert m[1..] == more; }
    }
  }

  /** A value with no key twice whose numbers are as JSON.stringify writes them is what JSON.parse makes of its text. */
  lemma {:induction false} JsSame(js: Numbers, v: Json)
    requires WellFormed(v) && Shown(js, v)
    ensures JsValue(js, v) == v
    decreases v, 1
  {
    match v
    case Arr(items) => JsSameItems(js, items);
    case Obj(es) => JsSameEntries(js, es);
    case _ =>
  }

  lemma {:induction false} JsSameItems(js: Numbers, items: seq<Json>)
    requires WellFormedItems(items) && forall i :: 0 <= i < |items| ==> Shown(js, items[i])
    ensures JsItems(js, items) == items
    decreases items, 0
  {
    if items != [] {
      JsSame(js, items[0]);
      JsSameItems(js, items[1..]);
    }
  }

  lemma {:induction false} JsSameEntries(js: Numbers, es: seq<Pair<Json>>)
    requires Distinct(es) && WellFormedEntries(es) && forall i :: 0 <= i < |es| ==> Shown(js, es[i].value)
    ensures JsEntries(js, es) == es
    decreases es, 0
  {
    if es != [] {
      JsSame(js, es[0].value);
      JsSameEntries(js, es[1..]);
      assert es == [es[0]] + es[1..];
    }
  }

  /** If every number JSON.stringify writes is read back as itself, parsed values are shown. */
  lemma {:induction false} ParsedIsShown(js: Numbers, v: Json)
    requires forall t :: js(t).Some? ==> js(js(t).value) == js(t)
    ensures Shown(js, JsValue(js, v))
    decreases v, 1
  {
    match v
    case Arr(items) => ParsedItemsShown(js, items);
    case Obj(es) => ParsedEntriesShown(js, es);
    case _ =>
  }

  lemma {:induction false} ParsedItemsShown(js: Numbers, items: seq<Json>)
    requires forall t :: js(t).Some? ==> js(js(t).value) == js(t)
    ensures forall i :: 0 <= i < |JsItems(js, items)| ==> Shown(js, JsItems(js, items)[i])
    decreases items, 0
  {
    if items != [] {
      ParsedIsShown(js, items[0]);
      ParsedItemsShown(js, items[1..]);
    }
  }

  lemma {:induction false} ParsedEntriesShown(js: Numbers, es: seq<Pair<Json>>)
    requires forall t :: js(t).Some? ==> js(js(t).value) == js(t)
    ensures forall i :: 0 <= i < |JsEntries(js, es)| ==> Shown(js, JsEntries(js, es)[i].value)
    decreases es, 0
  {
    if es != [] {
      ParsedIsShown(js, es[0].value);
      ParsedEntriesShown(js, es[1..]);
    }
  }

  // ----- Raw bodies

  /**
   * A raw body, with any white space, escapes, number notation, key order and
   * repeated keys, gets the text of a parsed object exactly when its strings are
   * exact and the two hold the same entries.
   */
  lemma RawIsParsed(js: Numbers, body: Item, received: Json)
    requires WellFormed(received)
    ensures CanonicalizePayload(js, Raw(Spell(body))) == CanonicalizePayload(js, Parsed(received)) <==>
            Exact(body.tree) && Reordered(Kept(JsValue(js, ValueOf(body.tree))), Kept(received))
  {
    SpellingIsRead(body);
    JsWellFormed(js, ValueOf(body.tree));
    PayloadTextIffReordered(JsValue(js, ValueOf(body.tree)), received);
  }

  /** A raw body is rejected exactly when it is outside the grammar of JSON; lone surrogates are set apart. */
  lemma RawRejectedIff(js: Numbers, text: string)
    ensures CanonicalizePayload(js, Raw(text)) == Rejected <==> forall body :: Spell(body) != text
    ensures CanonicalizePayload(js, Raw(text)) == NotScalar <==> exists body :: Spell(body) == text && !Exact(body.tree)
  {
    ReadIff(text, Null);
  }

  /** What the sender printed is signed like the value itself. */
  lemma PrintedBody(js: Numbers, sent: Json)
    requires WellFormed(sent) && Shown(js, sent)
    ensures CanonicalizePayload(js, Raw(Print(Stringify, sent))) == CanonicalizePayload(js, Parsed(sent))
  {
    RoundTrip(Stringify, sent);
    JsSame(js, sent);
  }

  // ----- Numbers in bodies

  /** A body that is one number. */
  function NumberBody(literal: NumberText): Item { Item("", NumText(literal), "") }

  lemma NumberBodySpelled(literal: NumberText)
    ensures Spell(NumberBody(literal)) == literal
  {
    var body := NumberBody(literal);
    var after: string := body.after + [];
    assert after == "" && Write(body.tree, after) == literal + after == literal;
    assert body.before + literal == literal;
  }

  lemma NumberBodyText(js: Numbers, literal: NumberText)
    ensures CanonicalizePayload(js, Raw(literal)) == Signed(match js(literal) case Some(shown) => shown case None => "null")
  {
    NumberBodySpelled(literal);
    SpellingIsRead(NumberBody(literal));
  }

  lemma LiteralIsNotNull(literal: NumberText)
    ensures literal != "null"
  {
    LiteralStart(literal);
  }

  /** Two number literals are signed alike exactly when JavaScript makes one number of them. */
  lemma NumbersAlikeIff(js: Numbers, a: NumberText, b: NumberText)
    ensures CanonicalizePayload(js, Raw(a)) == CanonicalizePayload(js, Raw(b)) <==> js(a) == js(b)
  {
    NumberBodyText(js, a);
    NumberBodyText(js, b);
    if js(a).Some? { LiteralIsNotNull(js(a).value); }
    if js(b).Some? { LiteralIsNotNull(js(b).value); }
  }

  lemma DecimalIsNumber(whole: string, digits: string)
    requires IsCanonical(whole) && AllDigits(digits) && digits != ""
    ensures IsNumberText(whole + "." + digits)
  {
    var fraction := "." + digits;
    assert fraction[1..] == digits;
    PartsAreLiteral("", whole, fraction, "");
    assert fraction + "" == fraction && "" + (whole + fraction) == whole + "." + digits;
  }

  /** Fractions are accepted: an amount that JavaScript writes as it was sent is signed as it was sent. */
  lemma FractionIsSigned(js: Numbers, whole: string, digits: string)
    requires IsCanonical(whole) && AllDigits(digits) && digits != ""
    ensures IsNumberText(whole + "." + digits)
    ensures js(whole + "." + digits) == Some(whole + "." + digits) ==>
              CanonicalizePayload(js, Raw(whole + "." + digits)) == Signed(whole + "." + digits)
  {
    DecimalIsNumber(whole, digits);
    NumberBodyText(js, whole + "." + digits);
  }

  /** The amount 45.5, for instance. */
  lemma AmountIsSigned(js: Numbers)
    ensures IsNumberText("45.5")
    ensures js("45.5") == Some("45.5") ==> CanonicalizePayload(js, Raw("45.5")) == Signed("45.5")
  {
    assert "45" + "." + "5" == "45.5";
    FractionIsSigned(js, "45", "5");
  }

  /** Integers beyond 2^53 - 1 are rounded: 9007199254740993 is signed like 9007199254740992. */
  lemma RoundedAlike(js: Numbers) returns (a: NumberText, b: NumberText)
    ensures a == IntText(9007199254740993) && b == IntText(9007199254740992) && a != b
    ensures js(a) == js(b) ==> CanonicalizePayload(js, Raw(a)) == CanonicalizePayload(js, Raw(b))
  {
    IntTextIsNumber(9007199254740993);
    IntTextIsNumber(9007199254740992);
    IntTextInjective(9007199254740993, 9007199254740992);
    a, b := IntText(9007199254740993), IntText(9007199254740992);
    NumbersAlikeIff(js, a, b);
  }
}
