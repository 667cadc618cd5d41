/** sdk/src/utils.ts: the TypeScript canonicalJson, and its agreement with the Go SDK. */
module TsHashing {
  import opened Text
  import opened Decimal
  import opened JsNumbers
  import opened Json
  import opened CanonicalJson
  import opened OrderAgreement
  import opened DirectText
  import Go = GoHashing

  datatype TsValue =
    | TsNull
    | TsBigInt(n: int)
    | TsString(s: string)
    | TsBool(b: bool)
    | TsNumber(x: JsNumber)
    | TsArray(items: seq<TsValue>)
    | TsObject(entries: seq<Pair<TsValue>>)
    | TsExoticObject
    | TsOther
    | TsHole // a missing element of a sparse array; not a value of its own

  /** canonicalJson; None stands for the TypeError. */
  function CanonicalJsonTs(v: TsValue): Option<string>
    decreases v, 1
  {
    match v
    case TsNull => Some("null")
    case TsBigInt(n) => Some(EncodeString(IntText(n)))
    case TsString(s) => Some(EncodeString(s))
    case TsBool(b) => Some(if b then "true" else "false")
    case TsNumber(x) => if IsSafeInteger(x) then Some(IntText(x.value.Floor)) else None
    case TsArray(items) =>
      (match TextItems(items)
       case Some(ts) => Some(['['] + Join(ts) + [']'])
       case None => None)
    case TsObject(entries) =>
      (match TextValues(entries)
       case Some(ts) => Some(['{'] + Join(Members(Canonical, Sort(CODE_POINT, ts))) + ['}'])
       case None => None)
    case TsExoticObject => None
    case TsOther => None
    case TsHole => None
  }

  /** value.map(canonicalJson): holes stay holes, which join writes as nothing. */
  function TextItems(items: seq<TsValue>): Option<seq<string>>
    decreases items, 0
  {
    if items == [] then Some([])
    else match (if items[0].TsHole? then Some("") else CanonicalJsonTs(items[0]), TextItems(items[1..]))
      case (Some(t), Some(ts)) => Some([t] + ts)
      case _ => None
  }

  function TextValues(es: seq<Pair<TsValue>>): Option<seq<Pair<string>>>
    decreases es, 0
  {
    if es == [] then Some([])
    else match (CanonicalJsonTs(es[0].value), TextValues(es[1..]))
      case (Some(t), Some(ts)) => Some([Pair(es[0].key, t)] + ts)
      case _ => None
  }

  /** The JSON value a TypeScript value stands for; an array that is one hole is written like the empty array. */
  function ToJson(v: TsValue): Option<Json>
    decreases v, 1
  {
    match v
    case TsNull => Some(Null)
    case TsBigInt(n) => Some(Str(IntText(n)))
    case TsString(s) => Some(Str(s))
    case TsBool(b) => Some(Bool(b))
    case TsNumber(x) => if IsSafeInteger(x) then Some(IntNum(x.value.Floor)) else None
    case TsArray(items) =>
      if items == [TsHole] then Some(Arr([]))
      else (match ItemsToJson(items)
            case Some(js) => Some(Arr(js))
            case None => None)
    case TsObject(entries) =>
      (match ValuesToJson(entries)
       case Some(js) => Some(Obj(js))
       case None => None)
    case TsExoticObject => None
    case TsOther => None
    case TsHole => None
  }

  function ItemsToJson(items: seq<TsValue>): Option<seq<Json>>
    decreases items, 0
  {
    if items == [] then Some([])
    else match (ToJson(items[0]), ItemsToJson(items[1..]))
      case (Some(j), Some(js)) => Some([j] + js)
      case _ => None
  }

  function ValuesToJson(es: seq<Pair<TsValue>>): Option<seq<Pair<Json>>>
    decreases es, 0
  {
    if es == [] then Some([])
    else match (ToJson(es[0].value), ValuesToJson(es[1..]))
      case (Some(j), Some(js)) => Some([Pair(es[0].key, j)] + js)
      case _ => None
  }

  /** The SDK's one-pass text is the direct text of the JSON value. */
  lemma {:induction false} TextIsDirect(v: TsValue)
    requires ToJson(v).Some?
    ensures CanonicalJsonTs(v) == Some(Direct(Canonical, CODE_POINT, ToJson(v).value))
    decreases v, 1
  {
    match v
    case TsArray(items) =>
      if items == [TsHole] {
        assert items[1..] == [] && TextItems([]) == Some([]) && [""] + [] == [""];
        assert TextItems(items) == Some([""]);
      } else {
        TextItemsDirect(items);
      }
    case TsObject(es) => TextValuesDirect(es);
    case _ =>
  }

  lemma {:induction false} TextItemsDirect(items: seq<TsValue>)
    requires ItemsToJson(items).Some?
    ensures TextItems(items) == Some(DirectItems(Canonical, CODE_POINT, ItemsToJson(items).value))
    decreases items, 0
  {
    if items != [] {
      TextIsDirect(items[0]);
      TextItemsDirect(items[1..]);
      assert ItemsToJson(items).value[1..] == ItemsToJson(items[1..]).value;
    }
  }

  lemma {:induction false} TextValuesDirect(es: seq<Pair<TsValue>>)
    requires ValuesToJson(es).Some?
    ensures TextValues(es) == Some(DirectValues(Canonical, CODE_POINT, ValuesToJson(es).value))
    decreases es, 0
  {
    if es != [] {
      TextIsDirect(es[0].value);
      TextValuesDirect(es[1..]);
      assert ValuesToJson(es).value[1..] == ValuesToJson(es[1..]).value;
    }
  }

  /** No object has a key twice: an invariant of JavaScript objects. */
  predicate IsTsValue(v: TsValue) {
    match v
    case TsArray(items) => forall i :: 0 <= i < |items| ==> IsTsValue(items[i])
    case TsObject(es) => Distinct(es) && forall i :: 0 <= i < |es| ==> IsTsValue(es[i].value)
    case _ => true
  }

  lemma {:induction false} ToJsonWellFormed(v: TsValue)
    requires IsTsValue(v) && ToJson(v).Some?
    ensures WellFormed(ToJson(v).value)
    decreases v, 1
  {
    match v
    case TsArray(items) => if items != [TsHole] { ItemsWellFormed(items); }
    case TsObject(es) => ValuesWellFormed(es);
    case _ =>
  }

  lemma {:induction false} ItemsWellFormed(items: seq<TsValue>)
    requires ItemsToJson(items).Some? && forall i :: 0 <= i < |items| ==> IsTsValue(items[i])
    ensures WellFormedItems(ItemsToJson(items).value)
    decreases items, 0
  {
    if items != [] {
      ToJsonWellFormed(items[0]);
      ItemsWellFormed(items[1..]);
      assert ItemsToJson(items).value[1..] == ItemsToJson(items[1..]).value;
    }
  }

  lemma {:induction false} ValuesWellFormed(es: seq<Pair<TsValue>>)
    requires ValuesToJson(es).Some? && forall i :: 0 <= i < |es| ==> IsTsValue(es[i].value)
    ensures var js := ValuesToJson(es).value;
            WellFormedEntries(js) && |js| == |es| && forall i :: 0 <= i < |es| ==> js[i].key == es[i].key
    decreases es, 0
  {
    if es != [] {
      ToJsonWellFormed(es[0].value);
      ValuesWellFormed(es[1..]);
      assert ValuesToJson(es).value[1..] == ValuesToJson(es[1..]).value;
    }
  }

  /**
   * Cross-SDK agreement: an accepted Go value and an accepted TypeScript value
   * get the same canonical text exactly when they stand for the same JSON value.
   */
  lemma SdksAgree(g: Go.GoValue, t: TsValue)
    requires Go.IsGoValue(g) && Go.Normalize(g).Success?
    requires IsTsValue(t) && ToJson(t).Some?
    ensures Go.CanonicalJSON(g).Success? && CanonicalJsonTs(t).Some?
    ensures Go.CanonicalJSON(g).value == CanonicalJsonTs(t).value <==>
            Denote(Go.Normalize(g).value) == Denote(ToJson(t).value)
  {
    var j, k := Go.Normalize(g).value, ToJson(t).value;
    Go.NormalizeWellFormed(g);
    Go.CanonicalJSONText(g);
    ToJsonWellFormed(t);
    TextIsDirect(t);
    DirectIsPrinted(Canonical, CODE_POINT, k);
    Utf8TextIsCodePointText(Canonical, j);
    CanonicalTextIffMeaning(Canonical, CODE_POINT, j, k);
  }
}
