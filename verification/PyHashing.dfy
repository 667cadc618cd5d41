/** sdk-python/src/tonbankcard_merchant/hashing.py: canonical_json, and its agreement with the other SDKs. */
module PyHashing {
  import opened Text
  import opened JsNumbers
  import opened Numerals
  import opened Json
  import opened CanonicalJson
  import opened OrderAgreement
  import opened DirectText
  import Go = GoHashing
  import Ts = TsHashing

  datatype PyValue =
    | PyNone
    | PyStr(s: string)
    | PyBool(b: bool)
    | PyInt(n: int)
    | PyFloat
    | PyList(items: seq<PyValue>)
    | PyDict(entries: seq<Pair<PyValue>>)
    | PyOddDict // a mapping with a key that is no string
    | PyOther

  /** _normalize_canonical_json; None stands for the TypeError. */
  function PyNormalize(v: PyValue): Option<Json>
    decreases v, 1
  {
    match v
    case PyNone => Some(Null)
    case PyStr(s) => Some(Str(s))
    case PyBool(b) => Some(Bool(b))
    case PyInt(n) => if -MAX_SAFE_INTEGER <= n <= MAX_SAFE_INTEGER then Some(IntNum(n)) else None
    case PyFloat => None
    case PyList(items) =>
      (match PyItems(items)
       case Some(js) => Some(Arr(js))
       case None => None)
    case PyDict(entries) =>
      (match PyEntries(entries)
       case Some(js) => Some(Obj(js))
       case None => None)
    case PyOddDict => None
    case PyOther => None
  }

  function PyItems(items: seq<PyValue>): Option<seq<Json>>
    decreases items, 0
  {
    if items == [] then Some([])
    else match (PyNormalize(items[0]), PyItems(items[1..]))
      case (Some(j), Some(js)) => Some([j] + js)
      case _ => None
  }

  function PyEntries(es: seq<Pair<PyValue>>): Option<seq<Pair<Json>>>
    decreases es, 0
  {
    if es == [] then Some([])
    else match (PyNormalize(es[0].value), PyEntries(es[1..]))
      case (Some(j), Some(js)) => Some([Pair(es[0].key, j)] + js)
      case _ => None
  }

  /** canonical_json: json.dumps with sorted keys, then the two separators are escaped in the whole text. */
  function PyCanonicalJson(v: PyValue): Option<string> {
    match PyNormalize(v)
    case None => None
    case Some(j) => Some(EscapeSeparators(Print(Stringify, SortTree(CODE_POINT, j))))
  }

  // ----- Escaping the text is escaping its strings

  lemma EscapeSeparatorsAscii(s: string)
    requires forall i :: 0 <= i < |s| ==> s[i] as int < 0x80
    ensures EscapeSeparators(s) == s
  {
    EscapeSeparatorsNone(s);
  }

  lemma EscapeSeparatorsThree(a: string, b: string, c: string)
    ensures EscapeSeparators(a + b + c) == EscapeSeparators(a) + EscapeSeparators(b) + EscapeSeparators(c)
  {
    EscapeSeparatorsConcat(a + b, c);
    EscapeSeparatorsConcat(a, b);
  }

  lemma {:induction false} EscapedPrint(v: Json)
    ensures EscapeSeparators(Print(Stringify, v)) == Print(Canonical, v)
    decreases v, 1
  {
    match v
    case Num(literal) =>
      LiteralAscii(literal);
      EscapeSeparatorsAscii(literal);
    case Str(s) => EncodeStringIsGo(s);
    case Arr(items) =>
      EscapedItems(items);
      EscapeSeparatorsThree(['['], PrintItems(Stringify, items), [']']);
      EscapeSeparatorsAscii(['[']);
      EscapeSeparatorsAscii([']']);
    case Obj(entries) =>
      EscapedEntries(entries);
      EscapeSeparatorsThree(['{'], PrintEntries(Stringify, entries), ['}']);
      EscapeSeparatorsAscii(['{']);
      EscapeSeparatorsAscii(['}']);
    case Null => EscapeSeparatorsAscii("null");
    case Bool(b) => EscapeSeparatorsAscii(if b then "true" else "false");
  }

  lemma {:induction false} EscapedItems(items: seq<Json>)
    ensures EscapeSeparators(PrintItems(Stringify, items)) == PrintItems(Canonical, items)
    decreases items, 0
  {
    if items == [] {
      EscapeSeparatorsAscii([]);
    } else {
      EscapedPrint(items[0]);
      if |items| > 1 {
        EscapedItems(items[1..]);
        EscapeSeparatorsThree(Print(Stringify, items[0]), [','], PrintItems(Stringify, items[1..]));
        EscapeSeparatorsAscii([',']);
      }
    }
  }

  lemma {:induction false} EscapedEntry(e: Pair<Json>)
    ensures EscapeSeparators(PrintEntry(Stringify, e)) == PrintEntry(Canonical, e)
    decreases e, 2
  {
    EncodeStringIsGo(e.key);
    EscapedPrint(e.value);
    EscapeSeparatorsThree(Quote(Stringify, e.key), [':'], Print(Stringify, e.value));
    EscapeSeparatorsAscii([':']);
  }

  lemma {:induction false} EscapedEntries(entries: seq<Pair<Json>>)
    ensures EscapeSeparators(PrintEntries(Stringify, entries)) == PrintEntries(Canonical, entries)
    decreases entries, 0
  {
    if entries == [] {
      EscapeSeparatorsAscii([]);
    } else {
      EscapedEntry(entries[0]);
      if |entries| > 1 {
        EscapedEntries(entries[1..]);
        EscapeSeparatorsThree(PrintEntry(Stringify, entries[0]), [','], PrintEntries(Stringify, entries[1..]));
        EscapeSeparatorsAscii([',']);
      }
    }
  }

  /** The Python text is the code-point-sorted canonical text. */
  lemma PyTextIs(v: PyValue)
    ensures PyCanonicalJson(v) ==
            match PyNormalize(v) case None => None case Some(j) => Some(CanonicalText(Canonical, CODE_POINT, j))
  {
    if PyNormalize(v).Some? { EscapedPrint(SortTree(CODE_POINT, PyNormalize(v).value)); }
  }

  // ----- Agreement with the other SDKs

  /** No dictionary has a key twice: an invariant of Python dictionaries. */
  predicate IsPyValue(v: PyValue) {
    match v
    case PyList(items) => forall i :: 0 <= i < |items| ==> IsPyValue(items[i])
    case PyDict(es) => Distinct(es) && forall i :: 0 <= i < |es| ==> IsPyValue(es[i].value)
    case _ => true
  }

  lemma {:induction false} PyWellFormed(v: PyValue)
    requires IsPyValue(v) && PyNormalize(v).Some?
    ensures WellFormed(PyNormalize(v).value)
    decreases v, 1
  {
    match v
    case PyList(items) => PyItemsWellFormed(items);
    case PyDict(es) => PyEntriesWellFormed(es);
    case _ =>
  }

  lemma {:induction false} PyItemsWellFormed(items: seq<PyValue>)
    requires PyItems(items).Some? && forall i :: 0 <= i < |items| ==> IsPyValue(items[i])
    ensures WellFormedItems(PyItems(items).value)
    decreases items, 0
  {
    if items != [] {
      PyWellFormed(items[0]);
      PyItemsWellFormed(items[1..]);
      assert PyItems(items).value[1..] == PyItems(items[1..]).value;
    }
  }

  lemma {:induction false} PyEntriesWellFormed(es: seq<Pair<PyValue>>)
    requires PyEntries(es).Some? && forall i :: 0 <= i < |es| ==> IsPyValue(es[i].value)
    ensures var js := PyEntries(es).value;
            WellFormedEntries(js) && |js| == |es| && forall i :: 0 <= i < |es| ==> js[i].key == es[i].key
    decreases es, 0
  {
    if es != [] {
      PyWellFormed(es[0].value);
      PyEntriesWellFormed(es[1..]);
      assert PyEntries(es).value[1..] == PyEntries(es[1..]).value;
    }
  }

  /**
   * Three SDKs, one text: accepted Go, TypeScript and Python values have the same
   * canonical text, pairwise, exactly when they stand for the same JSON value.
   */
  lemma ThreeSdksAgree(g: Go.GoValue, t: Ts.TsValue, v: PyValue)
    requires Go.IsGoValue(g) && Go.Normalize(g).Success?
    requires Ts.IsTsValue(t) && Ts.ToJson(t).Some?
    requires IsPyValue(v) && PyNormalize(v).Some?
    ensures Go.CanonicalJSON(g).Success? && Ts.CanonicalJsonTs(t).Some? && PyCanonicalJson(v).Some?
    ensures Go.CanonicalJSON(g).value == PyCanonicalJson(v).value <==>
            Denote(Go.Normalize(g).value) == Denote(PyNormalize(v).value)
    ensures Ts.CanonicalJsonTs(t).value == PyCanonicalJson(v).value <==>
            Denote(Ts.ToJson(t).value) == Denote(PyNormalize(v).value)
  {
    var j, k, l := Go.Normalize(g).value, Ts.ToJson(t).value, PyNormalize(v).value;
    PyWellFormed(v);
    PyTextIs(v);
    Go.NormalizeWellFormed(g);
    Go.CanonicalJSONText(g);
    Utf8TextIsCodePointText(Canonical, j);
    CanonicalTextIffMeaning(Canonical, CODE_POINT, j, l);
    Ts.ToJsonWellFormed(t);
    Ts.TextIsDirect(t);
    DirectIsPrinted(Canonical, CODE_POINT, k);
    CanonicalTextIffMeaning(Canonical, CODE_POINT, k, l);
  }
}
