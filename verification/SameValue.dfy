/**
 * One value in three languages: a relation between Go, TypeScript and Python
 * values that names no normaliser, and the text all three SDKs give them.
 */
module SameValue {
  import opened Text
  import opened Decimal
  import opened JsNumbers
  import opened Json
  import opened CanonicalJson
  import opened OrderAgreement
  import opened DirectText
  import opened GoHashing
  import opened TsHashing
  import opened PyHashing
  import opened ArrayHoles

  /** A number that is no whole number, or infinite, or NaN. */
  predicate NotWhole(x: JsNumber) { x.Finite? ==> !IsInteger(x.value) }

  /** The decimal notation of an integer: a minus for negative ones, and its digits without leading zeros. */
  predicate IsNotation(s: string, n: int) {
    if n < 0 then s != "" && s[0] == '-' && IsCanonical(s[1..]) && Value(s[1..]) == -n
    else IsCanonical(s) && Value(s) == n
  }

  /** The same null, truth value, text, number or big integer (in Python, its notation), and the same kinds of values no SDK accepts. */
  predicate SameLeaf(g: GoValue, t: TsValue, p: PyValue) {
    match g
    case GoNil => t.TsNull? && p.PyNone?
    case GoNilBigInt => t.TsNull? && p.PyNone?
    case GoString(s) => t == TsString(s) && p == PyStr(s)
    case GoBool(b) => t == TsBool(b) && p == PyBool(b)
    case GoInt(n) => t == TsNumber(Finite(n as real)) && p == PyInt(n)
    case GoUint(u) => t == TsNumber(Finite(u as real)) && p == PyInt(u)
    case GoBigInt(n) => t == TsBigInt(n) && p.PyStr? && IsNotation(p.s, n)
    case GoFloat => t.TsNumber? && NotWhole(t.x) && p.PyFloat?
    case GoNonStringMap => t.TsExoticObject? && p.PyOddDict?
    case GoOther => (t.TsOther? || t.TsExoticObject?) && p.PyOther?
    case _ => false
  }

  /** The same leaf; or lists of the same values in order; or objects with the same values under the same keys, in any order. */
  ghost predicate Same(g: GoValue, t: TsValue, p: PyValue) {
    match g
    case GoSlice(items) =>
      && t.TsArray? && p.PyList? && |t.items| == |items| && |p.items| == |items|
      && forall i :: 0 <= i < |items| ==> Same(items[i], t.items[i], p.items[i])
    case GoMap(es) =>
      && t.TsObject? && p.PyDict? && |t.entries| == |es| && |p.entries| == |es|
      && forall i :: 0 <= i < |es| ==> exists j, k ::
           && 0 <= j < |es| && 0 <= k < |es| && t.entries[j].key == es[i].key && p.entries[k].key == es[i].key
           && Same(es[i].value, t.entries[j].value, p.entries[k].value)
    case _ => SameLeaf(g, t, p)
  }

  // ----- Decimal notation

  lemma NotationIff(s: string, n: int)
    ensures IsNotation(s, n) <==> s == IntText(n)
  {
    if n < 0 {
      DigitsNotation(s, -n);
      if s != "" && s[0] == '-' { assert s == "-" + s[1..]; DigitsNotation(s[1..], -n); }
      assert ("-" + ToDec(-n))[1..] == ToDec(-n);
      DigitsNotation(ToDec(-n), -n);
    } else {
      DigitsNotation(s, n);
    }
  }

  lemma DigitsNotation(s: string, n: nat)
    ensures IsCanonical(s) && Value(s) == n <==> s == ToDec(n)
  {
    ToDecCanonical(n);
    ValueToDec(n);
    if IsCanonical(s) && Value(s) == n { ToDecOfValue(s); }
  }

  // ----- Leaves

  /** An integer is accepted in all three languages within the 53-bit range, and printed in decimal notation. */
  lemma IntegerText(n: int)
    ensures CanonicalJSON(GoInt(n)).Success? <==> -9007199254740991 <= n <= 9007199254740991
    ensures CanonicalJSON(GoInt(n)).Success? ==>
              && IsNotation(CanonicalJSON(GoInt(n)).value, n)
              && CanonicalJsonTs(TsNumber(Finite(n as real))) == PyCanonicalJson(PyInt(n)) == Some(CanonicalJSON(GoInt(n)).value)
    ensures CanonicalJSON(GoInt(n)).Failure? ==>
              && CanonicalJSON(GoInt(n)).error == UnsafeInteger
              && CanonicalJsonTs(TsNumber(Finite(n as real))) == PyCanonicalJson(PyInt(n)) == None
  {
    NotationIff(IntText(n), n);
    GoIntegerText(n);
    TsIntegerText(n);
    PyIntegerText(n);
  }

  predicate Safe(n: int) { -9007199254740991 <= n <= 9007199254740991 }

  lemma GoIntegerText(n: int)
    ensures CanonicalJSON(GoInt(n)) == if Safe(n) then Success(IntText(n)) else Failure(UnsafeInteger)
  {
    if Safe(n) { CanonicalJSONText(GoInt(n)); }
  }

  lemma TsIntegerText(n: int)
    ensures CanonicalJsonTs(TsNumber(Finite(n as real))) == if Safe(n) then Some(IntText(n)) else None
  {
    assert (n as real).Floor == n;
  }

  lemma PyIntegerText(n: int)
    ensures PyCanonicalJson(PyInt(n)) == if Safe(n) then Some(IntText(n)) else None
  {
    PyTextIs(PyInt(n));
  }

  /** Unsigned integers are printed like signed ones. */
  lemma UnsignedText(u: nat)
    ensures CanonicalJSON(GoUint(u)) == CanonicalJSON(GoInt(u))
  {}

  /** Null is printed as such in all three languages. */
  lemma NullText()
    ensures CanonicalJSON(GoNil) == CanonicalJSON(GoNilBigInt) == Success("null")
    ensures CanonicalJsonTs(TsNull) == PyCanonicalJson(PyNone) == Some("null")
  {
    CanonicalJSONText(GoNil);
    CanonicalJSONText(GoNilBigInt);
    PyTextIs(PyNone);
  }

  /** So are truth values. */
  lemma BoolText(b: bool)
    ensures var word := if b then "true" else "false";
            CanonicalJSON(GoBool(b)) == Success(word) && CanonicalJsonTs(TsBool(b)) == PyCanonicalJson(PyBool(b)) == Some(word)
  {
    CanonicalJSONText(GoBool(b));
    PyTextIs(PyBool(b));
  }

  /** What Go refuses, and why. */
  lemma RefusedLeaves()
    ensures CanonicalJSON(GoFloat) == Failure(FloatingPoint) && CanonicalJSON(GoNonStringMap) == Failure(NonStringKeys)
    ensures CanonicalJSON(GoOther) == Failure(UnsupportedKind)
  {}

  /** A text is its string literal in all three languages; a big integer is the literal of its decimal notation. */
  lemma TextText(s: string, n: int)
    ensures CanonicalJSON(GoString(s)) == Success(Quote(Canonical, s))
    ensures CanonicalJsonTs(TsString(s)) == PyCanonicalJson(PyStr(s)) == Some(Quote(Canonical, s))
    ensures IsNotation(s, n) ==>
              CanonicalJSON(GoBigInt(n)) == Success("\"" + s + "\"") && CanonicalJsonTs(TsBigInt(n)) == Some("\"" + s + "\"")
  {
    CanonicalJSONText(GoString(s));
    CanonicalJSONText(GoBigInt(n));
    EncodeStringIsGo(s);
    PyTextIs(PyStr(s));
    if IsNotation(s, n) {
      NotationIff(s, n);
      EncodeStringIsGo(s);
      NotationUnescaped(n);
    }
  }

  lemma NotationUnescaped(n: int)
    ensures Quote(Canonical, IntText(n)) == "\"" + IntText(n) + "\""
  {
    var s := IntText(n);
    var digits := ToDec(if n < 0 then -n else n);
    assert forall i :: 0 <= i < |digits| ==> IsDigit(digits[i]);
    DigitsUnescaped(digits);
    if n < 0 { assert s[1..] == digits && Escape(Canonical, s) == "-" + Escape(Canonical, digits); }
  }

  lemma {:induction false} DigitsUnescaped(s: string)
    requires AllDigits(s)
    ensures Escape(Canonical, s) == s
  {
    if s != "" {
      DigitsUnescaped(s[1..]);
      assert IsDigit(s[0]) && s == [s[0]] + s[1..];
    }
  }

  // ----- Same values, same text

  lemma SameLeafJson(g: GoValue, t: TsValue, p: PyValue)
    requires SameLeaf(g, t, p)
    ensures Normalize(g).Success? <==> ToJson(t).Some?
    ensures Normalize(g).Success? <==> PyNormalize(p).Some?
    ensures Normalize(g).Success? ==> ToJson(t) == PyNormalize(p) == Some(Normalize(g).value)
  {
    match g
    case GoInt(n) => assert (n as real).Floor == n;
    case GoUint(u) => assert (u as real).Floor == u;
    case GoBigInt(n) => NotationIff(p.s, n);
    case _ =>
  }

  /** What an SDK accepts of a list is what it accepts of each item. */
  lemma {:induction false} ItemsNormalized(items: seq<GoValue>)
    ensures NormalizeItems(items).Success? <==> forall i :: 0 <= i < |items| ==> Normalize(items[i]).Success?
    ensures NormalizeItems(items).Success? ==>
              && |NormalizeItems(items).value| == |items|
              && forall i :: 0 <= i < |items| ==> Normalize(items[i]) == Success(NormalizeItems(items).value[i])
  {
    if items != [] {
      var tail := items[1..];
      ItemsNormalized(tail);
      assert forall i :: 0 < i < |items| ==> items[i] == tail[i - 1];
      assert forall i :: 0 <= i < |tail| ==> tail[i] == items[i + 1];
    }
  }

  lemma {:induction false} EntriesNormalized(es: seq<Pair<GoValue>>)
    ensures NormalizeEntries(es).Success? <==> forall i :: 0 <= i < |es| ==> Normalize(es[i].value).Success?
    ensures NormalizeEntries(es).Success? ==>
              && |NormalizeEntries(es).value| == |es|
              && forall i :: 0 <= i < |es| ==>
                   NormalizeEntries(es).value[i].key == es[i].key && Normalize(es[i].value) == Success(NormalizeEntries(es).value[i].value)
  {
    if es != [] {
      var tail := es[1..];
      EntriesNormalized(tail);
      assert forall i :: 0 < i < |es| ==> es[i] == tail[i - 1];
      assert forall i :: 0 <= i < |tail| ==> tail[i] == es[i + 1];
    }
  }

  lemma {:induction false} TsItemsJson(items: seq<TsValue>)
    ensures ItemsToJson(items).Some? <==> forall i :: 0 <= i < |items| ==> ToJson(items[i]).Some?
    ensures ItemsToJson(items).Some? ==>
              && |ItemsToJson(items).value| == |items|
              && forall i :: 0 <= i < |items| ==> ToJson(items[i]) == Some(ItemsToJson(items).value[i])
  {
    if items != [] {
      var tail := items[1..];
      TsItemsJson(tail);
      assert forall i :: 0 < i < |items| ==> items[i] == tail[i - 1];
      assert forall i :: 0 <= i < |tail| ==> tail[i] == items[i + 1];
    }
  }

  lemma {:induction false} TsEntriesJson(es: seq<Pair<TsValue>>)
    ensures ValuesToJson(es).Some? <==> forall i :: 0 <= i < |es| ==> ToJson(es[i].value).Some?
    ensures ValuesToJson(es).Some? ==>
              && |ValuesToJson(es).value| == |es|
              && forall i :: 0 <= i < |es| ==>
                   ValuesToJson(es).value[i].key == es[i].key && ToJson(es[i].value) == Some(ValuesToJson(es).value[i].value)
  {
    if es != [] {
      var tail := es[1..];
      TsEntriesJson(tail);
      assert forall i :: 0 < i < |es| ==> es[i] == tail[i - 1];
      assert forall i :: 0 <= i < |tail| ==> tail[i] == es[i + 1];
    }
  }

  lemma {:induction false} PyItemsJson(items: seq<PyValue>)
    ensures PyItems(items).Some? <==> forall i :: 0 <= i < |items| ==> PyNormalize(items[i]).Some?
    ensures PyItems(items).Some? ==>
              && |PyItems(items).value| == |items|
              && forall i :: 0 <= i < |items| ==> PyNormalize(items[i]) == Some(PyItems(items).value[i])
  {
    if items != [] {
      var tail := items[1..];
      PyItemsJson(tail);
      assert forall i :: 0 < i < |items| ==> items[i] == tail[i - 1];
      assert forall i :: 0 <= i < |tail| ==> tail[i] == items[i + 1];
    }
  }

  lemma {:induction false} PyEntriesJson(es: seq<Pair<PyValue>>)
    ensures PyEntries(es).Some? <==> forall i :: 0 <= i < |es| ==> PyNormalize(es[i].value).Some?
    ensures PyEntries(es).Some? ==>
              && |PyEntries(es).value| == |es|
              && forall i :: 0 <= i < |es| ==>
                   PyEntries(es).value[i].key == es[i].key && PyNormalize(es[i].value) == Some(PyEntries(es).value[i].value)
  {
    if es != [] {
      var tail := es[1..];
      PyEntriesJson(tail);
      assert forall i :: 0 < i < |es| ==> es[i] == tail[i - 1];
      assert forall i :: 0 <= i < |tail| ==> tail[i] == es[i + 1];
    }
  }

  /** The JSON values of one value are reorderings of each other; and all three SDKs accept it, or none does. */
  ghost predicate OneJson(g: GoValue, t: TsValue, p: PyValue) {
    && (Normalize(g).Success? <==> ToJson(t).Some?)
    && (Normalize(g).Success? <==> PyNormalize(p).Some?)
    && HolesAlone(t)
    && (Normalize(g).Success? ==>
          Reordered(Normalize(g).value, ToJson(t).value) && Reordered(Normalize(g).value, PyNormalize(p).value))
  }

  /** Two lists without repeated keys and of one length, one's keys among the other's: each key of either is in both. */
  lemma KeysCovered<T, U>(a: seq<Pair<T>>, b: seq<Pair<U>>, j: nat) returns (i: nat)
    requires Distinct(a) && Distinct(b) && |a| == |b| && j < |b|
    requires forall i :: 0 <= i < |a| ==> a[i].key in Keys(b)
    ensures i < |a| && a[i].key == b[j].key
  {
    KeyCount(a);
    KeyCount(b);
    assert Keys(a) <= Keys(b);
    assert |Keys(b) - Keys(a)| == |Keys(b)| - |Keys(a)|;
    assert b[j].key in Keys(b);
    i :| 0 <= i < |a| && a[i].key == b[j].key;
  }

  lemma {:induction false} SameIsOneJson(g: GoValue, t: TsValue, p: PyValue)
    requires Same(g, t, p) && IsGoValue(g) && IsTsValue(t) && IsPyValue(p)
    ensures OneJson(g, t, p)
    decreases g, 1
  {
    match g
    case GoSlice(items) => SameItemsOneJson(items, t.items, p.items);
    case GoMap(es) => SameEntriesOneJson(es, t.entries, p.entries);
    case _ =>
      SameLeafJson(g, t, p);
      if Normalize(g).Success? { LeafReordered(g); }
  }

  lemma LeafReordered(g: GoValue)
    requires !g.GoSlice? && !g.GoMap? && Normalize(g).Success?
    ensures Reordered(Normalize(g).value, Normalize(g).value)
  {}

  lemma {:induction false} SameItemsOneJson(items: seq<GoValue>, ts: seq<TsValue>, ps: seq<PyValue>)
    requires Same(GoSlice(items), TsArray(ts), PyList(ps))
    requires IsGoValue(GoSlice(items)) && IsTsValue(TsArray(ts)) && IsPyValue(PyList(ps))
    ensures OneJson(GoSlice(items), TsArray(ts), PyList(ps))
    decreases items, 0
  {
    forall i | 0 <= i < |items| ensures OneJson(items[i], ts[i], ps[i]) && !ts[i].TsHole? {
      SameIsOneJson(items[i], ts[i], ps[i]);
      NoHole(items[i], ts[i], ps[i]);
    }
    ItemsOneJson(items, ts, ps);
  }

  lemma ItemsOneJson(items: seq<GoValue>, ts: seq<TsValue>, ps: seq<PyValue>)
    requires |ts| == |items| && |ps| == |items|
    requires forall i :: 0 <= i < |items| ==> OneJson(items[i], ts[i], ps[i]) && !ts[i].TsHole?
    ensures OneJson(GoSlice(items), TsArray(ts), PyList(ps))
  {
    GoSliceJson(items);
    TsArrayJson(ts);
    PyListJson(ps);
  }

  lemma GoSliceJson(items: seq<GoValue>)
    ensures var r := Normalize(GoSlice(items));
            && (r.Success? <==> forall i :: 0 <= i < |items| ==> Normalize(items[i]).Success?)
            && (r.Success? ==> r.value.Arr? && |r.value.items| == |items|
                               && forall i :: 0 <= i < |items| ==> Normalize(items[i]) == Success(r.value.items[i]))
  {
    ItemsNormalized(items);
  }

  lemma TsArrayJson(ts: seq<TsValue>)
    requires forall i :: 0 <= i < |ts| ==> !ts[i].TsHole?
    ensures var r := ToJson(TsArray(ts));
            && (r.Some? <==> forall i :: 0 <= i < |ts| ==> ToJson(ts[i]).Some?)
            && (r.Some? ==> r.value.Arr? && |r.value.items| == |ts|
                            && forall i :: 0 <= i < |ts| ==> ToJson(ts[i]) == Some(r.value.items[i]))
  {
    assert |ts| == 1 ==> ts != [TsHole];
    TsItemsJson(ts);
  }

  lemma PyListJson(ps: seq<PyValue>)
    ensures var r := PyNormalize(PyList(ps));
            && (r.Some? <==> forall i :: 0 <= i < |ps| ==> PyNormalize(ps[i]).Some?)
            && (r.Some? ==> r.value.Arr? && |r.value.items| == |ps|
                            && forall i :: 0 <= i < |ps| ==> PyNormalize(ps[i]) == Some(r.value.items[i]))
  {
    PyItemsJson(ps);
  }

  lemma NoHole(g: GoValue, t: TsValue, p: PyValue)
    requires Same(g, t, p)
    ensures !t.TsHole?
  {}

  lemma {:induction false} SameEntriesOneJson(es: seq<Pair<GoValue>>, ts: seq<Pair<TsValue>>, ps: seq<Pair<PyValue>>)
    requires Same(GoMap(es), TsObject(ts), PyDict(ps))
    requires IsGoValue(GoMap(es)) && IsTsValue(TsObject(ts)) && IsPyValue(PyDict(ps))
    ensures OneJson(GoMap(es), TsObject(ts), PyDict(ps))
    decreases es, 0
  {
    forall i | 0 <= i < |es| ensures HasMatch(es[i], ts, ps) {
      var j, k :| 0 <= j < |es| && 0 <= k < |es| && ts[j].key == es[i].key && ps[k].key == es[i].key
                  && Same(es[i].value, ts[j].value, ps[k].value);
      SameIsOneJson(es[i].value, ts[j].value, ps[k].value);
      assert Match(es[i], ts[j], ps[k]);
    }
    MatchedOneJson(es, ts, ps);
  }

  /** Entries with one key and one JSON value. */
  ghost predicate Match(e: Pair<GoValue>, t: Pair<TsValue>, p: Pair<PyValue>) {
    t.key == e.key && p.key == e.key && OneJson(e.value, t.value, p.value)
  }

  ghost predicate HasMatch(e: Pair<GoValue>, ts: seq<Pair<TsValue>>, ps: seq<Pair<PyValue>>) {
    exists j, k :: 0 <= j < |ts| && 0 <= k < |ps| && Match(e, ts[j], ps[k])
  }

  ghost predicate Matched(es: seq<Pair<GoValue>>, ts: seq<Pair<TsValue>>, ps: seq<Pair<PyValue>>) {
    && Distinct(es) && Distinct(ts) && Distinct(ps) && |ts| == |es| && |ps| == |es|
    && forall i :: 0 <= i < |es| ==> HasMatch(es[i], ts, ps)
  }

  lemma MatchOf(es: seq<Pair<GoValue>>, ts: seq<Pair<TsValue>>, ps: seq<Pair<PyValue>>, i: nat) returns (j: nat, k: nat)
    requires Matched(es, ts, ps) && i < |es|
    ensures j < |ts| && k < |ps| && Match(es[i], ts[j], ps[k])
  {
    assert HasMatch(es[i], ts, ps);
    j, k :| 0 <= j < |ts| && 0 <= k < |ps| && Match(es[i], ts[j], ps[k]);
  }

  /** In matched lists every entry of the other two is matched too. */
  lemma MatchedTs(es: seq<Pair<GoValue>>, ts: seq<Pair<TsValue>>, ps: seq<Pair<PyValue>>, j: nat) returns (i: nat, k: nat)
    requires Matched(es, ts, ps) && j < |ts|
    ensures i < |es| && k < |es| && Match(es[i], ts[j], ps[k])
  {
    MatchedKeys(es, ts, ps);
    i := KeysCovered(es, ts, j);
    var j', k' := MatchOf(es, ts, ps, i);
    assert j' == j;
    k := k';
  }

  lemma MatchedPy(es: seq<Pair<GoValue>>, ts: seq<Pair<TsValue>>, ps: seq<Pair<PyValue>>, k: nat) returns (i: nat, j: nat)
    requires Matched(es, ts, ps) && k < |ps|
    ensures i < |es| && j < |es| && Match(es[i], ts[j], ps[k])
  {
    MatchedKeys(es, ts, ps);
    i := KeysCovered(es, ps, k);
    var j', k' := MatchOf(es, ts, ps, i);
    assert k' == k;
    j := j';
  }

  ghost predicate GoAccepts(es: seq<Pair<GoValue>>) { forall i :: 0 <= i < |es| ==> Normalize(es[i].value).Success? }

  ghost predicate TsAccepts(ts: seq<Pair<TsValue>>) { forall j :: 0 <= j < |ts| ==> ToJson(ts[j].value).Some? }

  ghost predicate PyAccepts(ps: seq<Pair<PyValue>>) { forall k :: 0 <= k < |ps| ==> PyNormalize(ps[k].value).Some? }

  lemma MatchedAccepted(es: seq<Pair<GoValue>>, ts: seq<Pair<TsValue>>, ps: seq<Pair<PyValue>>)
    requires Matched(es, ts, ps)
    ensures GoAccepts(es) <==> TsAccepts(ts)
    ensures GoAccepts(es) <==> PyAccepts(ps)
    ensures forall j :: 0 <= j < |ts| ==> HolesAlone(ts[j].value)
  {
    if GoAccepts(es) {
      forall j | 0 <= j < |ts| ensures ToJson(ts[j].value).Some? { var i, k := MatchedTs(es, ts, ps, j); }
      forall k | 0 <= k < |ps| ensures PyNormalize(ps[k].value).Some? { var i, j := MatchedPy(es, ts, ps, k); }
    }
    forall i | 0 <= i < |es|
      ensures TsAccepts(ts) ==> Normalize(es[i].value).Success?
      ensures PyAccepts(ps) ==> Normalize(es[i].value).Success?
    {
      var j, k := MatchOf(es, ts, ps, i);
    }
    forall j | 0 <= j < |ts| ensures HolesAlone(ts[j].value) { var i, k := MatchedTs(es, ts, ps, j); }
  }

  lemma MatchedOneJson(es: seq<Pair<GoValue>>, ts: seq<Pair<TsValue>>, ps: seq<Pair<PyValue>>)
    requires Matched(es, ts, ps)
    ensures OneJson(GoMap(es), TsObject(ts), PyDict(ps))
  {
    MatchedAccepted(es, ts, ps);
    GoMapJson(es);
    TsObjectJson(ts);
    PyDictJson(ps);
    if GoAccepts(es) {
      TsReordered(es, ts, ps);
      PyReordered(es, ts, ps);
    }
  }

  lemma GoMapJson(es: seq<Pair<GoValue>>)
    ensures Normalize(GoMap(es)).Success? <==> GoAccepts(es)
    ensures NormalizeEntries(es).Success? <==> GoAccepts(es)
    ensures GoAccepts(es) ==> Normalize(GoMap(es)) == Success(Obj(NormalizeEntries(es).value))
  {
    EntriesNormalized(es);
  }

  lemma TsObjectJson(ts: seq<Pair<TsValue>>)
    ensures ToJson(TsObject(ts)).Some? <==> TsAccepts(ts)
    ensures ValuesToJson(ts).Some? <==> TsAccepts(ts)
    ensures TsAccepts(ts) ==> ToJson(TsObject(ts)) == Some(Obj(ValuesToJson(ts).value))
  {
    TsEntriesJson(ts);
  }

  lemma PyDictJson(ps: seq<Pair<PyValue>>)
    ensures PyNormalize(PyDict(ps)).Some? <==> PyAccepts(ps)
    ensures PyEntries(ps).Some? <==> PyAccepts(ps)
    ensures PyAccepts(ps) ==> PyNormalize(PyDict(ps)) == Some(Obj(PyEntries(ps).value))
  {
    PyEntriesJson(ps);
  }

  lemma MatchedEntry(es: seq<Pair<GoValue>>, ts: seq<Pair<TsValue>>, ps: seq<Pair<PyValue>>, i: nat) returns (j: nat, k: nat)
    requires Matched(es, ts, ps) && GoAccepts(es) && TsAccepts(ts) && PyAccepts(ps) && i < |es|
    ensures j < |ts| && k < |ps| && ts[j].key == es[i].key && ps[k].key == es[i].key
    ensures Reordered(Normalize(es[i].value).value, ToJson(ts[j].value).value)
    ensures Reordered(Normalize(es[i].value).value, PyNormalize(ps[k].value).value)
  {
    j, k := MatchOf(es, ts, ps, i);
  }

  lemma TsReordered(es: seq<Pair<GoValue>>, ts: seq<Pair<TsValue>>, ps: seq<Pair<PyValue>>)
    requires Matched(es, ts, ps) && GoAccepts(es) && TsAccepts(ts) && PyAccepts(ps)
    requires NormalizeEntries(es).Success? && ValuesToJson(ts).Some?
    ensures Reordered(Obj(NormalizeEntries(es).value), Obj(ValuesToJson(ts).value))
  {
    var a, b := NormalizeEntries(es).value, ValuesToJson(ts).value;
    EntriesNormalized(es);
    TsEntriesJson(ts);
    forall i | 0 <= i < |a| ensures exists j :: 0 <= j < |b| && a[i].key == b[j].key && Reordered(a[i].value, b[j].value) {
      var j, k := MatchedEntry(es, ts, ps, i);
      assert a[i].key == b[j].key && Reordered(a[i].value, b[j].value);
    }
  }

  lemma PyReordered(es: seq<Pair<GoValue>>, ts: seq<Pair<TsValue>>, ps: seq<Pair<PyValue>>)
    requires Matched(es, ts, ps) && GoAccepts(es) && TsAccepts(ts) && PyAccepts(ps)
    requires NormalizeEntries(es).Success? && PyEntries(ps).Some?
    ensures Reordered(Obj(NormalizeEntries(es).value), Obj(PyEntries(ps).value))
  {
    var a, c := NormalizeEntries(es).value, PyEntries(ps).value;
    EntriesNormalized(es);
    PyEntriesJson(ps);
    forall i | 0 <= i < |a| ensures exists k :: 0 <= k < |c| && a[i].key == c[k].key && Reordered(a[i].value, c[k].value) {
      var j, k := MatchedEntry(es, ts, ps, i);
      assert a[i].key == c[k].key && Reordered(a[i].value, c[k].value);
    }
  }

  lemma MatchedKeys(es: seq<Pair<GoValue>>, ts: seq<Pair<TsValue>>, ps: seq<Pair<PyValue>>)
    requires Matched(es, ts, ps)
    ensures forall i :: 0 <= i < |es| ==> es[i].key in Keys(ts) && es[i].key in Keys(ps)
  {
    forall i | 0 <= i < |es| ensures es[i].key in Keys(ts) && es[i].key in Keys(ps) {
      var j, k := MatchOf(es, ts, ps, i);
      assert ts[j].key in Keys(ts) && ps[k].key in Keys(ps);
    }
  }

  /**
   * One value, one text: related values are accepted by all three SDKs or by
   * none, and where they are accepted they have the same canonical text.
   */
  lemma OneText(g: GoValue, t: TsValue, p: PyValue)
    requires Same(g, t, p) && IsGoValue(g) && IsTsValue(t) && IsPyValue(p)
    ensures CanonicalJsonTs(t) == PyCanonicalJson(p) ==
            match CanonicalJSON(g) case Success(text) => Some(text) case Failure(_) => None
  {
    SameIsOneJson(g, t, p);
    PyTextIs(p);
    if Normalize(g).Success? {
      GoTextIs(g);
      TsTextIs(t);
      ToJsonWellFormed(t);
      PyWellFormed(p);
      CanonicalTextIffReordered(Canonical, CODE_POINT, Normalize(g).value, ToJson(t).value);
      CanonicalTextIffReordered(Canonical, CODE_POINT, Normalize(g).value, PyNormalize(p).value);
    } else {
      JsonIff(t);
      TextIffSupported(t);
    }
  }

  lemma GoTextIs(g: GoValue)
    requires IsGoValue(g) && Normalize(g).Success?
    ensures WellFormed(Normalize(g).value)
    ensures CanonicalJSON(g) == Success(CanonicalText(Canonical, CODE_POINT, Normalize(g).value))
  {
    NormalizeWellFormed(g);
    CanonicalJSONText(g);
    Utf8TextIsCodePointText(Canonical, Normalize(g).value);
  }

  lemma TsTextIs(t: TsValue)
    requires ToJson(t).Some?
    ensures CanonicalJsonTs(t) == Some(CanonicalText(Canonical, CODE_POINT, ToJson(t).value))
  {
    TextIsDirect(t);
    DirectIsPrinted(Canonical, CODE_POINT, ToJson(t).value);
  }
}
