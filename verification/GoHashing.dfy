/** sdk-go/hashing.go: normalisation and canonical encoding of Go values. */
module GoHashing {
  import opened Decimal
  import opened JsNumbers
  import opened Json
  import opened CanonicalJson
  import opened OrderAgreement

  /** The dynamic kinds normalizeCanonicalJSON tells apart; maps list their entries in iteration order. */
  datatype GoValue =
    | GoNil
    | GoString(s: string)
    | GoBool(b: bool)
    | GoInt(n: int)
    | GoUint(u: nat)
    | GoFloat
    | GoBigInt(big: int)
    | GoNilBigInt
    | GoSlice(items: seq<GoValue>)
    | GoMap(entries: seq<Pair<GoValue>>)
    | GoNonStringMap
    | GoOther

  datatype Error = UnsafeInteger | FloatingPoint | NonStringKeys | UnsupportedKind

  datatype Result<+T> = Success(value: T) | Failure(error: Error)

  function Normalize(v: GoValue): Result<Json>
    decreases v, 1
  {
    match v
    case GoNil => Success(Null)
    case GoString(s) => Success(Str(s))
    case GoBool(b) => Success(Bool(b))
    case GoInt(n) => if n < -MAX_SAFE_INTEGER || n > MAX_SAFE_INTEGER then Failure(UnsafeInteger) else Success(IntNum(n))
    case GoUint(u) => if u > MAX_SAFE_INTEGER then Failure(UnsafeInteger) else Success(IntNum(u))
    case GoFloat => Failure(FloatingPoint)
    case GoBigInt(big) => Success(Str(IntText(big)))
    case GoNilBigInt => Success(Null)
    case GoSlice(items) =>
      (match NormalizeItems(items)
       case Success(js) => Success(Arr(js))
       case Failure(e) => Failure(e))
    case GoMap(entries) =>
      (match NormalizeEntries(entries)
       case Success(js) => Success(Obj(js))
       case Failure(e) => Failure(e))
    case GoNonStringMap => Failure(NonStringKeys)
    case GoOther => Failure(UnsupportedKind)
  }

  function NormalizeItems(items: seq<GoValue>): Result<seq<Json>>
    decreases items, 0
  {
    if items == [] then Success([])
    else match Normalize(items[0])
      case Failure(e) => Failure(e)
      case Success(j) =>
        match NormalizeItems(items[1..])
        case Failure(e) => Failure(e)
        case Success(js) => Success([j] + js)
  }

  function NormalizeEntries(es: seq<Pair<GoValue>>): Result<seq<Pair<Json>>>
    decreases es, 0
  {
    if es == [] then Success([])
    else match Normalize(es[0].value)
      case Failure(e) => Failure(e)
      case Success(j) =>
        match NormalizeEntries(es[1..])
        case Failure(e) => Failure(e)
        case Success(js) => Success([Pair(es[0].key, j)] + js)
  }

  /** `done` followed by what is still to come. */
  function Resume<T>(done: seq<T>, rest: Result<seq<T>>): Result<seq<T>> {
    match rest
    case Failure(e) => Failure(e)
    case Success(xs) => Success(done + xs)
  }

  /** normalizeCanonicalJSON as written: recursion with loops that fill a slice or a map. */
  method NormalizeCanonicalJSON(v: GoValue) returns (r: Result<Json>)
    ensures r == Normalize(v)
    decreases v
  {
    match v {
      case GoSlice(values) =>
        var items: seq<Json> := [];
        assert values[0..] == values;
        ResumeEnds(items, NormalizeItems(values));
        for i := 0 to |values|
          invariant NormalizeItems(values) == Resume(items, NormalizeItems(values[i..]))
        {
          assert values[i..][1..] == values[i + 1..];
          var normalized := NormalizeCanonicalJSON(values[i]);
          if normalized.Failure? {
            return Failure(normalized.error);
          }
          ResumeNext(items, normalized.value, NormalizeItems(values[i + 1..]));
          items := items + [normalized.value];
        }
        ResumeEnds(items, Success([]));
        return Success(Arr(items));
      case GoMap(entries) =>
        var fields: seq<Pair<Json>> := [];
        assert entries[0..] == entries;
        ResumeEnds(fields, NormalizeEntries(entries));
        for i := 0 to |entries|
          invariant NormalizeEntries(entries) == Resume(fields, NormalizeEntries(entries[i..]))
        {
          assert entries[i..][1..] == entries[i + 1..];
          var normalized := NormalizeCanonicalJSON(entries[i].value);
          if normalized.Failure? {
            return Failure(normalized.error);
          }
          ResumeNext(fields, Pair(entries[i].key, normalized.value), NormalizeEntries(entries[i + 1..]));
          fields := fields + [Pair(entries[i].key, normalized.value)];
        }
        ResumeEnds(fields, Success([]));
        return Success(Obj(fields));
      case _ =>
        return Normalize(v);
    }
  }

  lemma ResumeEnds<T>(done: seq<T>, rest: Result<seq<T>>)
    ensures Resume([], rest) == rest && Resume(done, Success([])) == Success(done)
  {
    if rest.Success? { assert [] + rest.value == rest.value; }
    assert done + [] == done;
  }

  lemma ResumeNext<T>(done: seq<T>, x: T, rest: Result<seq<T>>)
    ensures Resume(done, Resume([x], rest)) == Resume(done + [x], rest)
  {
    if rest.Success? { assert done + ([x] + rest.value) == done + [x] + rest.value; }
  }

  /** encoder.Encode appends a newline; strings.TrimSuffix removes it. */
  function TrimNewline(s: string): string {
    if s != [] && s[|s| - 1] == '\n' then s[..|s| - 1] else s
  }

  function CanonicalJSON(v: GoValue): Result<string> {
    match Normalize(v)
    case Failure(e) => Failure(e)
    case Success(j) => Success(TrimNewline(CanonicalText(Canonical, UTF8, j) + "\n"))
  }

  // ----- Which values are accepted

  /** Every leaf has a representation common to all SDKs. */
  predicate Representable(v: GoValue) {
    match v
    case GoInt(n) => -MAX_SAFE_INTEGER <= n <= MAX_SAFE_INTEGER
    case GoUint(u) => u <= MAX_SAFE_INTEGER
    case GoSlice(items) => forall i :: 0 <= i < |items| ==> Representable(items[i])
    case GoMap(es) => forall i :: 0 <= i < |es| ==> Representable(es[i].value)
    case GoFloat => false
    case GoNonStringMap => false
    case GoOther => false
    case _ => true
  }

  lemma {:induction false} AcceptedIffRepresentable(v: GoValue)
    ensures Normalize(v).Success? <==> Representable(v)
    decreases v, 1
  {
    match v
    case GoSlice(items) => ItemsAccepted(items);
    case GoMap(es) => EntriesAccepted(es);
    case _ =>
  }

  lemma {:induction false} ItemsAccepted(items: seq<GoValue>)
    ensures NormalizeItems(items).Success? <==> forall i :: 0 <= i < |items| ==> Representable(items[i])
    decreases items, 0
  {
    if items != [] {
      AcceptedIffRepresentable(items[0]);
      ItemsAccepted(items[1..]);
      assert forall i :: 0 < i < |items| ==> items[i] == items[1..][i - 1];
      assert forall i :: 0 <= i < |items[1..]| ==> items[1..][i] == items[i + 1];
    }
  }

  lemma {:induction false} EntriesAccepted(es: seq<Pair<GoValue>>)
    ensures NormalizeEntries(es).Success? <==> forall i :: 0 <= i < |es| ==> Representable(es[i].value)
    decreases es, 0
  {
    if es != [] {
      AcceptedIffRepresentable(es[0].value);
      EntriesAccepted(es[1..]);
      assert forall i :: 0 < i < |es| ==> es[i] == es[1..][i - 1];
      assert forall i :: 0 <= i < |es[1..]| ==> es[1..][i] == es[i + 1];
    }
  }

  // ----- Normalised values are well formed

  /** No map has a key twice: an invariant of Go maps. */
  predicate IsGoValue(v: GoValue) {
    match v
    case GoSlice(items) => forall i :: 0 <= i < |items| ==> IsGoValue(items[i])
    case GoMap(es) => Distinct(es) && forall i :: 0 <= i < |es| ==> IsGoValue(es[i].value)
    case _ => true
  }

  lemma {:induction false} NormalizeWellFormed(v: GoValue)
    requires IsGoValue(v) && Normalize(v).Success?
    ensures WellFormed(Normalize(v).value)
    decreases v, 1
  {
    match v
    case GoSlice(items) => ItemsWellFormed(items);
    case GoMap(es) => EntriesWellFormed(es);
    case _ =>
  }

  lemma {:induction false} ItemsWellFormed(items: seq<GoValue>)
    requires NormalizeItems(items).Success? && forall i :: 0 <= i < |items| ==> IsGoValue(items[i])
    ensures WellFormedItems(NormalizeItems(items).value)
    decreases items, 0
  {
    if items != [] {
      NormalizeWellFormed(items[0]);
      ItemsWellFormed(items[1..]);
      assert NormalizeItems(items).value[1..] == NormalizeItems(items[1..]).value;
    }
  }

  lemma {:induction false} EntriesWellFormed(es: seq<Pair<GoValue>>)
    requires NormalizeEntries(es).Success? && forall i :: 0 <= i < |es| ==> IsGoValue(es[i].value)
    ensures var js := NormalizeEntries(es).value;
            WellFormedEntries(js) && |js| == |es| && forall i :: 0 <= i < |es| ==> js[i].key == es[i].key
    decreases es, 0
  {
    if es != [] {
      NormalizeWellFormed(es[0].value);
      EntriesWellFormed(es[1..]);
      assert NormalizeEntries(es).value[1..] == NormalizeEntries(es[1..]).value;
    }
  }

  // ----- The canonical text names the value

  lemma CanonicalJSONText(v: GoValue)
    requires Normalize(v).Success?
    ensures CanonicalJSON(v) == Success(CanonicalText(Canonical, UTF8, Normalize(v).value))
  {}

  /** Accepted Go values have equal canonical texts exactly when their normal forms mean the same. */
  lemma CanonicalJSONIffMeaning(v: GoValue, w: GoValue)
    requires IsGoValue(v) && IsGoValue(w) && Representable(v) && Representable(w)
    ensures CanonicalJSON(v).Success? && CanonicalJSON(w).Success?
    ensures Normalize(v).Success? && Normalize(w).Success?
    ensures CanonicalJSON(v) == CanonicalJSON(w) <==> Denote(Normalize(v).value) == Denote(Normalize(w).value)
  {
    AcceptedIffRepresentable(v);
    AcceptedIffRepresentable(w);
    NormalizeWellFormed(v);
    NormalizeWellFormed(w);
    CanonicalJSONText(v);
    CanonicalJSONText(w);
    CanonicalTextIffMeaning(Canonical, UTF8, Normalize(v).value, Normalize(w).value);
  }
}
