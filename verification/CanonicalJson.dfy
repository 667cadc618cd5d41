/**
 * Canonical JSON: print a value with the entries of every object sorted.
 * The text is a unique name for the value: it depends only on which keys map to
 * which values, and it determines them.
 */
module CanonicalJson {
  import opened KeyOrder
  import opened Json
  import opened JsonParser

  // ----- Sorting entries by key

  function Insert<T>(o: Order, e: Pair<T>, es: seq<Pair<T>>): seq<Pair<T>> {
    if es == [] || Less(o, e.key, es[0].key) then [e] + es
    else [es[0]] + Insert(o, e, es[1..])
  }

  function Sort<T>(o: Order, es: seq<Pair<T>>): seq<Pair<T>> {
    if es == [] then [] else Insert(o, es[0], Sort(o, es[1..]))
  }

  ghost predicate Sorted<T>(o: Order, es: seq<Pair<T>>) {
    forall i, j :: 0 <= i < j < |es| ==> Less(o, es[i].key, es[j].key)
  }

  predicate Distinct<T>(es: seq<Pair<T>>) {
    forall i, j :: 0 <= i < j < |es| ==> es[i].key != es[j].key
  }

  ghost function Keys<T>(es: seq<Pair<T>>): set<string> {
    set i | 0 <= i < |es| :: es[i].key
  }

  // ----- The recursively sorted tree

  function SortTree(o: Order, v: Json): Json
    decreases v, 1
  {
    match v
    case Arr(items) => Arr(SortItems(o, items))
    case Obj(entries) => Obj(Sort(o, SortValues(o, entries)))
    case _ => v
  }

  function SortItems(o: Order, items: seq<Json>): (r: seq<Json>)
    ensures |r| == |items|
    decreases items, 0
  {
    if items == [] then [] else [SortTree(o, items[0])] + SortItems(o, items[1..])
  }

  function SortValues(o: Order, es: seq<Pair<Json>>): (r: seq<Pair<Json>>)
    ensures |r| == |es| && forall i :: 0 <= i < |es| ==> r[i].key == es[i].key
    decreases es, 0
  {
    if es == [] then [] else [Pair(es[0].key, SortTree(o, es[0].value))] + SortValues(o, es[1..])
  }

  // ----- Meaning: what a value is, independently of any entry order

  datatype Meaning =
    | MNull
    | MBool(b: bool)
    | MNum(literal: string)
    | MStr(s: string)
    | MArr(items: seq<Meaning>)
    | MObj(fields: map<string, Meaning>)

  function Denote(v: Json): Meaning
    decreases v, 1
  {
    match v
    case Null => MNull
    case Bool(b) => MBool(b)
    case Num(literal) => MNum(literal)
    case Str(s) => MStr(s)
    case Arr(items) => MArr(DenoteItems(items))
    case Obj(entries) => MObj(DenoteEntries(entries))
  }

  function DenoteItems(items: seq<Json>): (r: seq<Meaning>)
    ensures |r| == |items|
    decreases items, 0
  {
    if items == [] then [] else [Denote(items[0])] + DenoteItems(items[1..])
  }

  function DenoteEntries(es: seq<Pair<Json>>): (m: map<string, Meaning>)
    decreases es, 0
  {
    if es == [] then map[] else DenoteEntries(es[1..])[es[0].key := Denote(es[0].value)]
  }

  /** No object lists a key twice: true of every Go map and JavaScript object. */
  predicate WellFormed(v: Json)
    decreases v, 1
  {
    match v
    case Arr(items) => WellFormedItems(items)
    case Obj(entries) => Distinct(entries) && WellFormedEntries(entries)
    case _ => true
  }

  predicate WellFormedItems(items: seq<Json>)
    decreases items, 0
  {
    items == [] || (WellFormed(items[0]) && WellFormedItems(items[1..]))
  }

  predicate WellFormedEntries(es: seq<Pair<Json>>)
    decreases es, 0
  {
    es == [] || (WellFormed(es[0].value) && WellFormedEntries(es[1..]))
  }

  // ----- Facts about sorting

  lemma KeysCons<T>(es: seq<Pair<T>>)
    requires es != []
    ensures Keys(es) == {es[0].key} + Keys(es[1..])
    ensures Distinct(es) ==> es[0].key !in Keys(es[1..]) && Distinct(es[1..])
  {}

  lemma NonemptyHasKey<T>(es: seq<Pair<T>>)
    ensures es != [] ==> Keys(es) != {}
  {
    if es != [] { assert es[0].key in Keys(es); }
  }

  lemma {:induction false} InsertKeys<T>(o: Order, e: Pair<T>, es: seq<Pair<T>>)
    ensures Keys(Insert(o, e, es)) == {e.key} + Keys(es)
  {
    KeysCons(Insert(o, e, es));
    if es == [] || Less(o, e.key, es[0].key) {
      assert ([e] + es)[1..] == es;
    } else {
      InsertKeys(o, e, es[1..]);
      KeysCons(es);
      assert Insert(o, e, es)[1..] == Insert(o, e, es[1..]);
    }
  }

  lemma SortedCons<T>(o: Order, e: Pair<T>, es: seq<Pair<T>>)
    requires Sorted(o, es) && (es != [] ==> Less(o, e.key, es[0].key))
    ensures Sorted(o, [e] + es)
  {
    forall j | 0 <= j < |es| ensures Less(o, e.key, es[j].key) {
      if j > 0 { LessTransitive(o, e.key, es[0].key, es[j].key); }
    }
  }

  lemma {:induction false} InsertSorted<T>(o: Order, e: Pair<T>, es: seq<Pair<T>>)
    requires Sorted(o, es) && e.key !in Keys(es)
    ensures Sorted(o, Insert(o, e, es))
  {
    if es == [] || Less(o, e.key, es[0].key) {
      SortedCons(o, e, es);
    } else {
      LessTotal(o, e.key, es[0].key);
      assert es[0].key in Keys(es);
      KeysCons(es);
      var rest := Insert(o, e, es[1..]);
      InsertSorted(o, e, es[1..]);
      SortedCons(o, es[0], rest);
    }
  }

  lemma {:induction false} SortResult<T>(o: Order, es: seq<Pair<T>>)
    requires Distinct(es)
    ensures Sorted(o, Sort(o, es)) && Keys(Sort(o, es)) == Keys(es)
  {
    if es != [] {
      KeysCons(es);
      SortResult(o, es[1..]);
      InsertKeys(o, es[0], Sort(o, es[1..]));
      InsertSorted(o, es[0], Sort(o, es[1..]));
    }
  }

  lemma SortedDistinct<T>(o: Order, es: seq<Pair<T>>)
    requires Sorted(o, es)
    ensures Distinct(es)
  {
    forall i, j | 0 <= i < j < |es| ensures es[i].key != es[j].key {
      LessTotal(o, es[i].key, es[j].key);
    }
  }

  // ----- Sorting keeps the meaning

  lemma {:induction false} DenoteKeys(es: seq<Pair<Json>>)
    ensures DenoteEntries(es).Keys == Keys(es)
  {
    if es != [] {
      DenoteKeys(es[1..]);
      KeysCons(es);
    }
  }

  lemma UpdatesCommute(m: map<string, Meaning>, j: string, x: Meaning, k: string, y: Meaning)
    requires j != k
    ensures m[j := x][k := y] == m[k := y][j := x]
  {}

  lemma {:induction false} InsertDenote(o: Order, e: Pair<Json>, es: seq<Pair<Json>>)
    requires e.key !in Keys(es)
    ensures DenoteEntries(Insert(o, e, es)) == DenoteEntries(es)[e.key := Denote(e.value)]
  {
    if es != [] && !Less(o, e.key, es[0].key) {
      KeysCons(es);
      InsertDenote(o, e, es[1..]);
      UpdatesCommute(DenoteEntries(es[1..]), e.key, Denote(e.value), es[0].key, Denote(es[0].value));
    }
  }

  lemma {:induction false} SortDenote(o: Order, es: seq<Pair<Json>>)
    requires Distinct(es)
    ensures DenoteEntries(Sort(o, es)) == DenoteEntries(es)
  {
    if es != [] {
      KeysCons(es);
      SortResult(o, es[1..]);
      SortDenote(o, es[1..]);
      InsertDenote(o, es[0], Sort(o, es[1..]));
    }
  }

  /** Every object in the tree has its entries in strictly increasing key order. */
  ghost predicate SortedTree(o: Order, v: Json)
    decreases v, 1
  {
    match v
    case Arr(items) => SortedItems(o, items)
    case Obj(entries) => Sorted(o, entries) && SortedValues(o, entries)
    case _ => true
  }

  ghost predicate SortedItems(o: Order, items: seq<Json>)
    decreases items, 0
  {
    items == [] || (SortedTree(o, items[0]) && SortedItems(o, items[1..]))
  }

  ghost predicate SortedValues(o: Order, es: seq<Pair<Json>>)
    decreases es, 0
  {
    es == [] || (SortedTree(o, es[0].value) && SortedValues(o, es[1..]))
  }

  lemma {:induction false} InsertSortedValues(o: Order, p: Order, e: Pair<Json>, es: seq<Pair<Json>>)
    requires SortedValues(p, es) && SortedTree(p, e.value)
    ensures SortedValues(p, Insert(o, e, es))
  {
    if es == [] || Less(o, e.key, es[0].key) {
      assert ([e] + es)[1..] == es;
    } else {
      InsertSortedValues(o, p, e, es[1..]);
      assert Insert(o, e, es)[1..] == Insert(o, e, es[1..]);
    }
  }

  lemma {:induction false} SortSortedValues(o: Order, p: Order, es: seq<Pair<Json>>)
    requires SortedValues(p, es)
    ensures SortedValues(p, Sort(o, es))
  {
    if es != [] {
      SortSortedValues(o, p, es[1..]);
      InsertSortedValues(o, p, es[0], Sort(o, es[1..]));
    }
  }

  /** The sorted tree means the same and is sorted throughout. */
  lemma {:induction false} SortTreeResult(o: Order, v: Json)
    requires WellFormed(v)
    ensures Denote(SortTree(o, v)) == Denote(v) && SortedTree(o, SortTree(o, v))
    decreases v, 1
  {
    match v
    case Arr(items) => SortItemsResult(o, items);
    case Obj(entries) =>
      SortValuesResult(o, entries);
      var es := SortValues(o, entries);
      assert Distinct(es);
      SortResult(o, es);
      SortDenote(o, es);
      SortSortedValues(o, o, es);
    case _ =>
  }

  lemma {:induction false} SortItemsResult(o: Order, items: seq<Json>)
    requires WellFormedItems(items)
    ensures DenoteItems(SortItems(o, items)) == DenoteItems(items) && SortedItems(o, SortItems(o, items))
    decreases items, 0
  {
    if items != [] {
      SortTreeResult(o, items[0]);
      SortItemsResult(o, items[1..]);
      assert SortItems(o, items)[1..] == SortItems(o, items[1..]);
    }
  }

  lemma {:induction false} SortValuesResult(o: Order, es: seq<Pair<Json>>)
    requires WellFormedEntries(es)
    ensures DenoteEntries(SortValues(o, es)) == DenoteEntries(es) && SortedValues(o, SortValues(o, es))
    decreases es, 0
  {
    if es != [] {
      SortTreeResult(o, es[0].value);
      SortValuesResult(o, es[1..]);
      assert SortValues(o, es)[1..] == SortValues(o, es[1..]);
    }
  }

  // ----- A sorted tree is determined by its meaning

  lemma {:induction false} SortedUnique(o: Order, v: Json, w: Json)
    requires SortedTree(o, v) && SortedTree(o, w) && Denote(v) == Denote(w)
    ensures v == w
    decreases v, 1
  {
    match v
    case Arr(items) => SortedItemsUnique(o, items, w.items);
    case Obj(entries) => SortedEntriesUnique(o, entries, w.entries);
    case _ =>
  }

  lemma {:induction false} SortedItemsUnique(o: Order, a: seq<Json>, b: seq<Json>)
    requires SortedItems(o, a) && SortedItems(o, b) && DenoteItems(a) == DenoteItems(b)
    ensures a == b
    decreases a, 0
  {
    if a != [] {
      assert DenoteItems(a)[0] == DenoteItems(b)[0];
      assert DenoteItems(a)[1..] == DenoteItems(a[1..]) && DenoteItems(b)[1..] == DenoteItems(b[1..]);
      SortedUnique(o, a[0], b[0]);
      SortedItemsUnique(o, a[1..], b[1..]);
      assert a == [a[0]] + a[1..] && b == [b[0]] + b[1..];
    }
  }

  /** Two sorted lists over one key set start with the same key. */
  lemma SameFirstKey<T>(o: Order, a: seq<Pair<T>>, b: seq<Pair<T>>)
    requires Sorted(o, a) && Sorted(o, b) && Keys(a) == Keys(b) && a != []
    ensures b != [] && a[0].key == b[0].key
  {
    assert a[0].key in Keys(b);
    var j :| 0 <= j < |b| && b[j].key == a[0].key;
    assert b[0].key in Keys(a);
    var i :| 0 <= i < |a| && a[i].key == b[0].key;
    if i > 0 && j > 0 {
      LessTotal(o, a[0].key, b[0].key);
    }
  }

  /** The first entry and the rest of a list without repeated keys, read off its map. */
  lemma DenoteSplit(es: seq<Pair<Json>>)
    requires es != [] && Distinct(es)
    ensures es[0].key in DenoteEntries(es) && DenoteEntries(es)[es[0].key] == Denote(es[0].value)
    ensures DenoteEntries(es[1..]) == DenoteEntries(es) - {es[0].key}
  {
    KeysCons(es);
    DenoteKeys(es[1..]);
  }

  /** Sorted lists with one map: the same first key, values that mean the same, and one map for the rest. */
  lemma SameHeads(o: Order, a: seq<Pair<Json>>, b: seq<Pair<Json>>)
    requires Sorted(o, a) && Sorted(o, b) && DenoteEntries(a) == DenoteEntries(b) && a != []
    ensures b != [] && a[0].key == b[0].key && Denote(a[0].value) == Denote(b[0].value)
    ensures DenoteEntries(a[1..]) == DenoteEntries(b[1..])
  {
    DenoteKeys(a);
    DenoteKeys(b);
    SameFirstKey(o, a, b);
    SortedDistinct(o, a);
    SortedDistinct(o, b);
    DenoteSplit(a);
    DenoteSplit(b);
  }

  lemma {:induction false} SortedEntriesUnique(o: Order, a: seq<Pair<Json>>, b: seq<Pair<Json>>)
    requires Sorted(o, a) && Sorted(o, b) && SortedValues(o, a) && SortedValues(o, b)
    requires DenoteEntries(a) == DenoteEntries(b)
    ensures a == b
    decreases a, 0
  {
    if a == [] {
      DenoteKeys(b);
      NonemptyHasKey(b);
    } else {
      SameHeads(o, a, b);
      SortedUnique(o, a[0].value, b[0].value);
      SortedEntriesUnique(o, a[1..], b[1..]);
      assert a == [a[0]] + a[1..] && b == [b[0]] + b[1..];
    }
  }

  // ----- Main results

  function CanonicalText(y: Style, o: Order, v: Json): string {
    Print(y, SortTree(o, v))
  }

  /** Two well-formed values have the same sorted tree exactly when they mean the same. */
  lemma SortTreeIffMeaning(o: Order, v: Json, w: Json)
    requires WellFormed(v) && WellFormed(w)
    ensures SortTree(o, v) == SortTree(o, w) <==> Denote(v) == Denote(w)
  {
    SortTreeResult(o, v);
    SortTreeResult(o, w);
    if Denote(v) == Denote(w) { SortedUnique(o, SortTree(o, v), SortTree(o, w)); }
  }

  /** Canonical texts are equal exactly when the values are, whatever order sorts the keys. */
  lemma CanonicalTextIffMeaning(y: Style, o: Order, v: Json, w: Json)
    requires WellFormed(v) && WellFormed(w)
    ensures CanonicalText(y, o, v) == CanonicalText(y, o, w) <==> Denote(v) == Denote(w)
  {
    SortTreeIffMeaning(o, v, w);
    if CanonicalText(y, o, v) == CanonicalText(y, o, w) {
      PrintInjective(y, SortTree(o, v), SortTree(o, w));
    }
  }

  // ----- Canonical text is a fixed point

  lemma {:induction false} SortedWellFormed(o: Order, v: Json)
    requires SortedTree(o, v)
    ensures WellFormed(v)
    decreases v, 1
  {
    match v
    case Arr(items) => SortedItemsWellFormed(o, items);
    case Obj(entries) =>
      SortedDistinct(o, entries);
      SortedValuesWellFormed(o, entries);
    case _ =>
  }

  lemma {:induction false} SortedItemsWellFormed(o: Order, items: seq<Json>)
    requires SortedItems(o, items)
    ensures WellFormedItems(items)
    decreases items, 0
  {
    if items != [] {
      SortedWellFormed(o, items[0]);
      SortedItemsWellFormed(o, items[1..]);
    }
  }

  lemma {:induction false} SortedValuesWellFormed(o: Order, es: seq<Pair<Json>>)
    requires SortedValues(o, es)
    ensures WellFormedEntries(es)
    decreases es, 0
  {
    if es != [] {
      SortedWellFormed(o, es[0].value);
      SortedValuesWellFormed(o, es[1..]);
    }
  }

  /** Reading a canonical text back gives a value that means the same and has that very text. */
  lemma CanonicalTextReadsBack(y: Style, o: Order, v: Json) returns (w: Json)
    requires WellFormed(v)
    ensures Read(CanonicalText(y, o, v)) == ReadAs(w)
    ensures WellFormed(w) && Denote(w) == Denote(v) && CanonicalText(y, o, w) == CanonicalText(y, o, v)
  {
    w := SortTree(o, v);
    RoundTrip(y, w);
    SortTreeResult(o, v);
    SortedWellFormed(o, w);
    CanonicalTextIffMeaning(y, o, v, w);
  }
}
