/** When two key orders lead to the same canonical text, and reordered values to one text. */
module OrderAgreement {
  import opened Counting
  import opened Decimal
  import opened KeyOrder
  import opened Json
  import opened JsonParser
  import opened CanonicalJson

  // ----- Two orders on one value

  ghost predicate AgreeOnPair(o: Order, p: Order, a: string, b: string) {
    Less(o, a, b) == Less(p, a, b)
  }

  ghost predicate AgreeOnKeys<T>(o: Order, p: Order, es: seq<Pair<T>>) {
    forall i, j :: 0 <= i < |es| && 0 <= j < |es| ==> AgreeOnPair(o, p, es[i].key, es[j].key)
  }

  /** In every object of the tree the two orders agree on every pair of its keys. */
  ghost predicate OrdersAgree(o: Order, p: Order, v: Json) {
    match v
    case Arr(items) => forall i :: 0 <= i < |items| ==> OrdersAgree(o, p, items[i])
    case Obj(es) => AgreeOnKeys(o, p, es) && forall i :: 0 <= i < |es| ==> OrdersAgree(o, p, es[i].value)
    case _ => true
  }

  lemma {:induction false} InsertAgrees<T>(o: Order, p: Order, e: Pair<T>, es: seq<Pair<T>>)
    requires AgreeWith(o, p, e.key, es)
    ensures Insert(o, e, es) == Insert(p, e, es)
  {
    if es != [] {
      assert AgreeOnPair(o, p, e.key, es[0].key);
      InsertAgrees(o, p, e, es[1..]);
    }
  }

  lemma {:induction false} InsertMember<T>(o: Order, e: Pair<T>, es: seq<Pair<T>>, x: Pair<T>)
    ensures x in Insert(o, e, es) <==> x == e || x in es
  {
    if es == [] || Less(o, e.key, es[0].key) {
      assert Insert(o, e, es) == [e] + es;
    } else {
      InsertMember(o, e, es[1..], x);
      assert es == [es[0]] + es[1..];
      assert Insert(o, e, es) == [es[0]] + Insert(o, e, es[1..]);
    }
  }

  lemma {:induction false} SortMember<T>(o: Order, es: seq<Pair<T>>, x: Pair<T>)
    ensures x in Sort(o, es) <==> x in es
  {
    if es != [] {
      SortMember(o, es[1..], x);
      InsertMember(o, es[0], Sort(o, es[1..]), x);
      assert es == [es[0]] + es[1..];
    }
  }

  ghost predicate AgreeWith<T>(o: Order, p: Order, k: string, es: seq<Pair<T>>) {
    forall i :: 0 <= i < |es| ==> AgreeOnPair(o, p, k, es[i].key)
  }

  lemma AgreeWithSorted<T>(o: Order, p: Order, k: string, es: seq<Pair<T>>)
    requires AgreeWith(o, p, k, es)
    ensures AgreeWith(o, p, k, Sort(o, es))
  {
    var s := Sort(o, es);
    forall i | 0 <= i < |s| ensures AgreeOnPair(o, p, k, s[i].key) {
      SortMember(o, es, s[i]);
      assert s[i] in es;
    }
  }

  lemma {:induction false} SortAgrees<T>(o: Order, p: Order, es: seq<Pair<T>>)
    requires AgreeOnKeys(o, p, es)
    ensures Sort(o, es) == Sort(p, es)
  {
    if es != [] {
      var k, rest := es[0].key, es[1..];
      assert AgreeWith(o, p, k, rest);
      assert AgreeOnKeys(o, p, rest);
      SortAgrees(o, p, rest);
      AgreeWithSorted(o, p, k, rest);
      InsertAgrees(o, p, es[0], Sort(o, rest));
    }
  }

  /** A list that two orders both leave sorted: they agree on its keys. */
  lemma SortedByBoth<T>(o: Order, p: Order, es: seq<Pair<T>>)
    requires Sorted(o, es) && Sorted(p, es)
    ensures AgreeOnKeys(o, p, es)
  {
    forall i, j | 0 <= i < |es| && 0 <= j < |es| ensures AgreeOnPair(o, p, es[i].key, es[j].key) {
      LessTotal(o, es[i].key, es[j].key);
      LessTotal(p, es[i].key, es[j].key);
      assert i < j || i == j || j < i;
    }
  }

  lemma SortValuesAt(o: Order, es: seq<Pair<Json>>, i: nat)
    requires i < |es|
    ensures SortValues(o, es)[i] == Pair(es[i].key, SortTree(o, es[i].value))
  {
    if i > 0 { SortValuesAt(o, es[1..], i - 1); }
  }

  lemma SortItemsAt(o: Order, items: seq<Json>, i: nat)
    requires i < |items|
    ensures SortItems(o, items)[i] == SortTree(o, items[i])
  {
    if i > 0 { SortItemsAt(o, items[1..], i - 1); }
  }

  lemma WellFormedAt(v: Json, i: nat)
    requires WellFormed(v)
    ensures v.Arr? && i < |v.items| ==> WellFormed(v.items[i])
    ensures v.Obj? && i < |v.entries| ==> WellFormed(v.entries[i].value)
    decreases i
  {
    if i > 0 && v.Arr? && i < |v.items| { WellFormedAt(Arr(v.items[1..]), i - 1); }
    if i > 0 && v.Obj? && i < |v.entries| {
      KeysCons(v.entries);
      WellFormedAt(Obj(v.entries[1..]), i - 1);
    }
  }

  /** Equal sorted lists come from equal values: no entry can be exchanged for another. */
  lemma SameSortedValues(o: Order, p: Order, a: seq<Pair<Json>>, b: seq<Pair<Json>>)
    requires |a| == |b| && Distinct(a) && (forall i :: 0 <= i < |a| ==> a[i].key == b[i].key)
    requires Sort(o, a) == Sort(p, b)
    ensures a == b
  {
    forall i | 0 <= i < |a| ensures a[i] == b[i] {
      SortMember(o, a, a[i]);
      SortMember(p, b, a[i]);
      assert a[i] in b;
      var j :| 0 <= j < |b| && b[j] == a[i];
      assert a[j].key == a[i].key;
    }
  }

  lemma SameItemsIff(o: Order, p: Order, items: seq<Json>)
    ensures SortItems(o, items) == SortItems(p, items) <==>
            forall i :: 0 <= i < |items| ==> SortTree(o, items[i]) == SortTree(p, items[i])
  {
    var a, b := SortItems(o, items), SortItems(p, items);
    forall i | 0 <= i < |items| ensures a[i] == SortTree(o, items[i]) && b[i] == SortTree(p, items[i]) {
      SortItemsAt(o, items, i);
      SortItemsAt(p, items, i);
    }
  }

  /** Two orders give the same sorted tree exactly when they agree inside every object. */
  lemma {:induction false} SameTreeIffAgree(o: Order, p: Order, v: Json)
    requires WellFormed(v)
    ensures SortTree(o, v) == SortTree(p, v) <==> OrdersAgree(o, p, v)
  {
    if v.Arr? {
      forall i | 0 <= i < |v.items|
        ensures SortTree(o, v.items[i]) == SortTree(p, v.items[i]) <==> OrdersAgree(o, p, v.items[i])
      {
        WellFormedAt(v, i);
        SameTreeIffAgree(o, p, v.items[i]);
      }
      SameItemsIff(o, p, v.items);
    } else if v.Obj? {
      forall i | 0 <= i < |v.entries|
        ensures SortTree(o, v.entries[i].value) == SortTree(p, v.entries[i].value) <==> OrdersAgree(o, p, v.entries[i].value)
      {
        WellFormedAt(v, i);
        SameTreeIffAgree(o, p, v.entries[i].value);
      }
      SameObjectIff(o, p, v.entries);
    }
  }

  lemma SameObjectIff(o: Order, p: Order, es: seq<Pair<Json>>)
    requires Distinct(es)
    ensures Sort(o, SortValues(o, es)) == Sort(p, SortValues(p, es)) <==> AgreeOnKeys(o, p, es) && SameSubtrees(o, p, es)
  {
    if AgreeOnKeys(o, p, es) && SameSubtrees(o, p, es) { AgreeThenSame(o, p, es); }
    if Sort(o, SortValues(o, es)) == Sort(p, SortValues(p, es)) { SameThenAgree(o, p, es); }
  }

  ghost predicate SameSubtrees(o: Order, p: Order, es: seq<Pair<Json>>) {
    forall i :: 0 <= i < |es| ==> SortTree(o, es[i].value) == SortTree(p, es[i].value)
  }

  lemma SameSubtreesIff(o: Order, p: Order, es: seq<Pair<Json>>)
    ensures SameSubtrees(o, p, es) <==> SortValues(o, es) == SortValues(p, es)
  {
    var a, b := SortValues(o, es), SortValues(p, es);
    forall i | 0 <= i < |es|
      ensures a[i] == b[i] <==> SortTree(o, es[i].value) == SortTree(p, es[i].value)
    {
      SortValuesAt(o, es, i);
      SortValuesAt(p, es, i);
    }
  }

  lemma AgreeThenSame(o: Order, p: Order, es: seq<Pair<Json>>)
    requires AgreeOnKeys(o, p, es) && SameSubtrees(o, p, es)
    ensures Sort(o, SortValues(o, es)) == Sort(p, SortValues(p, es))
  {
    SameSubtreesIff(o, p, es);
    SortAgrees(o, p, SortValues(o, es));
  }

  lemma SameThenAgree(o: Order, p: Order, es: seq<Pair<Json>>)
    requires Distinct(es) && Sort(o, SortValues(o, es)) == Sort(p, SortValues(p, es))
    ensures AgreeOnKeys(o, p, es) && SameSubtrees(o, p, es)
  {
    var a, b := SortValues(o, es), SortValues(p, es);
    SameSortedValues(o, p, a, b);
    SameSubtreesIff(o, p, es);
    SortResult(o, a);
    SortResult(p, b);
    SortedByBoth(o, p, Sort(o, a));
    forall i, j | 0 <= i < |es| && 0 <= j < |es| ensures AgreeOnPair(o, p, es[i].key, es[j].key) {
      PairFromSorted(o, p, a, i, j);
    }
  }

  lemma PairFromSorted(o: Order, p: Order, a: seq<Pair<Json>>, i: nat, j: nat)
    requires i < |a| && j < |a| && AgreeOnKeys(o, p, Sort(o, a))
    ensures AgreeOnPair(o, p, a[i].key, a[j].key)
  {
    SortMember(o, a, a[i]);
    SortMember(o, a, a[j]);
    var s := Sort(o, a);
    assert a[i] in s && a[j] in s;
    var x :| 0 <= x < |s| && s[x] == a[i];
    var y :| 0 <= y < |s| && s[y] == a[j];
    assert AgreeOnPair(o, p, s[x].key, s[y].key);
  }

  /** The same for the texts. */
  lemma SameTextIffAgree(y: Style, o: Order, p: Order, v: Json)
    requires WellFormed(v)
    ensures CanonicalText(y, o, v) == CanonicalText(y, p, v) <==> OrdersAgree(o, p, v)
  {
    SameTreeIffAgree(o, p, v);
    if CanonicalText(y, o, v) == CanonicalText(y, p, v) {
      PrintInjective(y, SortTree(o, v), SortTree(p, v));
    }
  }

  // ----- The three encodings

  const CODE_POINT := ByEncoding(CodePoint)
  const UTF8 := ByEncoding(Utf8Bytes)
  const UTF16 := ByEncoding(Utf16Units)

  lemma {:induction false} Utf8AlwaysAgrees(v: Json)
    ensures OrdersAgree(UTF8, CODE_POINT, v)
  {
    match v
    case Arr(items) => forall i | 0 <= i < |items| { Utf8AlwaysAgrees(items[i]); }
    case Obj(es) =>
      forall i | 0 <= i < |es| { Utf8AlwaysAgrees(es[i].value); }
      forall i, j | 0 <= i < |es| && 0 <= j < |es| ensures AgreeOnPair(UTF8, CODE_POINT, es[i].key, es[j].key) {
        EncodedOrder(Utf8Bytes, es[i].key, es[j].key);
      }
    case _ =>
  }

  /** Sorting by UTF-8 bytes (Go) and by code points (TypeScript, Python) gives one text, always. */
  lemma Utf8TextIsCodePointText(y: Style, v: Json)
    requires WellFormed(v)
    ensures CanonicalText(y, UTF8, v) == CanonicalText(y, CODE_POINT, v)
  {
    Utf8AlwaysAgrees(v);
    SameTextIffAgree(y, UTF8, CODE_POINT, v);
  }

  /** No object has two keys that first differ at a supplementary character against U+E000..U+FFFF. */
  ghost predicate NoStraddlingKeys(v: Json) {
    match v
    case Arr(items) => forall i :: 0 <= i < |items| ==> NoStraddlingKeys(items[i])
    case Obj(es) =>
      && (forall i, j :: 0 <= i < |es| && 0 <= j < |es| ==> !StraddleAtFirstDifference(es[i].key, es[j].key))
      && forall i :: 0 <= i < |es| ==> NoStraddlingKeys(es[i].value)
    case _ => true
  }

  lemma {:induction false} StraddleDiffers(a: string)
    ensures !StraddleAtFirstDifference(a, a)
  {
    if a != [] { StraddleDiffers(a[1..]); }
  }

  lemma PairAgreesIffNoStraddle(a: string, b: string)
    ensures AgreeOnPair(UTF16, CODE_POINT, a, b) <==> !StraddleAtFirstDifference(a, b)
  {
    EncodedOrder(Utf16Units, a, b);
    LessTotal(CODE_POINT, a, b);
    StraddleDiffers(a);
  }

  lemma {:induction false} Utf16AgreesIff(v: Json)
    ensures OrdersAgree(UTF16, CODE_POINT, v) <==> NoStraddlingKeys(v)
  {
    match v
    case Arr(items) => forall i | 0 <= i < |items| { Utf16AgreesIff(items[i]); }
    case Obj(es) =>
      forall i | 0 <= i < |es| { Utf16AgreesIff(es[i].value); }
      forall i, j | 0 <= i < |es| && 0 <= j < |es| { PairAgreesIffNoStraddle(es[i].key, es[j].key); }
    case _ =>
  }

  /** The default JavaScript sort gives the code-point text exactly when no keys straddle. */
  lemma Utf16TextIffNoStraddle(y: Style, v: Json)
    requires WellFormed(v)
    ensures CanonicalText(y, UTF16, v) == CanonicalText(y, CODE_POINT, v) <==> NoStraddlingKeys(v)
  {
    Utf16AgreesIff(v);
    SameTextIffAgree(y, UTF16, CODE_POINT, v);
  }

  predicate IsBasic(s: string) { forall i :: 0 <= i < |s| ==> s[i] as int < 0x10000 }

  /** Keys without supplementary characters never straddle. */
  lemma {:induction false} BasicNeverStraddles(a: string, b: string)
    requires IsBasic(a) && IsBasic(b)
    ensures !StraddleAtFirstDifference(a, b)
  {
    if a != [] && b != [] && a[0] == b[0] { BasicNeverStraddles(a[1..], b[1..]); }
  }

  /** No key anywhere in the tree has a character beyond U+FFFF. */
  ghost predicate BasicKeys(v: Json) {
    match v
    case Arr(items) => forall i :: 0 <= i < |items| ==> BasicKeys(items[i])
    case Obj(es) => forall i :: 0 <= i < |es| ==> IsBasic(es[i].key) && BasicKeys(es[i].value)
    case _ => true
  }

  lemma {:induction false} BasicKeysNeverStraddle(v: Json)
    requires BasicKeys(v)
    ensures NoStraddlingKeys(v)
  {
    match v
    case Arr(items) => forall i | 0 <= i < |items| { BasicKeysNeverStraddle(items[i]); }
    case Obj(es) =>
      forall i | 0 <= i < |es| { BasicKeysNeverStraddle(es[i].value); }
      forall i, j | 0 <= i < |es| && 0 <= j < |es| { BasicNeverStraddles(es[i].key, es[j].key); }
    case _ =>
  }

  /** Without supplementary characters in keys all three sorts give one text. */
  lemma BasicKeysOneText(y: Style, v: Json)
    requires WellFormed(v) && BasicKeys(v)
    ensures CanonicalText(y, UTF16, v) == CanonicalText(y, CODE_POINT, v) == CanonicalText(y, UTF8, v)
  {
    BasicKeysNeverStraddle(v);
    Utf16TextIffNoStraddle(y, v);
    Utf8TextIsCodePointText(y, v);
  }

  /** The fixture of experiments/check405-m2-astral-vector.js: the two sorts disagree. */
  lemma AstralFixtureDisagrees()
    ensures var v := Obj([Pair("\U{E000}", Str("pua")), Pair("\U{1F600}", Str("emoji"))]);
            CanonicalText(Canonical, UTF16, v) != CanonicalText(Canonical, CODE_POINT, v)
  {
    var v := Obj([Pair("\U{E000}", Str("pua")), Pair("\U{1F600}", Str("emoji"))]);
    assert StraddleAtFirstDifference(v.entries[0].key, v.entries[1].key);
    Utf16TextIffNoStraddle(Canonical, v);
  }

  // ----- Reordering entries anywhere in the tree

  /** w lists the same entries as v, in any order, in every object; arrays keep their order. */
  ghost predicate Reordered(v: Json, w: Json) {
    match v
    case Arr(items) =>
      w.Arr? && |items| == |w.items| && forall i :: 0 <= i < |items| ==> Reordered(items[i], w.items[i])
    case Obj(es) =>
      w.Obj? && |es| == |w.entries| &&
      forall i :: 0 <= i < |es| ==> exists j :: 0 <= j < |w.entries| && es[i].key == w.entries[j].key && Reordered(es[i].value, w.entries[j].value)
    case _ => v == w
  }

  lemma {:induction false} KeyCount<T>(es: seq<Pair<T>>)
    requires Distinct(es)
    ensures |Keys(es)| == |es|
  {
    if es != [] {
      KeysCons(es);
      KeyCount(es[1..]);
    }
  }

  lemma {:induction false} DenoteAt(es: seq<Pair<Json>>, i: nat)
    requires Distinct(es) && i < |es|
    ensures es[i].key in DenoteEntries(es) && DenoteEntries(es)[es[i].key] == Denote(es[i].value)
  {
    DenoteSplit(es);
    if i > 0 {
      KeysCons(es);
      DenoteAt(es[1..], i - 1);
    }
  }

  lemma {:induction false} DenoteItemsAt(items: seq<Json>, i: nat)
    requires i < |items|
    ensures DenoteItems(items)[i] == Denote(items[i])
  {
    if i > 0 { DenoteItemsAt(items[1..], i - 1); }
  }

  ghost predicate SameMeanings(a: seq<Pair<Json>>, b: seq<Pair<Json>>) {
    |a| == |b| && forall i :: 0 <= i < |a| ==> exists j :: 0 <= j < |b| && a[i].key == b[j].key && Denote(a[i].value) == Denote(b[j].value)
  }

  lemma SameMeaningAt(a: seq<Pair<Json>>, b: seq<Pair<Json>>, i: nat)
    requires Distinct(a) && Distinct(b) && SameMeanings(a, b) && i < |a|
    ensures a[i].key in DenoteEntries(a) && a[i].key in DenoteEntries(b)
    ensures DenoteEntries(a)[a[i].key] == DenoteEntries(b)[a[i].key]
  {
    var j :| 0 <= j < |b| && a[i].key == b[j].key && Denote(a[i].value) == Denote(b[j].value);
    DenoteAt(a, i);
    DenoteAt(b, j);
  }

  lemma SameMeaningsThenSameMap(a: seq<Pair<Json>>, b: seq<Pair<Json>>)
    requires Distinct(a) && Distinct(b) && SameMeanings(a, b)
    ensures DenoteEntries(a) == DenoteEntries(b)
  {
    DenoteKeys(a);
    DenoteKeys(b);
    var m, n := DenoteEntries(a), DenoteEntries(b);
    forall k | k in m ensures k in n && m[k] == n[k] {
      var i :| 0 <= i < |a| && a[i].key == k;
      SameMeaningAt(a, b, i);
    }
    KeyCount(a);
    KeyCount(b);
    SubsetCount(m.Keys, n.Keys);
  }

  lemma SameMapThenSameMeanings(a: seq<Pair<Json>>, b: seq<Pair<Json>>)
    requires Distinct(a) && Distinct(b) && DenoteEntries(a) == DenoteEntries(b)
    ensures SameMeanings(a, b)
  {
    DenoteKeys(a);
    DenoteKeys(b);
    KeyCount(a);
    KeyCount(b);
    forall i | 0 <= i < |a|
      ensures exists j :: 0 <= j < |b| && a[i].key == b[j].key && Denote(a[i].value) == Denote(b[j].value)
    {
      assert a[i].key in Keys(b);
      var j :| 0 <= j < |b| && b[j].key == a[i].key;
      DenoteAt(a, i);
      DenoteAt(b, j);
    }
  }

  /** Same meaning is exactly same entries up to order, at every depth. */
  lemma {:induction false} ReorderedIffMeaning(v: Json, w: Json)
    requires WellFormed(v) && WellFormed(w)
    ensures Reordered(v, w) <==> Denote(v) == Denote(w)
  {
    if v.Arr? && w.Arr? && |v.items| == |w.items| {
      forall i | 0 <= i < |v.items|
        ensures Reordered(v.items[i], w.items[i]) <==> DenoteItems(v.items)[i] == DenoteItems(w.items)[i]
      {
        WellFormedAt(v, i);
        WellFormedAt(w, i);
        ReorderedIffMeaning(v.items[i], w.items[i]);
        DenoteItemsAt(v.items, i);
        DenoteItemsAt(w.items, i);
      }
    } else if v.Obj? && w.Obj? && |v.entries| == |w.entries| {
      var a, b := v.entries, w.entries;
      forall i, j | 0 <= i < |a| && 0 <= j < |b|
        ensures Reordered(a[i].value, b[j].value) <==> Denote(a[i].value) == Denote(b[j].value)
      {
        WellFormedAt(v, i);
        WellFormedAt(w, j);
        ReorderedIffMeaning(a[i].value, b[j].value);
      }
      assert Reordered(v, w) <==> SameMeanings(a, b);
      if SameMeanings(a, b) { SameMeaningsThenSameMap(a, b); }
      if DenoteEntries(a) == DenoteEntries(b) { SameMapThenSameMeanings(a, b); }
    } else if v.Obj? && w.Obj? && Denote(v) == Denote(w) {
      SameMapThenSameMeanings(v.entries, w.entries);
    }
  }

  /** One text for all entry orders, and only for them. */
  lemma CanonicalTextIffReordered(y: Style, o: Order, v: Json, w: Json)
    requires WellFormed(v) && WellFormed(w)
    ensures CanonicalText(y, o, v) == CanonicalText(y, o, w) <==> Reordered(v, w)
  {
    CanonicalTextIffMeaning(y, o, v, w);
    ReorderedIffMeaning(v, w);
  }

  // ----- What the orders are

  /** The array indices are the notations of the integers below 2^32 - 1. */
  lemma IndexKeyIff(key: string)
    ensures IsIndexKey(key) <==> exists n: nat :: n < 4294967295 && key == ToDec(n)
  {
    if IsIndexKey(key) { ToDecOfValue(key); }
    forall n: nat | n < 4294967295 && key == ToDec(n) ensures IsIndexKey(key) {
      ToDecCanonical(n);
      ValueToDec(n);
    }
  }

  /** Array indices come first, in numeric order; the other keys follow in UTF-16 order. */
  lemma IndexFirstIs(a: string, b: string)
    ensures Less(IndexFirst, a, b) ==
            if IsIndexKey(a) && IsIndexKey(b) then Value(a) < Value(b)
            else if IsIndexKey(a) || IsIndexKey(b) then IsIndexKey(a)
            else Less(UTF16, a, b)
  {
    if !IsIndexKey(a) && !IsIndexKey(b) {
      LexSamePrefix([1], Encode(Utf16Units, a), Encode(Utf16Units, b));
    } else if IsIndexKey(a) && IsIndexKey(b) {
      LexSamePrefix([0], [Value(a)], [Value(b)]);
      assert [0] + [Value(a)] == [0, Value(a)] && [0] + [Value(b)] == [0, Value(b)];
    }
  }
}
