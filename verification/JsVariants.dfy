/**
 * The two canonicalisers that use the default JavaScript sort: NOWPayments
 * callbacks (backend/adapters/nowpayments.ts) and governance metadata
 * (scripts/governance/check-parameter-changes.ts).
 */
module JsVariants {
  import opened KeyOrder
  import opened Json
  import opened JsonParser
  import opened CanonicalJson
  import opened OrderAgreement
  import opened DirectText

  // ----- JavaScript objects: array-index keys enumerate first, in numeric order

  datatype Kind = IndexKeys | OtherKeys | NotProto

  predicate Keeps(kind: Kind, key: string) {
    match kind
    case IndexKeys => IsIndexKey(key)
    case OtherKeys => !IsIndexKey(key)
    case NotProto => key != "__proto__"
  }

  function Filter(es: seq<Pair<Json>>, kind: Kind): seq<Pair<Json>> {
    if es == [] then []
    else (if Keeps(kind, es[0].key) then [es[0]] else []) + Filter(es[1..], kind)
  }

  /** Enumeration order of an object whose properties were added in the order of `es`. */
  function Enumerate(es: seq<Pair<Json>>): seq<Pair<Json>> {
    Sort(IndexFirst, Filter(es, IndexKeys)) + Filter(es, OtherKeys)
  }

  /**
   * The object built by assigning acc[key] in turn, as enumerated afterwards.
   * Assigning to "__proto__" sets the prototype and adds no property.
   */
  function Rebuilt(es: seq<Pair<Json>>): seq<Pair<Json>> {
    Enumerate(Filter(es, NotProto))
  }

  /** sortObjectKeys: the rebuilt object, seen through its enumeration order. */
  function SortObjectKeys(v: Json): Json
    decreases v, 1
  {
    match v
    case Arr(items) => Arr(SortAllItems(items))
    case Obj(es) => Obj(Rebuilt(Sort(UTF16, SortAllValues(es))))
    case _ => v
  }

  function SortAllItems(items: seq<Json>): seq<Json>
    decreases items, 0
  {
    if items == [] then [] else [SortObjectKeys(items[0])] + SortAllItems(items[1..])
  }

  function SortAllValues(es: seq<Pair<Json>>): seq<Pair<Json>>
    decreases es, 0
  {
    if es == [] then [] else [Pair(es[0].key, SortObjectKeys(es[0].value))] + SortAllValues(es[1..])
  }

  /** JSON.stringify of the rebuilt object: the text canonicalizePayload signs for a parsed payload. */
  function PayloadText(v: Json): string { Print(Stringify, SortObjectKeys(v)) }

  // ----- Enumeration of a sorted object is sorting by IndexFirst

  lemma {:induction false} FilterMember(es: seq<Pair<Json>>, kind: Kind, x: Pair<Json>)
    ensures x in Filter(es, kind) <==> x in es && Keeps(kind, x.key)
  {
    if es != [] {
      FilterMember(es[1..], kind, x);
      assert es == [es[0]] + es[1..];
    }
  }

  lemma {:induction false} FilterKinds(es: seq<Pair<Json>>, kind: Kind)
    ensures Keys(Filter(es, kind)) <= Keys(es)
    ensures forall i :: 0 <= i < |Filter(es, kind)| ==> Keeps(kind, Filter(es, kind)[i].key)
  {
    if es != [] {
      FilterKinds(es[1..], kind);
      KeysCons(es);
      var f, rest := Filter(es, kind), Filter(es[1..], kind);
      if Keeps(kind, es[0].key) {
        assert f == [es[0]] + rest && f[1..] == rest;
        KeysCons(f);
      } else {
        assert f == rest;
      }
    }
  }

  lemma {:induction false} FilterDistinct(es: seq<Pair<Json>>, kind: Kind)
    requires Distinct(es)
    ensures Distinct(Filter(es, kind))
  {
    if es != [] {
      KeysCons(es);
      FilterDistinct(es[1..], kind);
      FilterKinds(es[1..], kind);
      var f, rest := Filter(es, kind), Filter(es[1..], kind);
      if Keeps(kind, es[0].key) {
        assert f == [es[0]] + rest && f[1..] == rest;
      } else {
        assert f == rest;
      }
    }
  }

  lemma FilterFirst(o: Order, es: seq<Pair<Json>>, kind: Kind)
    requires es != [] && Sorted(o, es) && Filter(es[1..], kind) != []
    ensures Less(o, es[0].key, Filter(es[1..], kind)[0].key)
  {
    var x := Filter(es[1..], kind)[0];
    FilterMember(es[1..], kind, x);
    var j :| 0 <= j < |es[1..]| && es[1..][j] == x;
    assert Less(o, es[0].key, es[j + 1].key);
  }

  lemma {:induction false} FilterSorted(o: Order, es: seq<Pair<Json>>, kind: Kind)
    requires Sorted(o, es)
    ensures Sorted(o, Filter(es, kind))
  {
    if es != [] {
      FilterSorted(o, es[1..], kind);
      var rest := Filter(es[1..], kind);
      if rest != [] { FilterFirst(o, es, kind); }
      if Keeps(kind, es[0].key) {
        SortedCons(o, es[0], rest);
      } else {
        assert Filter(es, kind) == rest;
      }
    }
  }

  lemma EnumerateSorted(s: seq<Pair<Json>>)
    requires Sorted(UTF16, s)
    ensures Sorted(IndexFirst, Enumerate(s))
  {
    SortedDistinct(UTF16, s);
    var head, tail := Sort(IndexFirst, Filter(s, IndexKeys)), Filter(s, OtherKeys);
    FilterKinds(s, IndexKeys);
    FilterKinds(s, OtherKeys);
    FilterDistinct(s, IndexKeys);
    SortResult(IndexFirst, Filter(s, IndexKeys));
    FilterSorted(UTF16, s, OtherKeys);
    var all: seq<Pair<Json>> := head + tail;
    forall i, j | 0 <= i < j < |all| ensures Less(IndexFirst, all[i].key, all[j].key) {
      if j >= |head| {
        if i < |head| {
          SortMember(IndexFirst, Filter(s, IndexKeys), head[i]);
        }
      }
    }
  }

  lemma EnumerateMember(s: seq<Pair<Json>>, x: Pair<Json>)
    ensures x in Enumerate(s) <==> x in s
  {
    SortMember(IndexFirst, Filter(s, IndexKeys), x);
    FilterMember(s, IndexKeys, x);
    FilterMember(s, OtherKeys, x);
  }

  lemma MembersKeys(a: seq<Pair<Json>>, b: seq<Pair<Json>>)
    requires forall x :: x in a ==> x in b
    ensures Keys(a) <= Keys(b)
  {
    forall k | k in Keys(a) ensures k in Keys(b) {
      var i :| 0 <= i < |a| && a[i].key == k;
      assert a[i] in b;
    }
  }

  ghost predicate SameMembers(a: seq<Pair<Json>>, b: seq<Pair<Json>>) { forall x :: x in a <==> x in b }

  lemma SameHead(o: Order, a: seq<Pair<Json>>, b: seq<Pair<Json>>)
    requires Sorted(o, a) && Sorted(o, b) && SameMembers(a, b) && a != []
    ensures b != [] && a[0] == b[0]
  {
    MembersKeys(a, b);
    MembersKeys(b, a);
    SameFirstKey(o, a, b);
    SortedDistinct(o, b);
    assert a[0] in b;
    var j :| 0 <= j < |b| && b[j] == a[0];
    assert j == 0;
  }

  lemma SameTails(o: Order, a: seq<Pair<Json>>, b: seq<Pair<Json>>)
    requires Sorted(o, a) && Sorted(o, b) && SameMembers(a, b) && a != [] && b != [] && a[0] == b[0]
    ensures SameMembers(a[1..], b[1..])
  {
    SortedDistinct(o, a);
    SortedDistinct(o, b);
    forall x ensures x in a[1..] <==> x in b[1..] {
      TailMember(a, x);
      TailMember(b, x);
    }
  }

  /** A sorted list is determined by its members. */
  lemma {:induction false} SortedByMembers(o: Order, a: seq<Pair<Json>>, b: seq<Pair<Json>>)
    requires Sorted(o, a) && Sorted(o, b) && SameMembers(a, b)
    ensures a == b
  {
    MembersKeys(b, a);
    NonemptyHasKey(b);
    if a != [] {
      SameHead(o, a, b);
      SameTails(o, a, b);
      SortedByMembers(o, a[1..], b[1..]);
      assert a == [a[0]] + a[1..] && b == [b[0]] + b[1..];
    }
  }

  lemma TailMember(es: seq<Pair<Json>>, x: Pair<Json>)
    requires es != [] && Distinct(es)
    ensures x in es[1..] <==> x in es && x != es[0]
  {}

  /** Rebuilding an object in UTF-16 key order and enumerating it sorts what is kept by IndexFirst. */
  lemma RebuiltIsIndexFirst(es: seq<Pair<Json>>)
    requires Distinct(es)
    ensures Rebuilt(Sort(UTF16, es)) == Sort(IndexFirst, Filter(es, NotProto))
  {
    var s := Sort(UTF16, es);
    SortResult(UTF16, es);
    FilterSorted(UTF16, s, NotProto);
    EnumerateSorted(Filter(s, NotProto));
    FilterDistinct(es, NotProto);
    SortResult(IndexFirst, Filter(es, NotProto));
    forall x ensures x in Rebuilt(s) <==> x in Sort(IndexFirst, Filter(es, NotProto)) {
      EnumerateMember(Filter(s, NotProto), x);
      FilterMember(s, NotProto, x);
      SortMember(UTF16, es, x);
      FilterMember(es, NotProto, x);
      SortMember(IndexFirst, Filter(es, NotProto), x);
    }
    SortedByMembers(IndexFirst, Rebuilt(s), Sort(IndexFirst, Filter(es, NotProto)));
  }

  // ----- What is kept of a value

  /** The value without any property named "__proto__". */
  function Kept(v: Json): Json
    decreases v, 1
  {
    match v
    case Arr(items) => Arr(KeptItems(items))
    case Obj(es) => Obj(Filter(KeptValues(es), NotProto))
    case _ => v
  }

  function KeptItems(items: seq<Json>): seq<Json>
    decreases items, 0
  {
    if items == [] then [] else [Kept(items[0])] + KeptItems(items[1..])
  }

  function KeptValues(es: seq<Pair<Json>>): (r: seq<Pair<Json>>)
    ensures |r| == |es| && forall i :: 0 <= i < |es| ==> r[i].key == es[i].key
    decreases es, 0
  {
    if es == [] then [] else [Pair(es[0].key, Kept(es[0].value))] + KeptValues(es[1..])
  }

  lemma {:induction false} FilterWellFormed(es: seq<Pair<Json>>, kind: Kind)
    requires WellFormedEntries(es)
    ensures WellFormedEntries(Filter(es, kind))
  {
    if es != [] {
      FilterWellFormed(es[1..], kind);
      var f, rest := Filter(es, kind), Filter(es[1..], kind);
      if Keeps(kind, es[0].key) {
        assert f == [es[0]] + rest && f[1..] == rest;
      } else {
        assert f == rest;
      }
    }
  }

  lemma {:induction false} KeptWellFormed(v: Json)
    requires WellFormed(v)
    ensures WellFormed(Kept(v))
    decreases v, 1
  {
    match v
    case Arr(items) => KeptItemsWellFormed(items);
    case Obj(es) =>
      KeptValuesWellFormed(es);
      FilterWellFormed(KeptValues(es), NotProto);
      FilterDistinct(KeptValues(es), NotProto);
    case _ =>
  }

  lemma {:induction false} KeptItemsWellFormed(items: seq<Json>)
    requires WellFormedItems(items)
    ensures WellFormedItems(KeptItems(items))
    decreases items, 0
  {
    if items != [] {
      KeptWellFormed(items[0]);
      KeptItemsWellFormed(items[1..]);
      assert KeptItems(items)[1..] == KeptItems(items[1..]);
    }
  }

  lemma {:induction false} KeptValuesWellFormed(es: seq<Pair<Json>>)
    requires WellFormedEntries(es)
    ensures WellFormedEntries(KeptValues(es))
    decreases es, 0
  {
    if es != [] {
      KeptWellFormed(es[0].value);
      KeptValuesWellFormed(es[1..]);
      assert KeptValues(es)[1..] == KeptValues(es[1..]);
    }
  }

  // ----- sortObjectKeys is the sorted tree of what is kept

  lemma {:induction false} SortFiltered(o: Order, es: seq<Pair<Json>>, kind: Kind)
    ensures SortValues(o, Filter(es, kind)) == Filter(SortValues(o, es), kind)
  {
    if es != [] {
      SortFiltered(o, es[1..], kind);
      var f, rest := Filter(es, kind), Filter(es[1..], kind);
      assert SortValues(o, es)[1..] == SortValues(o, es[1..]);
      if Keeps(kind, es[0].key) {
        assert f == [es[0]] + rest && f[1..] == rest;
      } else {
        assert f == rest;
      }
    }
  }

  lemma {:induction false} SortObjectKeysIsSortTree(v: Json)
    requires WellFormed(v)
    ensures SortObjectKeys(v) == SortTree(IndexFirst, Kept(v))
    decreases v, 1
  {
    match v
    case Arr(items) => SortAllItemsIs(items);
    case Obj(es) =>
      SortAllValuesIs(es);
      RebuiltIsIndexFirst(SortValues(IndexFirst, KeptValues(es)));
      SortFiltered(IndexFirst, KeptValues(es), NotProto);
    case _ =>
  }

  lemma {:induction false} SortAllItemsIs(items: seq<Json>)
    requires WellFormedItems(items)
    ensures SortAllItems(items) == SortItems(IndexFirst, KeptItems(items))
    decreases items, 0
  {
    if items != [] {
      SortObjectKeysIsSortTree(items[0]);
      SortAllItemsIs(items[1..]);
      assert KeptItems(items)[1..] == KeptItems(items[1..]);
    }
  }

  lemma {:induction false} SortAllValuesIs(es: seq<Pair<Json>>)
    requires WellFormedEntries(es)
    ensures SortAllValues(es) == SortValues(IndexFirst, KeptValues(es))
    decreases es, 0
  {
    if es != [] {
      SortObjectKeysIsSortTree(es[0].value);
      SortAllValuesIs(es[1..]);
      assert KeptValues(es)[1..] == KeptValues(es[1..]);
    }
  }

  // ----- Results

  /** The signed NOWPayments text depends only on what is kept of the value, and determines it. */
  lemma PayloadTextIffReordered(v: Json, w: Json)
    requires WellFormed(v) && WellFormed(w)
    ensures PayloadText(v) == PayloadText(w) <==> Reordered(Kept(v), Kept(w))
  {
    SortObjectKeysIsSortTree(v);
    SortObjectKeysIsSortTree(w);
    KeptWellFormed(v);
    KeptWellFormed(w);
    CanonicalTextIffReordered(Stringify, IndexFirst, Kept(v), Kept(w));
  }

  /** No object anywhere has the key "__proto__". */
  predicate NoProtoKeys(v: Json) {
    match v
    case Arr(items) => forall i :: 0 <= i < |items| ==> NoProtoKeys(items[i])
    case Obj(es) => forall i :: 0 <= i < |es| ==> es[i].key != "__proto__" && NoProtoKeys(es[i].value)
    case _ => true
  }

  lemma {:induction false} KeptItemsAt(items: seq<Json>, i: nat)
    requires i < |items|
    ensures |KeptItems(items)| == |items| && KeptItems(items)[i] == Kept(items[i])
  {
    if |items| > 1 { KeptItemsAt(items[1..], if i > 0 then i - 1 else 0); }
  }

  lemma {:induction false} KeptValuesAt(es: seq<Pair<Json>>, i: nat)
    requires i < |es|
    ensures KeptValues(es)[i] == Pair(es[i].key, Kept(es[i].value))
  {
    if i > 0 { KeptValuesAt(es[1..], i - 1); }
  }

  predicate KeepsAll(kind: Kind, es: seq<Pair<Json>>) {
    forall i :: 0 <= i < |es| ==> Keeps(kind, es[i].key)
  }

  lemma {:induction false} FilterAll(es: seq<Pair<Json>>, kind: Kind)
    ensures |Filter(es, kind)| <= |es|
    ensures KeepsAll(kind, es) ==> Filter(es, kind) == es
    ensures |Filter(es, kind)| == |es| ==> KeepsAll(kind, es)
  {
    if es != [] {
      FilterAll(es[1..], kind);
      assert es == [es[0]] + es[1..];
    }
  }

  lemma KeptValuesSame(es: seq<Pair<Json>>)
    ensures KeptValues(es) == es <==> forall i :: 0 <= i < |es| ==> Kept(es[i].value) == es[i].value
  {
    forall i | 0 <= i < |es| ensures KeptValues(es)[i] == Pair(es[i].key, Kept(es[i].value)) { KeptValuesAt(es, i); }
    if KeptValues(es) == es {
      forall i | 0 <= i < |es| ensures Kept(es[i].value) == es[i].value {
        assert KeptValues(es)[i] == es[i];
      }
    }
  }

  /** Nothing is lost exactly when no object has the key "__proto__". */
  lemma {:induction false} KeptIsAllIff(v: Json)
    ensures Kept(v) == v <==> NoProtoKeys(v)
  {
    match v
    case Arr(items) =>
      forall i | 0 <= i < |items| ensures Kept(items[i]) == items[i] <==> NoProtoKeys(items[i]) { KeptIsAllIff(items[i]); }
      forall i | 0 <= i < |items| ensures |KeptItems(items)| == |items| && KeptItems(items)[i] == Kept(items[i]) { KeptItemsAt(items, i); }
    case Obj(es) =>
      forall i | 0 <= i < |es| ensures Kept(es[i].value) == es[i].value <==> NoProtoKeys(es[i].value) { KeptIsAllIff(es[i].value); }
      KeptValuesSame(es);
      FilterAll(KeptValues(es), NotProto);
      assert KeepsAll(NotProto, KeptValues(es)) <==> KeepsAll(NotProto, es) by {
        if KeepsAll(NotProto, KeptValues(es)) {
          forall i | 0 <= i < |es| ensures Keeps(NotProto, es[i].key) { assert Keeps(NotProto, KeptValues(es)[i].key); }
        }
      }
    case _ =>
  }

  /** What the key "__proto__" holds is not signed: with or without it, one text. */
  lemma ProtoIsNotSigned(u: Json)
    requires WellFormed(u)
    ensures var v := Obj([Pair("__proto__", u)]);
            PayloadText(v) == PayloadText(Obj([]))
  {
    var es := [Pair("__proto__", u)];
    assert es[1..] == [] && WellFormedEntries(es[1..]) && WellFormed(es[0].value);
    assert WellFormed(Obj(es)) && WellFormed(Obj([]));
    var kv := KeptValues(es);
    assert kv == [Pair("__proto__", Kept(u))] && kv[1..] == [];
    assert !Keeps(NotProto, kv[0].key) && Filter(kv, NotProto) == [] + Filter([], NotProto);
    assert Kept(Obj(es)) == Obj([]);
    SortObjectKeysIsSortTree(Obj(es));
    SortObjectKeysIsSortTree(Obj([]));
  }

  // ----- The governance variant

  /** canonicalJson of check-parameter-changes.ts. */
  function GovernanceText(v: Json): string {
    Direct(Stringify, UTF16, v)
  }

  lemma GovernanceTextIffReordered(v: Json, w: Json)
    requires WellFormed(v) && WellFormed(w)
    ensures GovernanceText(v) == GovernanceText(w) <==> Reordered(v, w)
  {
    DirectIsPrinted(Stringify, UTF16, v);
    DirectIsPrinted(Stringify, UTF16, w);
    CanonicalTextIffReordered(Stringify, UTF16, v, w);
  }

  /** An object that keeps its number of entries keeps every key. */
  lemma KeptEntry(v: Json, i: nat)
    requires v.Obj? && |Kept(v).entries| == |v.entries| && i < |v.entries|
    ensures Kept(v).entries[i] == Pair(v.entries[i].key, Kept(v.entries[i].value))
    ensures v.entries[i].key != "__proto__"
  {
    var kv := KeptValues(v.entries);
    FilterAll(kv, NotProto);
    KeptValuesAt(v.entries, i);
    assert Keeps(NotProto, kv[i].key);
  }

  lemma KeptMatches(v: Json, i: nat)
    requires v.Obj? && WellFormed(v) && Reordered(Kept(v), v) && i < |v.entries|
    ensures v.entries[i].key != "__proto__" && Reordered(Kept(v.entries[i].value), v.entries[i].value)
  {
    var es, kept := v.entries, Kept(v).entries;
    KeptEntry(v, i);
    var j :| 0 <= j < |es| && kept[i].key == es[j].key && Reordered(kept[i].value, es[j].value);
    assert i == j;
  }

  /** A value that is kept up to reordering is kept entirely. */
  lemma {:induction false} KeptReordered(v: Json)
    requires WellFormed(v) && Reordered(Kept(v), v)
    ensures NoProtoKeys(v)
  {
    match v
    case Arr(items) =>
      forall i | 0 <= i < |items| ensures NoProtoKeys(items[i]) {
        KeptItemsAt(items, i);
        assert Reordered(Kept(v).items[i], items[i]);
        WellFormedAt(v, i);
        KeptReordered(items[i]);
      }
    case Obj(es) =>
      forall i | 0 <= i < |es| ensures es[i].key != "__proto__" && NoProtoKeys(es[i].value) {
        KeptMatches(v, i);
        WellFormedAt(v, i);
        KeptReordered(es[i].value);
      }
    case _ =>
  }

  lemma SameTreesKeepAll(v: Json)
    requires WellFormed(v) && SortTree(IndexFirst, Kept(v)) == SortTree(UTF16, v)
    ensures NoProtoKeys(v)
  {
    KeptWellFormed(v);
    SortTreeResult(IndexFirst, Kept(v));
    SortTreeResult(UTF16, v);
    ReorderedIffMeaning(Kept(v), v);
    KeptReordered(v);
  }

  /**
   * The two variants print the same text exactly when no object has the key
   * "__proto__" and index keys are nowhere out of UTF-16 order.
   */
  lemma VariantsAgreeIff(v: Json)
    requires WellFormed(v)
    ensures PayloadText(v) == GovernanceText(v) <==>
            NoProtoKeys(v) && OrdersAgree(IndexFirst, UTF16, v)
  {
    SortObjectKeysIsSortTree(v);
    DirectIsPrinted(Stringify, UTF16, v);
    KeptIsAllIff(v);
    if PayloadText(v) == GovernanceText(v) {
      PrintInjective(Stringify, SortTree(IndexFirst, Kept(v)), SortTree(UTF16, v));
      SameTreesKeepAll(v);
    }
    if NoProtoKeys(v) { SameTextIffAgree(Stringify, IndexFirst, UTF16, v); }
  }

  lemma NineBeforeTen()
    ensures Less(IndexFirst, "9", "10") && !Less(UTF16, "9", "10")
  {}

  /** They differ on { "9": null, "10": null }. */
  lemma VariantsDisagree()
    ensures var v := Obj([Pair("9", Null), Pair("10", Null)]);
            PayloadText(v) != GovernanceText(v)
  {
    var v := Obj([Pair("9", Null), Pair("10", Null)]);
    NullsWellFormed("9", "10");
    VariantsAgreeIff(v);
    NineBeforeTen();
    assert !AgreeOnPair(IndexFirst, UTF16, v.entries[0].key, v.entries[1].key);
  }

  lemma NullsWellFormed(j: string, k: string)
    requires j != k
    ensures WellFormed(Obj([Pair(j, Null), Pair(k, Null)]))
  {
    var last: seq<Pair<Json>> := [Pair(k, Null)];
    var both: seq<Pair<Json>> := [Pair(j, Null), Pair(k, Null)];
    assert last[1..] == [] && both[1..] == last;
    assert WellFormedEntries([]);
    assert WellFormed(last[0].value) && WellFormedEntries(last);
  }
}
