/** Invoice-ID payloads: sdk-go/hashing.go, sdk-go/models.go and sdk/src/utils.ts. */
module Invoice {
  import opened Text
  import opened Decimal
  import opened JsNumbers
  import opened Json
  import opened JsonParser
  import opened CanonicalJson
  import opened OrderAgreement
  import opened TonAddress
  import opened SdkAmount
  import Go = GoHashing
  import Ts = TsHashing

  /** ^[1-9][0-9]*$ */
  predicate IsAmountShape(s: string) { |s| >= 1 && AllDigits(s) && s[0] != '0' }

  predicate ValidateAmount(amount: string) {
    var normalized := Trim(GoSpace, amount);
    IsAmountShape(normalized) && Value(normalized) <= MAX_TBC_NANOCOINS
  }

  datatype InvoiceParams = InvoiceParams(merchantNFT: string, amountTBC: string, orderID: string, timestamp: int)

  /** The four fields hashed by both SDKs, in the order the map literal lists them. */
  function Fields(amount: string, merchant: string, order: string, timestamp: string): seq<Pair<string>> {
    [Pair("amount_tbc", amount), Pair("merchant_nft", merchant), Pair("order_id", order), Pair("timestamp", timestamp)]
  }

  function GoFields(fs: seq<Pair<string>>): (r: seq<Pair<Go.GoValue>>)
    ensures |r| == |fs| && forall i :: 0 <= i < |fs| ==> r[i] == Pair(fs[i].key, Go.GoString(fs[i].value))
  {
    seq(|fs|, i requires 0 <= i < |fs| => Pair(fs[i].key, Go.GoString(fs[i].value)))
  }

  /** CanonicalInvoiceIDPayload of the Go SDK; None stands for an error. */
  function GoPayload(p: InvoiceParams): Option<string> {
    match CanonicalizeTonAddress(p.merchantNFT)
    case None => None
    case Some(merchant) =>
      if !ValidateAmount(p.amountTBC) then None
      else match Go.CanonicalJSON(Go.GoMap(GoFields(Fields(p.amountTBC, merchant, p.orderID, IntText(p.timestamp)))))
        case Success(text) => Some(text)
        case Failure(_) => None
  }

  function TsFields(fs: seq<Pair<string>>): (r: seq<Pair<Ts.TsValue>>)
    ensures |r| == |fs| && forall i :: 0 <= i < |fs| ==> r[i] == Pair(fs[i].key, Ts.TsString(fs[i].value))
  {
    seq(|fs|, i requires 0 <= i < |fs| => Pair(fs[i].key, Ts.TsString(fs[i].value)))
  }

  /** number | bigint */
  datatype TsTimestamp = BigIntTime(n: int) | NumberTime(x: JsNumber)

  /** The time canonicalTimestamp writes; None stands for its TypeError. */
  function Seconds(timestamp: TsTimestamp): Option<int> {
    match timestamp
    case BigIntTime(n) => Some(n)
    case NumberTime(x) => if IsSafeInteger(x) then Some(x.value.Floor) else None
  }

  /** canonicalInvoiceIdPayload of the TypeScript SDK, given the raw text of the merchant address. */
  function TsPayload(merchant: string, amountTbc: int, orderId: Option<string>, timestamp: TsTimestamp): Option<string> {
    if amountTbc <= 0 || amountTbc > MAX_TBC_NANOCOINS then None
    else match Seconds(timestamp)
      case None => None
      case Some(seconds) =>
        var order := match orderId case Some(id) => id case None => "";
        Ts.CanonicalJsonTs(Ts.TsObject(TsFields(Fields(IntText(amountTbc), merchant, order, IntText(seconds)))))
  }

  // ----- The object the text stands for

  function JsonFields(fs: seq<Pair<string>>): (r: seq<Pair<Json>>)
    ensures |r| == |fs| && forall i :: 0 <= i < |fs| ==> r[i] == Pair(fs[i].key, Str(fs[i].value))
  {
    seq(|fs|, i requires 0 <= i < |fs| => Pair(fs[i].key, Str(fs[i].value)))
  }

  lemma {:induction false} NormalizeFields(fs: seq<Pair<string>>)
    ensures Go.NormalizeEntries(GoFields(fs)) == Go.Success(JsonFields(fs))
  {
    if fs != [] {
      NormalizeFields(fs[1..]);
      assert GoFields(fs)[1..] == GoFields(fs[1..]);
      assert JsonFields(fs) == [Pair(fs[0].key, Str(fs[0].value))] + JsonFields(fs[1..]);
    } else {
      assert JsonFields(fs) == [];
    }
  }

  lemma {:induction false} TsFieldsToJson(fs: seq<Pair<string>>)
    ensures Ts.ValuesToJson(TsFields(fs)) == Some(JsonFields(fs))
  {
    if fs != [] {
      TsFieldsToJson(fs[1..]);
      assert TsFields(fs)[1..] == TsFields(fs[1..]);
      assert JsonFields(fs) == [Pair(fs[0].key, Str(fs[0].value))] + JsonFields(fs[1..]);
    } else {
      assert JsonFields(fs) == [];
    }
  }

  function FieldMap(fs: seq<Pair<string>>): map<string, Meaning> {
    if fs == [] then map[] else FieldMap(fs[1..])[fs[0].key := MStr(fs[0].value)]
  }

  lemma {:induction false} DenoteFields(fs: seq<Pair<string>>)
    ensures DenoteEntries(JsonFields(fs)) == FieldMap(fs)
  {
    if fs != [] {
      DenoteFields(fs[1..]);
      assert JsonFields(fs)[1..] == JsonFields(fs[1..]);
    }
  }

  lemma FieldsDistinct(amount: string, merchant: string, order: string, timestamp: string)
    ensures Distinct(Fields(amount, merchant, order, timestamp))
  {}

  lemma FieldMapIs(amount: string, merchant: string, order: string, timestamp: string)
    ensures FieldMap(Fields(amount, merchant, order, timestamp)) ==
            map["amount_tbc" := MStr(amount), "merchant_nft" := MStr(merchant), "order_id" := MStr(order), "timestamp" := MStr(timestamp)]
  {
    var fs := Fields(amount, merchant, order, timestamp);
    var f1, f2, f3 := fs[1..], fs[2..], fs[3..];
    assert f1[1..] == f2 && f2[1..] == f3 && f3[1..] == [];
    assert |"amount_tbc"| == 10 && |"merchant_nft"| == 12 && |"order_id"| == 8 && |"timestamp"| == 9;
    assert FieldMap(f3) == map["timestamp" := MStr(timestamp)];
    assert FieldMap(f2) == FieldMap(f3)["order_id" := MStr(order)];
    assert FieldMap(f1) == FieldMap(f2)["merchant_nft" := MStr(merchant)];
  }

  /** The field map determines the four texts. */
  lemma FieldMapInjective(a: string, m: string, o: string, t: string, a': string, m': string, o': string, t': string)
    ensures FieldMap(Fields(a, m, o, t)) == FieldMap(Fields(a', m', o', t')) <==> a == a' && m == m' && o == o' && t == t'
  {
    FieldMapIs(a, m, o, t);
    FieldMapIs(a', m', o', t');
    var x, y := FieldMap(Fields(a, m, o, t)), FieldMap(Fields(a', m', o', t'));
    assert |"amount_tbc"| == 10 && |"merchant_nft"| == 12 && |"order_id"| == 8 && |"timestamp"| == 9;
    assert x["amount_tbc"] == MStr(a) && y["amount_tbc"] == MStr(a');
    assert x["merchant_nft"] == MStr(m) && y["merchant_nft"] == MStr(m');
    assert x["order_id"] == MStr(o) && y["order_id"] == MStr(o');
    assert x["timestamp"] == MStr(t) && y["timestamp"] == MStr(t');
  }

  // ----- Payloads name their fields

  ghost function GoMapOf(fs: seq<Pair<string>>): Go.GoValue { Go.GoMap(GoFields(fs)) }

  lemma GoObject(fs: seq<Pair<string>>)
    requires Distinct(fs)
    ensures Go.IsGoValue(GoMapOf(fs)) && Go.Representable(GoMapOf(fs))
    ensures Go.Normalize(GoMapOf(fs)) == Go.Success(Obj(JsonFields(fs)))
    ensures Denote(Obj(JsonFields(fs))) == MObj(FieldMap(fs))
  {
    NormalizeFields(fs);
    DenoteFields(fs);
  }

  lemma TsObjectOf(fs: seq<Pair<string>>)
    requires Distinct(fs)
    ensures Ts.IsTsValue(Ts.TsObject(TsFields(fs)))
    ensures Ts.ToJson(Ts.TsObject(TsFields(fs))) == Some(Obj(JsonFields(fs)))
    ensures Denote(Obj(JsonFields(fs))) == MObj(FieldMap(fs))
  {
    TsFieldsToJson(fs);
    DenoteFields(fs);
  }

  lemma GoTextsEqualIff(fs: seq<Pair<string>>, gs: seq<Pair<string>>)
    requires Distinct(fs) && Distinct(gs)
    ensures Go.CanonicalJSON(GoMapOf(fs)).Success? && Go.CanonicalJSON(GoMapOf(gs)).Success?
    ensures Go.CanonicalJSON(GoMapOf(fs)) == Go.CanonicalJSON(GoMapOf(gs)) <==> FieldMap(fs) == FieldMap(gs)
  {
    GoObject(fs);
    GoObject(gs);
    Go.CanonicalJSONIffMeaning(GoMapOf(fs), GoMapOf(gs));
  }

  /** The payload exists exactly for valid addresses and amounts. */
  lemma PayloadExistsIff(p: InvoiceParams)
    ensures GoPayload(p).Some? <==> ValidateMerchantNFT(p.merchantNFT) && ValidateAmount(p.amountTBC)
  {
    CanonicalizesIffValid(p.merchantNFT);
    if CanonicalizeTonAddress(p.merchantNFT).Some? {
      var m, t := CanonicalizeTonAddress(p.merchantNFT).value, IntText(p.timestamp);
      FieldsDistinct(p.amountTBC, m, p.orderID, t);
      GoTextsEqualIff(Fields(p.amountTBC, m, p.orderID, t), Fields(p.amountTBC, m, p.orderID, t));
    }
  }

  /** Two payloads are equal exactly when account, amount text, order id and timestamp all are. */
  lemma PayloadsEqualIff(p: InvoiceParams, q: InvoiceParams)
    ensures GoPayload(p).Some? && GoPayload(q).Some? ==>
              (GoPayload(p) == GoPayload(q) <==>
                 && Named(p.merchantNFT) == Named(q.merchantNFT)
                 && p.amountTBC == q.amountTBC && p.orderID == q.orderID && p.timestamp == q.timestamp)
  {
    if GoPayload(p).Some? && GoPayload(q).Some? {
      var m, n := CanonicalizeTonAddress(p.merchantNFT).value, CanonicalizeTonAddress(q.merchantNFT).value;
      var t, u := IntText(p.timestamp), IntText(q.timestamp);
      CanonicalizeRenders(p.merchantNFT);
      CanonicalizeRenders(q.merchantNFT);
      SameTextIffSameAccount(p.merchantNFT, q.merchantNFT);
      IntTextInjective(p.timestamp, q.timestamp);
      FieldsDistinct(p.amountTBC, m, p.orderID, t);
      FieldsDistinct(q.amountTBC, n, q.orderID, u);
      GoTextsEqualIff(Fields(p.amountTBC, m, p.orderID, t), Fields(q.amountTBC, n, q.orderID, u));
      FieldMapInjective(p.amountTBC, m, p.orderID, t, q.amountTBC, n, q.orderID, u);
    }
  }

  /** The Go and TypeScript payloads are equal exactly when all four fields agree. */
  lemma SdkPayloadsEqualIff(p: InvoiceParams, merchant: string, amountTbc: int, orderId: Option<string>, timestamp: TsTimestamp)
    ensures GoPayload(p).Some? && TsPayload(merchant, amountTbc, orderId, timestamp).Some? ==>
              (GoPayload(p) == TsPayload(merchant, amountTbc, orderId, timestamp) <==>
                 && CanonicalizeTonAddress(p.merchantNFT) == Some(merchant)
                 && p.amountTBC == IntText(amountTbc)
                 && p.orderID == (match orderId case Some(id) => id case None => "")
                 && Some(p.timestamp) == Seconds(timestamp))
  {
    if GoPayload(p).Some? && TsPayload(merchant, amountTbc, orderId, timestamp).Some? {
      var m, t := CanonicalizeTonAddress(p.merchantNFT).value, IntText(p.timestamp);
      var seconds := Seconds(timestamp).value;
      var order := match orderId case Some(id) => id case None => "";
      var fs := Fields(p.amountTBC, m, p.orderID, t);
      var gs := Fields(IntText(amountTbc), merchant, order, IntText(seconds));
      FieldsDistinct(p.amountTBC, m, p.orderID, t);
      FieldsDistinct(IntText(amountTbc), merchant, order, IntText(seconds));
      GoObject(fs);
      TsObjectOf(gs);
      Ts.SdksAgree(GoMapOf(fs), Ts.TsObject(TsFields(gs)));
      FieldMapInjective(p.amountTBC, m, p.orderID, t, IntText(amountTbc), merchant, order, IntText(seconds));
      IntTextInjective(p.timestamp, seconds);
    }
  }

  /** The TypeScript payload exists exactly for amounts in range and times that are safe integers or big ones. */
  lemma TsPayloadExistsIff(merchant: string, amountTbc: int, orderId: Option<string>, timestamp: TsTimestamp)
    ensures TsPayload(merchant, amountTbc, orderId, timestamp).Some? <==>
            0 < amountTbc <= MAX_TBC_NANOCOINS && Seconds(timestamp).Some?
  {
    if Seconds(timestamp).Some? {
      var order := match orderId case Some(id) => id case None => "";
      var fs := Fields(IntText(amountTbc), merchant, order, IntText(Seconds(timestamp).value));
      FieldsDistinct(IntText(amountTbc), merchant, order, IntText(Seconds(timestamp).value));
      TsObjectOf(fs);
      Ts.TextIsDirect(Ts.TsObject(TsFields(fs)));
    }
  }

  // ----- One amount, one text?

  function AmountOf(amount: string): nat
    requires ValidateAmount(amount)
  {
    Value(Trim(GoSpace, amount))
  }

  /** Among accepted texts of one amount only the trimmed one is the decimal notation. */
  lemma AmountTextIsNotation(amount: string)
    requires ValidateAmount(amount)
    ensures Trim(GoSpace, amount) == ToDec(AmountOf(amount))
    ensures amount == ToDec(AmountOf(amount)) <==> Trimmed(GoSpace, amount)
  {
    TrimResult(GoSpace, amount);
    ToDecOfValue(Trim(GoSpace, amount));
  }

  /**
   * The validator trims the amount but the payload keeps the text as given, so
   * equal amounts give equal payloads exactly when the texts carry the same
   * white space; for trimmed texts the payload depends on the amount alone.
   */
  lemma SameAmountSamePayloadIff(p: InvoiceParams, amount: string)
    requires ValidateAmount(amount) && ValidateAmount(p.amountTBC) && AmountOf(amount) == AmountOf(p.amountTBC)
    ensures GoPayload(p.(amountTBC := amount)).Some? <==> GoPayload(p).Some?
    ensures GoPayload(p).Some? ==> (GoPayload(p.(amountTBC := amount)) == GoPayload(p) <==> amount == p.amountTBC)
    ensures Trimmed(GoSpace, amount) && Trimmed(GoSpace, p.amountTBC) ==> amount == p.amountTBC
  {
    var q := p.(amountTBC := amount);
    PayloadExistsIff(p);
    PayloadExistsIff(q);
    PayloadsEqualIff(p, q);
    AmountTextIsNotation(amount);
    AmountTextIsNotation(p.amountTBC);
  }

  /** For instance " 1" and "1": both accepted, one amount, two payloads for every address. */
  lemma PaddedAmountDiffers(merchant: string, order: string, timestamp: int)
    requires ValidateMerchantNFT(merchant)
    ensures var p := InvoiceParams(merchant, "1", order, timestamp);
            && ValidateAmount(" 1") && ValidateAmount("1") && AmountOf(" 1") == AmountOf("1")
            && GoPayload(p).Some? && GoPayload(p.(amountTBC := " 1")) != GoPayload(p)
  {
    var p := InvoiceParams(merchant, "1", order, timestamp);
    assert " 1"[1..] == "1";
    assert Trim(GoSpace, " 1") == "1" && Trim(GoSpace, "1") == "1";
    assert "1"[..0] == [];
    PayloadExistsIff(p);
    SameAmountSamePayloadIff(p, " 1");
  }

  // ----- What a payload holds

  /** Read as JSON, a payload is the object of exactly its four fields, each under its own key. */
  lemma PayloadHolds(p: InvoiceParams) returns (w: Json)
    requires GoPayload(p).Some?
    ensures CanonicalizeTonAddress(p.merchantNFT).Some? && Read(GoPayload(p).value) == ReadAs(w)
    ensures Denote(w) == MObj(map[
              "amount_tbc" := MStr(p.amountTBC),
              "merchant_nft" := MStr(CanonicalizeTonAddress(p.merchantNFT).value),
              "order_id" := MStr(p.orderID),
              "timestamp" := MStr(IntText(p.timestamp))])
  {
    var m, t := CanonicalizeTonAddress(p.merchantNFT).value, IntText(p.timestamp);
    var fs := Fields(p.amountTBC, m, p.orderID, t);
    FieldsDistinct(p.amountTBC, m, p.orderID, t);
    GoObject(fs);
    FieldMapIs(p.amountTBC, m, p.orderID, t);
    Go.NormalizeWellFormed(GoMapOf(fs));
    Go.CanonicalJSONText(GoMapOf(fs));
    w := CanonicalTextReadsBack(Canonical, UTF8, Obj(JsonFields(fs)));
  }

  /** An amount is accepted exactly when, without the white space around it, it is the notation of 1..2^120-1. */
  lemma AmountAcceptedIff(amount: string)
    ensures ValidateAmount(amount) <==>
            exists n: nat :: 1 <= n < 0x100_0000_0000_0000_0000_0000_0000_0000 && Trim(GoSpace, amount) == ToDec(n)
  {
    var t := Trim(GoSpace, amount);
    if ValidateAmount(amount) {
      ToDecOfValue(t);
      ValuePositive(t);
      assert t == ToDec(Value(t));
    }
    forall n: nat | 1 <= n <= MAX_TBC_NANOCOINS && t == ToDec(n) ensures ValidateAmount(amount) {
      ToDecCanonical(n);
      ValueToDec(n);
    }
  }

  /** White space around an amount does not decide whether it is accepted. */
  lemma PaddedAmountIff(a: string, amount: string, b: string)
    requires AllSpace(GoSpace, a) && AllSpace(GoSpace, b)
    ensures ValidateAmount(a + amount + b) <==> ValidateAmount(amount)
  {
    TrimAbsorbs(GoSpace, a, amount, b);
  }

  /** A TypeScript timestamp is taken as it is: a bigint, or a number that is a whole one of at most 53 bits. */
  lemma SecondsMeans(n: int, x: JsNumber)
    ensures Seconds(BigIntTime(n)) == Some(n)
    ensures Seconds(NumberTime(x)) == Some(n) <==> x == Finite(n as real) && -9007199254740991 <= n <= 9007199254740991
  {
    if x == Finite(n as real) { assert x.value.Floor == n; }
  }
}
