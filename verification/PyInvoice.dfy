/**
 * Invoice-ID payloads of the Python SDK (hashing.py and models.py of
 * sdk-python/src/tonbankcard_merchant), compared with the Go SDK's.
 */
module PyInvoice {
  import opened Text
  import opened Decimal
  import opened Base64
  import opened Json
  import opened CanonicalJson
  import opened TonAddress
  import opened SdkAmount
  import opened Invoice
  import opened PyHashing

  /** Code points stripped by Python's str.strip: also the four information separators. */
  predicate PySpace(c: char) { GoSpace(c) || IsInformationSeparator(c) }

  /** How many digits int() and str() convert; None is no limit. The interpreter allows no limit below 640. */
  type DigitLimit = l: Option<nat> | l.None? || l.value >= 640 witness None

  predicate Within(limit: DigitLimit, digits: nat) { limit.None? || digits <= limit.value }

  function Digits(t: string): nat { if t != [] && t[0] == '-' then |t| - 1 else |t| }

  predicate IsPyRaw(limit: DigitLimit, t: string) { IsRawShape(t) && Within(limit, Digits(Cut(t, ':').before)) }

  /** canonicalize_ton_address; None stands for the ValueError. */
  function PyCanonicalize(limit: DigitLimit, addr: string): Option<string> {
    var t := Trim(PySpace, addr);
    if IsPyRaw(limit, t) then
      var parts := Cut(t, ':');
      Some(IntText(IntValue(parts.before)) + ":" + ToLower(parts.after))
    else match DecodeFriendly(t)
      case None => None
      case Some(decoded) => Some(IntText(Int8(decoded[1])) + ":" + HexEncode(decoded[2..34]))
  }

  predicate PyValidateAmount(limit: DigitLimit, amount: string) {
    var t := Trim(PySpace, amount);
    IsAmountShape(t) && Within(limit, |t|) && Value(t) <= MAX_TBC_NANOCOINS
  }

  function PyFields(fs: seq<Pair<string>>): (r: seq<Pair<PyValue>>)
    ensures |r| == |fs| && forall i :: 0 <= i < |fs| ==> r[i] == Pair(fs[i].key, PyStr(fs[i].value))
  {
    seq(|fs|, i requires 0 <= i < |fs| => Pair(fs[i].key, PyStr(fs[i].value)))
  }

  /** canonical_invoice_id_payload; None stands for an exception. */
  function PyPayload(limit: DigitLimit, p: InvoiceParams): Option<string> {
    if !PyValidateAmount(limit, p.amountTBC) then None
    else match PyCanonicalize(limit, p.merchantNFT)
      case None => None
      case Some(merchant) =>
        if !Within(limit, Digits(IntText(p.timestamp))) then None
        else PyCanonicalJson(PyDict(PyFields(Fields(p.amountTBC, merchant, p.orderID, IntText(p.timestamp)))))
  }

  // ----- The texts

  lemma {:induction false} PyFieldsNormalize(fs: seq<Pair<string>>)
    ensures PyEntries(PyFields(fs)) == Some(JsonFields(fs))
  {
    if fs != [] {
      PyFieldsNormalize(fs[1..]);
      assert PyFields(fs)[1..] == PyFields(fs[1..]);
      assert JsonFields(fs) == [Pair(fs[0].key, Str(fs[0].value))] + JsonFields(fs[1..]);
    } else {
      assert JsonFields(fs) == [];
    }
  }

  /** Go and Python print the same fields alike. */
  lemma SameFieldsSameText(fs: seq<Pair<string>>)
    requires Distinct(fs)
    ensures Go.CanonicalJSON(GoMapOf(fs)).Success?
    ensures PyCanonicalJson(PyDict(PyFields(fs))) == Some(Go.CanonicalJSON(GoMapOf(fs)).value)
  {
    GoObject(fs);
    PyFieldsNormalize(fs);
    ThreeSdksAgree(GoMapOf(fs), PyHashing.Ts.TsNull, PyDict(PyFields(fs)));
  }

  // ----- White space

  /** Both SDKs strip the same from the text. */
  predicate Neat(s: string) { Trim(GoSpace, s) == Trim(PySpace, s) }

  predicate IsInformationSeparator(c: char) { 0x1C <= c as int <= 0x1F }

  /** No information separator at an end. */
  predicate Tidy(t: string) { t != "" && !IsInformationSeparator(t[0]) && !IsInformationSeparator(t[|t| - 1]) }

  /** What Go leaves has no other white space at its ends. */
  lemma TidyIsNeat(s: string)
    requires Tidy(Trim(GoSpace, s))
    ensures Neat(s)
  {
    TrimResult(GoSpace, s);
    TrimWider(GoSpace, PySpace, s);
  }

  lemma RawTidy(t: string)
    requires IsRawShape(t)
    ensures Tidy(t)
  {
    RawEnds(t);
  }

  lemma FriendlyTidy(t: string)
    requires IsFriendlyShape(t)
    ensures Tidy(t)
  {
    assert InAlphabet(t[0]) && InAlphabet(t[|t| - 1]);
  }

  lemma AddressIsNeat(s: string)
    requires CanonicalizeTonAddress(s).Some?
    ensures Neat(s)
  {
    var t := Trim(GoSpace, s);
    if IsRawShape(t) { RawTidy(t); } else { FriendlyTidy(t); }
    TidyIsNeat(s);
  }

  lemma AmountIsNeat(s: string)
    requires ValidateAmount(s)
    ensures Neat(s)
  {
    var t := Trim(GoSpace, s);
    assert IsDigit(t[0]) && IsDigit(t[|t| - 1]);
    TidyIsNeat(s);
  }

  // ----- Addresses

  /** What the two SDKs ask of the stripped address. */
  predicate GoAddress(t: string) { IsValidRaw(t) || DecodeFriendly(t).Some? }

  predicate PyAddress(limit: DigitLimit, t: string) { IsPyRaw(limit, t) || DecodeFriendly(t).Some? }

  lemma RawNotFriendly(t: string)
    requires IsRawShape(t)
    ensures DecodeFriendly(t) == None
  {
    CutParts(t, ':');
  }

  /** Go accepts an address exactly when it is neat and its stripped text asks what Go asks. */
  lemma GoAcceptsIff(addr: string)
    ensures CanonicalizeTonAddress(addr).Some? <==> Neat(addr) && GoAddress(Trim(PySpace, addr))
  {
    if CanonicalizeTonAddress(addr).Some? { AddressIsNeat(addr); }
  }

  /** Accepted by both, an address gets one canonical text. */
  lemma SameCanonical(limit: DigitLimit, addr: string)
    requires CanonicalizeTonAddress(addr).Some? && PyCanonicalize(limit, addr).Some?
    ensures CanonicalizeTonAddress(addr) == PyCanonicalize(limit, addr)
  {
    GoAcceptsIff(addr);
    var t := Trim(PySpace, addr);
    if IsRawShape(t) { RawNotFriendly(t); }
  }

  // ----- Amounts

  lemma ShortAmount(limit: DigitLimit, t: string)
    requires IsAmountShape(t) && Value(t) <= MAX_TBC_NANOCOINS
    ensures Within(limit, |t|)
  {
    ToDecOfValue(t);
    AmountBelow(Value(t));
    ToDecLength(Value(t), 640);
  }

  lemma AmountBelow(n: nat)
    requires n <= MAX_TBC_NANOCOINS
    ensures n < Pow10(640)
  {
    Pow10Forty();
    Pow10Mono(40, 640);
  }

  lemma Pow10Forty()
    ensures Pow10(40) > MAX_TBC_NANOCOINS
  {
    Pow10Add(5, 5);
    Pow10Add(10, 10);
    Pow10Add(20, 20);
    assert Pow10(5) == 100000;
  }

  /** Go accepts an amount exactly when Python does and it is neat; the digit limit does not matter. */
  lemma AmountIff(limit: DigitLimit, amount: string)
    ensures ValidateAmount(amount) <==> Neat(amount) && PyValidateAmount(limit, amount)
  {
    if ValidateAmount(amount) { AmountIsNeat(amount); }
    var t := Trim(PySpace, amount);
    if IsAmountShape(t) && Value(t) <= MAX_TBC_NANOCOINS { ShortAmount(limit, t); }
  }

  // ----- Payloads

  predicate TimeWithin(limit: DigitLimit, p: InvoiceParams) { Within(limit, Digits(IntText(p.timestamp))) }

  /** The Python payload exists exactly for addresses and amounts Python accepts and times it can write. */
  lemma PyPayloadExistsIff(limit: DigitLimit, p: InvoiceParams)
    ensures PyPayload(limit, p).Some? <==>
            PyAddress(limit, Trim(PySpace, p.merchantNFT)) && PyValidateAmount(limit, p.amountTBC) && TimeWithin(limit, p)
  {
    if PyCanonicalize(limit, p.merchantNFT).Some? {
      var m, t := PyCanonicalize(limit, p.merchantNFT).value, IntText(p.timestamp);
      FieldsDistinct(p.amountTBC, m, p.orderID, t);
      SameFieldsSameText(Fields(p.amountTBC, m, p.orderID, t));
    }
  }

  /** Accepted by both SDKs, an invoice gets one payload. */
  lemma BothAcceptSame(limit: DigitLimit, p: InvoiceParams)
    requires GoPayload(p).Some? && PyPayload(limit, p).Some?
    ensures GoPayload(p) == PyPayload(limit, p)
  {
    SameCanonical(limit, p.merchantNFT);
    var m, t := CanonicalizeTonAddress(p.merchantNFT).value, IntText(p.timestamp);
    FieldsDistinct(p.amountTBC, m, p.orderID, t);
    SameFieldsSameText(Fields(p.amountTBC, m, p.orderID, t));
  }

  /** What Go accepts gets the same payload from Python exactly when Python can convert the workchain's digits and the time. */
  lemma GoIsPyIff(limit: DigitLimit, p: InvoiceParams)
    requires GoPayload(p).Some?
    ensures GoPayload(p) == PyPayload(limit, p) <==>
            (IsRawShape(Trim(PySpace, p.merchantNFT)) ==> IsPyRaw(limit, Trim(PySpace, p.merchantNFT))) && TimeWithin(limit, p)
  {
    var t := Trim(PySpace, p.merchantNFT);
    PayloadExistsIff(p);
    CanonicalizesIffValid(p.merchantNFT);
    GoAcceptsIff(p.merchantNFT);
    AmountIff(limit, p.amountTBC);
    PyPayloadExistsIff(limit, p);
    if IsRawShape(t) { RawNotFriendly(t); }
    if PyPayload(limit, p).Some? { BothAcceptSame(limit, p); }
  }

  /** What Python accepts gets the same payload from Go exactly when both texts are neat and a raw workchain fits 64 bits. */
  lemma PyIsGoIff(limit: DigitLimit, p: InvoiceParams)
    requires PyPayload(limit, p).Some?
    ensures GoPayload(p) == PyPayload(limit, p) <==>
            && Neat(p.merchantNFT) && Neat(p.amountTBC)
            && (IsRawShape(Trim(PySpace, p.merchantNFT)) ==> IsValidRaw(Trim(PySpace, p.merchantNFT)))
  {
    var t := Trim(PySpace, p.merchantNFT);
    PayloadExistsIff(p);
    CanonicalizesIffValid(p.merchantNFT);
    GoAcceptsIff(p.merchantNFT);
    AmountIff(limit, p.amountTBC);
    PyPayloadExistsIff(limit, p);
    if IsRawShape(t) { RawNotFriendly(t); }
    if GoPayload(p).Some? { BothAcceptSame(limit, p); }
  }

  // ----- Where they part

  lemma RawText(workchain: string, account: string)
    requires IsIntText(workchain) && |account| == 64 && AllHex(account)
    ensures var addr := workchain + ":" + account;
            && Cut(addr, ':') == CutResult(workchain, account, true) && IsRawShape(addr)
            && DecodeFriendly(addr) == None
            && Trimmed(GoSpace, addr) && Trimmed(PySpace, addr)
  {
    var addr := workchain + ":" + account;
    assert ':' !in workchain;
    CutFirst(workchain, ':', account);
    RawNotFriendly(addr);
    RawEnds(addr);
  }

  /** On raw addresses Go asks for 64 bits, Python for few enough digits. */
  lemma RawAddressIff(limit: DigitLimit, workchain: string, account: string)
    requires IsIntText(workchain) && |account| == 64 && AllHex(account)
    ensures var addr := workchain + ":" + account;
            && (CanonicalizeTonAddress(addr).Some? <==> Atoi(workchain).Some?)
            && (PyCanonicalize(limit, addr).Some? <==> Within(limit, Digits(workchain)))
  {
    var addr := workchain + ":" + account;
    RawText(workchain, account);
    TrimResult(GoSpace, addr);
    TrimResult(PySpace, addr);
  }

  /** The workchain 2^63 is Python's alone. */
  lemma WideWorkchain(limit: DigitLimit, account: string)
    requires |account| == 64 && AllHex(account)
    ensures var addr := ToDec(0x8000_0000_0000_0000) + ":" + account;
            CanonicalizeTonAddress(addr) == None && PyCanonicalize(limit, addr).Some?
  {
    WideText(limit);
    RawAddressIff(limit, ToDec(0x8000_0000_0000_0000), account);
  }

  lemma WideText(limit: DigitLimit)
    ensures var t := ToDec(0x8000_0000_0000_0000);
            IsIntText(t) && Atoi(t) == None && Within(limit, Digits(t))
  {
    var n := 0x8000_0000_0000_0000;
    ValueToDec(n);
    AmountBelow(n);
    ToDecLength(n, 640);
    assert IsDigit(ToDec(n)[0]);
  }

  /** A workchain written with more zeros than Python converts is Go's alone. */
  lemma ManyZeros(limit: DigitLimit, account: string)
    requires limit.Some? && |account| == 64 && AllHex(account)
    ensures var addr := Zeros(limit.value + 1) + ":" + account;
            CanonicalizeTonAddress(addr).Some? && PyCanonicalize(limit, addr) == None
  {
    var zeros := Zeros(limit.value + 1);
    ValueZeros(limit.value + 1);
    assert IsDigit(zeros[0]);
    RawAddressIff(limit, zeros, account);
  }

  /** An amount behind an information separator is Python's alone. */
  lemma SeparatedAmount(limit: DigitLimit)
    ensures PyValidateAmount(limit, [0x1C as char, '1']) && !ValidateAmount([0x1C as char, '1'])
  {
    var separator: string := [0x1C as char];
    TrimLeftIs(PySpace, separator, "1");
    TrimRightIs(PySpace, "1", "");
    TrimResult(GoSpace, separator + "1");
    assert separator + "1" == [0x1C as char, '1'] && "1" + "" == "1";
    assert "1"[..0] == [] && Value("1") == 1;
  }

  /** White space, in each language's sense, around an address does not matter. */
  lemma PaddedPyAddress(limit: DigitLimit, a: string, addr: string, b: string)
    requires AllSpace(PySpace, a) && AllSpace(PySpace, b)
    ensures PyCanonicalize(limit, a + addr + b) == PyCanonicalize(limit, addr)
  {
    TrimAbsorbs(PySpace, a, addr, b);
  }

  /** What the three languages strip differs in six characters: U+0085 and U+FEFF, and U+001C to U+001F. */
  lemma SpacesCompared(c: char)
    ensures JsSpace(c) <==> (GoSpace(c) && c as int != 0x85) || c as int == 0xFEFF
    ensures PySpace(c) <==> GoSpace(c) || 0x1C <= c as int <= 0x1F
    ensures c == ' ' || c == '\t' || c == '\n' || c == '\r' ==> GoSpace(c)
    ensures GoSpace(c) ==> c == ' ' || 0x09 <= c as int <= 0x0D || c as int >= 0x85
  {}
}
