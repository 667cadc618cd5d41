/** sdk-go/models.go: TON addresses in raw and friendly (TEP-2) form. */
module TonAddress {
  import opened Text
  import opened Decimal
  import opened CrcWords
  import opened Base64

  // ----- Friendly form

  /** ^[A-Za-z0-9+/_-]{48}$ */
  predicate IsFriendlyShape(s: string) { |s| == 48 && AllInAlphabet(s) }

  /** decoded[0] & 0x7f is 0x11 or 0x51: bounceable or not, the test-only flag ignored. */
  predicate IsTag(b: bv8) { b & 0x7F == 0x11 || b & 0x7F == 0x51 }

  function DecodeFriendly(s: string): (r: Option<seq<bv8>>)
    ensures r.Some? ==> |r.value| == 36
  {
    if !IsFriendlyShape(s) then None
    else
      var decoded := DecodeBase64(s);
      if !IsTag(decoded[0]) then None
      else if Crc(decoded[..34]) != BitsOf(decoded[34]) + BitsOf(decoded[35]) then None
      else Some(decoded)
  }

  // ----- Raw form

  /** -?[0-9]+ */
  predicate IsIntText(t: string) {
    var body := if t != [] && t[0] == '-' then t[1..] else t;
    body != [] && AllDigits(body)
  }

  function IntValue(t: string): int
    requires IsIntText(t)
  {
    if t[0] == '-' then -(Value(t[1..]) as int) else Value(t)
  }

  /** strconv.Atoi on a 64-bit platform. */
  function Atoi(t: string): Option<int>
    requires IsIntText(t)
  {
    var n := IntValue(t);
    if -0x8000_0000_0000_0000 <= n < 0x8000_0000_0000_0000 then Some(n) else None
  }

  /** ^-?[0-9]+:[0-9a-fA-F]{64}$ */
  predicate IsRawShape(s: string) {
    var parts := Cut(s, ':');
    parts.found && IsIntText(parts.before) && |parts.after| == 64 && AllHex(parts.after)
  }

  predicate IsValidRaw(s: string) {
    IsRawShape(s) && Atoi(Cut(s, ':').before).Some?
  }

  // ----- Validation and canonicalisation

  predicate IsValidTonAddress(s: string) {
    var t := Trim(GoSpace, s);
    IsValidRaw(t) || DecodeFriendly(t).Some?
  }

  predicate ValidateMerchantNFT(s: string) { IsValidTonAddress(Trim(GoSpace, s)) }

  /** int(int8(b)) */
  function Int8(b: bv8): (n: int)
    ensures -128 <= n < 128 && (b as int == n || b as int == n + 256)
  {
    if b as int < 128 then b as int else b as int - 256
  }

  /** The signed value is the one congruent to the byte modulo 256. */
  lemma SignedByte(b: bv8, n: int)
    requires -128 <= n < 128 && (b as int == n || b as int == n + 256)
    ensures Int8(b) == n
  {}

  function CanonicalizeTonAddress(addr: string): Option<string> {
    var t := Trim(GoSpace, addr);
    if IsValidRaw(t) then
      var parts := Cut(t, ':');
      Some(IntText(Atoi(parts.before).value) + ":" + ToLower(parts.after))
    else match DecodeFriendly(t)
      case None => None
      case Some(decoded) => Some(IntText(Int8(decoded[1])) + ":" + HexEncode(decoded[2..34]))
  }

  // ----- What an address means

  datatype Account = Account(workchain: int, hash: seq<bv8>)

  predicate IsAccount(a: Account) {
    -0x8000_0000_0000_0000 <= a.workchain < 0x8000_0000_0000_0000 && |a.hash| == 32
  }

  /** The account an accepted spelling names, whatever the spelling. */
  function Named(addr: string): (r: Option<Account>)
    ensures r.Some? ==> IsAccount(r.value)
  {
    var t := Trim(GoSpace, addr);
    if IsValidRaw(t) then
      var parts := Cut(t, ':');
      Some(Account(Atoi(parts.before).value, HexDecode(parts.after)))
    else match DecodeFriendly(t)
      case None => None
      case Some(decoded) => Some(Account(Int8(decoded[1]), decoded[2..34]))
  }

  /** workchain:account_hex */
  function Render(a: Account): string { IntText(a.workchain) + ":" + HexEncode(a.hash) }

  // ----- Canonical text names the account

  lemma CanonicalizeRenders(addr: string)
    ensures CanonicalizeTonAddress(addr) == match Named(addr) case None => None case Some(a) => Some(Render(a))
  {
    var t := Trim(GoSpace, addr);
    if IsValidRaw(t) { EncodeDecode(Cut(t, ':').after); }
  }

  lemma IntTextNoColon(n: int)
    ensures ':' !in IntText(n) && IsIntText(IntText(n)) && IntValue(IntText(n)) == n
  {
    if n < 0 {
      ValueToDec(-n);
      assert IntText(n)[1..] == ToDec(-n);
    } else {
      ValueToDec(n);
      assert IsDigit(ToDec(n)[0]);
    }
  }

  lemma CutRendered(a: Account)
    ensures Cut(Render(a), ':') == CutResult(IntText(a.workchain), HexEncode(a.hash), true)
  {
    IntTextNoColon(a.workchain);
    CutFirst(IntText(a.workchain), ':', HexEncode(a.hash));
  }

  lemma RenderInjective(a: Account, b: Account)
    requires Render(a) == Render(b)
    ensures a == b
  {
    CutRendered(a);
    CutRendered(b);
    IntTextInjective(a.workchain, b.workchain);
    DecodeEncode(a.hash);
    DecodeEncode(b.hash);
  }

  /** Spellings canonicalise to one text exactly when they name one account; those that name none are rejected. */
  lemma SameTextIffSameAccount(s: string, t: string)
    ensures CanonicalizeTonAddress(s).Some? <==> Named(s).Some?
    ensures CanonicalizeTonAddress(s) == CanonicalizeTonAddress(t) <==> Named(s) == Named(t)
  {
    CanonicalizeRenders(s);
    CanonicalizeRenders(t);
    if Named(s).Some? && Named(t).Some? && Render(Named(s).value) == Render(Named(t).value) {
      RenderInjective(Named(s).value, Named(t).value);
    }
  }

  /** Canonicalisation succeeds on exactly the strings the validator accepts. */
  lemma CanonicalizesIffValid(s: string)
    ensures CanonicalizeTonAddress(s).Some? <==> ValidateMerchantNFT(s)
  {
    TrimResult(GoSpace, s);
    TrimResult(GoSpace, Trim(GoSpace, s));
  }

  lemma RenderEnds(a: Account)
    requires IsAccount(a)
    ensures Trimmed(GoSpace, Render(a))
  {
    var r := Render(a);
    DecodeEncode(a.hash);
    IntTextNoColon(a.workchain);
    assert r[0] == IntText(a.workchain)[0];
    assert r[|r| - 1] == HexEncode(a.hash)[63];
    assert IsHex(r[|r| - 1]);
    assert r[0] == '-' || IsDigit(r[0]);
  }

  /** The canonical text is a valid raw address that names the same account and is its own canonical text. */
  lemma CanonicalIsFixed(a: Account)
    requires IsAccount(a)
    ensures IsValidRaw(Render(a)) && Named(Render(a)) == Some(a)
    ensures CanonicalizeTonAddress(Render(a)) == Some(Render(a))
  {
    RenderEnds(a);
    TrimResult(GoSpace, Render(a));
    CutRendered(a);
    IntTextNoColon(a.workchain);
    DecodeEncode(a.hash);
    CanonicalizeRenders(Render(a));
  }

  lemma Idempotent(s: string)
    ensures match CanonicalizeTonAddress(s)
            case Some(t) => CanonicalizeTonAddress(t) == Some(t) && IsValidRaw(t)
            case None => !ValidateMerchantNFT(s)
  {
    CanonicalizeRenders(s);
    CanonicalizesIffValid(s);
    if Named(s).Some? { CanonicalIsFixed(Named(s).value); }
  }

  // ----- Spellings of a raw address

  /** White space around an address does not matter. */
  lemma PaddedAddress(a: string, addr: string, b: string)
    requires AllSpace(GoSpace, a) && AllSpace(GoSpace, b)
    ensures CanonicalizeTonAddress(a + addr + b) == CanonicalizeTonAddress(addr)
    ensures ValidateMerchantNFT(a + addr + b) <==> ValidateMerchantNFT(addr)
  {
    TrimAbsorbs(GoSpace, a, addr, b);
    CanonicalizesIffValid(a + addr + b);
    CanonicalizesIffValid(addr);
  }

  lemma HexLower(c: char)
    ensures IsHex(Lower(c)) ==> IsHex(c)
  {}

  lemma LowerHex(h: string)
    requires AllHex(ToLower(h))
    ensures AllHex(h)
  {
    forall i | 0 <= i < |h| ensures IsHex(h[i]) {
      assert ToLower(h)[i] == Lower(h[i]);
      HexLower(h[i]);
    }
  }

  lemma HexEncodeInjective(a: seq<bv8>, b: seq<bv8>)
    requires HexEncode(a) == HexEncode(b)
    ensures a == b
  {
    DecodeEncode(a);
    DecodeEncode(b);
  }

  lemma EncodedIsHex(hash: seq<bv8>)
    ensures AllHex(HexEncode(hash))
  {
    DecodeEncode(hash);
  }

  lemma LowerDecodes(h: string, hash: seq<bv8>)
    requires AllHex(h) && |h| % 2 == 0 && ToLower(h) == HexEncode(hash)
    ensures HexDecode(h) == hash
  {
    EncodeDecode(h);
    HexEncodeInjective(HexDecode(h), hash);
  }

  lemma LowerLength(h: string, hash: seq<bv8>)
    requires ToLower(h) == HexEncode(hash)
    ensures |h| == 2 * |hash|
  {
    assert |h| == |ToLower(h)|;
  }

  lemma LowerIsHex(h: string, hash: seq<bv8>)
    requires ToLower(h) == HexEncode(hash)
    ensures AllHex(h) && |h| == 2 * |hash| && HexDecode(h) == hash
  {
    EncodedIsHex(hash);
    LowerHex(h);
    LowerLength(h, hash);
    LowerDecodes(h, hash);
  }

  lemma RawEnds(t: string)
    requires IsRawShape(t)
    ensures t != "" && (t[0] == '-' || IsDigit(t[0])) && IsHex(t[|t| - 1])
  {
    CutParts(t, ':');
    var parts := Cut(t, ':');
    assert t[|t| - 1] == parts.after[|parts.after| - 1];
  }

  lemma {:induction false} CutParts(s: string, sep: char)
    requires Cut(s, sep).found
    ensures s == Cut(s, sep).before + [sep] + Cut(s, sep).after
  {
    if s[0] != sep {
      CutParts(s[1..], sep);
      assert s == [s[0]] + s[1..];
    }
  }

  lemma RawParts(workchain: string, h: string)
    requires IsIntText(workchain) && |h| == 64 && AllHex(h)
    ensures var addr := workchain + ":" + h;
            && Cut(addr, ':') == CutResult(workchain, h, true) && IsRawShape(addr) && Trim(GoSpace, addr) == addr
  {
    var addr := workchain + ":" + h;
    assert ':' !in workchain;
    CutFirst(workchain, ':', h);
    RawTrimmed(addr);
  }

  lemma RawTrimmed(t: string)
    requires IsRawShape(t)
    ensures Trim(GoSpace, t) == t
  {
    RawEnds(t);
    TrimResult(GoSpace, t);
  }

  /** Any spelling of a 64-bit workchain, leading zeros included, and any case of the account's digits give the canonical text. */
  lemma RawSpelling(workchain: string, h: string, hash: seq<bv8>)
    requires IsIntText(workchain) && |hash| == 32 && ToLower(h) == HexEncode(hash)
    requires -0x8000_0000_0000_0000 <= IntValue(workchain) < 0x8000_0000_0000_0000
    ensures CanonicalizeTonAddress(workchain + ":" + h) == Some(IntText(IntValue(workchain)) + ":" + HexEncode(hash))
    ensures Named(workchain + ":" + h) == Some(Account(IntValue(workchain), hash))
  {
    LowerIsHex(h, hash);
    RawParts(workchain, h);
  }
}
