/**
 * sdk-go/webhooks.go: signing a delivery and authenticating it. HMAC-SHA256 is
 * an arbitrary function of secret and message; instants are integer
 * nanoseconds, durations are those of Go's time package.
 */
module Webhook {
  import opened Text
  import opened Decimal
  import opened Base64

  type Hmac = (string, string) -> seq<bv8>

  const MAX_TIMESTAMP := 9007199254740991
  const NANOS_PER_SECOND := 1_000_000_000

  /** The message the MAC covers. */
  function Preimage(timestamp: string, payload: string): string { timestamp + "." + payload }

  function ComputeSignature(hmac: Hmac, secret: string, timestamp: string, payload: string): string {
    HexEncode(hmac(secret, Preimage(timestamp, payload)))
  }

  function SignWebhook(hmac: Hmac, secret: string, payload: string, timestamp: int): string {
    var ts := IntText(timestamp);
    "t=" + ts + ",v1=" + ComputeSignature(hmac, secret, ts, payload)
  }

  // ----- Header syntax

  datatype Field = Field(key: string, val: string, found: bool)

  /** One comma-separated part, cut at its first equals sign and trimmed. */
  function ReadField(part: string): Field {
    var r := Cut(part, '=');
    Field(Trim(GoSpace, r.before), Trim(GoSpace, r.after), r.found)
  }

  /** ^v\d+$ */
  predicate IsVersionKey(key: string) {
    |key| >= 2 && key[0] == 'v' && AllDigits(key[1..])
  }

  /** strconv.ParseInt(s, 10, 64) */
  function ParseInt(s: string): Option<int> {
    var signed := s != [] && (s[0] == '-' || s[0] == '+');
    var body := if signed then s[1..] else s;
    if body == [] || !AllDigits(body) then None
    else
      var n := if signed && s[0] == '-' then -(Value(body) as int) else Value(body);
      if -0x8000_0000_0000_0000 <= n < 0x8000_0000_0000_0000 then Some(n) else None
  }

  /** The timestamp of a `t` field, or None where the header is rejected. */
  function ReadTimestamp(val: string): Option<int> {
    match ParseInt(val)
    case None => None
    case Some(parsed) =>
      if parsed <= 0 || parsed > MAX_TIMESTAMP || val == [] || !AllDigits(val) then None else Some(parsed)
  }

  datatype Scan = Scan(timestamp: int, tsSet: bool, versioned: map<string, string>)

  /** One iteration of parseSignatureHeader; None is the error return. */
  function ScanPart(st: Scan, part: string): Option<Scan> {
    var f := ReadField(part);
    if !f.found then None
    else if f.key == "t" then
      match ReadTimestamp(f.val)
      case None => None
      case Some(n) => Some(st.(timestamp := n, tsSet := true))
    else if IsVersionKey(f.key) then Some(st.(versioned := st.versioned[f.key := f.val]))
    else Some(st)
  }

  function ScanParts(st: Scan, parts: seq<string>): Option<Scan>
    decreases |parts|
  {
    if parts == [] then Some(st)
    else match ScanPart(st, parts[0])
      case None => None
      case Some(next) => ScanParts(next, parts[1..])
  }

  const START := Scan(0, false, map[])

  datatype Header = Header(timestamp: int, versioned: map<string, string>)

  function ParseHeader(value: string): Option<Header> {
    match ScanParts(START, Split(value, ','))
    case None => None
    case Some(st) => if !st.tsSet || |st.versioned| == 0 then None else Some(Header(st.timestamp, st.versioned))
  }

  /** parseSignatureHeader as written. */
  method ParseSignatureHeader(value: string) returns (r: Option<Header>)
    ensures r == ParseHeader(value)
  {
    var timestamp, tsSet := 0, false;
    var versioned: map<string, string> := map[];
    var parts := Split(value, ',');
    assert parts[0..] == parts;
    for i := 0 to |parts|
      invariant ScanParts(START, parts) == ScanParts(Scan(timestamp, tsSet, versioned), parts[i..])
    {
      assert parts[i..][1..] == parts[i + 1..];
      var f := ReadField(parts[i]);
      if !f.found {
        return None;
      }
      if f.key == "t" {
        var parsed := ReadTimestamp(f.val);
        if parsed.None? {
          return None;
        }
        timestamp, tsSet := parsed.value, true;
      } else if IsVersionKey(f.key) {
        versioned := versioned[f.key := f.val];
      }
    }
    if !tsSet || |versioned| == 0 {
      return None;
    }
    return Some(Header(timestamp, versioned));
  }

  /** The second scan of VerifyWebhook: the text of the last `t` field. */
  function Rescan(text: string, parts: seq<string>): string
    decreases |parts|
  {
    if parts == [] then text
    else
      var f := ReadField(parts[0]);
      Rescan(if f.key == "t" then f.val else text, parts[1..])
  }

  method TimestampText(signature: string) returns (text: string)
    ensures text == Rescan("", Split(signature, ','))
  {
    text := "";
    var parts := Split(signature, ',');
    assert parts[0..] == parts;
    for i := 0 to |parts|
      invariant Rescan("", parts) == Rescan(text, parts[i..])
    {
      assert parts[i..][1..] == parts[i + 1..];
      var f := ReadField(parts[i]);
      if f.key == "t" {
        text := f.val;
      }
    }
  }

  // ----- Verification

  datatype Verdict =
    EmptySecret | EmptySignature | MalformedHeader | OutsideTolerance | UnsupportedVersion | NotHex | Mismatch | Authentic

  // Durations are 64-bit: a difference of instants saturates, negation wraps.

  type Duration = d: int | -0x8000_0000_0000_0000 <= d < 0x8000_0000_0000_0000

  const MIN_DURATION: Duration := -0x8000_0000_0000_0000
  const MAX_DURATION: Duration := 0x7FFF_FFFF_FFFF_FFFF

  /** Time.Sub */
  function Sub(t: int, u: int): Duration {
    if t - u < MIN_DURATION then MIN_DURATION else if t - u > MAX_DURATION then MAX_DURATION else t - u
  }

  function Negate(d: Duration): Duration { if d == MIN_DURATION then MIN_DURATION else -d }

  /** The freshness check on a timestamp in seconds. */
  predicate Fresh(now: int, timestamp: int, tolerance: Duration) {
    var delta := Sub(now, timestamp * NANOS_PER_SECOND);
    (if delta < 0 then Negate(delta) else delta) <= tolerance
  }

  /** VerifyWebhook up to and including the MAC comparison. */
  function Verify(hmac: Hmac, secret: string, payload: string, signature: string, now: int, tolerance: Duration): Verdict {
    if Trim(GoSpace, secret) == "" then EmptySecret
    else if signature == "" then EmptySignature
    else match ParseHeader(signature)
      case None => MalformedHeader
      case Some(h) =>
        if !Fresh(now, h.timestamp, tolerance) then OutsideTolerance
        else if "v1" !in h.versioned then UnsupportedVersion
        else
          var provided := h.versioned["v1"];
          if |provided| % 2 != 0 || !AllHex(provided) then NotHex
          else if HexDecode(provided) != hmac(secret, Preimage(Rescan("", Split(signature, ',')), payload)) then Mismatch
          else Authentic
  }

  // ----- The accepted headers, and what they parse to

  predicate IsTimestamp(val: string) { val != [] && AllDigits(val) && 1 <= Value(val) <= MAX_TIMESTAMP }

  /** The two numeric conversions and the pattern together accept exactly the digit strings of 1..2^53-1. */
  lemma ReadTimestampIff(val: string)
    ensures ReadTimestamp(val) == if IsTimestamp(val) then Some(Value(val)) else None
    ensures IsTimestamp(val) <==> val != [] && AllDigits(val) && 1 <= Value(val) <= 0x20_0000_0000_0000 - 1
  {
    if val != [] && AllDigits(val) { assert IsDigit(val[0]); }
  }

  predicate GoodField(part: string) {
    var f := ReadField(part);
    f.found && (f.key == "t" ==> IsTimestamp(f.val))
  }

  /** The value of the last field with that key. */
  function LastValue(parts: seq<string>, key: string): Option<string> {
    if parts == [] then None
    else
      var f := ReadField(parts[|parts| - 1]);
      if f.key == key then Some(f.val) else LastValue(parts[..|parts| - 1], key)
  }

  lemma {:induction false} ScanSnoc(st: Scan, parts: seq<string>, part: string)
    ensures ScanParts(st, parts + [part]) ==
            match ScanParts(st, parts) case None => None case Some(next) => ScanPart(next, part)
    decreases |parts|
  {
    var all := parts + [part];
    if parts == [] {
      assert all[1..] == [];
    } else {
      assert all[0] == parts[0] && all[1..] == parts[1..] + [part];
      if ScanPart(st, parts[0]).Some? { ScanSnoc(ScanPart(st, parts[0]).value, parts[1..], part); }
    }
  }

  /** The scan state holds, for each key, the last value. */
  ghost predicate HoldsLast(st: Scan, parts: seq<string>) {
    && (st.tsSet <==> LastValue(parts, "t").Some?)
    && (st.tsSet ==> AllDigits(LastValue(parts, "t").value) && st.timestamp == Value(LastValue(parts, "t").value))
    && (forall k :: k in st.versioned <==> IsVersionKey(k) && LastValue(parts, k).Some?)
    && (forall k :: k in st.versioned ==> Some(st.versioned[k]) == LastValue(parts, k))
  }

  lemma LastSnoc(parts: seq<string>, part: string, key: string)
    ensures LastValue(parts + [part], key) == if ReadField(part).key == key then Some(ReadField(part).val) else LastValue(parts, key)
  {
    assert (parts + [part])[..|parts|] == parts;
  }

  lemma HoldsStep(st: Scan, parts: seq<string>, part: string)
    requires HoldsLast(st, parts)
    ensures ScanPart(st, part).Some? <==> GoodField(part)
    ensures GoodField(part) ==> HoldsLast(ScanPart(st, part).value, parts + [part])
  {
    ReadTimestampIff(ReadField(part).val);
    forall k ensures LastValue(parts + [part], k) == if ReadField(part).key == k then Some(ReadField(part).val) else LastValue(parts, k) {
      LastSnoc(parts, part, k);
    }
  }

  lemma {:induction false} ScanIff(parts: seq<string>)
    ensures ScanParts(START, parts).Some? <==> forall i :: 0 <= i < |parts| ==> GoodField(parts[i])
    ensures ScanParts(START, parts).Some? ==> HoldsLast(ScanParts(START, parts).value, parts)
  {
    if parts != [] {
      var front, part := parts[..|parts| - 1], parts[|parts| - 1];
      assert parts == front + [part];
      ScanIff(front);
      ScanSnoc(START, front, part);
      if ScanParts(START, front).Some? { HoldsStep(ScanParts(START, front).value, front, part); }
    }
  }

  /** Every field is good, some timestamp and some version are given. */
  ghost predicate IsHeader(parts: seq<string>) {
    && (forall i :: 0 <= i < |parts| ==> GoodField(parts[i]))
    && LastValue(parts, "t").Some?
    && exists k :: IsVersionKey(k) && LastValue(parts, k).Some?
  }

  /** The parser accepts exactly those headers, and returns the last value of each key. */
  lemma HeaderIff(value: string)
    ensures ParseHeader(value).Some? <==> IsHeader(Split(value, ','))
    ensures ParseHeader(value).Some? ==>
              var h, parts := ParseHeader(value).value, Split(value, ',');
              && LastValue(parts, "t").Some? && AllDigits(LastValue(parts, "t").value) && h.timestamp == Value(LastValue(parts, "t").value)
              && (forall k :: k in h.versioned <==> IsVersionKey(k) && LastValue(parts, k).Some?)
              && (forall k :: k in h.versioned ==> Some(h.versioned[k]) == LastValue(parts, k))
  {
    ScanIff(Split(value, ','));
  }

  // ----- The two scans choose the same timestamp

  lemma {:induction false} RescanSnoc(text: string, parts: seq<string>, part: string)
    ensures Rescan(text, parts + [part]) == if ReadField(part).key == "t" then ReadField(part).val else Rescan(text, parts)
    decreases |parts|
  {
    var all := parts + [part];
    if parts == [] {
      assert all[1..] == [];
    } else {
      var f := ReadField(parts[0]);
      assert all[0] == parts[0] && all[1..] == parts[1..] + [part];
      RescanSnoc(if f.key == "t" then f.val else text, parts[1..], part);
    }
  }

  /** The second scan finds the last timestamp text. */
  lemma {:induction false} RescanIsLast(text: string, parts: seq<string>)
    ensures Rescan(text, parts) == match LastValue(parts, "t") case Some(val) => val case None => text
  {
    if parts != [] {
      var front, part := parts[..|parts| - 1], parts[|parts| - 1];
      assert parts == front + [part];
      RescanSnoc(text, front, part);
      RescanIsLast(text, front);
    }
  }

  lemma {:induction false} LastIsGood(parts: seq<string>)
    requires forall i :: 0 <= i < |parts| ==> GoodField(parts[i])
    ensures LastValue(parts, "t").Some? ==> IsTimestamp(LastValue(parts, "t").value)
  {
    if parts != [] {
      assert GoodField(parts[|parts| - 1]);
      LastIsGood(parts[..|parts| - 1]);
    }
  }

  /** In every accepted header the text that is MACed is a digit string whose value is the checked timestamp. */
  lemma MacedTextIsTimestamp(signature: string)
    requires ParseHeader(signature).Some?
    ensures var text := Rescan("", Split(signature, ','));
            && text != [] && AllDigits(text) && Value(text) == ParseHeader(signature).value.timestamp
            && 1 <= ParseHeader(signature).value.timestamp <= MAX_TIMESTAMP
  {
    HeaderIff(signature);
    RescanIsLast("", Split(signature, ','));
    LastIsGood(Split(signature, ','));
  }

  /** The MACed message determines timestamp text and payload: neither can borrow from the other. */
  lemma PreimageInjective(t: string, p: string, t': string, p': string)
    requires AllDigits(t) && AllDigits(t')
    ensures Preimage(t, p) == Preimage(t', p') <==> t == t' && p == p'
  {
    CutFirst(t, '.', p);
    CutFirst(t', '.', p');
  }

  // ----- What the freshness check means

  function Distance(a: int, b: int): nat { if a < b then b - a else a - b }

  /** So far in the future that the difference has no 64-bit negation. */
  predicate FarAhead(now: int, timestamp: int) { timestamp * NANOS_PER_SECOND - now >= 0x8000_0000_0000_0000 }

  /** The check passes within tolerance, and also far ahead of now or under the largest tolerance. */
  lemma FreshIff(now: int, timestamp: int, tolerance: Duration)
    ensures Fresh(now, timestamp, tolerance) <==>
            || Distance(now, timestamp * NANOS_PER_SECOND) <= tolerance
            || FarAhead(now, timestamp) || tolerance == MAX_DURATION
    ensures NANOS_PER_SECOND == 1000 * 1000 * 1000 && MAX_DURATION == 0x8000_0000_0000_0000 - 1
  {}

  /** What an authentic delivery establishes; it is within tolerance exactly when its timestamp is not far ahead. */
  lemma AuthenticMeans(hmac: Hmac, secret: string, payload: string, signature: string, now: int, tolerance: Duration)
    returns (text: string)
    requires Verify(hmac, secret, payload, signature, now, tolerance) == Authentic
    ensures AllDigits(text) && 1 <= Value(text) <= MAX_TIMESTAMP
    ensures tolerance < MAX_DURATION ==>
              (Distance(now, Value(text) * NANOS_PER_SECOND) <= tolerance <==> !FarAhead(now, Value(text)))
    ensures var provided := ParseHeader(signature).value.versioned["v1"];
            |provided| % 2 == 0 && HexDecode(provided) == hmac(secret, text + "." + payload)
  {
    text := Rescan("", Split(signature, ','));
    MacedTextIsTimestamp(signature);
    FreshIff(now, Value(text), tolerance);
  }

  /** A header that is not far ahead cannot be accepted at two times more than twice the tolerance apart. */
  lemma ReplayWindow(hmac: Hmac, secret: string, payload: string, payload': string, signature: string, now: int, now': int, tolerance: Duration)
    requires Verify(hmac, secret, payload, signature, now, tolerance) == Authentic
    requires Verify(hmac, secret, payload', signature, now', tolerance) == Authentic
    requires tolerance < MAX_DURATION
    requires !FarAhead(now, ParseHeader(signature).value.timestamp) && !FarAhead(now', ParseHeader(signature).value.timestamp)
    ensures Distance(now, now') <= 2 * tolerance
  {
    FreshIff(now, ParseHeader(signature).value.timestamp, tolerance);
    FreshIff(now', ParseHeader(signature).value.timestamp, tolerance);
  }

  // ----- Signed deliveries verify

  lemma NoneOf(s: string)
    ensures AllDigits(s) || AllHex(s) ==> ',' !in s && '=' !in s && Trim(GoSpace, s) == s
  {}

  lemma FieldOf(key: string, val: string)
    requires key == "t" || key == "v1"
    requires AllDigits(val) || AllHex(val)
    ensures ReadField(key + "=" + val) == Field(key, val, true)
  {
    NoneOf(val);
    CutFirst(key, '=', val);
    TrimResult(GoSpace, key);
  }

  lemma SignedParts(ts: string, digest: string)
    requires AllDigits(ts) && AllHex(digest)
    ensures Split("t=" + ts + ",v1=" + digest, ',') == ["t" + "=" + ts, "v1" + "=" + digest]
  {
    NoneOf(ts);
    NoneOf(digest);
    var a, b := "t" + "=" + ts, "v1" + "=" + digest;
    assert "t=" + ts + ",v1=" + digest == a + [','] + b;
    SplitFirst(a, ',', b);
    SplitNone(b, ',');
  }

  lemma ReadTimestampOf(n: int)
    requires 1 <= n <= MAX_TIMESTAMP
    ensures ReadTimestamp(IntText(n)) == Some(n)
  {
    ValueToDec(n);
    assert IsDigit(ToDec(n)[0]);
  }

  /** The header built by SignWebhook parses back to its timestamp and digest. */
  lemma SignedHeaderParses(hmac: Hmac, secret: string, payload: string, n: int)
    requires 1 <= n <= MAX_TIMESTAMP
    ensures var digest := ComputeSignature(hmac, secret, IntText(n), payload);
            ParseHeader(SignWebhook(hmac, secret, payload, n)) == Some(Header(n, map["v1" := digest]))
    ensures Rescan("", Split(SignWebhook(hmac, secret, payload, n), ',')) == IntText(n)
  {
    var ts, digest := IntText(n), ComputeSignature(hmac, secret, IntText(n), payload);
    DecodeEncode(hmac(secret, Preimage(ts, payload)));
    SignedParts(ts, digest);
    FieldOf("t", ts);
    FieldOf("v1", digest);
    ReadTimestampOf(n);
    TwoFields("t" + "=" + ts, "v1" + "=" + digest, n, ts, digest);
  }

  lemma TwoFields(a: string, b: string, n: int, ts: string, digest: string)
    requires ReadField(a) == Field("t", ts, true) && ReadField(b) == Field("v1", digest, true) && ReadTimestamp(ts) == Some(n)
    ensures ScanParts(START, [a, b]) == Some(Scan(n, true, map["v1" := digest]))
    ensures Rescan("", [a, b]) == ts
  {
    assert [a, b][1..] == [b] && [b][1..] == [];
    assert IsVersionKey("v1") by { assert "v1"[1..] == "1"; }
    assert ScanPart(START, a) == Some(Scan(n, true, map[]));
    assert ScanPart(Scan(n, true, map[]), b) == Some(Scan(n, true, map["v1" := digest]));
    assert ScanParts(Scan(n, true, map["v1" := digest]), []) == Some(Scan(n, true, map["v1" := digest]));
    assert Rescan(ts, [b]) == ts;
  }

  /**
   * A header signed for one payload, presented with any payload, is authentic
   * exactly when it is fresh and the MACs of the two messages coincide.
   */
  lemma SignedVerifiesIff(hmac: Hmac, secret: string, payload: string, presented: string, n: int, now: int, tolerance: Duration)
    requires Trim(GoSpace, secret) != "" && 1 <= n <= MAX_TIMESTAMP
    ensures Verify(hmac, secret, presented, SignWebhook(hmac, secret, payload, n), now, tolerance) == Authentic <==>
            && Fresh(now, n, tolerance)
            && hmac(secret, IntText(n) + "." + payload) == hmac(secret, IntText(n) + "." + presented)
  {
    SignedHeaderParses(hmac, secret, payload, n);
    SignatureDecodes(hmac, secret, IntText(n), payload);
    assert SignWebhook(hmac, secret, payload, n)[0] == 't';
  }

  /** The signed payload itself verifies whenever it is presented in time. */
  lemma SignedVerifies(hmac: Hmac, secret: string, payload: string, n: int, now: int, tolerance: Duration)
    requires Trim(GoSpace, secret) != "" && 1 <= n <= MAX_TIMESTAMP
    requires Distance(now, n * NANOS_PER_SECOND) <= tolerance
    ensures Verify(hmac, secret, payload, SignWebhook(hmac, secret, payload, n), now, tolerance) == Authentic
  {
    SignedVerifiesIff(hmac, secret, payload, payload, n, now, tolerance);
    FreshIff(now, n, tolerance);
  }

  ghost predicate Accepted(hmac: Hmac, secret: string, payload: string, n: int, now: int, tolerance: Duration) {
    Verify(hmac, secret, payload, SignWebhook(hmac, secret, payload, n), now, tolerance) == Authentic
  }

  /**
   * From the Unix epoch on, a signed delivery is confined to one window of twice
   * the tolerance exactly when its timestamp is below 2^63 nanoseconds.
   */
  lemma ConfinedIff(hmac: Hmac, secret: string, payload: string, n: int, tolerance: Duration)
    requires Trim(GoSpace, secret) != "" && 1 <= n <= MAX_TIMESTAMP && 0 <= tolerance < 0x4000_0000_0000_0000
    ensures (forall now: nat, now': nat ::
               Accepted(hmac, secret, payload, n, now, tolerance) && Accepted(hmac, secret, payload, n, now', tolerance) ==>
                 Distance(now, now') <= 2 * tolerance)
            <==> n * NANOS_PER_SECOND < 0x8000_0000_0000_0000
  {
    forall now ensures Accepted(hmac, secret, payload, n, now, tolerance) <==>
                       Distance(now, n * NANOS_PER_SECOND) <= tolerance || FarAhead(now, n)
    {
      SignedVerifiesIff(hmac, secret, payload, payload, n, now, tolerance);
      FreshIff(now, n, tolerance);
    }
    if n * NANOS_PER_SECOND >= 0x8000_0000_0000_0000 {
      assert Accepted(hmac, secret, payload, n, 0, tolerance) && Accepted(hmac, secret, payload, n, n * NANOS_PER_SECOND, tolerance);
    }
  }

  /** For instance the largest timestamp, under the default five minutes: accepted in 1970 and in 2223. */
  lemma FarFutureReplayed(hmac: Hmac, secret: string, payload: string)
    requires Trim(GoSpace, secret) != ""
    ensures var tolerance := 300 * NANOS_PER_SECOND;
            && Accepted(hmac, secret, payload, MAX_TIMESTAMP, 0, tolerance)
            && Accepted(hmac, secret, payload, MAX_TIMESTAMP, 8_000_000_000 * NANOS_PER_SECOND, tolerance)
  {
    SignedVerifiesIff(hmac, secret, payload, payload, MAX_TIMESTAMP, 0, 300 * NANOS_PER_SECOND);
    SignedVerifiesIff(hmac, secret, payload, payload, MAX_TIMESTAMP, 8_000_000_000 * NANOS_PER_SECOND, 300 * NANOS_PER_SECOND);
  }

  lemma SignatureDecodes(hmac: Hmac, secret: string, timestamp: string, payload: string)
    ensures var s := ComputeSignature(hmac, secret, timestamp, payload);
            |s| % 2 == 0 && AllHex(s) && HexDecode(s) == hmac(secret, Preimage(timestamp, payload))
  {
    DecodeEncode(hmac(secret, Preimage(timestamp, payload)));
  }

  /** VerifyWebhook as written: parse, check freshness, rescan, compare. */
  method VerifyWebhook(hmac: Hmac, secret: string, payload: string, signature: string, now: int, tolerance: Duration)
    returns (verdict: Verdict)
    ensures verdict == Verify(hmac, secret, payload, signature, now, tolerance)
  {
    if Trim(GoSpace, secret) == "" {
      return EmptySecret;
    }
    if signature == "" {
      return EmptySignature;
    }
    var parsed := ParseSignatureHeader(signature);
    if parsed.None? {
      return MalformedHeader;
    }
    var h := parsed.value;
    var delta := Sub(now, h.timestamp * NANOS_PER_SECOND);
    if delta < 0 {
      delta := Negate(delta);
    }
    if delta > tolerance {
      return OutsideTolerance;
    }
    if "v1" !in h.versioned {
      return UnsupportedVersion;
    }
    var provided := h.versioned["v1"];
    if |provided| % 2 != 0 || !AllHex(provided) {
      return NotHex;
    }
    var text := TimestampText(signature);
    var expected := ComputeSignature(hmac, secret, text, payload);
    SignatureDecodes(hmac, secret, text, payload);
    if HexDecode(provided) != HexDecode(expected) {
      return Mismatch;
    }
    return Authentic;
  }

  // ----- White space in headers

  lemma SpaceIsNoMark(a: string)
    requires AllSpace(GoSpace, a)
    ensures ',' !in a && '=' !in a
  {}

  /** A field is read without the white space around its key and its value. */
  lemma PaddedField(a: string, key: string, b: string, c: string, val: string, d: string)
    requires AllSpace(GoSpace, a) && AllSpace(GoSpace, b) && AllSpace(GoSpace, c) && AllSpace(GoSpace, d)
    requires Trimmed(GoSpace, key) && Trimmed(GoSpace, val) && '=' !in key
    ensures ReadField(a + key + b + "=" + (c + val + d)) == Field(key, val, true)
  {
    SpaceIsNoMark(a);
    SpaceIsNoMark(b);
    CutFirst(a + key + b, '=', c + val + d);
    TrimPadded(GoSpace, a, key, b);
    TrimPadded(GoSpace, c, val, d);
  }

  lemma {:induction false} CutFound(s: string, sep: char)
    ensures Cut(s, sep).found <==> sep in s
  {
    if s != [] { CutFound(s[1..], sep); }
  }

  /** A field is one exactly when it has an equals sign. */
  lemma FieldIff(part: string)
    ensures ReadField(part).found <==> '=' in part
  {
    CutFound(part, '=');
  }

  /** The field `key=val` with white space around both, as a text without commas. */
  function PaddedText(a: string, key: string, b: string, c: string, val: string, d: string): string {
    a + key + b + "=" + (c + val + d)
  }

  lemma PaddedTextPlain(a: string, key: string, b: string, c: string, val: string, d: string)
    requires AllSpace(GoSpace, a) && AllSpace(GoSpace, b) && AllSpace(GoSpace, c) && AllSpace(GoSpace, d)
    requires ',' !in key && ',' !in val
    ensures ',' !in PaddedText(a, key, b, c, val, d)
  {
    SpaceIsNoMark(a);
    SpaceIsNoMark(b);
    SpaceIsNoMark(c);
    SpaceIsNoMark(d);
  }

  /** White space before and after a key and a value. */
  datatype Padding = Padding(a: string, b: string, c: string, d: string)

  ghost predicate IsPadding(p: Padding) {
    AllSpace(GoSpace, p.a) && AllSpace(GoSpace, p.b) && AllSpace(GoSpace, p.c) && AllSpace(GoSpace, p.d)
  }

  /** A signed header with white space around its keys, its values and the comma. */
  function PaddedHeader(hmac: Hmac, secret: string, payload: string, n: int, p: Padding, q: Padding): string {
    PaddedText(p.a, "t", p.b, p.c, IntText(n), p.d) + [','] +
    PaddedText(q.a, "v1", q.b, q.c, ComputeSignature(hmac, secret, IntText(n), payload), q.d)
  }

  lemma PaddedIsField(p: Padding, key: string, val: string)
    requires IsPadding(p) && (key == "t" || key == "v1") && (AllDigits(val) || AllHex(val))
    ensures var s := PaddedText(p.a, key, p.b, p.c, val, p.d); ReadField(s) == Field(key, val, true) && ',' !in s
  {
    NoneOf(val);
    TrimResult(GoSpace, val);
    PaddedField(p.a, key, p.b, p.c, val, p.d);
    PaddedTextPlain(p.a, key, p.b, p.c, val, p.d);
  }

  /** White space does not change what a signed header parses to. */
  lemma PaddedHeaderParses(hmac: Hmac, secret: string, payload: string, n: int, p: Padding, q: Padding)
    requires 1 <= n <= MAX_TIMESTAMP && IsPadding(p) && IsPadding(q)
    ensures var s := PaddedHeader(hmac, secret, payload, n, p, q);
            && ParseHeader(s) == Some(Header(n, map["v1" := ComputeSignature(hmac, secret, IntText(n), payload)]))
            && Rescan("", Split(s, ',')) == IntText(n)
  {
    var ts, digest := IntText(n), ComputeSignature(hmac, secret, IntText(n), payload);
    var x, y := PaddedText(p.a, "t", p.b, p.c, ts, p.d), PaddedText(q.a, "v1", q.b, q.c, digest, q.d);
    SignatureDecodes(hmac, secret, ts, payload);
    PaddedIsField(p, "t", ts);
    PaddedIsField(q, "v1", digest);
    SplitFirst(x, ',', y);
    SplitNone(y, ',');
    ReadTimestampOf(n);
    TwoFields(x, y, n, ts, digest);
  }

  /** Presented with any payload, it is authentic under the same condition as the header without white space. */
  lemma PaddedVerifiesIff(hmac: Hmac, secret: string, payload: string, presented: string, n: int, p: Padding, q: Padding, now: int, tolerance: Duration)
    requires Trim(GoSpace, secret) != "" && 1 <= n <= MAX_TIMESTAMP && IsPadding(p) && IsPadding(q)
    ensures Verify(hmac, secret, presented, PaddedHeader(hmac, secret, payload, n, p, q), now, tolerance) == Authentic <==>
            && Fresh(now, n, tolerance)
            && hmac(secret, IntText(n) + "." + payload) == hmac(secret, IntText(n) + "." + presented)
  {
    PaddedHeaderParses(hmac, secret, payload, n, p, q);
    SignatureDecodes(hmac, secret, IntText(n), payload);
    assert ',' in PaddedHeader(hmac, secret, payload, n, p, q);
  }

  // ----- The exact condition

  /** v and digits */
  lemma VersionKeyIff(key: string)
    ensures IsVersionKey(key) <==> exists digits :: digits != "" && AllDigits(digits) && key == "v" + digits
  {
    if IsVersionKey(key) { assert key == "v" + key[1..]; }
    forall digits | digits != "" && AllDigits(digits) && key == "v" + digits ensures IsVersionKey(key) {
      assert key[1..] == digits;
    }
  }

  /** A digest in hexadecimal notation, of any case. */
  predicate IsHexDigest(s: string) { |s| % 2 == 0 && AllHex(s) }

  /**
   * A delivery is authentic exactly when the secret is not blank, the header is
   * well formed, its last timestamp is fresh, and its last v1 value is the
   * hexadecimal notation of the MAC of timestamp text, point and payload.
   */
  lemma AuthenticIff(hmac: Hmac, secret: string, payload: string, signature: string, now: int, tolerance: Duration)
    ensures Verify(hmac, secret, payload, signature, now, tolerance) == Authentic <==>
            var parts := Split(signature, ',');
            && !AllSpace(GoSpace, secret) && signature != "" && IsHeader(parts)
            && IsTimestamp(LastValue(parts, "t").value) && Fresh(now, Value(LastValue(parts, "t").value), tolerance)
            && LastValue(parts, "v1").Some? && IsHexDigest(LastValue(parts, "v1").value)
            && HexDecode(LastValue(parts, "v1").value) == hmac(secret, LastValue(parts, "t").value + "." + payload)
  {
    TrimBlankIff(GoSpace, secret);
    HeaderIff(signature);
    RescanIsLast("", Split(signature, ','));
    if IsHeader(Split(signature, ',')) { LastIsGood(Split(signature, ',')); }
    assert IsVersionKey("v1") by { assert "v1"[1..] == "1"; }
  }
}
