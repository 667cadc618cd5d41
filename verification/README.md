# Verified model of the TON BankCard SDKs, adapters and governance tools

The repository holds payment SDKs in several languages, back-end adapters and
governance scripts that must agree with each other on texts that are hashed,
signed, displayed and voted on. This project models the parts where that
agreement is hard to see and proves it for all inputs, all runs and all
reachable states.

* **Canonical JSON and invoice identifiers.** Two values get one text exactly
  when they mean the same, the Go, TypeScript and Python SDKs print one text, and each
  key order (UTF-8 bytes, code points, UTF-16 units, JavaScript property order)
  is related to the others by an exact condition.
* **TON addresses.** `crc16Ton` is the remainder of polynomial division over
  GF(2); every change of one or two adjacent characters of a friendly address is
  detected; the accepted texts are exactly those an independent encoder writes;
  canonical texts name accounts one to one.
* **Money text.** Two formatting algorithms are one function; parser, formatter,
  validator and thousands grouping round-trip with exact rounding bounds.
* **Protocols.** Webhook signing and verification, multi-signature proposals,
  recurring mandates and governance snapshots, as invariants over arbitrary runs.

`dafny verify dfyconfig.toml` checks the whole project.

## How the files fit together

| files | content |
|---|---|
| `Text`, `Decimal`, `Arith`, `Counting`, `JsNumber` | trimming, splitting, decimal notation, division, counting, JavaScript numbers |
| `SdkAmount`, `DashboardAmount`, `Validation` | the money functions; `AmountLaws` and `CurrencyLaws` hold their theorems |
| `KeyOrder`, `Numerals`, `Json`, `JsonParser`, `Escapes`, `CanonicalJson`, `OrderAgreement`, `DirectText` | encodings and key orders, number literals, printer, parser and concrete spellings, the one compact spelling, sorted trees, agreement of orders, one-pass printing |
| `GoHashing`, `TsHashing`, `ArrayHoles`, `PyHashing`, `SameValue`, `JsVariants`, `RawBodies` | the canonicalisers of the three SDKs, the adapter and the governance script; sparse arrays; one value in three languages; callback bodies as they arrive |
| `Crc16`, `CrcWords`, `Base64`, `TonAddress`, `AddressIntegrity`, `FriendlyText` | checksum over bit strings and over machine words, base64, address codec, error detection, the encoder of friendly spellings |
| `Invoice`, `PyInvoice`, `Webhook`, `MultiSig`, `Recurring`, `Snapshot`, `SnapshotLaws` | invoice payloads and the four protocols |

Code that updates state in loops (`compareByCodePoint`, `normalizeCanonicalJSON`,
`crc16Ton`, `parseSignatureHeader`, `VerifyWebhook`, `createSnapshot`,
`verifySnapshot`) is modelled by methods with loops, each proved against a
function or a property; the theorems are about those functions.

## Where code and documentation differ

The model follows the code.

* `sortObjectKeys` is documented to sort keys lexicographically. JavaScript lists
  array-index keys first, and assigning the key `__proto__` adds no property. The
  text is therefore sorted by `IndexFirst` over what `Kept` leaves
  (`SortObjectKeysIsSortTree`, `KeptIsAllIff`, `ProtoIsNotSigned`, `VariantsAgreeIff`,
  `VariantsDisagree`).
* `validateConfig` lets NaN and fractional thresholds pass. With a fraction the
  approvals are the threshold rounded up; with NaN a proposal can be stuck
  (`ApprovedMeans`, `ProgressIffNotNaN`).
* `recordExecution` enforces no spacing by itself; runs are spaced exactly when
  every effective record was made while `canExecute` held and the next date was valid
  (`RunResult`, `UnguardedNotSpaced`).
* `VerifyWebhook` compares a saturating 64-bit duration whose smallest value has no
  negation. A timestamp 2^63 nanoseconds or more ahead of now therefore passes the
  freshness check at every tolerance, so such a delivery is not confined to a window
  (`FreshIff`, `ConfinedIff`, `FarFutureReplayed`; `AuthenticMeans` and `ReplayWindow`
  state what holds otherwise).
* `canExecute` compares dates. When the next date lies beyond the last JavaScript
  date it is invalid, the comparison is false and execution is allowed at once
  (`CanExecuteIffDue`, `LastDateNotSpaced`).
* `canonicalJson` of the SDK prints sparse arrays without an error: `[,null]` is not
  JSON, and an array of one hole gets the text of the empty array (`TextIsJsonIff`,
  `HoledExample`, `SingleHoleIsEmpty`).
* `verifySnapshot` does not require integer indices. With integral ones the voters
  are distinct items, so at most 222; with others any number can verify (`VerifiedNamesItemsIff`, `FractionalCrowdVerifies`).
* `ValidateAmount` trims, but the invoice payload keeps the untrimmed text
  (`SameAmountSamePayloadIff`, `PaddedAmountDiffers`).
* The SDKs promise byte-identical payloads. Go and Python give one payload whenever
  both accept, but Python also strips information separators and takes any
  workchain, while Go takes more leading zeros than Python converts (`GoIsPyIff`,
  `PyIsGoIff`, `WideWorkchain`, `ManyZeros`, `SeparatedAmount`).
* The SDK's `formatTBC` accepts NaN and every number that truncates into 0..100;
  the dashboard's accepts the integers only (`FormattersAgreeOnNumbers`).

## Model

| member | source | states |
|---|---|---|
| `AmountLaws.SdkFormatMeaning` | sdk/src/amount.ts:27-56 | For every amount and digit count the SDK text is sign plus fixed-point notation of the number of units nearest to amount·10^d/10^9, halves away from zero. |
| `AmountLaws.DashboardRounds` | dashboard/src/utils.ts:76-78 | The multiply-then-divide rounding also gives the nearest number of units, halves going up. |
| `AmountLaws.FormattersAgree` | dashboard/src/utils.ts:72-87 | Divide-by-10^(9-d)-or-zero-extend and multiply-then-divide return the same string for every integer amount, negative included, and every digit count. |
| `AmountLaws.FormattersAgreeOnNumbers` | sdk/src/amount.ts:6-56 | Over all JavaScript `decimals`: the dashboard accepts exactly the integers 0..100 and then prints the SDK's text; the SDK accepts exactly NaN and the reals strictly between -1 and 101. |
| `AmountLaws.MatchIsGrammar` | sdk/src/amount.ts:4 | The amount pattern accepts exactly the grammar of digits around an optional point and captures the two digit strings. |
| `AmountLaws.ParseMeaning` | sdk/src/amount.ts:64-76 | Every padded, optionally plus-signed spelling parses to its exact decimal value times 10^9, truncated. |
| `AmountLaws.ParseRejects` | sdk/src/amount.ts:65-69 | Every other string is rejected. |
| `AmountLaws.ParseFormatExact` | sdk/src/amount.ts:27-76 | With nine or more digits, parsing the formatted amount gives the amount back. |
| `AmountLaws.ParseFormatRounded` | sdk/src/amount.ts:32-76 | With fewer digits the result is the multiple of 10^(9-d) at most half a step away with ties going up, and formatting it again gives the same text. |
| `AmountLaws.ReparsedMonotone` | sdk/src/amount.ts:32-35 | That rounded round trip is monotone in the amount. |
| `AmountLaws.NegativeNotParsed` | sdk/src/amount.ts:29-76 | The text of a negative amount is never accepted by the parser. |
| `AmountLaws.SdkDigits` | sdk/src/amount.ts:6-14 | The SDK formats with the integer part of `decimals`; NaN counts as none. |
| `AmountLaws.PaddedSpelling` | sdk/src/amount.ts:64-76 | White space around a spelling and one plus sign before it do not change what is parsed. |
| `CurrencyLaws.PositiveDecimalIff` | backend/adapters/validation.ts:2-6 | The validator accepts exactly the notations without leading zeros and with at most nine fraction digits, in at most 80 characters, whose value is positive. |
| `CurrencyLaws.ValidatorAgreesWithParser` | backend/adapters/validation.ts:3-5 | Every accepted string is parsed by `parseTBC` to exactly the positive integer the validator computed. |
| `CurrencyLaws.FormattedIsPositiveDecimal` | backend/adapters/validation.ts:3 | `formatTBC(n, 9)` is accepted exactly when 0 < n < 10^79, which is where the 80-character limit bites. |
| `CurrencyLaws.MaxAmountIsAccepted` | sdk/src/amount.ts:2 | `formatTBC(n, 9)` is accepted for every n in 1..2^120-1. |
| `CurrencyLaws.CommaPositions` | dashboard/src/utils.ts:128 | The regular expression marks exactly the positions past the first digit with a positive multiple of three digits to their right; never the one after the sign. |
| `CurrencyLaws.CurrencyIsGrouped` | dashboard/src/utils.ts:126-130 | The display text is sign, groups of three after a first group of one to three digits, and two fraction digits; removing the commas gives back `formatTBC(n, 2)`. |
| `KeyOrder.EncodedOrder` | sdk/src/utils.ts:49-60 | UTF-8 byte order is code-point order on all strings of Unicode scalar values; UTF-16 order is reversed on exactly the pairs whose first difference has a supplementary character on one side and one in U+E000..U+FFFF on the other. |
| `KeyOrder.EncodeInjective` | sdk-go/hashing.go:78-84 | UTF-8 bytes, UTF-16 units and code points each determine the string. |
| `KeyOrder.CompareByCodePoint` | experiments/check405-m2-astral-vector.js:15-24 | The comparator loop returns a number whose sign is code-point order and which is zero on equal strings only. |
| `Numerals.NumberTextIff` | backend/adapters/nowpayments.ts:334 | The scanner accepts exactly the number literals of section 6 of RFC 8259: sign, whole part without leading zeros, fraction, exponent. |
| `JsonParser.SpellingIsRead` | backend/adapters/nowpayments.ts:334 | Every spelling, with any white space, number notation, string escapes and surrogate pairs, is read as the value it spells, or marked when a string holds a lone surrogate. |
| `JsonParser.ReadIff` | backend/adapters/nowpayments.ts:334 | The texts read are exactly the spellings generated by the grammar, each as its value; those with a lone surrogate are set apart; all others are malformed. |
| `JsonParser.RoundTrip` | sdk-go/hashing.go:78-84 | The parser reads every printed value back exactly. |
| `JsonParser.PrintInjective` | sdk-go/hashing.go:70-84 | Unique readability: one text, one tree, in each string-escaping style. |
| `Escapes.PrintedAsItself` | sdk/src/utils.ts:43-47 | A string without quotes, backslashes, control characters and, in the canonical style, the two separators is printed as itself between quotes. |
| `Escapes.StringWritten` | sdk-go/hashing.go:78-84 | The literal that writes each character as itself where allowed, else with its two-character escape, else in four lower-case hexadecimal digits, is the printed one. |
| `Escapes.PrintedIsCompact` | sdk-go/hashing.go:65-85 | Every value has a spelling without white space whose literals are of that kind, and every such spelling is the printed text. |
| `CanonicalJson.SortTreeIffMeaning` | sdk-go/hashing.go:113-123 | Sorted trees are equal exactly when the values denote the same nested key-to-value mapping, whatever order sorts the keys. |
| `CanonicalJson.CanonicalTextIffMeaning` | sdk-go/hashing.go:70-85 | Canonical texts are equal exactly when the denotations are. |
| `CanonicalJson.CanonicalTextReadsBack` | sdk-go/hashing.go:72-85 | Reading a canonical text gives a value with the same denotation and that very text as its canonical text. |
| `OrderAgreement.SameTextIffAgree` | sdk/src/utils.ts:136-142 | Two key orders give one text for a value exactly when they agree on all key pairs of each of its objects. |
| `OrderAgreement.Utf8TextIsCodePointText` | sdk/src/utils.ts:52-59 | Go's byte-sorted text and the code-point-sorted text are the same for every value. |
| `OrderAgreement.Utf16TextIffNoStraddle` | sdk/src/utils.ts:49-60 | The default JavaScript sort gives that text exactly when no object has two straddling keys. |
| `OrderAgreement.BasicKeysOneText` | experiments/check405-m2-astral-vector.js:15-39 | Without supplementary-plane characters in keys all three sorts give one text. |
| `OrderAgreement.AstralFixtureDisagrees` | experiments/check405-m2-astral-vector.js:41-47 | On the fixture's two special keys the default sort and the code-point sort give different texts. |
| `OrderAgreement.ReorderedIffMeaning` | sdk/src/utils.ts:78-83 | Equal denotation is exactly: same entries in any order in every object at every depth, arrays in order. |
| `OrderAgreement.CanonicalTextIffReordered` | experiments/check405-m2-astral-vector.js:25-39 | One text for all entry orders anywhere in the tree, and only for them. |
| `OrderAgreement.IndexKeyIff` | backend/adapters/nowpayments.ts:350-355 | The array indices are exactly the decimal notations of the integers below 2^32-1. |
| `OrderAgreement.IndexFirstIs` | backend/adapters/nowpayments.ts:350-355 | JavaScript's order puts array indices first, in numeric order, and the other keys after them in UTF-16 order. |
| `DirectText.EncodeStringIsGo` | sdk/src/utils.ts:43-47 | `JSON.stringify` followed by the two replacements gives Go's string literal for every string. |
| `DirectText.DirectIsPrinted` | sdk/src/utils.ts:124-143 | Sorting while printing in one recursion gives the print of the sorted tree. |
| `GoHashing.NormalizeCanonicalJSON` | sdk-go/hashing.go:87-160 | The recursion with its slice- and map-filling loops computes the normal form, or the first error. |
| `GoHashing.AcceptedIffRepresentable` | sdk-go/hashing.go:87-160 | Normalisation succeeds exactly when no leaf is a float, an integer outside ±(2^53-1) or an unsupported kind and no map has non-string keys. |
| `GoHashing.CanonicalJSONIffMeaning` | sdk-go/hashing.go:72-85 | Accepted Go values always have a text, and the texts are equal exactly when the normal forms mean the same. |
| `TsHashing.TextIsDirect` | sdk/src/utils.ts:91-146 | A TypeScript value that stands for a JSON value is printed as that value's code-point-sorted text. |
| `ArrayHoles.TextIffSupported` | sdk/src/utils.ts:91-146 | The canonicaliser throws exactly on values with an unsafe number, an exotic object or an unsupported type; holes do not make it throw. |
| `ArrayHoles.JsonIff` | sdk/src/utils.ts:124-126 | A value stands for a JSON value exactly when it is supported and each hole is alone in its array. |
| `ArrayHoles.TextIsJsonIff` | sdk/src/utils.ts:124-143 | The text of a supported value is JSON exactly when each hole, at every depth, is alone in its array. |
| `ArrayHoles.HoledTextIsForeign` | sdk/src/utils.ts:124-126 | The text of a value with any other hole is the canonical text of no Go value. |
| `ArrayHoles.HoledExample` | sdk/src/utils.ts:124-126 | An array of a hole and null is printed as `[,null]`, which is not JSON. |
| `ArrayHoles.SingleHoleIsEmpty` | sdk/src/utils.ts:124-126 | An array of one hole and the empty array get the same text. |
| `TsHashing.SdksAgree` | sdk/src/utils.ts:52-59 | An accepted Go value and an accepted TypeScript value have the same text exactly when they denote the same JSON value. |
| `PyHashing.EscapedPrint` | sdk-python/src/tonbankcard_merchant/hashing.py:21-32 | Escaping the two separators in the whole text is escaping them in its strings. |
| `PyHashing.PyTextIs` | sdk-python/src/tonbankcard_merchant/hashing.py:19-32 | `canonical_json` fails exactly where normalisation does and otherwise gives the code-point-sorted canonical text. |
| `PyHashing.ThreeSdksAgree` | sdk-python/src/tonbankcard_merchant/hashing.py:19-104 | Accepted Go, TypeScript and Python values have the same text as the Python one exactly when they stand for the same JSON value. |
| `SameValue.IntegerText` | sdk-go/hashing.go:91-95 | In all three languages an integer is accepted exactly within 2^53-1 of zero and printed in decimal notation. |
| `SameValue.UnsignedText` | sdk-go/hashing.go:96-100 | Unsigned integers are printed like signed ones. |
| `SameValue.NullText` | sdk-go/hashing.go:89-108 | Null, a nil big integer included, is printed `null` in all three. |
| `SameValue.BoolText` | sdk-go/hashing.go:89-90 | Truth values are printed `true` and `false` in all three. |
| `SameValue.TextText` | sdk-go/hashing.go:103-108 | Texts are printed as their literal in all three, big integers as the literal of their decimal notation. |
| `SameValue.RefusedLeaves` | sdk-go/hashing.go:101-160 | Floats, mappings with other keys than strings and unsupported kinds are refused, each with its own error. |
| `SameValue.OneText` | sdk/src/utils.ts:52-59 | Values that are the same leaf, lists of the same values, or objects with the same values under the same keys in any order are accepted by all three SDKs or by none, and get one text. |
| `JsVariants.RebuiltIsIndexFirst` | backend/adapters/nowpayments.ts:350-355 | Rebuilding an object in UTF-16 key order and enumerating it gives its entries, without `__proto__`, index keys first in numeric order and then the rest. |
| `JsVariants.SortObjectKeysIsSortTree` | backend/adapters/nowpayments.ts:344-359 | The recursive rebuild is the sorted tree of what is kept of the value. |
| `JsVariants.PayloadTextIffReordered` | backend/adapters/nowpayments.ts:333-359 | Two payloads get one signed text exactly when what is kept of them differs only in entry order. |
| `JsVariants.KeptIsAllIff` | backend/adapters/nowpayments.ts:352-355 | Nothing is lost exactly when no object at any depth has the key `__proto__`. |
| `JsVariants.ProtoIsNotSigned` | backend/adapters/nowpayments.ts:352-353 | For every value, an object holding it under `__proto__` alone gets the text of the empty object. |
| `RawBodies.LastWinsEntry` | backend/adapters/nowpayments.ts:334 | Of repeated keys in a body the last entry, and no other, counts. |
| `RawBodies.ParsedIsShown` | backend/adapters/nowpayments.ts:334-335 | If every number JavaScript writes is read back as itself, parsed values hold only numbers as they are written. |
| `RawBodies.RawIsParsed` | backend/adapters/nowpayments.ts:333-359 | A raw body, in any spelling, number notation and key order and with repeated keys, gets the text of a parsed object exactly when it has no lone surrogate and what is kept of the two differs only in entry order, for an arbitrary reading and writing of numbers. |
| `RawBodies.RawRejectedIff` | backend/adapters/nowpayments.ts:334 | A raw body is rejected exactly when it is outside the grammar of JSON; it has an outcome of its own exactly when it spells a lone surrogate. |
| `RawBodies.PrintedBody` | backend/adapters/nowpayments.ts:333-336 | A printed value, presented as a raw body, gets the text of the value. |
| `RawBodies.NumbersAlikeIff` | backend/adapters/nowpayments.ts:334-335 | Two number literals get one text exactly when JavaScript makes one number of them. |
| `RawBodies.FractionIsSigned` | tests/nowpayments-adapter/nowpayments-hmac.spec.ts:35-55 | Fractions are accepted, and signed as sent when JavaScript writes them as sent. |
| `RawBodies.AmountIsSigned` | tests/nowpayments-adapter/nowpayments-hmac.spec.ts:35-55 | In particular the amount 45.5. |
| `RawBodies.RoundedAlike` | backend/adapters/nowpayments.ts:334-335 | 9007199254740993 and 9007199254740992 are different literals with one text when JavaScript rounds them to one number. |
| `JsVariants.GovernanceTextIffReordered` | scripts/governance/check-parameter-changes.ts:265-271 | The governance text is equal exactly for values that differ only in entry order. |
| `JsVariants.VariantsAgreeIff` | scripts/governance/check-parameter-changes.ts:269-270 | The payment and governance variants print one text exactly when no key is `__proto__` and index keys are nowhere out of UTF-16 order. |
| `JsVariants.VariantsDisagree` | backend/adapters/nowpayments.ts:350-355 | They print different texts for an object with the keys `9` and `10`. |
| `Crc16.FeedBitsLinear` | sdk-go/models.go:168-176 | The register is linear over GF(2) in its start value and its input. |
| `Crc16.ShiftInjective` | sdk-go/models.go:171-175 | The register step is a bijection. |
| `Crc16.BurstDetected` | sdk-go/models.go:166-179 | An error confined to sixteen consecutive bits, anywhere, leaves the remainder unchanged only if it is no error. |
| `Crc16.AppendedRemainder` | sdk-go/models.go:166-179 | Sixteen appended bits give remainder zero exactly when they are the remainder. |
| `Crc16.RemainderIsUnique` | sdk-go/models.go:166-179 | The register ends with the remainder of message·x^16 modulo x^16+x^12+x^5+1, and no other bit string is such a remainder. |
| `CrcWords.ShiftEight` | sdk-go/models.go:170-176 | The inner loop on 16-bit words performs eight register steps. |
| `CrcWords.Crc16Ton` | sdk-go/models.go:166-179 | The nested loop on machine words returns the remainder of data·x^16. |
| `CrcWords.CrcIsRemainder` | sdk-go/models.go:166-179 | Being the checksum and being a remainder in the polynomial sense are the same. |
| `CrcWords.CrcLinear` | sdk-go/models.go:166-179 | XOR of equally long data becomes XOR of checksums. |
| `CrcWords.CrcAppended` | sdk-go/models.go:159-160 | Two appended bytes give checksum zero exactly when they are the checksum, high byte first. |
| `Base64.SameBytesIffAliases` | sdk-go/models.go:150-151 | Equally long texts decode to the same bytes exactly when they agree up to the `-`/`+` and `_`/`/` aliases. |
| `AddressIntegrity.DecodeFriendlyTonAddress` | sdk-go/models.go:146-164 | Shape, base64, tag and word comparison of checksums accept and return what the bit-level specification does. |
| `AddressIntegrity.AdjacentChangeDetected` | sdk-go/models.go:146-179 | Two accepted addresses that differ only in two adjacent characters hold the same bytes. |
| `AddressIntegrity.ChangeAcceptedIff` | sdk-go/models.go:95-179 | Replacing two adjacent characters of an accepted friendly address by any others is accepted exactly when it exchanges aliases. |
| `AddressIntegrity.SingleChangeRejected` | sdk-go/models.go:95-179 | The same for one character. |
| `AddressIntegrity.SwapRejected` | sdk-go/models.go:95-179 | Swapping two adjacent characters is accepted exactly when they are equal or aliases. |
| `FriendlyText.DecodeEncoded` | sdk-go/models.go:150-151 | Base64 decoding undoes base64 encoding on every whole number of three-byte groups. |
| `FriendlyText.FriendlyNames` | sdk-go/models.go:146-164 | Bounceable, non-bounceable and test-only spellings written by an independent encoder (tag, workchain, account, checksum, base64) are accepted and name that workchain, signed, and account. |
| `FriendlyText.SignedWorkchain` | sdk-go/models.go:125-126 | A friendly text names the workchain in -128..127 congruent to its byte modulo 256 and canonicalises to its decimal text, a colon and the account. |
| `FriendlyText.Masterchain` | sdk-go/models.go:125-126 | The byte 0xFF is workchain -1. |
| `FriendlyText.SpelledIsAccepted` | sdk-go/models.go:146-164 | So is every spelling that differs from them only in alphabet aliases. |
| `FriendlyText.AcceptedIffSpelled` | sdk-go/models.go:146-164 | The accepted friendly texts are exactly those spellings, up to the alphabet aliases. |
| `TonAddress.CanonicalizeRenders` | sdk-go/models.go:110-127 | Canonicalisation renders the signed workchain and account the address names, and fails when it names none. |
| `TonAddress.SameTextIffSameAccount` | sdk-go/models.go:108-127 | Raw, standard, URL-safe, bounceable and test-only spellings canonicalise to one text exactly when they name one account; strings that name none are rejected. |
| `TonAddress.CanonicalizesIffValid` | sdk-go/models.go:95-127 | Canonicalisation succeeds on exactly the strings `ValidateMerchantNFT` accepts. |
| `TonAddress.CanonicalIsFixed` | sdk-go/models.go:110-139 | The rendering of every account is a valid raw address that names it and is its own canonical text. |
| `TonAddress.Idempotent` | sdk-go/models.go:110-127 | Canonicalising twice is canonicalising once, the result is a valid raw address, and there is none exactly for strings the validator rejects. |
| `TonAddress.PaddedAddress` | sdk-go/models.go:95-111 | White space around an address does not matter. |
| `TonAddress.RawSpelling` | sdk-go/models.go:110-119 | Any notation of a 64-bit workchain, leading zeros included, and any case of the account's digits give the canonical text. |
| `Invoice.PayloadExistsIff` | sdk-go/hashing.go:32-46 | The payload exists exactly for valid addresses and amounts. |
| `Invoice.PayloadHolds` | sdk-go/hashing.go:40-45 | Read as JSON, a payload is the object of exactly the amount text, the canonical address, the order id and the decimal timestamp, each under its own key. |
| `Invoice.AmountAcceptedIff` | sdk-go/models.go:182-195 | An amount is accepted exactly when, trimmed, it is the decimal notation of an integer in 1..2^120-1. |
| `Invoice.PaddedAmountIff` | sdk-go/models.go:183 | White space around an amount does not decide whether it is accepted. |
| `Invoice.SecondsMeans` | sdk/src/utils.ts:175-185 | A TypeScript timestamp is taken as it is: a bigint, or a whole number of at most 53 bits. |
| `Invoice.PayloadsEqualIff` | sdk-go/hashing.go:32-46 | Two payloads are equal exactly when account, amount text, order id and timestamp all are. |
| `Invoice.TsPayloadExistsIff` | sdk/src/utils.ts:159-201 | The TypeScript payload exists exactly for amounts in 1..2^120-1 and timestamps that are bigints or safe integers. |
| `Invoice.SdkPayloadsEqualIff` | sdk/src/utils.ts:175-201 | The Go and TypeScript payloads are equal exactly when canonical address, amount text, order id and timestamp all agree. |
| `Invoice.AmountTextIsNotation` | sdk-go/models.go:182-195 | An accepted amount, trimmed, is the decimal notation of its value; untrimmed it is so exactly when it has no outer white space. |
| `Invoice.SameAmountSamePayloadIff` | sdk-go/hashing.go:37-45 | Two accepted texts of one amount give one payload exactly when they are the same text, and always when both are trimmed. |
| `Invoice.PaddedAmountDiffers` | sdk-go/models.go:183 | For every valid address, " 1" and "1" are both accepted and give different payloads. |
| `PyInvoice.PyPayloadExistsIff` | sdk-python/src/tonbankcard_merchant/hashing.py:35-54 | The Python payload exists exactly for addresses and amounts Python accepts and timestamps it can write. |
| `PyInvoice.GoAcceptsIff` | sdk-go/models.go:110-127 | Go accepts an address exactly when both SDKs strip the same from it and what is left is a 64-bit raw or a friendly address. |
| `PyInvoice.AmountIff` | sdk-python/src/tonbankcard_merchant/models.py:275-288 | Go accepts an amount exactly when Python does, under every digit limit, and both strip the same from it. |
| `PyInvoice.BothAcceptSame` | sdk-python/src/tonbankcard_merchant/hashing.py:35-54 | An invoice accepted by both SDKs gets one payload. |
| `PyInvoice.GoIsPyIff` | sdk-python/src/tonbankcard_merchant/models.py:205-237 | What Go accepts gets the same payload from Python exactly when Python converts the digits of a raw workchain and of the timestamp. |
| `PyInvoice.PyIsGoIff` | sdk-python/src/tonbankcard_merchant/models.py:205-288 | What Python accepts gets the same payload from Go exactly when both strip the same from address and amount and a raw workchain fits 64 bits. |
| `PyInvoice.RawAddressIff` | sdk-python/src/tonbankcard_merchant/models.py:228-237 | On raw texts Go asks for 64 bits and Python for few enough digits. |
| `PyInvoice.WideWorkchain` | sdk-python/src/tonbankcard_merchant/models.py:210-212 | For every account the workchain 2^63 is accepted by Python and rejected by Go. |
| `PyInvoice.ManyZeros` | sdk-python/src/tonbankcard_merchant/models.py:231-236 | For every digit limit there is a raw address Go accepts and Python rejects. |
| `PyInvoice.SeparatedAmount` | sdk-python/src/tonbankcard_merchant/models.py:282 | An amount behind an information separator is accepted by Python and rejected by Go. |
| `PyInvoice.PaddedPyAddress` | sdk-python/src/tonbankcard_merchant/models.py:209 | White space in Python's sense around an address does not matter. |
| `PyInvoice.SpacesCompared` | sdk-python/src/tonbankcard_merchant/models.py:282 | What the three languages strip differs in U+0085, U+FEFF and U+001C to U+001F only. |
| `Webhook.ParseSignatureHeader` | sdk-go/webhooks.go:167-197 | The loop with its early returns computes the scan of the comma-separated fields that `HeaderIff` describes. |
| `Webhook.HeaderIff` | sdk-go/webhooks.go:164-197 | A header is accepted exactly when every field has an equals sign, every `t` is a digit string in 1..2^53-1 and there is a `t` and a version key; it yields the last `t` and the last value of exactly the version keys. |
| `Webhook.RescanIsLast` | sdk-go/webhooks.go:130-136 | The second scan yields the trimmed value of the last `t` field. |
| `Webhook.PaddedField` | sdk-go/webhooks.go:173-178 | A field is read without the white space around its key and its value. |
| `Webhook.FieldIff` | sdk-go/webhooks.go:173-176 | A part is a field exactly when it has an equals sign. |
| `Webhook.VersionKeyIff` | sdk-go/webhooks.go:187-188 | A version key is a v and digits. |
| `Webhook.TimestampText` | sdk-go/webhooks.go:130-136 | The second loop computes the rescan of the header's fields. |
| `Webhook.VerifyWebhook` | sdk-go/webhooks.go:92-143 | Parse, freshness check, rescan and comparison give the verdict of the specification, error by error. |
| `Webhook.MacedTextIsTimestamp` | sdk-go/webhooks.go:108-137 | In every accepted header the rescanned text is a digit string whose value is the timestamp used for freshness. |
| `Webhook.PreimageInjective` | sdk-go/webhooks.go:40-45 | The MACed message determines timestamp text and payload. |
| `Webhook.FreshIff` | sdk-go/webhooks.go:113-120 | The freshness check on saturating 64-bit durations passes exactly within tolerance, or when the timestamp is 2^63 ns or more ahead, or at the largest tolerance. |
| `Webhook.AuthenticMeans` | sdk-go/webhooks.go:92-143 | An authentic delivery has a digit timestamp in 1..2^53-1, its v1 digest is the MAC of that text and the payload, and it is within tolerance exactly when the timestamp is not 2^63 ns or more ahead. |
| `Webhook.ReplayWindow` | sdk-go/webhooks.go:113-120 | A header whose timestamp is less than 2^63 ns ahead at two times is not accepted at both when they are more than twice the tolerance apart, whatever the payloads. |
| `Webhook.ConfinedIff` | sdk-go/webhooks.go:47-143 | From the Unix epoch on, a signed delivery is confined to one window of twice the tolerance exactly when its timestamp is below 2^63 ns. |
| `Webhook.FarFutureReplayed` | sdk-go/webhooks.go:113-120 | For every secret and payload, the delivery signed at 2^53-1 is accepted in 1970 and in 2223 under the default tolerance. |
| `Webhook.SignedHeaderParses` | sdk-go/webhooks.go:50-53 | The header built by `SignWebhook` parses to its timestamp and digest and rescans to the timestamp's decimal text. |
| `Webhook.SignedVerifiesIff` | sdk-go/webhooks.go:50-143 | A signed header presented with any payload is authentic exactly when it is fresh and the two messages have one MAC, for an arbitrary MAC function. |
| `Webhook.SignedVerifies` | sdk-go/webhooks.go:47-143 | Presented with the signed payload within tolerance it always verifies. |
| `Webhook.PaddedHeaderParses` | sdk-go/webhooks.go:164-197 | A signed header with any white space around its keys, values and comma parses to the same timestamp and digest. |
| `Webhook.PaddedVerifiesIff` | sdk-go/webhooks.go:92-143 | It is authentic under the same condition as without the white space. |
| `Webhook.AuthenticIff` | sdk-go/webhooks.go:92-143 | A delivery is authentic exactly when the secret is not blank, the header is well formed, its last timestamp is fresh, and its last v1 value is the hexadecimal notation of the MAC of timestamp text, point and payload. |
| `MultiSig.CreateConfigIff` | backend/adapters/multisig.ts:250-283 | A configuration is accepted exactly with at most three distinct signers and a threshold between one and their number, or NaN. |
| `MultiSig.CreatedConfig` | backend/adapters/multisig.ts:66-82 | A created configuration is active and holds the threshold and at most three distinct signers it was given. |
| `MultiSig.CreateProposalIff` | backend/adapters/multisig.ts:116-157 | Proposing succeeds exactly with an active configuration, a positive amount and a recipient that is not blank; the proposal asks for that payment and threshold, pending and without approvals. |
| `MultiSig.RecordApprovalIff` | backend/adapters/multisig.ts:163-200 | Approving succeeds exactly for a pending proposal and a configured signer who has not approved; it appends that signer, counts it and keeps the payment; each failing guard has its error. |
| `MultiSig.ClosingIff` | backend/adapters/multisig.ts:209-241 | Rejecting needs a pending proposal, marking as executed an approved one; both change the status only. |
| `MultiSig.RunKeepsPayment` | backend/adapters/multisig.ts:163-241 | Over every run recipient, amount and required approvals stay. |
| `MultiSig.ApprovedPayment` | backend/adapters/multisig.ts:116-241 | What is approved over a run is the payment that was proposed. |
| `MultiSig.RunReadOff` | backend/adapters/multisig.ts:163-241 | The approvers of a run are the first configured signers to approve before a rejection, as many as needed; approved or executed means there are that many, rejected that there are fewer and some call rejects. |
| `MultiSig.StepKeepsInv` | backend/adapters/multisig.ts:116-241 | Every successful step keeps: approvers are distinct signers, the count is their number, pending is below the needed approvals, approved and executed are exactly at them. |
| `MultiSig.RunKeepsInv` | backend/adapters/multisig.ts:163-241 | So does every run of calls, successful or not. |
| `MultiSig.ApprovedMeans` | backend/adapters/multisig.ts:163-241 | After every run, approved or executed means as many distinct configured signers as the threshold rounded up; equal to the threshold exactly when it is an integer. |
| `MultiSig.RunLength` | backend/adapters/multisig.ts:163-241 | No run has more successful calls than the threshold rounded up (for NaN, the number of signers) plus one, and never more than four. |
| `MultiSig.PendingCanProgress` | backend/adapters/multisig.ts:163-200 | Pigeonhole: in every pending state with a threshold other than NaN some signer can still approve. |
| `MultiSig.ProgressIffNotNaN` | backend/adapters/multisig.ts:163-283 | All pending states of all runs can still be approved by someone exactly when the threshold is not NaN. |
| `Recurring.CreateMandateIff` | backend/adapters/recurring.ts:74-104 | A mandate is created exactly for a positive amount, a whole period of 3600 to 31536000 seconds and a whole maximum that is not negative, and holds just these. |
| `Recurring.CallsIff` | backend/adapters/recurring.ts:109-167 | Cancelling and recording succeed exactly for active mandates; a record counts one, keeps the terms and names amount, number, hash and time. |
| `Recurring.RunKeepsTerms` | backend/adapters/recurring.ts:109-167 | Over every run amount, period and maximum stay. |
| `Recurring.NextIs` | backend/adapters/recurring.ts:209-225 | After every run the next execution of an active mandate is now, or one period after the last recorded one. |
| `Recurring.NewDateIff` | backend/adapters/recurring.ts:222-224 | The dates are the milliseconds within 100,000,000 days of the epoch. |
| `Recurring.CanExecuteIffDue` | backend/adapters/recurring.ts:179-225 | `canExecute` holds exactly when `getNextExecutionTime` is non-null and not after now, or is an invalid date. |
| `Recurring.StepSpacedIff` | backend/adapters/recurring.ts:133-197 | A call keeps executions one period apart exactly when it records nothing or `canExecute` held with a valid next date. |
| `Recurring.RunResult` | backend/adapters/recurring.ts:109-197 | Every run keeps the invariant, and its executions are spaced exactly when every effective record was made while `canExecute` held with a valid next date. |
| `Recurring.MandateRun` | backend/adapters/recurring.ts:74-225 | Every run of a new mandate: executions are numbered 1..n without gap, completed holds exactly when a positive maximum is reached, the maximum is never exceeded, spacing exactly when guarded. |
| `Recurring.RunReadOff` | backend/adapters/recurring.ts:109-167 | The log and status at the end of every run are read off its calls: the records before the first cancellation, up to the maximum, in order, each with its number, amount, hash, time and confirmation; completed, cancelled or active accordingly. |
| `Recurring.InactiveIsFinal` | backend/adapters/recurring.ts:109-142 | Cancelled and completed mandates never change again, whatever is called. |
| `Recurring.WindowBound` | backend/adapters/recurring.ts:133-197 | In every guarded run, k executions inside a window of w ms satisfy (k-1)·period·1000 <= w. |
| `Recurring.UnguardedNotSpaced` | backend/adapters/recurring.ts:133-167 | For every active mandate that allows two executions, two unguarded records at one instant both succeed and break the spacing. |
| `Recurring.LastDateNotSpaced` | backend/adapters/recurring.ts:190-198 | At the last JavaScript date `canExecute` holds again right after an execution, and recording breaks the spacing. |
| `Snapshot.CreateSnapshot` | scripts/governance/snapshot.ts:233-343 | For every provider, supply and option, the loop with its early throw returns the snapshot of the voters and failures below the supply, or the first error. |
| `Snapshot.CheckVoters` | scripts/governance/snapshot.ts:395-421 | The loop over voters reports nothing exactly when indices are distinct and every record is good, and collects exactly the owners. |
| `Snapshot.VerifySnapshot` | scripts/governance/snapshot.ts:367-463 | No error is reported exactly for snapshots that satisfy the stated conditions. |
| `SnapshotLaws.QueryMeans` | scripts/governance/snapshot.ts:273-300 | An index fails exactly when the provider does not answer with that item of the collection; it votes exactly when the item is initialised and owned, for that owner. |
| `SnapshotLaws.FirstFailed` | scripts/governance/snapshot.ts:306-313 | The failures start with the least index the provider does not answer for. |
| `SnapshotLaws.CreatedIff` | scripts/governance/snapshot.ts:233-315 | Without collection, with an unreadable one, without a block, or incomplete without permission the run is refused, each in its own way, and an incomplete one names its first failing index; otherwise a snapshot is returned. |
| `SnapshotLaws.SnapshotHolds` | scripts/governance/snapshot.ts:272-333 | A returned snapshot holds the block, the collection, and for each item that votes, and no other, its owner with one vote, by index. |
| `SnapshotLaws.Partition` | scripts/governance/snapshot.ts:272-315 | Each index below the supply, and no other, is a voter, excluded or failed, according to the provider's answer. |
| `SnapshotLaws.PartitionSizes` | scripts/governance/snapshot.ts:272-315 | The three groups together list each index once. |
| `SnapshotLaws.BuiltVerifiesIff` | scripts/governance/snapshot.ts:318-463 | A returned snapshot verifies exactly when no index failed, the supply is 222, the block is positive and every owner text parses back. |
| `SnapshotLaws.PowerIsConserved` | scripts/governance/snapshot.ts:395-434 | In every verified snapshot the power summed per owner, in any order of owners, is the stated total, and the owners are as many as stated. |
| `SnapshotLaws.VerifiedNamesItemsIff` | scripts/governance/snapshot.ts:395-421 | The voters of a verified snapshot are distinct items of the collection exactly when the indices are integers, and then they are at most 222. |
| `SnapshotLaws.BuiltIsIntegral` | scripts/governance/snapshot.ts:272-295 | The tool itself always records integer indices. |
| `SnapshotLaws.FractionalCrowdVerifies` | scripts/governance/snapshot.ts:397-405 | For every count below 2^32, the length limit of arrays, a snapshot with that many voters at fractional indices, all exact doubles, verifies. |

## Left out

- Invoice.SdkPayloadsEqualIff: takes the raw text of the TypeScript merchant address, because `Address.parse` of @ton/core is not part of this model; snapshots take a predicate saying which owner texts parse.
- RawBodies.RawIsParsed: what JavaScript reads from a number literal and writes for it is an arbitrary function, infinities written `null` included; the rounding of doubles and their shortest notation are not spelled out. A number in a parsed payload is the text `JSON.stringify` writes for it.
- RawBodies.RawRejectedIff: bodies with a lone surrogate are accepted by the source; the model leaves their text open.
- PyInvoice.PyPayloadExistsIff: arguments of a wrong type, which raise, are not modelled; the limit on converted digits is a parameter.
- SHA-256, HMAC and constant-time comparison: the MAC is an arbitrary function and comparison is equality; collision resistance is not stated.
- Strings are sequences of Unicode scalar values: Go's replacement of invalid UTF-8 and lone surrogates of JavaScript and Python are not modelled.
- The dashboard and mobile formatters take the amount as text; its conversion by `BigInt` is left out and the amount is an integer. The mobile formatter (mobile/src/utils.ts) repeats the dashboard's code.
- Instants are whole nanoseconds for webhooks and whole milliseconds for mandates; `strconv.Atoi` is that of a 64-bit platform.
- JSON decoding of a webhook body after the MAC comparison, and its required fields.
- Warnings of `verifySnapshot`, console output, snapshot files and creation times.
- Generated identifiers and randomness; the clock is a parameter.
- HTTP clients and JSON-RPC providers: the snapshot provider is an arbitrary function from indices to answers or failures.
- Bridge and loan adapters, readiness validators, proposal and Markdown checks, `ValidateMetadata`, deployment scripts and user interfaces.
- The Tact and FunC contracts.
