/**
 * Which spelling the printer writes: no white space, each character as itself
 * where that is allowed, else with its two-character escape, else in lower-case
 * hexadecimal. Stated on spellings, without the functions that escape.
 */
module Escapes {
  import opened Text
  import opened Json
  import opened JsonParser

  predicate IsLowerHex(c: char) { '0' <= c <= '9' || 'a' <= c <= 'f' }

  /** A character that no style writes as itself: control characters, and in the canonical style the two separators. */
  predicate MustEscape(y: Style, n: int) { n < 0x20 || (y.Canonical? && (n == 0x2028 || n == 0x2029)) }

  /** The control characters with a two-character escape: backspace, tab, newline, form feed, return. */
  predicate HasShort(n: int) { n == 8 || n == 9 || n == 10 || n == 12 || n == 13 }

  /** The spelling of a character that the printer prefers. */
  predicate Preferred(y: Style, l: Letter) {
    match l
    case Bare(c) => !MustEscape(y, c as int)
    case Short(letter) => letter != '/'
    case Hex(digits) =>
      && (forall i :: 0 <= i < |digits| ==> IsLowerHex(digits[i]))
      && MustEscape(y, CharOf(l) as int) && !HasShort(CharOf(l) as int)
    case Surrogates(_, _) => false
    case Lone(_) => false
  }

  predicate AllPreferred(y: Style, ls: seq<Letter>) { forall i :: 0 <= i < |ls| ==> Preferred(y, ls[i]) }

  // ----- Each character has one preferred spelling

  lemma LowerHexValue(c: char)
    requires IsLowerHex(c)
    ensures HexValue(c).Some? && HexValue(c).value < 16 && HexDigit(HexValue(c).value) == c
  {}

  lemma DigitsUnique(a: nat, b: nat, c: nat, d: nat, n: nat)
    requires a < 16 && b < 16 && c < 16 && d < 16 && n == 4096 * a + 256 * b + 16 * c + d
    ensures a == n / 16 / 16 / 16 && b == n / 16 / 16 % 16 && c == n / 16 % 16 && d == n % 16
  {
    assert n / 16 == 256 * a + 16 * b + c;
    assert n / 16 / 16 == 16 * a + b;
  }

  /** Four lower-case digits are those of the escape. */
  lemma LowerHexIsEscape(digits: string, c: char)
    requires HexNumber(digits) == Some(c as int) && c as int < 0x10000 && forall i :: 0 <= i < |digits| ==> IsLowerHex(digits[i])
    ensures ['\\', 'u'] + digits == UnicodeEscape(c)
  {
    LowerHexValue(digits[0]);
    LowerHexValue(digits[1]);
    LowerHexValue(digits[2]);
    LowerHexValue(digits[3]);
    var p, q, r, s := HexValue(digits[0]).value, HexValue(digits[1]).value, HexValue(digits[2]).value, HexValue(digits[3]).value;
    DigitsUnique(p, q, r, s, c as int);
    assert digits == [HexDigit(p), HexDigit(q), HexDigit(r), HexDigit(s)];
  }

  lemma HexUnit(digits: string)
    requires IsLetter(Hex(digits))
    ensures HexNumber(digits) == Some(CharOf(Hex(digits)) as int) && CharOf(Hex(digits)) as int < 0x10000
  {}

  /** A preferred spelling is what the printer writes for its character. */
  lemma PreferredIsWritten(y: Style, l: Letter)
    requires Preferred(y, l)
    ensures Written(l) == EscapeChar(y, CharOf(l))
  {
    if l.Hex? {
      HexUnit(l.digits);
      LowerHexIsEscape(l.digits, CharOf(l));
    }
  }

  lemma EscapeIsLowerHex(c: char)
    requires c as int < 0x10000
    ensures forall i :: 2 <= i < 6 ==> IsLowerHex(UnicodeEscape(c)[i])
  {}

  /** The printer's spelling of each character is preferred. */
  lemma PlainIsPreferred(y: Style, c: char)
    ensures Preferred(y, PlainLetter(y, c))
  {
    EscapeKinds(y, c);
    if |EscapeChar(y, c)| == 6 {
      SixIsUnicode(y, c);
      HexDigitsLower(c);
    }
  }

  /** Six characters are written exactly for what must be escaped and has no two-character escape. */
  lemma EscapeKinds(y: Style, c: char)
    ensures |EscapeChar(y, c)| == 6 <==> MustEscape(y, c as int) && !HasShort(c as int)
    ensures |EscapeChar(y, c)| == 1 ==> !MustEscape(y, c as int)
    ensures |EscapeChar(y, c)| == 2 ==> EscapeChar(y, c)[1] != '/'
  {}

  lemma HexDigitsLower(c: char)
    requires c as int < 0x10000
    ensures var d := UnicodeEscape(c)[2..]; forall i :: 0 <= i < |d| ==> IsLowerHex(d[i])
  {
    EscapeIsLowerHex(c);
    var d := UnicodeEscape(c)[2..];
    assert forall i :: 0 <= i < |d| ==> d[i] == UnicodeEscape(c)[i + 2];
  }

  // ----- Strings

  lemma {:induction false} LettersWritten(y: Style, ls: Letters, rest: string)
    requires AllPreferred(y, ls)
    ensures WriteLetters(ls, rest) == Escape(y, Chars(ls)) + rest
  {
    if ls == [] {
      assert Escape(y, Chars(ls)) + rest == rest;
    } else {
      var tail := TailLetters(ls);
      LettersWritten(y, tail, rest);
      PreferredIsWritten(y, ls[0]);
      ConcatAssoc(EscapeChar(y, CharOf(ls[0])), Escape(y, Chars(tail)), rest);
      assert Chars(ls)[1..] == Chars(tail);
    }
  }

  /** A literal of preferred spellings is the one the printer writes for its string. */
  lemma StringWritten(y: Style, ls: Letters, rest: string)
    requires AllPreferred(y, ls)
    ensures WriteString(ls, rest) == Quote(y, Chars(ls)) + rest
  {
    LettersWritten(y, ls, ['\"'] + rest);
    ConcatFour(['\"'], Escape(y, Chars(ls)), ['\"'], rest);
  }

  /** Every string has such a literal. */
  lemma PlainLettersPreferred(y: Style, s: string)
    ensures AllPreferred(y, PlainLetters(y, s))
  {
    forall i | 0 <= i < |s| ensures Preferred(y, PlainLetters(y, s)[i]) { PlainIsPreferred(y, s[i]); }
  }

  predicate NeedsNoEscape(y: Style, c: char) { !MustEscape(y, c as int) && c != '\"' && c != '\\' }

  lemma {:induction false} NothingEscaped(y: Style, s: string)
    requires forall i :: 0 <= i < |s| ==> NeedsNoEscape(y, s[i])
    ensures Escape(y, s) == s
  {
    if s != [] {
      PreferredIsWritten(y, Bare(s[0]));
      NothingEscaped(y, s[1..]);
      assert s == [s[0]] + s[1..];
    }
  }

  /** A string without quotes, backslashes and characters that must be escaped is printed as itself; `<`, `>` and `&` too. */
  lemma PrintedAsItself(y: Style, s: string)
    requires forall i :: 0 <= i < |s| ==> NeedsNoEscape(y, s[i])
    ensures Print(y, Str(s)) == "\"" + s + "\""
  {
    NothingEscaped(y, s);
  }

  // ----- Values

  /** No white space, and preferred spellings only. */
  predicate Compact(y: Style, t: Tree) {
    match t
    case StrText(ls) => AllPreferred(y, ls)
    case ArrText(gap, items) =>
      gap == "" && forall i :: 0 <= i < |items| ==> items[i].before == "" && items[i].after == "" && Compact(y, items[i].tree)
    case ObjText(gap, members) =>
      gap == "" && forall i :: 0 <= i < |members| ==>
        && members[i].before == "" && members[i].colon == "" && members[i].item.before == "" && members[i].item.after == ""
        && AllPreferred(y, members[i].key) && Compact(y, members[i].item.tree)
    case _ => true
  }

  /** The compact spelling of a value is what the printer writes. */
  lemma {:induction false} CompactIsPrinted(y: Style, t: Tree, rest: string)
    requires Compact(y, t)
    ensures Write(t, rest) == Print(y, ValueOf(t)) + rest
    decreases t, 0
  {
    match t
    case StrText(ls) => StringWritten(y, ls, rest);
    case ArrText(gap, items) =>
      if items != [] { ItemsPrinted(y, items, rest); }
      ConcatFour(['['], PrintItems(y, Items(items)), [']'], rest);
    case ObjText(gap, members) =>
      if members != [] { MembersPrinted(y, members, rest); }
      ConcatFour(['{'], PrintEntries(y, Entries(members)), ['}'], rest);
    case _ =>
  }

  predicate CompactItem(y: Style, i: Item) { i.before == "" && i.after == "" && Compact(y, i.tree) }

  lemma {:induction false} ItemPrinted(y: Style, i: Item, rest: string)
    requires CompactItem(y, i)
    ensures WriteItem(i, rest) == Print(y, ValueOf(i.tree)) + rest
    decreases i, 1
  {
    CompactIsPrinted(y, i.tree, rest);
    assert "" + rest == rest && "" + Write(i.tree, rest) == Write(i.tree, rest);
  }

  lemma {:induction false} ItemsPrinted(y: Style, items: seq<Item>, rest: string)
    requires items != [] && forall i :: 0 <= i < |items| ==> CompactItem(y, items[i])
    ensures WriteItems(items, rest) == PrintItems(y, Items(items)) + ([']'] + rest)
    decreases items, 0
  {
    var tail := if |items| == 1 then [']'] + rest else [','] + WriteItems(items[1..], rest);
    ItemPrinted(y, items[0], tail);
    if |items| == 1 {
      assert items[1..] == [] && Items(items) == [ValueOf(items[0].tree)];
    } else {
      ItemsPrinted(y, items[1..], rest);
      assert Items(items)[1..] == Items(items[1..]);
      ConcatFour(Print(y, ValueOf(items[0].tree)), [','], PrintItems(y, Items(items[1..])), [']'] + rest);
    }
  }

  predicate CompactMember(y: Style, m: Member) {
    m.before == "" && m.colon == "" && AllPreferred(y, m.key) && CompactItem(y, m.item)
  }

  lemma {:induction false} MemberPrinted(y: Style, m: Member, rest: string)
    requires CompactMember(y, m)
    ensures WriteMember(m, rest) == PrintEntry(y, Pair(Chars(m.key), ValueOf(m.item.tree))) + rest
    decreases m, 1
  {
    ItemPrinted(y, m.item, rest);
    var tail := [':'] + WriteItem(m.item, rest);
    StringWritten(y, m.key, tail);
    assert "" + tail == tail && "" + WriteString(m.key, tail) == WriteString(m.key, tail);
    ConcatFour(Quote(y, Chars(m.key)), [':'], Print(y, ValueOf(m.item.tree)), rest);
  }

  lemma {:induction false} MembersPrinted(y: Style, members: seq<Member>, rest: string)
    requires members != [] && forall i :: 0 <= i < |members| ==> CompactMember(y, members[i])
    ensures WriteMembers(members, rest) == PrintEntries(y, Entries(members)) + (['}'] + rest)
    decreases members, 0
  {
    var e := Pair(Chars(members[0].key), ValueOf(members[0].item.tree));
    var tail := if |members| == 1 then ['}'] + rest else [','] + WriteMembers(members[1..], rest);
    MemberPrinted(y, members[0], tail);
    if |members| == 1 {
      assert members[1..] == [] && Entries(members) == [e];
    } else {
      MembersPrinted(y, members[1..], rest);
      assert Entries(members)[1..] == Entries(members[1..]);
      ConcatFour(PrintEntry(y, e), [','], PrintEntries(y, Entries(members[1..])), ['}'] + rest);
    }
  }

  /** The printer's own spelling is compact, so every value has a compact spelling, and one text. */
  lemma {:induction false} PlainIsCompact(y: Style, v: Json)
    ensures Compact(y, Plain(y, v))
    decreases v, 1
  {
    match v
    case Str(s) => PlainLettersPreferred(y, s);
    case Arr(items) => PlainItemsCompact(y, items);
    case Obj(entries) => PlainMembersCompact(y, entries);
    case _ =>
  }

  lemma {:induction false} PlainItemsCompact(y: Style, items: seq<Json>)
    ensures forall i :: 0 <= i < |items| ==> CompactItem(y, PlainItems(y, items)[i])
    decreases items, 0
  {
    if items != [] {
      PlainIsCompact(y, items[0]);
      PlainItemsCompact(y, items[1..]);
    }
  }

  lemma {:induction false} PlainMemberCompact(y: Style, e: Pair<Json>)
    ensures CompactMember(y, PlainMember(y, e))
    decreases e, 2
  {
    PlainLettersPreferred(y, e.key);
    PlainIsCompact(y, e.value);
  }

  lemma {:induction false} PlainMembersCompact(y: Style, entries: seq<Pair<Json>>)
    ensures forall i :: 0 <= i < |entries| ==> CompactMember(y, PlainMembers(y, entries)[i])
    decreases entries, 0
  {
    if entries != [] {
      PlainMemberCompact(y, entries[0]);
      PlainMembersCompact(y, entries[1..]);
      assert PlainMembers(y, entries) == [PlainMember(y, entries[0])] + PlainMembers(y, entries[1..]);
    }
  }

  /** The text of a value is its compact spelling: there is one, and it is the printed text. */
  lemma PrintedIsCompact(y: Style, v: Json)
    ensures exists t :: Compact(y, t) && ValueOf(t) == v
    ensures forall t :: Compact(y, t) && ValueOf(t) == v ==> Write(t, []) == Print(y, v)
  {
    PlainIsCompact(y, v);
    PlainIs(y, v, []);
    forall t | Compact(y, t) && ValueOf(t) == v ensures Write(t, []) == Print(y, v) {
      CompactIsPrinted(y, t, []);
      assert Print(y, v) + [] == Print(y, v);
    }
  }
}
