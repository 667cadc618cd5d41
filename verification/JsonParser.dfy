/**
 * Reading JSON texts (RFC 8259): a parser, the concrete spellings of a value
 * with any white space and any escapes, and the round trip of the printer.
 * Numbers are kept as written. A lone surrogate has no Unicode scalar value: it
 * is read as U+FFFD, and the reading is marked as not exact.
 */
module JsonParser {
  import opened Text
  import opened Numerals
  import opened Json

  // ----- Parser

  datatype Parsed<+T> = Fail | Ok(value: T, rest: string, exact: bool)

  const REPLACEMENT: char := 0xFFFD as char

  /** Insignificant white space. */
  predicate IsGap(c: char) { c == ' ' || c == '\t' || c == '\n' || c == '\r' }

  function Skip(s: string): (r: string)
    ensures |r| <= |s|
  {
    if s != [] && IsGap(s[0]) then Skip(s[1..]) else s
  }

  function HexValue(c: char): Option<nat> {
    if '0' <= c <= '9' then Some(c as int - '0' as int)
    else if 'a' <= c <= 'f' then Some(c as int - 'a' as int + 10)
    else if 'A' <= c <= 'F' then Some(c as int - 'A' as int + 10)
    else None
  }

  /** The code unit written by four hexadecimal digits. */
  function HexNumber(s: string): (r: Option<nat>)
    ensures r.Some? ==> |s| == 4
  {
    if |s| != 4 then None
    else match (HexValue(s[0]), HexValue(s[1]), HexValue(s[2]), HexValue(s[3]))
      case (Some(a), Some(b), Some(c), Some(d)) => Some(4096 * a + 256 * b + 16 * c + d)
      case _ => None
  }

  /** The character of a code unit that is no surrogate. */
  function UnitChar(unit: Option<nat>): Option<char> {
    match unit
    case Some(n) => if n < 0xD800 || 0xE000 <= n < 0x10000 then Some(n as char) else None
    case None => None
  }

  /** The character of a surrogate pair. */
  function PairChar(high: Option<nat>, low: Option<nat>): Option<char> {
    match (high, low)
    case (Some(h), Some(l)) =>
      if 0xD800 <= h < 0xDC00 && 0xDC00 <= l < 0xE000 then Some((0x10000 + (h - 0xD800) * 0x400 + (l - 0xDC00)) as char) else None
    case _ => None
  }

  /** The character of a two-character escape. */
  function ShortChar(c: char): Option<char> {
    match c
    case '\"' => Some('\"')
    case '\\' => Some('\\')
    case '/' => Some('/')
    case 'b' => Some(0x08 as char)
    case 'f' => Some(0x0C as char)
    case 'n' => Some('\n')
    case 'r' => Some('\r')
    case 't' => Some('\t')
    case _ => None
  }

  function First(s: string, k: nat): string { if k <= |s| then s[..k] else s }

  /** A \u escape, or two that make a surrogate pair. */
  function ParseHex(s: string): (r: Parsed<char>)
    requires |s| >= 2
    ensures r.Ok? ==> |r.rest| < |s|
  {
    var unit := HexNumber(First(s[2..], 4));
    if unit.None? then Fail
    else if UnitChar(unit).Some? then Ok(UnitChar(unit).value, s[6..], true)
    else match LowHalf(unit, s[6..])
      case Some(c) => Ok(c, s[12..], true)
      case None => Ok(REPLACEMENT, s[6..], false)
  }

  /** The character completed by a \u escape at the start of s, if any. */
  function LowHalf(high: Option<nat>, s: string): (r: Option<char>)
    ensures r.Some? ==> |s| >= 6
  {
    if |s| < 6 || s[0] != '\\' || s[1] != 'u' then None else PairChar(high, HexNumber(s[2..6]))
  }

  /** One character of a string body. */
  function ParseChar(s: string): (r: Parsed<char>)
    ensures r.Ok? ==> |r.rest| < |s|
  {
    if s == [] || s[0] == '\"' || s[0] as int < 0x20 then Fail
    else if s[0] != '\\' then Ok(s[0], s[1..], true)
    else if |s| < 2 then Fail
    else if s[1] == 'u' then ParseHex(s)
    else match ShortChar(s[1])
      case Some(c) => Ok(c, s[2..], true)
      case None => Fail
  }

  /** A string body up to and including its closing quote. */
  function ParseBody(s: string): (r: Parsed<string>)
    ensures r.Ok? ==> |r.rest| < |s|
    decreases |s|
  {
    if s != [] && s[0] == '\"' then Ok([], s[1..], true)
    else match ParseChar(s)
      case Fail => Fail
      case Ok(c, rest, exact) =>
        match ParseBody(rest)
        case Fail => Fail
        case Ok(cs, rest', exact') => Ok([c] + cs, rest', exact && exact')
  }

  function ParseNumber(s: string): (r: Parsed<Json>)
    ensures r.Ok? ==> |r.rest| < |s|
  {
    match ScanNumber(s)
    case None => Fail
    case Some(rest) => Ok(Num(Literal(s)), rest, true)
  }

  function ParseWord(s: string, word: string, v: Json): (r: Parsed<Json>)
    requires word != []
    ensures r.Ok? ==> |r.rest| < |s|
  {
    if word <= s then Ok(v, s[|word|..], true) else Fail
  }

  function ParseString(s: string): (r: Parsed<string>)
    ensures r.Ok? ==> |r.rest| < |s|
  {
    if s == [] || s[0] != '\"' then Fail else ParseBody(s[1..])
  }

  /** A value that is neither array nor object. */
  function ParseScalar(s: string): (r: Parsed<Json>)
    ensures r.Ok? ==> |r.rest| < |s|
  {
    if s == [] then Fail
    else if s[0] == '-' || IsDigit(s[0]) then ParseNumber(s)
    else match s[0]
      case 'n' => ParseWord(s, "null", Null)
      case 't' => ParseWord(s, "true", Bool(true))
      case 'f' => ParseWord(s, "false", Bool(false))
      case '\"' =>
        (match ParseString(s)
         case Fail => Fail
         case Ok(t, rest, exact) => Ok(Str(t), rest, exact))
      case _ => Fail
  }

  /** What follows an opening bracket. */
  function ParseArray(s: string): (r: Parsed<Json>)
    ensures r.Ok? ==> |r.rest| < |s|
    decreases |s|, 3
  {
    var t := Skip(s);
    if t != [] && t[0] == ']' then Ok(Arr([]), t[1..], true)
    else match ParseItems(s)
      case Fail => Fail
      case Ok(items, rest, exact) => Ok(Arr(items), rest, exact)
  }

  /** What follows an opening brace. */
  function ParseObject(s: string): (r: Parsed<Json>)
    ensures r.Ok? ==> |r.rest| < |s|
    decreases |s|, 4
  {
    var t := Skip(s);
    if t != [] && t[0] == '}' then Ok(Obj([]), t[1..], true)
    else match ParseEntries(s)
      case Fail => Fail
      case Ok(entries, rest, exact) => Ok(Obj(entries), rest, exact)
  }

  /** A value at the very start of s. */
  function ParseHere(s: string): (r: Parsed<Json>)
    ensures r.Ok? ==> |r.rest| < |s|
    decreases |s|, 0
  {
    if s != [] && s[0] == '[' then ParseArray(s[1..])
    else if s != [] && s[0] == '{' then ParseObject(s[1..])
    else ParseScalar(s)
  }

  function ParseValue(s: string): (r: Parsed<Json>)
    ensures r.Ok? ==> |r.rest| < |s|
    decreases |s|, 1
  {
    ParseHere(Skip(s))
  }

  /** One or more values up to the closing bracket. */
  function ParseItems(s: string): (r: Parsed<seq<Json>>)
    ensures r.Ok? ==> |r.rest| < |s|
    decreases |s|, 2
  {
    match ParseValue(s)
    case Fail => Fail
    case Ok(v, after, exact) =>
      var rest := Skip(after);
      if rest == [] then Fail
      else if rest[0] == ']' then Ok([v], rest[1..], exact)
      else if rest[0] == ',' then
        match ParseItems(rest[1..])
        case Fail => Fail
        case Ok(vs, rest', exact') => Ok([v] + vs, rest', exact && exact')
      else Fail
  }

  /** A colon and a value. */
  function ParseColon(s: string): (r: Parsed<Json>)
    ensures r.Ok? ==> |r.rest| < |s|
    decreases |s|, 2
  {
    var t := Skip(s);
    if t == [] || t[0] != ':' then Fail else ParseValue(t[1..])
  }

  function ParseEntry(s: string): (r: Parsed<Pair<Json>>)
    ensures r.Ok? ==> |r.rest| < |s|
    decreases |s|, 2
  {
    match ParseString(Skip(s))
    case Fail => Fail
    case Ok(key, after, exact) =>
      match ParseColon(after)
      case Fail => Fail
      case Ok(v, rest, exact') => Ok(Pair(key, v), rest, exact && exact')
  }

  /** One or more entries up to the closing brace. */
  function ParseEntries(s: string): (r: Parsed<seq<Pair<Json>>>)
    ensures r.Ok? ==> |r.rest| < |s|
    decreases |s|, 3
  {
    match ParseEntry(s)
    case Fail => Fail
    case Ok(e, after, exact) =>
      var rest := Skip(after);
      if rest == [] then Fail
      else if rest[0] == '}' then Ok([e], rest[1..], exact)
      else if rest[0] == ',' then
        match ParseEntries(rest[1..])
        case Fail => Fail
        case Ok(es, rest', exact') => Ok([e] + es, rest', exact && exact')
      else Fail
  }

  /** What a complete text is: no JSON, JSON with a lone surrogate, or a value. */
  datatype Reading = Malformed | LoneSurrogate | ReadAs(value: Json)

  function Read(s: string): Reading {
    match ParseValue(s)
    case Fail => Malformed
    case Ok(v, rest, exact) => if Skip(rest) != [] then Malformed else if exact then ReadAs(v) else LoneSurrogate
  }

  // ----- Spellings

  /** One character of a string literal, as written. */
  datatype Escaped = Bare(c: char) | Short(letter: char) | Hex(digits: string) | Surrogates(high: string, low: string) | Lone(digits: string)

  predicate IsLetter(l: Escaped) {
    match l
    case Bare(c) => c != '\"' && c != '\\' && c as int >= 0x20
    case Short(letter) => ShortChar(letter).Some?
    case Hex(digits) => UnitChar(HexNumber(digits)).Some?
    case Surrogates(high, low) => PairChar(HexNumber(high), HexNumber(low)).Some?
    case Lone(digits) => HexNumber(digits).Some? && UnitChar(HexNumber(digits)).None?
  }

  type Letter = l: Escaped | IsLetter(l) witness Bare('a')

  /** Two lone surrogates that would be read as a pair. */
  predicate MakePair(l: Escaped, m: Escaped) {
    l.Lone? && m.Lone? && PairChar(HexNumber(l.digits), HexNumber(m.digits)).Some?
  }

  /** The body of a string literal. */
  type Letters = ls: seq<Letter> | forall i :: 0 <= i < |ls| - 1 ==> !MakePair(ls[i], ls[i + 1])

  type Gap = s: string | forall i :: 0 <= i < |s| ==> IsGap(s[i])

  function CharOf(l: Letter): char {
    match l
    case Bare(c) => c
    case Short(letter) => ShortChar(letter).value
    case Hex(digits) => UnitChar(HexNumber(digits)).value
    case Surrogates(high, low) => PairChar(HexNumber(high), HexNumber(low)).value
    case Lone(_) => REPLACEMENT
  }

  function Written(l: Letter): string {
    match l
    case Bare(c) => [c]
    case Short(letter) => ['\\', letter]
    case Hex(digits) => ['\\', 'u'] + digits
    case Surrogates(high, low) => ['\\', 'u'] + high + ['\\', 'u'] + low
    case Lone(digits) => ['\\', 'u'] + digits
  }

  /** A value as written: every gap and every character of every literal. */
  datatype Tree =
    | NullText
    | BoolText(b: bool)
    | NumText(literal: NumberText)
    | StrText(letters: Letters)
    | ArrText(gap: Gap, items: seq<Item>)
    | ObjText(gap: Gap, members: seq<Member>)

  datatype Item = Item(before: Gap, tree: Tree, after: Gap)

  datatype Member = Member(before: Gap, key: Letters, colon: Gap, item: Item)

  // Each writer takes the text that follows.

  function WriteLetters(ls: seq<Letter>, rest: string): string {
    if ls == [] then rest else Written(ls[0]) + WriteLetters(ls[1..], rest)
  }

  function WriteString(ls: seq<Letter>, rest: string): string { ['\"'] + WriteLetters(ls, ['\"'] + rest) }

  function Write(t: Tree, rest: string): string
    decreases t, 0
  {
    match t
    case NullText => "null" + rest
    case BoolText(b) => (if b then "true" else "false") + rest
    case NumText(literal) => literal + rest
    case StrText(ls) => WriteString(ls, rest)
    case ArrText(gap, items) => ['['] + if items == [] then gap + ([']'] + rest) else WriteItems(items, rest)
    case ObjText(gap, members) => ['{'] + if members == [] then gap + (['}'] + rest) else WriteMembers(members, rest)
  }

  function WriteItem(i: Item, rest: string): string
    decreases i, 1
  {
    i.before + Write(i.tree, i.after + rest)
  }

  function WriteItems(items: seq<Item>, rest: string): string
    requires items != []
    decreases items, 0
  {
    WriteItem(items[0], if |items| == 1 then [']'] + rest else [','] + WriteItems(items[1..], rest))
  }

  function WriteMember(m: Member, rest: string): string
    decreases m, 1
  {
    m.before + WriteString(m.key, m.colon + ([':'] + WriteItem(m.item, rest)))
  }

  function WriteMembers(members: seq<Member>, rest: string): string
    requires members != []
    decreases members, 0
  {
    WriteMember(members[0], if |members| == 1 then ['}'] + rest else [','] + WriteMembers(members[1..], rest))
  }

  /** The value a spelling stands for. */
  function Chars(ls: seq<Letter>): string {
    if ls == [] then [] else [CharOf(ls[0])] + Chars(ls[1..])
  }

  function ValueOf(t: Tree): Json
    decreases t, 0
  {
    match t
    case NullText => Null
    case BoolText(b) => Bool(b)
    case NumText(literal) => Num(literal)
    case StrText(ls) => Str(Chars(ls))
    case ArrText(_, items) => Arr(Items(items))
    case ObjText(_, members) => Obj(Entries(members))
  }

  function Items(items: seq<Item>): seq<Json>
    decreases items, 0
  {
    if items == [] then [] else [ValueOf(items[0].tree)] + Items(items[1..])
  }

  function Entries(members: seq<Member>): seq<Pair<Json>>
    decreases members, 0
  {
    if members == [] then []
    else [Pair(Chars(members[0].key), ValueOf(members[0].item.tree))] + Entries(members[1..])
  }

  /** No string of the spelling holds a lone surrogate. */
  predicate ExactLetters(ls: seq<Letter>) {
    ls == [] || (!ls[0].Lone? && ExactLetters(ls[1..]))
  }

  predicate Exact(t: Tree)
    decreases t, 0
  {
    match t
    case StrText(ls) => ExactLetters(ls)
    case ArrText(_, items) => ExactItems(items)
    case ObjText(_, members) => ExactMembers(members)
    case _ => true
  }

  predicate ExactItems(items: seq<Item>)
    decreases items, 0
  {
    items == [] || (Exact(items[0].tree) && ExactItems(items[1..]))
  }

  predicate ExactMembers(members: seq<Member>)
    decreases members, 0
  {
    members == [] || (ExactLetters(members[0].key) && Exact(members[0].item.tree) && ExactMembers(members[1..]))
  }

  // ----- Every spelling is read

  lemma {:induction false} SkipGaps(gap: Gap, rest: string)
    ensures Skip(gap + rest) == Skip(rest)
  {
    if gap == [] {
      assert gap + rest == rest;
    } else {
      assert (gap + rest)[1..] == gap[1..] + rest;
      SkipGaps(gap[1..], rest);
    }
  }

  lemma ReadHex(digits: string, rest: string)
    requires IsLetter(Hex(digits))
    ensures ParseChar(Written(Hex(digits)) + rest) == Ok(CharOf(Hex(digits)), rest, true)
  {
    var s := Written(Hex(digits)) + rest;
    assert s[2..] == digits + rest && s[6..] == rest;
    assert First(s[2..], 4) == digits;
  }

  lemma ReadSurrogates(high: string, low: string, rest: string)
    requires IsLetter(Surrogates(high, low))
    ensures ParseChar(Written(Surrogates(high, low)) + rest) == Ok(CharOf(Surrogates(high, low)), rest, true)
  {
    var s := Written(Surrogates(high, low)) + rest;
    var t := ['\\', 'u'] + low + rest;
    assert s[2..] == high + t && s[6..] == t && s[12..] == rest;
    assert First(s[2..], 4) == high;
    assert t[2..6] == low && LowHalf(HexNumber(high), t) == PairChar(HexNumber(high), HexNumber(low));
  }

  lemma ReadLone(digits: string, rest: string)
    requires IsLetter(Lone(digits)) && LowHalf(HexNumber(digits), rest) == None
    ensures ParseChar(Written(Lone(digits)) + rest) == Ok(REPLACEMENT, rest, false)
  {
    var s := Written(Lone(digits)) + rest;
    assert s[2..] == digits + rest && s[6..] == rest;
    assert First(s[2..], 4) == digits;
  }

  lemma LowHalfOf(high: Option<nat>, digits: string, more: string)
    requires |digits| == 4
    ensures LowHalf(high, ['\\', 'u'] + digits + more) == PairChar(high, HexNumber(digits))
  {
    assert (['\\', 'u'] + digits + more)[2..6] == digits;
  }

  /** A low surrogate is neither a character of its own nor the first half of a pair. */
  lemma NotLow(high: Option<nat>, unit: Option<nat>, low: Option<nat>)
    ensures UnitChar(unit).Some? || PairChar(unit, low).Some? ==> PairChar(high, unit) == None
  {}

  lemma NoLowLetter(high: Option<nat>, m: Letter, more: string)
    requires m.Lone? ==> PairChar(high, HexNumber(m.digits)) == None
    ensures LowHalf(high, Written(m) + more) == None
  {
    match m
    case Bare(c) => assert (Written(m) + more)[0] == c;
    case Short(letter) => assert (Written(m) + more)[1] == letter;
    case Hex(digits) =>
      LowHalfOf(high, digits, more);
      NotLow(high, HexNumber(digits), None);
    case Surrogates(first, second) =>
      var a, b := ['\\', 'u'] + first, ['\\', 'u'] + second;
      ConcatAssoc(a, ['\\', 'u'], second);
      ConcatAssoc(a, b, more);
      LowHalfOf(high, first, b + more);
      NotLow(high, HexNumber(first), HexNumber(second));
    case Lone(digits) => LowHalfOf(high, digits, more);
  }

  /** What follows a lone surrogate does not complete it. */
  lemma NoLowHalf(l: Letter, ls: Letters, rest: string)
    requires l.Lone? && (ls != [] ==> !MakePair(l, ls[0]))
    ensures LowHalf(HexNumber(l.digits), WriteLetters(ls, ['\"'] + rest)) == None
  {
    if ls != [] { NoLowLetter(HexNumber(l.digits), ls[0], WriteLetters(ls[1..], ['\"'] + rest)); }
  }

  lemma ReadLetter(l: Letter, ls: Letters, rest: string)
    requires ls != [] ==> !MakePair(l, ls[0])
    ensures var t := WriteLetters(ls, ['\"'] + rest);
            ParseChar(Written(l) + t) == Ok(CharOf(l), t, !l.Lone?) && (Written(l) + t)[0] != '\"'
  {
    var t := WriteLetters(ls, ['\"'] + rest);
    match l
    case Bare(c) => assert ([c] + t)[1..] == t;
    case Short(letter) => assert (['\\', letter] + t)[2..] == t;
    case Hex(digits) => ReadHex(digits, t);
    case Surrogates(high, low) => ReadSurrogates(high, low, t);
    case Lone(digits) =>
      NoLowHalf(l, ls, rest);
      ReadLone(digits, t);
  }

  lemma {:induction false} ReadBody(ls: Letters, rest: string)
    ensures ParseBody(WriteLetters(ls, ['\"'] + rest)) == Ok(Chars(ls), rest, ExactLetters(ls))
  {
    if ls == [] {
      assert (['\"'] + rest)[1..] == rest;
    } else {
      var tail: Letters := TailLetters(ls);
      ReadBody(tail, rest);
      ReadLetter(ls[0], tail, rest);
    }
  }

  lemma TailLetters(ls: Letters) returns (tail: Letters)
    requires ls != []
    ensures tail == ls[1..] && (tail != [] ==> !MakePair(ls[0], tail[0]))
  {
    var t := ls[1..];
    forall i | 0 <= i < |t| - 1 ensures !MakePair(t[i], t[i + 1]) { assert !MakePair(ls[i + 1], ls[i + 1 + 1]); }
    if t != [] { assert !MakePair(ls[0], ls[0 + 1]); }
    tail := t;
  }

  lemma ReadString(ls: Letters, rest: string)
    ensures ParseString(WriteString(ls, rest)) == Ok(Chars(ls), rest, ExactLetters(ls))
  {
    ReadBody(ls, rest);
    assert WriteString(ls, rest)[1..] == WriteLetters(ls, ['\"'] + rest);
  }

  lemma ScalarNumber(s: string)
    requires s != [] && (s[0] == '-' || IsDigit(s[0]))
    ensures ParseScalar(s) == ParseNumber(s)
  {}

  lemma ScalarHere(s: string)
    requires s != [] && s[0] != '[' && s[0] != '{'
    ensures ParseHere(s) == ParseScalar(s)
  {}

  lemma ReadNumber(literal: NumberText, rest: string)
    requires Delimited(rest)
    ensures ParseHere(literal + rest) == Ok(Num(literal), rest, true)
  {
    LiteralScanned(literal, rest);
    LiteralStart(literal);
    ScalarNumber(literal + rest);
    ScalarHere(literal + rest);
    assert Literal(literal + rest) == literal;
  }

  lemma ReadWord(t: Tree, rest: string)
    requires t.NullText? || t.BoolText?
    ensures ParseHere(Write(t, rest)) == Ok(ValueOf(t), rest, true)
  {}

  /** A written value starts with neither white space nor a closing or separating character. */
  lemma TreeStart(t: Tree, rest: string)
    ensures var s := Write(t, rest); s != [] && !IsGap(s[0]) && s[0] !in "],}:"
  {
    if t.NumText? { LiteralStart(t.literal); }
  }

  lemma ReadStr(ls: Letters, rest: string)
    ensures ParseHere(Write(StrText(ls), rest)) == Ok(Str(Chars(ls)), rest, ExactLetters(ls))
  {
    ReadString(ls, rest);
    StringHere(WriteString(ls, rest), Chars(ls), rest, ExactLetters(ls));
  }

  lemma StringHere(s: string, t: string, rest: string, exact: bool)
    requires ParseString(s) == Ok(t, rest, exact)
    ensures ParseHere(s) == Ok(Str(t), rest, exact)
  {}

  /** A spelling, whatever follows it, is read as its meaning. */
  lemma {:induction false} ReadTree(t: Tree, rest: string)
    requires Delimited(rest)
    ensures ParseHere(Write(t, rest)) == Ok(ValueOf(t), rest, Exact(t))
    decreases t, 0
  {
    match t
    case NumText(literal) => ReadNumber(literal, rest);
    case StrText(ls) => ReadStr(ls, rest);
    case ArrText(gap, items) => ReadArray(gap, items, rest);
    case ObjText(gap, members) => ReadObject(gap, members, rest);
    case NullText => ReadWord(t, rest);
    case BoolText(_) => ReadWord(t, rest);
  }

  lemma {:induction false} ReadArray(gap: Gap, items: seq<Item>, rest: string)
    ensures ParseHere(Write(ArrText(gap, items), rest)) == Ok(Arr(Items(items)), rest, ExactItems(items))
    decreases items, 1
  {
    var s := Write(ArrText(gap, items), rest);
    if items == [] {
      assert s[1..] == gap + ([']'] + rest);
      SkipGaps(gap, [']'] + rest);
      assert ([']'] + rest)[1..] == rest;
    } else {
      assert s[1..] == WriteItems(items, rest);
      ReadItems(items, rest);
      ItemStart(items[0], if |items| == 1 then [']'] + rest else [','] + WriteItems(items[1..], rest));
    }
  }

  lemma ItemStart(i: Item, rest: string)
    ensures var s := Skip(WriteItem(i, rest)); s == Write(i.tree, i.after + rest) && s != [] && s[0] != ']'
  {
    SkipGaps(i.before, Write(i.tree, i.after + rest));
    TreeStart(i.tree, i.after + rest);
  }

  lemma {:induction false} ReadItem(i: Item, rest: string)
    requires rest != [] && rest[0] in ",]}"
    ensures ParseValue(WriteItem(i, rest)) == Ok(ValueOf(i.tree), i.after + rest, Exact(i.tree))
    ensures Skip(i.after + rest) == rest
    decreases i, 1
  {
    SkipGaps(i.after, rest);
    ItemStart(i, rest);
    assert Delimited(i.after + rest);
    ReadTree(i.tree, i.after + rest);
  }

  lemma {:induction false} ReadItems(items: seq<Item>, rest: string)
    requires items != []
    ensures ParseItems(WriteItems(items, rest)) == Ok(Items(items), rest, ExactItems(items))
    decreases items, 0
  {
    var tail := if |items| == 1 then [']'] + rest else [','] + WriteItems(items[1..], rest);
    ReadItem(items[0], tail);
    if |items| == 1 {
      assert tail[1..] == rest && items[1..] == [] && Items(items) == [ValueOf(items[0].tree)];
    } else {
      assert tail[1..] == WriteItems(items[1..], rest);
      ReadItems(items[1..], rest);
    }
  }

  lemma {:induction false} ReadObject(gap: Gap, members: seq<Member>, rest: string)
    ensures ParseHere(Write(ObjText(gap, members), rest)) == Ok(Obj(Entries(members)), rest, ExactMembers(members))
    decreases members, 1
  {
    var s := Write(ObjText(gap, members), rest);
    if members == [] {
      assert s[1..] == gap + (['}'] + rest);
      SkipGaps(gap, ['}'] + rest);
      assert (['}'] + rest)[1..] == rest;
    } else {
      assert s[1..] == WriteMembers(members, rest);
      ReadMembers(members, rest);
      MemberStart(members[0], if |members| == 1 then ['}'] + rest else [','] + WriteMembers(members[1..], rest));
    }
  }

  lemma MemberStart(m: Member, rest: string)
    ensures var s := Skip(WriteMember(m, rest));
            s == WriteString(m.key, m.colon + ([':'] + WriteItem(m.item, rest))) && s[0] == '\"'
  {
    SkipGaps(m.before, WriteString(m.key, m.colon + ([':'] + WriteItem(m.item, rest))));
  }

  lemma {:induction false} ReadMember(m: Member, rest: string)
    requires rest != [] && rest[0] in ",}"
    ensures ParseEntry(WriteMember(m, rest)) ==
            Ok(Pair(Chars(m.key), ValueOf(m.item.tree)), m.item.after + rest, ExactLetters(m.key) && Exact(m.item.tree))
    ensures Skip(m.item.after + rest) == rest
    decreases m, 1
  {
    var tail := [':'] + WriteItem(m.item, rest);
    MemberStart(m, rest);
    ReadString(m.key, m.colon + tail);
    SkipGaps(m.colon, tail);
    assert tail[1..] == WriteItem(m.item, rest);
    ReadItem(m.item, rest);
  }

  lemma {:induction false} ReadMembers(members: seq<Member>, rest: string)
    requires members != []
    ensures ParseEntries(WriteMembers(members, rest)) == Ok(Entries(members), rest, ExactMembers(members))
    decreases members, 0
  {
    var tail := if |members| == 1 then ['}'] + rest else [','] + WriteMembers(members[1..], rest);
    ReadMember(members[0], tail);
    if |members| == 1 {
      assert tail[1..] == rest && members[1..] == [];
      assert Entries(members) == [Pair(Chars(members[0].key), ValueOf(members[0].item.tree))];
    } else {
      assert tail[1..] == WriteMembers(members[1..], rest);
      ReadMembers(members[1..], rest);
    }
  }

  /** The text of a spelling, with white space around it. */
  function Spell(i: Item): string { WriteItem(i, []) }

  lemma SpellingIsRead(i: Item)
    ensures Read(Spell(i)) == if Exact(i.tree) then ReadAs(ValueOf(i.tree)) else LoneSurrogate
  {
    assert i.after + [] == i.after;
    ItemStart(i, []);
    assert Delimited(i.after);
    ReadTree(i.tree, i.after);
    SkipGaps(i.after, []);
  }

  // ----- Nothing else is read

  lemma {:induction false} SkippedGap(s: string) returns (gap: Gap)
    ensures s == gap + Skip(s)
  {
    gap := "";
    if s != [] && IsGap(s[0]) {
      var rest := SkippedGap(s[1..]);
      gap := [s[0]] + rest;
      assert s == [s[0]] + s[1..];
    }
  }

  lemma LetterRead(s: string) returns (l: Letter)
    requires ParseChar(s).Ok?
    ensures s == Written(l) + ParseChar(s).rest && CharOf(l) == ParseChar(s).value && l.Lone? == !ParseChar(s).exact
    ensures l.Lone? ==> LowHalf(HexNumber(l.digits), ParseChar(s).rest) == None
  {
    if s[0] != '\\' {
      l := Bare(s[0]);
    } else if s[1] != 'u' {
      l := Short(s[1]);
    } else {
      l := HexRead(s);
    }
  }

  lemma HexRead(s: string) returns (l: Letter)
    requires |s| >= 2 && s[0] == '\\' && s[1] == 'u' && ParseHex(s).Ok?
    ensures s == Written(l) + ParseHex(s).rest && CharOf(l) == ParseHex(s).value && l.Lone? == !ParseHex(s).exact
    ensures l.Lone? ==> LowHalf(HexNumber(l.digits), ParseHex(s).rest) == None
  {
    var digits := First(s[2..], 4);
    assert |digits| == 4 && digits == s[2..6];
    assert s == ['\\', 'u'] + digits + s[6..];
    if UnitChar(HexNumber(digits)).Some? {
      l := Hex(digits);
    } else if LowHalf(HexNumber(digits), s[6..]).Some? {
      var low := s[6..][2..6];
      l := Surrogates(digits, low);
      assert s[6..] == ['\\', 'u'] + low + s[12..];
    } else {
      l := Lone(digits);
    }
  }

  lemma PairCompletes(l: Letter, ls: Letters, rest: string)
    requires ls != [] && MakePair(l, ls[0])
    ensures LowHalf(HexNumber(l.digits), WriteLetters(ls, rest)).Some?
  {
    LowHalfOf(HexNumber(l.digits), ls[0].digits, WriteLetters(ls[1..], rest));
  }

  /** A letter before a body: it makes no pair with the first one. */
  lemma ConsLetter(l: Letter, ls: Letters, rest: string) returns (r: Letters)
    requires l.Lone? ==> LowHalf(HexNumber(l.digits), WriteLetters(ls, rest)) == None
    ensures r == [l] + ls
  {
    var t := [l] + ls;
    if ls != [] && MakePair(l, ls[0]) { PairCompletes(l, ls, rest); }
    forall i | 0 <= i < |t| - 1 ensures !MakePair(t[i], t[i + 1]) {
      if i > 0 { assert !MakePair(ls[i - 1], ls[i - 1 + 1]); }
    }
    r := t;
  }

  lemma {:induction false} BodyRead(s: string) returns (ls: Letters)
    requires ParseBody(s).Ok?
    ensures s == WriteLetters(ls, ['\"'] + ParseBody(s).rest)
    ensures Chars(ls) == ParseBody(s).value && ExactLetters(ls) == ParseBody(s).exact
    decreases |s|
  {
    if s != [] && s[0] == '\"' {
      ls := [];
      assert s == ['\"'] + s[1..];
    } else {
      var l := LetterRead(s);
      var more := BodyRead(ParseChar(s).rest);
      ls := ConsLetter(l, more, ['\"'] + ParseBody(s).rest);
      assert ls[1..] == more;
    }
  }

  lemma StringRead(s: string) returns (ls: Letters)
    requires ParseString(s).Ok?
    ensures s == WriteString(ls, ParseString(s).rest)
    ensures Chars(ls) == ParseString(s).value && ExactLetters(ls) == ParseString(s).exact
  {
    ls := BodyRead(s[1..]);
    assert s == ['\"'] + s[1..];
  }

  lemma NumberTextRead(s: string) returns (t: Tree)
    requires ParseNumber(s).Ok?
    ensures s == Write(t, ParseNumber(s).rest) && ValueOf(t) == ParseNumber(s).value && Exact(t) && ParseNumber(s).exact
  {
    t := NumText(Literal(s));
  }

  lemma ScalarRead(s: string) returns (t: Tree)
    requires ParseScalar(s).Ok?
    ensures s == Write(t, ParseScalar(s).rest) && ValueOf(t) == ParseScalar(s).value && Exact(t) == ParseScalar(s).exact
  {
    match s[0]
    case 'n' => t := NullText;
    case 't' => t := BoolText(true);
    case 'f' => t := BoolText(false);
    case '\"' =>
      var ls := StringRead(s);
      t := StrText(ls);
    case _ => t := NumberTextRead(s);
  }

  lemma {:induction false} TreeRead(s: string) returns (t: Tree)
    requires ParseHere(s).Ok?
    ensures s == Write(t, ParseHere(s).rest) && ValueOf(t) == ParseHere(s).value && Exact(t) == ParseHere(s).exact
    decreases |s|, 0
  {
    if s != [] && s[0] == '[' {
      t := ArrayRead(s[1..]);
      assert s == ['['] + s[1..];
    } else if s != [] && s[0] == '{' {
      t := ObjectRead(s[1..]);
      assert s == ['{'] + s[1..];
    } else {
      t := ScalarRead(s);
    }
  }

  lemma {:induction false} ArrayRead(s: string) returns (t: Tree)
    requires ParseArray(s).Ok?
    ensures ['['] + s == Write(t, ParseArray(s).rest) && ValueOf(t) == ParseArray(s).value && Exact(t) == ParseArray(s).exact
    decreases |s|, 3
  {
    var u := Skip(s);
    if u != [] && u[0] == ']' {
      var gap := SkippedGap(s);
      assert s == gap + ([']'] + u[1..]);
      t := ArrText(gap, []);
      EmptyArray(gap, u[1..]);
    } else {
      var items := ItemsRead(s);
      t := ArrText("", items);
      FullArray(items, ParseItems(s).rest);
    }
  }

  lemma EmptyArray(gap: Gap, rest: string)
    ensures Write(ArrText(gap, []), rest) == ['['] + (gap + ([']'] + rest)) 
    ensures ValueOf(ArrText(gap, [])) == Arr([]) && Exact(ArrText(gap, []))
  {}

  lemma FullArray(items: seq<Item>, rest: string)
    requires items != []
    ensures Write(ArrText("", items), rest) == ['['] + WriteItems(items, rest) 
    ensures ValueOf(ArrText("", items)) == Arr(Items(items)) && Exact(ArrText("", items)) == ExactItems(items)
  {}

  lemma {:induction false} ObjectRead(s: string) returns (t: Tree)
    requires ParseObject(s).Ok?
    ensures ['{'] + s == Write(t, ParseObject(s).rest) && ValueOf(t) == ParseObject(s).value && Exact(t) == ParseObject(s).exact
    decreases |s|, 4
  {
    var u := Skip(s);
    if u != [] && u[0] == '}' {
      var gap := SkippedGap(s);
      assert s == gap + (['}'] + u[1..]);
      t := ObjText(gap, []);
      EmptyObject(gap, u[1..]);
    } else {
      var members := MembersRead(s);
      t := ObjText("", members);
      FullObject(members, ParseEntries(s).rest);
    }
  }

  lemma EmptyObject(gap: Gap, rest: string)
    ensures Write(ObjText(gap, []), rest) == ['{'] + (gap + (['}'] + rest)) 
    ensures ValueOf(ObjText(gap, [])) == Obj([]) && Exact(ObjText(gap, []))
  {}

  lemma FullObject(members: seq<Member>, rest: string)
    requires members != []
    ensures Write(ObjText("", members), rest) == ['{'] + WriteMembers(members, rest)
    ensures ValueOf(ObjText("", members)) == Obj(Entries(members)) && Exact(ObjText("", members)) == ExactMembers(members)
  {}

  /** A value with the white space around it. */
  lemma {:induction false} ItemRead(s: string) returns (i: Item)
    requires ParseValue(s).Ok?
    ensures s == WriteItem(i, Skip(ParseValue(s).rest))
    ensures ValueOf(i.tree) == ParseValue(s).value && Exact(i.tree) == ParseValue(s).exact
    decreases |s|, 1
  {
    var before := SkippedGap(s);
    var t := TreeRead(Skip(s));
    var after := SkippedGap(ParseValue(s).rest);
    i := Item(before, t, after);
  }

  lemma {:induction false} ItemsRead(s: string) returns (items: seq<Item>)
    requires ParseItems(s).Ok?
    ensures items != [] && s == WriteItems(items, ParseItems(s).rest)
    ensures Items(items) == ParseItems(s).value && ExactItems(items) == ParseItems(s).exact
    decreases |s|, 2
  {
    var i := ItemRead(s);
    var rest := Skip(ParseValue(s).rest);
    assert rest == [rest[0]] + rest[1..];
    if rest[0] == ']' {
      items := [i];
      assert items[1..] == [] && Items(items) == [ValueOf(i.tree)];
    } else {
      var more := ItemsRead(rest[1..]);
      items := [i] + more;
      assert items[1..] == more;
    }
  }

  lemma {:induction false} ColonRead(s: string) returns (colon: Gap, i: Item)
    requires ParseColon(s).Ok?
    ensures s == colon + ([':'] + WriteItem(i, Skip(ParseColon(s).rest))) 
    ensures ValueOf(i.tree) == ParseColon(s).value && Exact(i.tree) == ParseColon(s).exact
    decreases |s|, 2
  {
    ColonParts(s);
    colon := SkippedGap(s);
    i := ItemRead(Skip(s)[1..]);
  }

  lemma ColonParts(s: string)
    requires ParseColon(s).Ok?
    ensures Skip(s) != [] && Skip(s) == [':'] + Skip(s)[1..] && ParseColon(s) == ParseValue(Skip(s)[1..])
  {}

  lemma {:induction false} MemberRead(s: string) returns (m: Member)
    requires ParseEntry(s).Ok?
    ensures s == WriteMember(m, Skip(ParseEntry(s).rest))
    ensures Pair(Chars(m.key), ValueOf(m.item.tree)) == ParseEntry(s).value
    ensures (ExactLetters(m.key) && Exact(m.item.tree)) == ParseEntry(s).exact
    decreases |s|, 2
  {
    var before := SkippedGap(s);
    var key := StringRead(Skip(s));
    var rest := ParseString(Skip(s)).rest;
    var colon, i := ColonRead(rest);
    m := Member(before, key, colon, i);
  }

  lemma {:induction false} MembersRead(s: string) returns (members: seq<Member>)
    requires ParseEntries(s).Ok?
    ensures members != [] && s == WriteMembers(members, ParseEntries(s).rest)
    ensures Entries(members) == ParseEntries(s).value && ExactMembers(members) == ParseEntries(s).exact
    decreases |s|, 3
  {
    var m := MemberRead(s);
    var rest := Skip(ParseEntry(s).rest);
    assert rest == [rest[0]] + rest[1..];
    if rest[0] == '}' {
      members := [m];
      assert members[1..] == [] && Entries(members) == [ParseEntry(s).value];
    } else {
      var more := MembersRead(rest[1..]);
      members := [m] + more;
      assert members[1..] == more;
    }
  }

  /** The texts that are read are exactly the spellings; those with a lone surrogate are set apart. */
  lemma ReadIff(s: string, v: Json)
    ensures Read(s) == ReadAs(v) <==> exists i :: Spell(i) == s && Exact(i.tree) && ValueOf(i.tree) == v
    ensures Read(s) == LoneSurrogate <==> exists i :: Spell(i) == s && !Exact(i.tree)
    ensures Read(s) == Malformed <==> forall i :: Spell(i) != s
  {
    if Read(s) != Malformed {
      var i := ItemRead(s);
      assert Spell(i) == s;
      SpellingIsRead(i);
    }
    forall i | Spell(i) == s ensures Read(s) == if Exact(i.tree) then ReadAs(ValueOf(i.tree)) else LoneSurrogate { SpellingIsRead(i); }
  }

  // ----- The printer writes one spelling of each value

  function PlainLetter(y: Style, c: char): (l: Letter)
    ensures CharOf(l) == c && Written(l) == EscapeChar(y, c) && !l.Lone?
  {
    var t := EscapeChar(y, c);
    if |t| == 1 then Bare(c)
    else if |t| == 2 then Short(t[1])
    else
      PlainHex(y, c);
      Hex(t[2..])
  }

  lemma PlainHex(y: Style, c: char)
    requires |EscapeChar(y, c)| == 6
    ensures var t := EscapeChar(y, c);
            UnitChar(HexNumber(t[2..])) == Some(c) && ['\\', 'u'] + t[2..] == t
  {
    SixIsUnicode(y, c);
    HexRoundTrip(c);
    UnitOf(c);
  }

  lemma SixIsUnicode(y: Style, c: char)
    requires |EscapeChar(y, c)| == 6
    ensures c as int < 0x10000 && EscapeChar(y, c) == UnicodeEscape(c)
  {}

  lemma UnitOf(c: char)
    requires c as int < 0x10000
    ensures UnitChar(Some(c as int)) == Some(c)
  {}

  function PlainLetters(y: Style, s: string): (ls: Letters)
    ensures |ls| == |s| && forall i :: 0 <= i < |s| ==> ls[i] == PlainLetter(y, s[i])
  {
    if s == [] then [] else [PlainLetter(y, s[0])] + PlainLetters(y, s[1..])
  }

  function PlainItem(y: Style, v: Json): Item
    decreases v, 2
  {
    Item("", Plain(y, v), "")
  }

  function Plain(y: Style, v: Json): Tree
    decreases v, 1
  {
    match v
    case Null => NullText
    case Bool(b) => BoolText(b)
    case Num(literal) => NumText(literal)
    case Str(s) => StrText(PlainLetters(y, s))
    case Arr(items) => ArrText("", PlainItems(y, items))
    case Obj(entries) => ObjText("", PlainMembers(y, entries))
  }

  function PlainItems(y: Style, items: seq<Json>): (r: seq<Item>)
    ensures |r| == |items|
    decreases items, 0
  {
    if items == [] then [] else [PlainItem(y, items[0])] + PlainItems(y, items[1..])
  }

  function PlainMember(y: Style, e: Pair<Json>): Member
    decreases e, 3
  {
    Member("", PlainLetters(y, e.key), "", PlainItem(y, e.value))
  }

  function PlainMembers(y: Style, entries: seq<Pair<Json>>): (r: seq<Member>)
    ensures |r| == |entries|
    decreases entries, 0
  {
    if entries == [] then [] else [PlainMember(y, entries[0])] + PlainMembers(y, entries[1..])
  }

  lemma HexDigitValue(d: nat)
    requires d < 16
    ensures HexValue(HexDigit(d)) == Some(d)
  {}

  lemma HexPlaces(n: nat)
    requires n < 0x10000
    ensures n / 16 / 16 / 16 < 16
    ensures n == 4096 * (n / 16 / 16 / 16) + 256 * (n / 16 / 16 % 16) + 16 * (n / 16 % 16) + n % 16
  {}

  lemma HexNumberOf(a: nat, b: nat, c: nat, d: nat)
    requires a < 16 && b < 16 && c < 16 && d < 16
    ensures HexNumber([HexDigit(a), HexDigit(b), HexDigit(c), HexDigit(d)]) == Some(4096 * a + 256 * b + 16 * c + d)
  {
    HexDigitValue(a);
    HexDigitValue(b);
    HexDigitValue(c);
    HexDigitValue(d);
  }

  lemma HexRoundTrip(c: char)
    requires c as int < 0x10000
    ensures HexNumber(UnicodeEscape(c)[2..]) == Some(c as int) && ['\\', 'u'] + UnicodeEscape(c)[2..] == UnicodeEscape(c)
  {
    var n := c as int;
    HexPlaces(n);
    HexNumberOf(n / 16 / 16 / 16, n / 16 / 16 % 16, n / 16 % 16, n % 16);
    assert UnicodeEscape(c)[2..] == [HexDigit(n / 16 / 16 / 16), HexDigit(n / 16 / 16 % 16), HexDigit(n / 16 % 16), HexDigit(n % 16)];
  }

  lemma {:induction false} PlainLettersAre(y: Style, s: string, rest: string)
    ensures Chars(PlainLetters(y, s)) == s && ExactLetters(PlainLetters(y, s))
    ensures WriteLetters(PlainLetters(y, s), rest) == Escape(y, s) + rest
  {
    if s == [] {
      assert Escape(y, s) + rest == rest;
    } else {
      PlainLettersAre(y, s[1..], rest);
      ConcatAssoc(EscapeChar(y, s[0]), Escape(y, s[1..]), rest);
      assert s == [s[0]] + s[1..];
    }
  }

  lemma PlainString(y: Style, s: string, rest: string)
    ensures Chars(PlainLetters(y, s)) == s && ExactLetters(PlainLetters(y, s))
    ensures WriteString(PlainLetters(y, s), rest) == Quote(y, s) + rest
  {
    PlainLettersAre(y, s, ['\"'] + rest);
    ConcatFour(['\"'], Escape(y, s), ['\"'], rest);
  }

  lemma {:induction false} PlainIs(y: Style, v: Json, rest: string)
    ensures ValueOf(Plain(y, v)) == v && Exact(Plain(y, v))
    ensures Write(Plain(y, v), rest) == Print(y, v) + rest
    decreases v, 1
  {
    match v
    case Str(s) => PlainString(y, s, rest);
    case Arr(items) => PlainArray(y, items, rest);
    case Obj(entries) => PlainObject(y, entries, rest);
    case _ =>
  }

  lemma {:induction false} PlainArray(y: Style, items: seq<Json>, rest: string)
    ensures ValueOf(Plain(y, Arr(items))) == Arr(items) && Exact(Plain(y, Arr(items)))
    ensures Write(Plain(y, Arr(items)), rest) == Print(y, Arr(items)) + rest
    decreases items, 1
  {
    if items != [] { PlainItemsAre(y, items, rest); }
    ConcatFour(['['], PrintItems(y, items), [']'], rest);
  }

  lemma {:induction false} PlainItemIs(y: Style, v: Json, rest: string)
    ensures ValueOf(PlainItem(y, v).tree) == v && Exact(PlainItem(y, v).tree)
    ensures WriteItem(PlainItem(y, v), rest) == Print(y, v) + rest
    decreases v, 2
  {
    PlainIs(y, v, rest);
    assert "" + rest == rest && "" + Write(Plain(y, v), rest) == Write(Plain(y, v), rest);
  }

  lemma {:induction false} PlainItemsAre(y: Style, items: seq<Json>, rest: string)
    requires items != []
    ensures Items(PlainItems(y, items)) == items && ExactItems(PlainItems(y, items))
    ensures WriteItems(PlainItems(y, items), rest) == PrintItems(y, items) + ([']'] + rest)
    decreases items, 0
  {
    var r := PlainItems(y, items);
    assert r[1..] == PlainItems(y, items[1..]);
    if |items| == 1 {
      PlainItemIs(y, items[0], [']'] + rest);
      assert Items(r[1..]) == [] && items == [items[0]];
    } else {
      PlainItemsAre(y, items[1..], rest);
      PlainItemIs(y, items[0], [','] + WriteItems(r[1..], rest));
      ConcatFour(Print(y, items[0]), [','], PrintItems(y, items[1..]), [']'] + rest);
      assert items == [items[0]] + items[1..];
    }
  }

  lemma {:induction false} PlainObject(y: Style, entries: seq<Pair<Json>>, rest: string)
    ensures ValueOf(Plain(y, Obj(entries))) == Obj(entries) && Exact(Plain(y, Obj(entries)))
    ensures Write(Plain(y, Obj(entries)), rest) == Print(y, Obj(entries)) + rest
    decreases entries, 1
  {
    if entries != [] { PlainMembersAre(y, entries, rest); }
    ConcatFour(['{'], PrintEntries(y, entries), ['}'], rest);
  }

  lemma {:induction false} PlainMemberIs(y: Style, e: Pair<Json>, rest: string)
    ensures var m := PlainMember(y, e);
            Chars(m.key) == e.key && ValueOf(m.item.tree) == e.value && ExactLetters(m.key) && Exact(m.item.tree)
    ensures WriteMember(PlainMember(y, e), rest) == PrintEntry(y, e) + rest
    decreases e, 3
  {
    var tail := [':'] + (Print(y, e.value) + rest);
    PlainItemIs(y, e.value, rest);
    PlainString(y, e.key, tail);
    assert "" + tail == tail && "" + (Quote(y, e.key) + tail) == Quote(y, e.key) + tail;
    ConcatFour(Quote(y, e.key), [':'], Print(y, e.value), rest);
  }

  lemma {:induction false} PlainMembersAre(y: Style, entries: seq<Pair<Json>>, rest: string)
    requires entries != []
    ensures Entries(PlainMembers(y, entries)) == entries && ExactMembers(PlainMembers(y, entries))
    ensures WriteMembers(PlainMembers(y, entries), rest) == PrintEntries(y, entries) + (['}'] + rest)
    decreases entries, 0
  {
    var r := PlainMembers(y, entries);
    assert r[1..] == PlainMembers(y, entries[1..]);
    if |entries| == 1 {
      PlainMemberIs(y, entries[0], ['}'] + rest);
      assert Entries(r[1..]) == [] && entries == [entries[0]];
    } else {
      PlainMembersAre(y, entries[1..], rest);
      PlainMemberIs(y, entries[0], [','] + WriteMembers(r[1..], rest));
      ConcatFour(PrintEntry(y, entries[0]), [','], PrintEntries(y, entries[1..]), ['}'] + rest);
      assert entries == [entries[0]] + entries[1..];
    }
  }

  /** Parsing undoes printing, in either style, whatever follows. */
  lemma ParseUndoesPrint(y: Style, v: Json, rest: string)
    requires Delimited(rest)
    ensures ParseValue(Print(y, v) + rest) == Ok(v, rest, true)
  {
    PlainIs(y, v, rest);
    TreeStart(Plain(y, v), rest);
    ReadTree(Plain(y, v), rest);
  }

  lemma RoundTrip(y: Style, v: Json)
    ensures Read(Print(y, v)) == ReadAs(v)
  {
    ParseUndoesPrint(y, v, []);
    assert Print(y, v) + [] == Print(y, v);
  }

  /** Unique readability: one text, one value. */
  lemma PrintInjective(y: Style, v: Json, w: Json)
    requires Print(y, v) == Print(y, w)
    ensures v == w
  {
    RoundTrip(y, v);
    RoundTrip(y, w);
  }
}
