/**
  Canonical JSON, twice: `canonicalJson` of packages/protocol/src/canonical.ts and `canonical_value` of
  prover/policy-core/src/policy_id.rs, and what their texts parse back to.
*/
module Canonical {
  import opened Encoding
  import opened Json
  import opened Sequences
  import opened Texts
  import opened Wrappers

  // ------------------------------------------------------------ printing a document

  function HexDigit(n: nat): char
    requires n < 16
  {
    if n < 10 then ('0' as nat + n) as char else ('a' as nat + n - 10) as char
  }

  /** `{w:08x}` and `{w:04x}`, for any width. */
  function RenderHex(w: nat, width: nat): (s: string)
    ensures |s| == width
  {
    if width == 0 then "" else RenderHex(w / 16, width - 1) + [HexDigit(w % 16)]
  }

  /** The letter of a character that has a two-character escape. */
  function ShortEscape(c: char): Option<char> {
    match c
    case '"' => Some('"')
    case '\\' => Some('\\')
    case '\U{0008}' => Some('b')
    case '\U{000C}' => Some('f')
    case '\n' => Some('n')
    case '\r' => Some('r')
    case '\t' => Some('t')
    case _ => None
  }

  /** One character as `JSON.stringify` and serde_json write it. */
  function EscapeChar(c: char): string {
    match ShortEscape(c)
    case Some(letter) => ['\\', letter]
    case None => if c < ' ' then UnicodeEscape(c as nat) else [c]
  }

  /** Lowercase, as in both languages. */
  function UnicodeEscape(n: nat): string {
    "\\u" + RenderHex(n, 4)
  }

  /** `JSON.stringify` writes lone surrogates as escapes; serde_json is never given any. */
  function Escape(u: Unit): string {
    match u
    case Scalar(c) => EscapeChar(c)
    case Lone(n) => UnicodeEscape(n)
  }

  function EscapeAll(units: seq<Unit>): string {
    if units == [] then "" else Escape(units[0]) + EscapeAll(units[1..])
  }

  function EscapePlain(s: string): string {
    if s == "" then "" else EscapeChar(s[0]) + EscapePlain(s[1..])
  }

  function EscapeText(t: Text): string {
    match t
    case Plain(s) => EscapePlain(s)
    case Ill(units) => EscapeAll(units)
  }

  function Quote(t: Text): string {
    "\"" + EscapeText(t) + "\""
  }

  /** A document without insignificant whitespace. */
  function Print(v: Json): string {
    match v
    case Null => "null"
    case Bool(b) => if b then "true" else "false"
    case Num(lexeme) => lexeme
    case Str(s) => Quote(s)
    case Arr(items) => if items == [] then "[]" else "[" + PrintItems(items)
    case Obj(members) => if members == [] then "{}" else "{" + PrintMembers(members)
  }

  function PrintItems(items: seq<Json>): string
    requires items != []
    decreases items
  {
    if |items| == 1 then Print(items[0]) + "]" else Print(items[0]) + "," + PrintItems(items[1..])
  }

  function PrintMembers(members: seq<Member>): string
    requires members != []
    decreases members
  {
    if |members| == 1 then PrintMember(members[0]) + "}" else PrintMember(members[0]) + "," + PrintMembers(members[1..])
  }

  function PrintMember(m: Member): string
    decreases m
  {
    Quote(m.key) + ":" + Print(m.value)
  }

  /** What a reader keeps: strict ones refuse lone surrogates. */
  ghost predicate Kept(strict: bool, v: Json) {
    strict ==> AllPlain(v)
  }

  /** Every number in the document is a JSON number. */
  ghost predicate WellFormed(v: Json) {
    match v
    case Num(lexeme) => SkipNumber(lexeme) == Some("")
    case Arr(items) => forall i :: 0 <= i < |items| ==> WellFormed(items[i])
    case Obj(members) => forall i :: 0 <= i < |members| ==> WellFormed(members[i].value)
    case _ => true
  }

  // ------------------------------------------------------------ parsing what was printed

  /** A character that can continue a number. */
  predicate ContinuesNumber(c: char) {
    IsDigit(c) || c in ".eE"
  }

  /** Text that cannot be mistaken for the continuation of a number. */
  predicate Delimited(rest: string) {
    rest == "" || !ContinuesNumber(rest[0])
  }

  lemma HexDigitValue(n: nat)
    requires n < 16
    ensures HexValue(HexDigit(n)) == Some(n)
  {}

  lemma {:induction false} HexReadMore(s: string, rest: string, width: nat)
    requires width <= |s|
    ensures HexRead(s + rest, width) == HexRead(s, width)
  {
    if width > 0 { HexReadMore(s, rest, width - 1); }
  }

  lemma {:induction false} HexReadsBack(n: nat, width: nat)
    requires n < Pow16(width)
    ensures HexRead(RenderHex(n, width), width) == Some(n)
  {
    if width > 0 {
      var high, digit := RenderHex(n / 16, width - 1), HexDigit(n % 16);
      HexReadsBack(n / 16, width - 1);
      HexReadMore(high, [digit], width - 1);
      HexDigitValue(n % 16);
    }
  }

  lemma HexRoundTrip(n: nat, rest: string)
    requires n < 0x1_0000
    ensures var s := RenderHex(n, 4) + rest; s[4..] == rest && Hex4(s) == Some(n)
  {
    assert Pow16(1) == 16 && Pow16(2) == 0x100 && Pow16(3) == 0x1000 && Pow16(4) == 0x1_0000;
    HexReadsBack(n, 4);
    HexReadMore(RenderHex(n, 4), rest, 4);
  }

  lemma ScalarDigits(strict: bool, c: char, digits: string, rest: string)
    requires |digits| == 4 && Hex4(digits + rest) == Some(c as nat) && c < ' '
    ensures ParseEscape(strict, "u" + digits + rest) == Some(Parsed(Scalar(c), rest))
  {
    var s := "u" + digits + rest;
    assert s[1..] == digits + rest && (digits + rest)[4..] == rest;
  }

  lemma ShortRoundTrip(strict: bool, c: char, rest: string)
    requires ShortEscape(c).Some?
    ensures ParseEscape(strict, [ShortEscape(c).value] + rest) == Some(Parsed(Scalar(c), rest))
  {
    var s := [ShortEscape(c).value] + rest;
    assert s[0] == ShortEscape(c).value && s[1..] == rest;
  }

  /** What an escaped character is read back as; other characters are written as they are. */
  lemma EscapeRoundTrip(strict: bool, c: char, rest: string)
    ensures EscapeChar(c) == [c] ==> c >= ' ' && c != '"' && c != '\\'
    ensures EscapeChar(c) != [c] ==>
            && EscapeChar(c)[0] == '\\'
            && ParseEscape(strict, EscapeChar(c)[1..] + rest) == Some(Parsed(Scalar(c), rest))
  {
    if ShortEscape(c).Some? {
      ShortRoundTrip(strict, c, rest);
      assert EscapeChar(c)[1..] == [ShortEscape(c).value];
    } else if c < ' ' {
      HexRoundTrip(c as nat, rest);
      ScalarDigits(strict, c, RenderHex(c as nat, 4), rest);
      assert EscapeChar(c)[1..] == "u" + RenderHex(c as nat, 4);
    }
  }

  lemma LoneDigits(strict: bool, n: nat, digits: string, rest: string)
    requires |digits| == 4 && Hex4(digits + rest) == Some(n) && (IsHigh(n) || IsLow(n))
    requires IsHigh(n) ==> LowSurrogate(rest).None?
    ensures ParseEscape(strict, "u" + digits + rest) == if strict then None else Some(Parsed(Lone(n), rest))
  {
    var s := "u" + digits + rest;
    assert s[1..] == digits + rest && (digits + rest)[4..] == rest;
  }

  /** A lone surrogate is kept by `JSON.parse`, and refused by serde_json. */
  lemma LoneRoundTrip(strict: bool, n: nat, rest: string)
    requires IsHigh(n) || IsLow(n)
    requires IsHigh(n) ==> LowSurrogate(rest).None?
    ensures ParseEscape(strict, UnicodeEscape(n)[1..] + rest) == if strict then None else Some(Parsed(Lone(n), rest))
  {
    HexRoundTrip(n, rest);
    LoneDigits(strict, n, RenderHex(n, 4), rest);
    assert UnicodeEscape(n)[1..] == "u" + RenderHex(n, 4);
  }

  lemma NotLowCharacter(c: char, tail: string)
    ensures LowSurrogate(EscapeChar(c) + tail).None?
  {
    var s := EscapeChar(c) + tail;
    if ShortEscape(c).Some? {
      assert s[1] == ShortEscape(c).value;
    } else if c < ' ' {
      NotLowEscape(c as nat, tail);
    } else {
      assert s[0] == c;
    }
  }

  lemma NotLow(u: Unit, tail: string)
    requires u.Lone? ==> IsHigh(u.u)
    ensures LowSurrogate(Escape(u) + tail).None?
  {
    if u.Scalar? { NotLowCharacter(u.c, tail); } else { NotLowEscape(u.u, tail); }
  }

  lemma NotLowEscape(n: nat, tail: string)
    requires n < 0x1_0000 && !IsLow(n)
    ensures LowSurrogate(UnicodeEscape(n) + tail).None?
  {
    HexRoundTrip(n, tail);
    assert (UnicodeEscape(n) + tail)[2..] == RenderHex(n, 4) + tail;
  }

  lemma EscapedFirst(units: seq<Unit>, rest: string)
    requires units != []
    ensures EscapeAll(units) + "\"" + rest == Escape(units[0]) + (EscapeAll(units[1..]) + "\"" + rest)
  {
    Joined(Escape(units[0]), EscapeAll(units[1..]), "\"", rest);
  }

  lemma Joined(a: string, b: string, c: string, d: string)
    ensures a + b + c + d == a + (b + c + d)
  {}

  /** No escape of a low surrogate starts what follows a high one. */
  lemma NoLowFollows(units: seq<Unit>, rest: string)
    requires Unpaired(units) && (units == [] || !(units[0].Lone? && IsLow(units[0].u)))
    ensures LowSurrogate(EscapeAll(units) + "\"" + rest).None?
  {
    if units != [] {
      EscapedFirst(units, rest);
      NotLow(units[0], EscapeAll(units[1..]) + "\"" + rest);
    }
  }

  lemma NextCharacter(strict: bool, c: char, tail: string)
    ensures ParseString(strict, EscapeChar(c) + tail) == Prepend(Scalar(c), ParseString(strict, tail))
  {
    var s := EscapeChar(c) + tail;
    EscapeRoundTrip(strict, c, tail);
    assert s[1..] == EscapeChar(c)[1..] + tail;
    if EscapeChar(c) == [c] {
      assert s[0] == c && s[1..] == tail;
    }
  }

  lemma NextLone(n: nat, tail: string)
    requires (IsHigh(n) || IsLow(n)) && (IsHigh(n) ==> LowSurrogate(tail).None?)
    ensures ParseString(false, UnicodeEscape(n) + tail) == Prepend(Lone(n), ParseString(false, tail))
  {
    var s := UnicodeEscape(n) + tail;
    LoneRoundTrip(false, n, tail);
    assert s[0] == '\\' && s[1..] == UnicodeEscape(n)[1..] + tail;
  }

  lemma NextUnit(strict: bool, units: seq<Unit>, rest: string)
    requires units != [] && Unpaired(units) && (strict ==> AllScalar(units))
    ensures ParseString(strict, EscapeAll(units) + "\"" + rest)
         == Prepend(units[0], ParseString(strict, EscapeAll(units[1..]) + "\"" + rest))
  {
    var u, tail := units[0], EscapeAll(units[1..]) + "\"" + rest;
    EscapedFirst(units, rest);
    if u.Scalar? {
      NextCharacter(strict, u.c, tail);
    } else {
      UnpairedTail(units);
      assert |units| > 1 ==> !WouldPair(units[0], units[1]);
      if IsHigh(u.u) { NoLowFollows(units[1..], rest); }
      NextLone(u.u, tail);
    }
  }

  /** Every string reads back where lone surrogates are kept, and every plain one where they are not. */
  lemma {:induction false} StringRoundTrip(strict: bool, units: seq<Unit>, rest: string)
    requires Unpaired(units) && (strict ==> AllScalar(units))
    ensures ParseString(strict, EscapeAll(units) + "\"" + rest) == Some(Parsed(units, rest))
  {
    if units == [] {
      var s := EscapeAll(units) + "\"" + rest;
      assert s[0] == '"' && s[1..] == rest;
    } else {
      UnpairedTail(units);
      StringRoundTrip(strict, units[1..], rest);
      NextUnit(strict, units, rest);
      assert units == [units[0]] + units[1..];
    }
  }

  lemma {:induction false} PlainEscapes(s: string)
    ensures EscapePlain(s) == EscapeAll(Scalars(s))
  {
    if s != "" {
      PlainEscapes(s[1..]);
      assert Scalars(s)[1..] == Scalars(s[1..]);
    }
  }

  /** The same of a string as a whole. */
  lemma TextualRoundTrip(strict: bool, t: Text, rest: string)
    requires strict ==> t.Plain?
    ensures ParseTextual(strict, EscapeText(t) + "\"" + rest) == Some(Parsed(t, rest))
  {
    UnitsUnpaired(t);
    if t.Plain? { PlainEscapes(t.s); }
    StringRoundTrip(strict, UnitsOf(t), rest);
    PackOfUnits(t, []);
  }

  lemma {:induction false} DigitsExtend(s: string, rest: string)
    requires Delimited(rest)
    ensures SkipDigits(s + rest) == SkipDigits(s) + rest
    ensures SkipSomeDigits(s).Some? ==> SkipSomeDigits(s + rest) == Some(SkipSomeDigits(s).value + rest)
  {
    if s == "" {
      assert s + rest == rest;
    } else {
      assert (s + rest)[1..] == s[1..] + rest;
      DigitsExtend(s[1..], rest);
    }
  }

  lemma IntegerExtends(s: string, rest: string)
    requires SkipInteger(s).Some? && Delimited(rest)
    ensures SkipInteger(s + rest) == Some(SkipInteger(s).value + rest)
  {
    var digits := if s[0] == '-' then s[1..] else s;
    if s[0] == '-' { assert (s + rest)[1..] == digits + rest; }
    assert (digits + rest)[1..] == digits[1..] + rest;
    DigitsExtend(digits, rest);
  }

  lemma FractionExtends(s: string, rest: string)
    requires SkipFraction(s).Some? && Delimited(rest)
    ensures SkipFraction(s + rest) == Some(SkipFraction(s).value + rest)
  {
    if s == "" {
      assert s + rest == rest;
    } else {
      assert (s + rest)[1..] == s[1..] + rest;
      DigitsExtend(s[1..], rest);
    }
  }

  lemma ExponentExtends(s: string, rest: string)
    requires SkipExponent(s).Some? && Delimited(rest)
    ensures SkipExponent(s + rest) == Some(SkipExponent(s).value + rest)
  {
    if s == "" {
      assert s + rest == rest;
    } else if s[0] in "eE" {
      assert |s| > 1 && (s + rest)[1] == s[1];
      assert (s + rest)[1..] == s[1..] + rest && (s + rest)[2..] == s[2..] + rest;
      DigitsExtend(s[1..], rest);
      DigitsExtend(s[2..], rest);
    }
  }

  lemma NumberRoundTrip(lexeme: string, rest: string)
    requires SkipNumber(lexeme) == Some("") && Delimited(rest)
    ensures SkipNumber(lexeme + rest) == Some(rest)
    ensures lexeme[0] == '-' || IsDigit(lexeme[0])
  {
    var s1 := SkipInteger(lexeme).value;
    IntegerExtends(lexeme, rest);
    FractionExtends(s1, rest);
    ExponentExtends(SkipFraction(s1).value, rest);
    assert "" + rest == rest;
  }

  lemma PrintStarts(v: Json)
    requires WellFormed(v)
    ensures Print(v) != "" && Print(v)[0] !in " \t\n\r,:]}"
  {
    if v.Num? {
      NumberRoundTrip(v.lexeme, "");
      assert v.lexeme != "";
    }
  }

  // What the parser does with each piece of a text without insignificant whitespace.

  lemma ParseQuoted(strict: bool, t: Text, rest: string)
    requires strict ==> t.Plain?
    ensures ParseValue(strict, Quote(t) + rest) == Some(Parsed(Str(t), rest))
  {
    TextualRoundTrip(strict, t, rest);
    QuotedTail(t, rest);
    ParseStringValue(strict, Quote(t) + rest, t, rest);
  }

  lemma QuotedTail(t: Text, rest: string)
    ensures var s := Quote(t) + rest; s[0] == '"' && s[1..] == EscapeText(t) + "\"" + rest
  {}

  lemma ParseStringValue(strict: bool, s: string, t: Text, rest: string)
    requires s != "" && s[0] == '"' && ParseTextual(strict, s[1..]) == Some(Parsed(t, rest))
    ensures ParseValue(strict, s) == Some(Parsed(Str(t), rest))
  {}

  lemma ParseLiteral(strict: bool, v: Json, rest: string)
    requires v.Null? || v.Bool?
    ensures ParseValue(strict, Print(v) + rest) == Some(Parsed(v, rest))
  {
    var s := Print(v) + rest;
    assert s[|Print(v)|..] == rest && Print(v) <= s;
    assert s[0] == Print(v)[0];
  }

  lemma ParseNumber(strict: bool, lexeme: string, rest: string)
    requires SkipNumber(lexeme) == Some("") && Delimited(rest)
    ensures ParseValue(strict, lexeme + rest) == Some(Parsed(Num(lexeme), rest))
  {
    var s := lexeme + rest;
    NumberRoundTrip(lexeme, rest);
    assert s[0] == lexeme[0];
    assert !("null" <= s) && !("true" <= s) && !("false" <= s);
    assert SkipNumber(s) == Some(rest) && s[..|s| - |rest|] == lexeme;
  }

  lemma ParseEmpty(strict: bool, rest: string)
    ensures ParseValue(strict, "[]" + rest) == Some(Parsed(Arr([]), rest))
    ensures ParseValue(strict, "{}" + rest) == Some(Parsed(Obj([]), rest))
  {
    var a, o := "[]" + rest, "{}" + rest;
    assert a[1..] == "]" + rest && ("]" + rest)[1..] == rest;
    assert o[1..] == "}" + rest && ("}" + rest)[1..] == rest;
  }

  lemma ParseBracketed(strict: bool, s: string, items: seq<Json>, rest: string)
    requires s != "" && s[0] != ']' && SkipSpace(s) == s && ParseElements(strict, s) == Some(Parsed(items, rest))
    ensures ParseValue(strict, "[" + s) == Some(Parsed(Arr(items), rest))
  {
    assert ("[" + s)[1..] == s;
  }

  lemma ParseBraced(strict: bool, s: string, members: seq<Member>, rest: string)
    requires s != "" && s[0] == '"' && ParseMembers(strict, s) == Some(Parsed(members, rest))
    ensures ParseValue(strict, "{" + s) == Some(Parsed(Obj(members), rest))
  {
    assert ("{" + s)[1..] == s;
  }

  lemma ParseLastElement(strict: bool, s: string, v: Json, rest: string)
    requires ParseValue(strict, s) == Some(Parsed(v, "]" + rest))
    ensures ParseElements(strict, s) == Some(Parsed([v], rest))
  {
    assert ("]" + rest)[1..] == rest;
  }

  lemma ParseNextElement(strict: bool, s: string, v: Json, tail: string, vs: seq<Json>, rest: string)
    requires ParseValue(strict, s) == Some(Parsed(v, "," + tail)) && |tail| < |s| && SkipSpace(tail) == tail
    requires ParseElements(strict, tail) == Some(Parsed(vs, rest))
    ensures ParseElements(strict, s) == Some(Parsed([v] + vs, rest))
  {
    assert ("," + tail)[1..] == tail;
  }

  lemma ParseLastMember(strict: bool, s: string, m: Member, rest: string)
    requires ParseMember(strict, s) == Some(Parsed(m, "}" + rest))
    ensures ParseMembers(strict, s) == Some(Parsed([m], rest))
  {
    assert ("}" + rest)[1..] == rest;
  }

  lemma ParseNextMember(strict: bool, s: string, m: Member, tail: string, ms: seq<Member>, rest: string)
    requires ParseMember(strict, s) == Some(Parsed(m, "," + tail)) && |tail| < |s| && SkipSpace(tail) == tail
    requires ParseMembers(strict, tail) == Some(Parsed(ms, rest))
    ensures ParseMembers(strict, s) == Some(Parsed([m] + ms, rest))
  {
    var after := "," + tail;
    assert SkipSpace(after) == after && after[0] == ',' && after[1..] == tail;
  }

  lemma ParseColon(strict: bool, s: string, key: Text, value: string, v: Json, rest: string)
    requires s != "" && s[0] == '"' && ParseTextual(strict, s[1..]) == Some(Parsed(key, ":" + value))
    requires SkipSpace(value) == value && ParseValue(strict, value) == Some(Parsed(v, rest))
    ensures ParseMember(strict, s) == Some(Parsed(Member(key, v), rest))
  {
    assert (":" + value)[1..] == value;
  }

  lemma ParseKeyed(strict: bool, key: Text, value: string, v: Json, rest: string)
    requires (strict ==> key.Plain?) && SkipSpace(value) == value && ParseValue(strict, value) == Some(Parsed(v, rest))
    ensures ParseMember(strict, Quote(key) + ":" + value) == Some(Parsed(Member(key, v), rest))
  {
    TextualRoundTrip(strict, key, ":" + value);
    QuotedTail(key, ":" + value);
    assert Quote(key) + ":" + value == Quote(key) + (":" + value);
    ParseColon(strict, Quote(key) + (":" + value), key, value, v, rest);
  }

  /** Reading back what was printed returns the document and stops where it ends. */
  lemma {:induction false} PrintRoundTrip(strict: bool, v: Json, rest: string)
    requires WellFormed(v) && Kept(strict, v) && (v.Num? ==> Delimited(rest))
    ensures ParseValue(strict, Print(v) + rest) == Some(Parsed(v, rest))
    decreases v, 0
  {
    match v
    case Null => ParseLiteral(strict, v, rest);
    case Bool(_) => ParseLiteral(strict, v, rest);
    case Num(lexeme) => ParseNumber(strict, lexeme, rest);
    case Str(t) => ParseQuoted(strict, t, rest);
    case Arr(items) =>
      if items == [] {
        ParseEmpty(strict, rest);
      } else {
        var s := PrintItems(items) + rest;
        assert Print(v) + rest == "[" + s;
        ItemsRoundTrip(strict, items, rest);
        ParseBracketed(strict, s, items, rest);
      }
    case Obj(members) =>
      if members == [] {
        ParseEmpty(strict, rest);
      } else {
        var s := PrintMembers(members) + rest;
        assert Print(v) + rest == "{" + s;
        MembersRoundTrip(strict, members, rest);
        MembersStart(members);
        ParseBraced(strict, s, members, rest);
      }
  }

  lemma Regroup(a: string, b: string, c: string, d: string)
    ensures a + b + d == a + (b + d)
    ensures a + b + c + d == a + (b + (c + d))
  {}

  lemma {:induction false} ItemsRoundTrip(strict: bool, items: seq<Json>, rest: string)
    requires items != [] && forall i :: 0 <= i < |items| ==> WellFormed(items[i]) && Kept(strict, items[i])
    ensures var s := PrintItems(items) + rest;
            s[0] != ']' && SkipSpace(s) == s && ParseElements(strict, s) == Some(Parsed(items, rest))
    decreases items, 1
  {
    var s, v := PrintItems(items) + rest, items[0];
    PrintStarts(v);
    if |items| == 1 {
      PrintRoundTrip(strict, v, "]" + rest);
      Regroup(Print(v), "]", "", rest);
      ParseLastElement(strict, s, v, rest);
      assert items == [v];
    } else {
      var tail := PrintItems(items[1..]) + rest;
      PrintRoundTrip(strict, v, "," + tail);
      Regroup(Print(v), ",", PrintItems(items[1..]), rest);
      ItemsRoundTrip(strict, items[1..], rest);
      ParseNextElement(strict, s, v, tail, items[1..], rest);
      assert items == [v] + items[1..];
    }
  }

  lemma {:induction false} MemberRoundTrip(strict: bool, m: Member, rest: string)
    requires WellFormed(m.value) && Kept(strict, m.value) && (strict ==> m.key.Plain?) && Delimited(rest)
    ensures ParseMember(strict, PrintMember(m) + rest) == Some(Parsed(m, rest))
    decreases m, 0
  {
    PrintStarts(m.value);
    PrintRoundTrip(strict, m.value, rest);
    ParseKeyed(strict, m.key, Print(m.value) + rest, m.value, rest);
    Regroup(Quote(m.key), ":", Print(m.value), rest);
    Regroup(Quote(m.key), ":", "", Print(m.value) + rest);
  }

  lemma MembersStart(members: seq<Member>)
    requires members != []
    ensures PrintMembers(members) != "" && PrintMembers(members)[0] == '"'
  {}

  lemma MembersLast(strict: bool, m: Member, rest: string)
    requires ParseMember(strict, PrintMember(m) + ("}" + rest)) == Some(Parsed(m, "}" + rest))
    ensures ParseMembers(strict, PrintMembers([m]) + rest) == Some(Parsed([m], rest))
  {
    Regroup(PrintMember(m), "}", "", rest);
    ParseLastMember(strict, PrintMember(m) + ("}" + rest), m, rest);
  }

  lemma MembersCons(strict: bool, m: Member, others: seq<Member>, rest: string)
    requires others != []
    requires var tail := PrintMembers(others) + rest;
             && ParseMember(strict, PrintMember(m) + ("," + tail)) == Some(Parsed(m, "," + tail))
             && ParseMembers(strict, tail) == Some(Parsed(others, rest))
    ensures ParseMembers(strict, PrintMembers([m] + others) + rest) == Some(Parsed([m] + others, rest))
  {
    var head, text := PrintMember(m), PrintMembers(others);
    assert ([m] + others)[1..] == others;
    MembersStart(others);
    Regroup(head, ",", text, rest);
    ParseNextMember(strict, head + ("," + (text + rest)), m, text + rest, others, rest);
  }

  lemma {:induction false} MembersRoundTrip(strict: bool, members: seq<Member>, rest: string)
    requires members != [] && forall i :: 0 <= i < |members| ==> WellFormed(members[i].value)
    requires strict ==> AllPlain(Obj(members))
    ensures ParseMembers(strict, PrintMembers(members) + rest) == Some(Parsed(members, rest))
    decreases members, 1
  {
    var m, others := members[0], members[1..];
    if |members| == 1 {
      MemberRoundTrip(strict, m, "}" + rest);
      MembersLast(strict, m, rest);
      assert members == [m];
    } else {
      MemberRoundTrip(strict, m, "," + (PrintMembers(others) + rest));
      MembersRoundTrip(strict, others, rest);
      MembersCons(strict, m, others, rest);
      assert members == [m] + others;
    }
  }

  /**
    A printed document followed by anything reads back, where lone surrogates are refused if and only if it holds
    none.
  */
  lemma PrintReadsBackExactlyWhen(strict: bool, v: Json, rest: string)
    requires WellFormed(v) && (v.Num? ==> Delimited(rest))
    ensures ParseValue(strict, Print(v) + rest) == if Kept(strict, v) then Some(Parsed(v, rest)) else None
  {
    if Kept(strict, v) {
      PrintRoundTrip(strict, v, rest);
    } else if ParseValue(true, Print(v) + rest).Some? {
      PrintRoundTrip(false, v, rest);
      ValueReadsAlike(Print(v) + rest);
      StrictValuePlain(Print(v) + rest);
    }
  }

  /**
    A printed document, as a whole text, parses to the document; in Rust, if and only if it holds no lone surrogate.
  */
  lemma TextRoundTrip(strict: bool, v: Json)
    requires WellFormed(v)
    ensures ParseText(strict, Print(v)) == if Kept(strict, v) then Some(v) else None
  {
    PrintReadsBackExactlyWhen(strict, v, "");
    PrintStarts(v);
    assert Print(v) + "" == Print(v);
  }
}
