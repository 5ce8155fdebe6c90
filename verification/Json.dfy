/**
  JSON texts (sections 2 to 7 of RFC 8259): syntax trees and the parser both languages' libraries implement.
  The parser is a family of functions from a text to what was read and the rest of the text. It has one flag:
  serde_json refuses an escaped lone surrogate, which JSON.parse keeps. Two things are shown of it here: it
  accepts no text with a raw NUL, and the stricter reading agrees with the other wherever it succeeds.
*/
module Json {
  import opened Texts
  import opened Wrappers

  /** A document. Numbers keep their lexeme; objects keep their members in document order, duplicates included. */
  datatype Json =
    | Null
    | Bool(b: bool)
    | Num(lexeme: string)
    | Str(s: Text)
    | Arr(items: seq<Json>)
    | Obj(members: seq<Member>)

  datatype Member = Member(key: Text, value: Json)

  /** A parsed prefix and what follows it. */
  datatype Parsed<+T> = Parsed(value: T, rest: string)

  type Parse<+T> = Option<Parsed<T>>

  // ------------------------------------------------------------ lexical level

  function SkipSpace(s: string): (r: string)
    ensures |r| <= |s|
  {
    if s != "" && s[0] in " \t\n\r" then SkipSpace(s[1..]) else s
  }

  predicate IsDigit(c: char) {
    '0' <= c <= '9'
  }

  /** What is left after the digits at the start of `s`. */
  function SkipDigits(s: string): (r: string)
    ensures |r| <= |s|
  {
    if s != "" && IsDigit(s[0]) then SkipDigits(s[1..]) else s
  }

  /** One digit at least. */
  function SkipSomeDigits(s: string): (r: Option<string>)
    ensures r.Some? ==> |r.value| < |s|
  {
    if s != "" && IsDigit(s[0]) then Some(SkipDigits(s[1..])) else None
  }

  /** The integer part of a number, sign included: no leading zeros. */
  function SkipInteger(s: string): (r: Option<string>)
    ensures r.Some? ==> |r.value| < |s|
  {
    var digits := if s != "" && s[0] == '-' then s[1..] else s;
    if digits != "" && digits[0] == '0' then Some(digits[1..]) else SkipSomeDigits(digits)
  }

  /** An optional fraction. */
  function SkipFraction(s: string): (r: Option<string>)
    ensures r.Some? ==> |r.value| <= |s|
  {
    if s == "" || s[0] != '.' then Some(s) else SkipSomeDigits(s[1..])
  }

  /** An optional exponent. */
  function SkipExponent(s: string): (r: Option<string>)
    ensures r.Some? ==> |r.value| <= |s|
  {
    if s == "" || s[0] !in "eE" then Some(s)
    else if |s| > 1 && s[1] in "+-" then SkipSomeDigits(s[2..])
    else SkipSomeDigits(s[1..])
  }

  function SkipNumber(s: string): (r: Option<string>)
    ensures r.Some? ==> |r.value| < |s|
  {
    match SkipInteger(s)
    case None => None
    case Some(s1) =>
      match SkipFraction(s1)
      case None => None
      case Some(s2) => SkipExponent(s2)
  }

  function HexValue(c: char): (r: Option<nat>)
    ensures r.Some? ==> r.value < 16
  {
    if '0' <= c <= '9' then Some((c - '0') as nat)
    else if 'a' <= c <= 'f' then Some((c - 'a') as nat + 10)
    else if 'A' <= c <= 'F' then Some((c - 'A') as nat + 10)
    else None
  }

  function Pow16(width: nat): (n: nat)
    ensures n > 0
  {
    if width == 0 then 1 else 16 * Pow16(width - 1)
  }

  /** The number of the first `width` digits. */
  function HexRead(s: string, width: nat): (r: Option<nat>)
    ensures r.Some? ==> |s| >= width && r.value < Pow16(width)
  {
    if width == 0 then Some(0)
    else if |s| < width then None
    else
      match (HexRead(s, width - 1), HexValue(s[width - 1]))
      case (Some(a), Some(b)) => Some(16 * a + b)
      case _ => None
  }

  /** The code unit of `\uXXXX`, read after the `u`. */
  function Hex4(s: string): (r: Option<nat>)
    ensures r.Some? ==> |s| >= 4 && r.value < 0x1_0000
  {
    assert Pow16(1) == 16 && Pow16(2) == 0x100 && Pow16(3) == 0x1000 && Pow16(4) == 0x1_0000;
    HexRead(s, 4)
  }

  /** The character of a two-character escape. */
  function SimpleEscape(letter: char): Option<char> {
    match letter
    case '"' => Some('"')
    case '\\' => Some('\\')
    case '/' => Some('/')
    case 'b' => Some('\U{0008}')
    case 'f' => Some('\U{000C}')
    case 'n' => Some('\n')
    case 'r' => Some('\r')
    case 't' => Some('\t')
    case _ => None
  }

  /**
    One escape, read after the backslash. `strict` parsers (serde_json) refuse an escaped lone surrogate,
    the others (JSON.parse) keep it.
  */
  function ParseEscape(strict: bool, s: string): (r: Parse<Unit>)
    ensures r.Some? ==> |r.value.rest| < |s|
  {
    if s == "" then None
    else if s[0] == 'u' then ParseUnicodeEscape(strict, s[1..])
    else
      match SimpleEscape(s[0])
      case Some(c) => Some(Parsed(Scalar(c), s[1..]))
      case None => None
  }

  function ParseUnicodeEscape(strict: bool, s: string): (r: Parse<Unit>)
    ensures r.Some? ==> |r.value.rest| < |s|
  {
    match Hex4(s)
    case None => None
    case Some(h) =>
      if h < 0xD800 || 0xE000 <= h then Some(Parsed(Scalar(h as char), s[4..]))
      else
        match LowSurrogate(s[4..])
        case Some(l) =>
          if h < 0xDC00 then Some(Parsed(Scalar((0x1_0000 + (h - 0xD800) * 0x400 + (l - 0xDC00)) as char), s[10..]))
          else if strict then None else Some(Parsed(Lone(h), s[4..]))
        case None => if strict then None else Some(Parsed(Lone(h), s[4..]))
  }

  function LowSurrogate(s: string): (r: Option<nat>)
    ensures r.Some? ==> |s| >= 6 && 0xDC00 <= r.value < 0xE000
  {
    if |s| >= 2 && s[0] == '\\' && s[1] == 'u' then
      match Hex4(s[2..])
      case Some(l) => if 0xDC00 <= l < 0xE000 then Some(l) else None
      case None => None
    else None
  }

  /** The rest of a string, read after the opening quote. */
  function ParseString(strict: bool, s: string): (r: Parse<seq<Unit>>)
    ensures r.Some? ==> |r.value.rest| < |s|
    decreases |s|
  {
    if s == "" then None
    else if s[0] == '"' then Some(Parsed([], s[1..]))
    else if s[0] == '\\' then
      match ParseEscape(strict, s[1..])
      case None => None
      case Some(Parsed(u, r)) => Prepend(u, ParseString(strict, r))
    else if s[0] < ' ' then None
    else Prepend(Scalar(s[0]), ParseString(strict, s[1..]))
  }

  function Prepend(u: Unit, p: Parse<seq<Unit>>): Parse<seq<Unit>> {
    match p
    case None => None
    case Some(Parsed(units, r)) => Some(Parsed([u] + units, r))
  }

  /** Surrogates that pair are read as one character, so those that are left do not. */
  lemma {:induction false} StringUnpaired(strict: bool, s: string)
    requires ParseString(strict, s).Some?
    ensures var units := ParseString(strict, s).value.value;
            && Unpaired(units)
            && (units != [] && units[0].Lone? && IsLow(units[0].u) ==> LowSurrogate(s).Some?)
    decreases |s|
  {
    if s[0] == '\\' {
      var e := ParseEscape(strict, s[1..]).value;
      StringUnpaired(strict, e.rest);
      if e.value.Lone? { EscapedAlone(strict, s[1..]); }
    } else if s[0] != '"' {
      StringUnpaired(strict, s[1..]);
    }
  }

  lemma EscapedAlone(strict: bool, s: string)
    requires ParseEscape(strict, s).Some? && ParseEscape(strict, s).value.value.Lone?
    ensures var e := ParseEscape(strict, s).value;
            && s[0] == 'u' && Hex4(s[1..]) == Some(e.value.u) && (IsHigh(e.value.u) || IsLow(e.value.u))
            && (IsHigh(e.value.u) ==> LowSurrogate(e.rest).None?)
  {}

  /** A string as a value or a key. */
  function ParseTextual(strict: bool, s: string): (r: Parse<Text>)
    ensures r.Some? ==> |r.value.rest| < |s|
  {
    match ParseString(strict, s)
    case None => None
    case Some(Parsed(units, r)) =>
      StringUnpaired(strict, s);
      Some(Parsed(Pack(units), r))
  }

  // ------------------------------------------------------------ values

  function ParseValue(strict: bool, s: string): (r: Parse<Json>)
    ensures r.Some? ==> |r.value.rest| < |s|
    decreases |s|, 0
  {
    if s == "" then None
    else if s[0] == '"' then
      match ParseTextual(strict, s[1..])
      case None => None
      case Some(Parsed(t, r)) => Some(Parsed(Str(t), r))
    else if s[0] == '[' then
      var inner := SkipSpace(s[1..]);
      if inner != "" && inner[0] == ']' then Some(Parsed(Arr([]), inner[1..]))
      else
        match ParseElements(strict, inner)
        case None => None
        case Some(Parsed(items, r)) => Some(Parsed(Arr(items), r))
    else if s[0] == '{' then
      var inner := SkipSpace(s[1..]);
      if inner != "" && inner[0] == '}' then Some(Parsed(Obj([]), inner[1..]))
      else
        match ParseMembers(strict, inner)
        case None => None
        case Some(Parsed(members, r)) => Some(Parsed(Obj(members), r))
    else if "null" <= s then Some(Parsed(Null, s[4..]))
    else if "true" <= s then Some(Parsed(Bool(true), s[4..]))
    else if "false" <= s then Some(Parsed(Bool(false), s[5..]))
    else
      match SkipNumber(s)
      case None => None
      case Some(r) => Some(Parsed(Num(s[..|s| - |r|]), r))
  }

  /** One or more comma-separated values up to the closing bracket. */
  function ParseElements(strict: bool, s: string): (r: Parse<seq<Json>>)
    ensures r.Some? ==> |r.value.rest| < |s|
    decreases |s|, 1
  {
    match ParseValue(strict, s)
    case None => None
    case Some(Parsed(v, r)) =>
      var after := SkipSpace(r);
      if after == "" then None
      else if after[0] == ']' then Some(Parsed([v], after[1..]))
      else if after[0] != ',' then None
      else
        match ParseElements(strict, SkipSpace(after[1..]))
        case None => None
        case Some(Parsed(vs, r')) => Some(Parsed([v] + vs, r'))
  }

  /** One or more comma-separated members up to the closing brace. */
  function ParseMembers(strict: bool, s: string): (r: Parse<seq<Member>>)
    ensures r.Some? ==> |r.value.rest| < |s|
    decreases |s|, 1
  {
    match ParseMember(strict, s)
    case None => None
    case Some(Parsed(m, r)) =>
      var after := SkipSpace(r);
      if after == "" then None
      else if after[0] == '}' then Some(Parsed([m], after[1..]))
      else if after[0] != ',' then None
      else
        match ParseMembers(strict, SkipSpace(after[1..]))
        case None => None
        case Some(Parsed(ms, r')) => Some(Parsed([m] + ms, r'))
  }

  function ParseMember(strict: bool, s: string): (r: Parse<Member>)
    ensures r.Some? ==> |r.value.rest| < |s|
    decreases |s|, 0
  {
    if s == "" || s[0] != '"' then None
    else
      match ParseTextual(strict, s[1..])
      case None => None
      case Some(Parsed(k, r)) =>
        var colon := SkipSpace(r);
        if colon == "" || colon[0] != ':' then None
        else
          match ParseValue(strict, SkipSpace(colon[1..]))
          case None => None
          case Some(Parsed(v, r')) => Some(Parsed(Member(k, v), r'))
  }

  /** A whole text: `JSON.parse` and `serde_json::from_str`. */
  function ParseText(strict: bool, s: string): Option<Json> {
    match ParseValue(strict, SkipSpace(s))
    case None => None
    case Some(Parsed(v, r)) => if SkipSpace(r) == "" then Some(v) else None
  }

  // ------------------------------------------------------------ no JSON text holds a raw NUL

  /** `r` is what is left of `s` after characters none of which is NUL. */
  ghost predicate Consumed(s: string, r: string) {
    && |r| <= |s|
    && s[|s| - |r|..] == r
    && forall i :: 0 <= i < |s| - |r| ==> s[i] != '\0'
  }

  lemma ConsumedTrans(s: string, m: string, r: string)
    requires Consumed(s, m) && Consumed(m, r)
    ensures Consumed(s, r)
  {
    forall i | |s| - |m| <= i < |s| - |r| ensures s[i] != '\0' {
      assert s[i] == m[i - (|s| - |m|)];
    }
  }

  lemma ConsumeOne(s: string)
    requires s != "" && s[0] != '\0'
    ensures Consumed(s, s[1..])
  {}

  lemma {:induction false} SkipConsumes(s: string)
    ensures Consumed(s, SkipSpace(s))
  {
    if s != "" && s[0] in " \t\n\r" {
      ConsumeOne(s);
      SkipConsumes(s[1..]);
      ConsumedTrans(s, s[1..], SkipSpace(s));
    }
  }

  lemma {:induction false} DigitsConsume(s: string)
    ensures Consumed(s, SkipDigits(s))
    ensures SkipSomeDigits(s).Some? ==> Consumed(s, SkipSomeDigits(s).value)
  {
    if s != "" && IsDigit(s[0]) {
      ConsumeOne(s);
      DigitsConsume(s[1..]);
      ConsumedTrans(s, s[1..], SkipDigits(s[1..]));
    }
  }

  lemma IntegerConsumes(s: string)
    requires SkipInteger(s).Some?
    ensures Consumed(s, SkipInteger(s).value)
  {
    var digits := if s[0] == '-' then s[1..] else s;
    StartConsumes(digits);
    DigitsConsume(digits);
    if s[0] == '-' { ConsumedTrans(s, digits, SkipInteger(s).value); }
  }

  lemma FractionConsumes(s: string)
    requires SkipFraction(s).Some?
    ensures Consumed(s, SkipFraction(s).value)
  {
    if s != "" && s[0] == '.' {
      ConsumeOne(s);
      DigitsConsume(s[1..]);
      ConsumedTrans(s, s[1..], SkipFraction(s).value);
    }
  }

  lemma ExponentConsumes(s: string)
    requires SkipExponent(s).Some?
    ensures Consumed(s, SkipExponent(s).value)
  {
    if s != "" && s[0] in "eE" {
      var digits := if |s| > 1 && s[1] in "+-" then s[2..] else s[1..];
      assert Consumed(s, digits);
      DigitsConsume(digits);
      ConsumedTrans(s, digits, SkipExponent(s).value);
    }
  }

  lemma NumberConsumes(s: string)
    requires SkipNumber(s).Some?
    ensures Consumed(s, SkipNumber(s).value)
  {
    var s1 := SkipInteger(s).value;
    var s2 := SkipFraction(s1).value;
    IntegerConsumes(s);
    FractionConsumes(s1);
    ExponentConsumes(s2);
    ConsumedTrans(s, s1, s2);
    ConsumedTrans(s, s2, SkipNumber(s).value);
  }

  lemma {:induction false} HexReads(s: string, width: nat)
    requires HexRead(s, width).Some?
    ensures forall i :: 0 <= i < width ==> HexValue(s[i]).Some?
  {
    if width > 0 { HexReads(s, width - 1); }
  }

  lemma HexConsumes(s: string)
    requires Hex4(s).Some?
    ensures Consumed(s, s[4..])
  {
    HexReads(s, 4);
  }

  lemma UnicodeEscapeConsumes(strict: bool, s: string)
    requires ParseUnicodeEscape(strict, s).Some?
    ensures Consumed(s, ParseUnicodeEscape(strict, s).value.rest)
  {
    HexConsumes(s);
    var t := s[4..];
    if LowSurrogate(t).Some? {
      HexConsumes(t[2..]);
      assert Consumed(t, t[2..]) && t[2..][4..] == s[10..];
      ConsumedTrans(t, t[2..], s[10..]);
      ConsumedTrans(s, t, s[10..]);
    }
  }

  lemma EscapeConsumes(strict: bool, s: string)
    requires ParseEscape(strict, s).Some?
    ensures Consumed(s, ParseEscape(strict, s).value.rest)
  {
    ConsumeOne(s);
    if s[0] == 'u' {
      UnicodeEscapeConsumes(strict, s[1..]);
      ConsumedTrans(s, s[1..], ParseEscape(strict, s).value.rest);
    }
  }

  lemma {:induction false} StringConsumes(strict: bool, s: string)
    requires ParseString(strict, s).Some?
    ensures Consumed(s, ParseString(strict, s).value.rest)
    decreases |s|
  {
    ConsumeOne(s);
    if s[0] == '\\' {
      EscapeConsumes(strict, s[1..]);
      var r := ParseEscape(strict, s[1..]).value.rest;
      StringConsumes(strict, r);
      ConsumedTrans(s, s[1..], r);
      ConsumedTrans(s, r, ParseString(strict, s).value.rest);
    } else if s[0] != '"' {
      StringConsumes(strict, s[1..]);
      ConsumedTrans(s, s[1..], ParseString(strict, s).value.rest);
    }
  }

  lemma {:induction false} ValueConsumes(strict: bool, s: string)
    requires ParseValue(strict, s).Some?
    ensures Consumed(s, ParseValue(strict, s).value.rest)
    decreases |s|, 0
  {
    if s[0] == '"' {
      ConsumeOne(s);
      StringConsumes(strict, s[1..]);
      ConsumedTrans(s, s[1..], ParseValue(strict, s).value.rest);
    } else if s[0] == '[' || s[0] == '{' {
      BracketConsumes(strict, s);
    } else if IsLiteral(s) {
      LiteralConsumes(strict, s);
    } else {
      NumberConsumes(s);
    }
  }

  predicate IsLiteral(s: string) {
    "null" <= s || "true" <= s || "false" <= s
  }

  lemma LiteralConsumes(strict: bool, s: string)
    requires IsLiteral(s) && s[0] != '"' && s[0] != '[' && s[0] != '{'
    ensures ParseValue(strict, s).Some? && Consumed(s, ParseValue(strict, s).value.rest)
  {
    var n := if "false" <= s then 5 else 4;
    assert forall i :: 0 <= i < n ==> s[i] != '\0';
  }

  lemma {:induction false} BracketConsumes(strict: bool, s: string)
    requires s != "" && (s[0] == '[' || s[0] == '{') && ParseValue(strict, s).Some?
    ensures Consumed(s, ParseValue(strict, s).value.rest)
    decreases |s| - 1, 2
  {
    var inner := SkipSpace(s[1..]);
    var r := ParseValue(strict, s).value.rest;
    ConsumeOne(s);
    SkipConsumes(s[1..]);
    ConsumedTrans(s, s[1..], inner);
    if inner != "" && inner[0] == (if s[0] == '[' then ']' else '}') {
      ConsumeOne(inner);
    } else if s[0] == '[' {
      ElementsConsume(strict, inner);
    } else {
      MembersConsume(strict, inner);
    }
    ConsumedTrans(s, inner, r);
  }

  lemma StartConsumes(s: string)
    requires s != ""
    ensures s[0] != '\0' ==> Consumed(s, s[1..])
  {}

  lemma {:induction false} AfterItem(r: string)
    requires SkipSpace(r) != "" && SkipSpace(r)[0] != '\0'
    ensures Consumed(r, SkipSpace(r)[1..]) && Consumed(r, SkipSpace(SkipSpace(r)[1..]))
  {
    var after := SkipSpace(r);
    SkipConsumes(r);
    ConsumeOne(after);
    ConsumedTrans(r, after, after[1..]);
    SkipConsumes(after[1..]);
    ConsumedTrans(r, after[1..], SkipSpace(after[1..]));
  }

  lemma {:induction false} ElementsConsume(strict: bool, s: string)
    requires ParseElements(strict, s).Some?
    ensures Consumed(s, ParseElements(strict, s).value.rest)
    decreases |s|, 1
  {
    ValueConsumes(strict, s);
    var r := ParseValue(strict, s).value.rest;
    AfterItem(r);
    if SkipSpace(r)[0] == ',' {
      var next := SkipSpace(SkipSpace(r)[1..]);
      ElementsConsume(strict, next);
      ConsumedTrans(r, next, ParseElements(strict, s).value.rest);
    }
    ConsumedTrans(s, r, ParseElements(strict, s).value.rest);
  }

  lemma {:induction false} MembersConsume(strict: bool, s: string)
    requires ParseMembers(strict, s).Some?
    ensures Consumed(s, ParseMembers(strict, s).value.rest)
    decreases |s|, 1
  {
    MemberConsumes(strict, s);
    var r := ParseMember(strict, s).value.rest;
    AfterItem(r);
    if SkipSpace(r)[0] == ',' {
      var next := SkipSpace(SkipSpace(r)[1..]);
      MembersConsume(strict, next);
      ConsumedTrans(r, next, ParseMembers(strict, s).value.rest);
    }
    ConsumedTrans(s, r, ParseMembers(strict, s).value.rest);
  }

  lemma {:induction false} MemberConsumes(strict: bool, s: string)
    requires ParseMember(strict, s).Some?
    ensures Consumed(s, ParseMember(strict, s).value.rest)
    decreases |s|, 0
  {
    ConsumeOne(s);
    StringConsumes(strict, s[1..]);
    var r := ParseTextual(strict, s[1..]).value.rest;
    ConsumedTrans(s, s[1..], r);
    AfterItem(r);
    var v := SkipSpace(SkipSpace(r)[1..]);
    ConsumedTrans(s, r, v);
    ValueConsumes(strict, v);
    ConsumedTrans(s, v, ParseMember(strict, s).value.rest);
  }

  /** Section 7 of RFC 8259 has no place for a raw U+0000: no text that holds one parses. */
  lemma JsonHasNoNul(strict: bool, s: string)
    requires ParseText(strict, s).Some?
    ensures '\0' !in s
  {
    SkipConsumes(s);
    ValueConsumes(strict, SkipSpace(s));
    var r := ParseValue(strict, SkipSpace(s)).value.rest;
    SkipConsumes(r);
    ConsumedTrans(s, SkipSpace(s), r);
    ConsumedTrans(s, r, "");
  }

  // ------------------------------------------------------------ what serde_json reads, JSON.parse reads alike

  lemma {:induction false} StringReadsAlike(s: string)
    requires ParseString(true, s).Some?
    ensures ParseString(false, s) == ParseString(true, s)
    decreases |s|
  {
    if s[0] == '\\' {
      var e := ParseEscape(true, s[1..]);
      assert ParseEscape(false, s[1..]) == e;
      StringReadsAlike(e.value.rest);
    } else if s[0] != '"' {
      StringReadsAlike(s[1..]);
    }
  }

  lemma {:induction false} ValueReadsAlike(s: string)
    requires ParseValue(true, s).Some?
    ensures ParseValue(false, s) == ParseValue(true, s)
    decreases |s|, 0
  {
    if s[0] == '"' {
      StringReadsAlike(s[1..]);
    } else if s[0] == '[' {
      var inner := SkipSpace(s[1..]);
      if inner != "" && inner[0] != ']' { ElementsReadAlike(inner); }
    } else if s[0] == '{' {
      var inner := SkipSpace(s[1..]);
      if inner != "" && inner[0] != '}' { MembersReadAlike(inner); }
    }
  }

  lemma {:induction false} ElementsReadAlike(s: string)
    requires ParseElements(true, s).Some?
    ensures ParseElements(false, s) == ParseElements(true, s)
    decreases |s|, 1
  {
    ValueReadsAlike(s);
    var after := SkipSpace(ParseValue(true, s).value.rest);
    if after[0] != ']' { ElementsReadAlike(SkipSpace(after[1..])); }
  }

  lemma {:induction false} MembersReadAlike(s: string)
    requires ParseMembers(true, s).Some?
    ensures ParseMembers(false, s) == ParseMembers(true, s)
    decreases |s|, 1
  {
    MemberReadsAlike(s);
    var after := SkipSpace(ParseMember(true, s).value.rest);
    if after[0] != '}' { MembersReadAlike(SkipSpace(after[1..])); }
  }

  lemma {:induction false} MemberReadsAlike(s: string)
    requires ParseMember(true, s).Some?
    ensures ParseMember(false, s) == ParseMember(true, s)
    decreases |s|, 0
  {
    StringReadsAlike(s[1..]);
    var colon := SkipSpace(ParseTextual(true, s[1..]).value.rest);
    ValueReadsAlike(SkipSpace(colon[1..]));
  }

  /** A text serde_json accepts is the same document to JSON.parse. */
  lemma TextReadsAlike(s: string)
    requires ParseText(true, s).Some?
    ensures ParseText(false, s) == ParseText(true, s)
  {
    ValueReadsAlike(SkipSpace(s));
  }

  // ------------------------------------------------------------ serde_json reads no lone surrogate

  /** No string and no key holds a lone surrogate. */
  ghost predicate AllPlain(v: Json) {
    match v
    case Str(t) => t.Plain?
    case Arr(items) => forall i :: 0 <= i < |items| ==> AllPlain(items[i])
    case Obj(members) => forall i :: 0 <= i < |members| ==> members[i].key.Plain? && AllPlain(members[i].value)
    case _ => true
  }

  lemma {:induction false} StrictStringPlain(s: string)
    requires ParseString(true, s).Some?
    ensures AllScalar(ParseString(true, s).value.value)
    decreases |s|
  {
    if s[0] == '\\' {
      StrictStringPlain(ParseEscape(true, s[1..]).value.rest);
    } else if s[0] != '"' {
      StrictStringPlain(s[1..]);
    }
  }

  lemma StrictTextualPlain(s: string)
    requires ParseTextual(true, s).Some?
    ensures ParseTextual(true, s).value.value.Plain?
  {
    StrictStringPlain(s);
  }

  lemma {:induction false} StrictValuePlain(s: string)
    requires ParseValue(true, s).Some?
    ensures AllPlain(ParseValue(true, s).value.value)
    decreases |s|, 0
  {
    if s[0] == '"' {
      StrictTextualPlain(s[1..]);
    } else if s[0] == '[' {
      var inner := SkipSpace(s[1..]);
      if inner != "" && inner[0] != ']' { StrictElementsPlain(inner); }
    } else if s[0] == '{' {
      var inner := SkipSpace(s[1..]);
      if inner != "" && inner[0] != '}' { StrictMembersPlain(inner); }
    }
  }

  lemma {:induction false} StrictElementsPlain(s: string)
    requires ParseElements(true, s).Some?
    ensures AllPlain(Arr(ParseElements(true, s).value.value))
    decreases |s|, 1
  {
    StrictValuePlain(s);
    var after := SkipSpace(ParseValue(true, s).value.rest);
    if after[0] != ']' { StrictElementsPlain(SkipSpace(after[1..])); }
  }

  lemma {:induction false} StrictMembersPlain(s: string)
    requires ParseMembers(true, s).Some?
    ensures AllPlain(Obj(ParseMembers(true, s).value.value))
    decreases |s|, 1
  {
    StrictMemberPlain(s);
    var after := SkipSpace(ParseMember(true, s).value.rest);
    if after[0] != '}' { StrictMembersPlain(SkipSpace(after[1..])); }
  }

  lemma {:induction false} StrictMemberPlain(s: string)
    requires ParseMember(true, s).Some?
    ensures ParseMember(true, s).value.value.key.Plain? && AllPlain(ParseMember(true, s).value.value.value)
    decreases |s|, 0
  {
    StrictTextualPlain(s[1..]);
    var colon := SkipSpace(ParseTextual(true, s[1..]).value.rest);
    StrictValuePlain(SkipSpace(colon[1..]));
  }

  /** What serde_json reads holds no lone surrogate. */
  lemma StrictTextPlain(s: string)
    requires ParseText(true, s).Some?
    ensures AllPlain(ParseText(true, s).value)
  {
    StrictValuePlain(SkipSpace(s));
  }
}
