/**
  The grammar of RFC 8259, and that the parser accepts exactly its texts: with lone surrogates for `JSON.parse`, without
  them for serde_json. The grammar says of a text and a document that the text spells the document, by cutting the text
  into pieces: space, the brackets and separators, and the texts of the parts. The parser goes through the text from the
  left instead. Two directions are proved for each kind of piece: what the parser reads is spelled, and what is spelled
  is read, whatever follows it.
*/
module JsonGrammar {
  import opened Canonical
  import opened Json
  import opened Texts
  import opened Wrappers

  // ------------------------------------------------------------ the grammar

  predicate IsSpace(s: string) {
    forall i :: 0 <= i < |s| ==> s[i] == ' ' || s[i] == '\t' || s[i] == '\n' || s[i] == '\r'
  }

  predicate AreDigits(s: string) {
    |s| >= 1 && forall i :: 0 <= i < |s| ==> '0' <= s[i] <= '9'
  }

  predicate IsInteger(s: string) {
    AreDigits(s) && (s[0] == '0' ==> |s| == 1)
  }

  predicate IsFraction(s: string) {
    s == "" || (s[0] == '.' && AreDigits(s[1..]))
  }

  predicate IsExponent(s: string) {
    s == "" || ((s[0] == 'e' || s[0] == 'E')
                && (AreDigits(s[1..]) || (|s| > 1 && (s[1] == '+' || s[1] == '-') && AreDigits(s[2..]))))
  }

  /** Section 6: a sign, an integer without leading zeros, a fraction and an exponent, all but the integer optional. */
  ghost predicate IsNumber(s: string) {
    exists sign, i, f, e :: NumberParts(s, sign, i, f, e)
  }

  predicate NumberParts(s: string, sign: string, i: string, f: string, e: string) {
    s == sign + i + f + e && (sign == "" || sign == "-") && IsInteger(i) && IsFraction(f) && IsExponent(e)
  }

  /** Section 7: the characters of two-character escapes. */
  predicate Escapes(letter: char, c: char) {
    || (letter == '"' && c == '"') || (letter == '\\' && c == '\\') || (letter == '/' && c == '/')
    || (letter == 'b' && c as nat == 8) || (letter == 'f' && c as nat == 12) || (letter == 'n' && c as nat == 10)
    || (letter == 'r' && c as nat == 13) || (letter == 't' && c as nat == 9)
  }

  predicate IsHexDigit(c: char, d: nat) {
    || ('0' <= c <= '9' && d == c as nat - '0' as nat) || ('a' <= c <= 'f' && d == 10 + c as nat - 'a' as nat)
    || ('A' <= c <= 'F' && d == 10 + c as nat - 'A' as nat)
  }

  /** `\uXXXX`, with digits of either case. */
  ghost predicate IsUnicode(s: string, n: nat) {
    |s| == 6 && s[0] == '\\' && s[1] == 'u' && FourSpell(s[2], s[3], s[4], s[5], n)
  }

  ghost predicate FourSpell(x: char, y: char, z: char, w: char, n: nat) {
    exists a: nat, b: nat, c: nat, d: nat ::
      IsHexDigit(x, a) && IsHexDigit(y, b) && IsHexDigit(z, c) && IsHexDigit(w, d)
      && n == 4096 * a + 256 * b + 16 * c + d
  }

  /** A character as it is, escaped by a letter or by its code units; or a lone surrogate, where they are let in. */
  ghost predicate SpellsUnit(strict: bool, s: string, u: Unit) {
    match u
    case Scalar(c) =>
      || (s == [c] && c as nat >= 0x20 && c != '"' && c != '\\')
      || (|s| == 2 && s[0] == '\\' && Escapes(s[1], c))
      || IsUnicode(s, c as nat)
      || exists h: nat, l: nat :: IsPair(s, c, h, l)
    case Lone(n) => !strict && IsUnicode(s, n)
  }

  /** The escapes of a high and of a low surrogate. */
  ghost predicate IsPair(s: string, c: char, h: nat, l: nat) {
    && |s| == 12 && IsUnicode(s[..6], h) && IsUnicode(s[6..], l) && IsHigh(h) && IsLow(l)
    && c as nat == 0x1_0000 + (h - 0xD800) * 0x400 + (l - 0xDC00)
  }

  ghost predicate SpellsUnits(strict: bool, s: string, units: seq<Unit>)
    decreases |units|, 1
  {
    if units == [] then s == "" else exists p, rest :: UnitsParts(strict, s, units, p, rest)
  }

  ghost predicate UnitsParts(strict: bool, s: string, units: seq<Unit>, p: string, rest: string)
    requires units != []
    decreases |units|, 0
  {
    s == p + rest && SpellsUnit(strict, p, units[0]) && SpellsUnits(strict, rest, units[1..])
  }

  ghost predicate SpellsString(strict: bool, s: string, t: Text) {
    exists body :: s == "\"" + body + "\"" && SpellsUnits(strict, body, UnitsOf(t))
  }

  /** Space may stand around a value. */
  ghost predicate SpellsItem(strict: bool, s: string, v: Json)
    decreases v, 2
  {
    exists w1, t, w2 :: ItemParts(strict, s, v, w1, t, w2)
  }

  ghost predicate ItemParts(strict: bool, s: string, v: Json, w1: string, t: string, w2: string)
    decreases v, 1
  {
    s == w1 + t + w2 && IsSpace(w1) && IsSpace(w2) && SpellsValue(strict, t, v)
  }

  ghost predicate SpellsValue(strict: bool, s: string, v: Json)
    decreases v, 0
  {
    match v
    case Null => s == "null"
    case Bool(b) => s == if b then "true" else "false"
    case Num(lexeme) => s == lexeme && IsNumber(s)
    case Str(t) => SpellsString(strict, s, t)
    case Arr(items) =>
      exists inner ::
        s == "[" + inner + "]" && (if items == [] then IsSpace(inner) else SpellsItems(strict, inner, items))
    case Obj(members) =>
      exists inner ::
        s == "{" + inner + "}" && (if members == [] then IsSpace(inner) else SpellsMembers(strict, inner, members))
  }

  ghost predicate SpellsItems(strict: bool, s: string, items: seq<Json>)
    requires items != []
    decreases items, 1
  {
    if |items| == 1 then SpellsItem(strict, s, items[0])
    else exists a, rest :: ItemsParts(strict, s, items, a, rest)
  }

  ghost predicate ItemsParts(strict: bool, s: string, items: seq<Json>, a: string, rest: string)
    requires |items| > 1
    decreases items, 0
  {
    s == a + "," + rest && SpellsItem(strict, a, items[0]) && SpellsItems(strict, rest, items[1..])
  }

  ghost predicate SpellsMembers(strict: bool, s: string, members: seq<Member>)
    requires members != []
    decreases members, 1
  {
    if |members| == 1 then SpellsMember(strict, s, members[0])
    else exists a, rest :: MembersParts(strict, s, members, a, rest)
  }

  ghost predicate MembersParts(strict: bool, s: string, members: seq<Member>, a: string, rest: string)
    requires |members| > 1
    decreases members, 0
  {
    s == a + "," + rest && SpellsMember(strict, a, members[0]) && SpellsMembers(strict, rest, members[1..])
  }

  ghost predicate SpellsMember(strict: bool, s: string, m: Member)
    decreases m, 1
  {
    exists a, b :: MemberParts(strict, s, m, a, b)
  }

  ghost predicate MemberParts(strict: bool, s: string, m: Member, a: string, b: string)
    decreases m, 0
  {
    s == a + ":" + b && SpellsKey(strict, a, m.key) && SpellsItem(strict, b, m.value)
  }

  ghost predicate SpellsKey(strict: bool, s: string, key: Text) {
    exists w1, t, w2 :: KeyParts(strict, s, key, w1, t, w2)
  }

  ghost predicate KeyParts(strict: bool, s: string, key: Text, w1: string, t: string, w2: string) {
    s == w1 + t + w2 && IsSpace(w1) && IsSpace(w2) && SpellsString(strict, t, key)
  }

  // ------------------------------------------------------------ space

  /** What follows space, or nothing. */
  predicate Dark(s: string) {
    s == "" || s[0] !in " \t\n\r"
  }

  lemma {:induction false} SpaceIsSkipped(w: string, s: string)
    requires IsSpace(w) && Dark(s)
    ensures SkipSpace(w + s) == s
  {
    if w == "" {
      assert w + s == s;
    } else {
      assert (w + s)[0] == w[0] && (w + s)[1..] == w[1..] + s;
      SpaceIsSkipped(w[1..], s);
    }
  }

  lemma {:induction false} SkippedIsSpace(s: string) returns (w: string)
    ensures s == w + SkipSpace(s) && IsSpace(w) && Dark(SkipSpace(s))
  {
    if s != "" && s[0] in " \t\n\r" {
      var v := SkippedIsSpace(s[1..]);
      w := [s[0]] + v;
    } else {
      w := "";
    }
  }

  // ------------------------------------------------------------ numbers

  lemma {:induction false} DigitsSkipped(d: string, r: string)
    requires (forall i :: 0 <= i < |d| ==> '0' <= d[i] <= '9') && (r == "" || !IsDigit(r[0]))
    ensures SkipDigits(d + r) == r
  {
    if d == "" {
      assert d + r == r;
    } else {
      assert (d + r)[0] == d[0] && (d + r)[1..] == d[1..] + r;
      DigitsSkipped(d[1..], r);
    }
  }

  lemma {:induction false} SkippedAreDigits(s: string) returns (d: string)
    ensures s == d + SkipDigits(s) && forall i :: 0 <= i < |d| ==> '0' <= d[i] <= '9'
  {
    if s != "" && IsDigit(s[0]) {
      var e := SkippedAreDigits(s[1..]);
      d := [s[0]] + e;
    } else {
      d := "";
    }
  }

  lemma SomeSkipped(s: string) returns (d: string)
    requires SkipSomeDigits(s).Some?
    ensures AreDigits(d) && s == d + SkipSomeDigits(s).value
  {
    var e := SkippedAreDigits(s[1..]);
    d := [s[0]] + e;
  }

  lemma SomeDigitsSkipped(d: string, r: string)
    requires AreDigits(d) && (r == "" || !IsDigit(r[0]))
    ensures SkipSomeDigits(d + r) == Some(r)
  {
    assert (d + r)[0] == d[0] && (d + r)[1..] == d[1..] + r;
    DigitsSkipped(d[1..], r);
  }

  lemma SkippedIsInteger(s: string) returns (sign: string, i: string)
    requires SkipInteger(s).Some?
    ensures s == sign + i + SkipInteger(s).value && (sign == "" || sign == "-") && IsInteger(i)
  {
    sign := if s != "" && s[0] == '-' then "-" else "";
    var digits := s[|sign|..];
    if digits[0] == '0' {
      i := "0";
      assert digits == i + digits[1..];
    } else {
      i := SomeSkipped(digits);
      assert i[0] == digits[0];
    }
    assert s == sign + digits;
  }

  lemma IntegerSkipped(sign: string, i: string, r: string)
    requires (sign == "" || sign == "-") && IsInteger(i) && (r == "" || !IsDigit(r[0]))
    ensures SkipInteger(sign + i + r) == Some(r)
  {
    var s := sign + i + r;
    assert s[|sign|..] == i + r && (i + r)[0] == i[0];
    assert sign == "" ==> s == i + r;
    if i[0] == '0' { assert (i + r)[1..] == r; } else { SomeDigitsSkipped(i, r); }
  }

  lemma SkippedIsFraction(s: string) returns (f: string)
    requires SkipFraction(s).Some?
    ensures s == f + SkipFraction(s).value && IsFraction(f)
  {
    if s == "" || s[0] != '.' {
      f := "";
    } else {
      var d := SomeSkipped(s[1..]);
      f := "." + d;
      assert f[1..] == d;
    }
  }

  lemma SkippedIsExponent(s: string) returns (e: string)
    requires SkipExponent(s).Some?
    ensures s == e + SkipExponent(s).value && IsExponent(e)
  {
    if s == "" || s[0] !in "eE" {
      e := "";
    } else if |s| > 1 && s[1] in "+-" {
      var d := SomeSkipped(s[2..]);
      e := s[..2] + d;
      assert e[2..] == d && s == s[..2] + s[2..];
    } else {
      var d := SomeSkipped(s[1..]);
      e := s[..1] + d;
      assert e[1..] == d && s == s[..1] + s[1..];
    }
  }

  /** What is skipped as a number is one. */
  lemma SkippedIsNumber(s: string)
    requires SkipNumber(s).Some?
    ensures var r := SkipNumber(s).value; r == s[|s| - |r|..] && IsNumber(s[..|s| - |r|])
  {
    var r := SkipNumber(s).value;
    var r1 := SkipInteger(s).value;
    var r2 := SkipFraction(r1).value;
    var sign, i := SkippedIsInteger(s);
    var f := SkippedIsFraction(r1);
    var e := SkippedIsExponent(r2);
    Four(sign + i, f, e, r);
    assert s == sign + i + f + e + r;
    assert NumberParts(s[..|s| - |r|], sign, i, f, e);
  }

  lemma Four(a: string, b: string, c: string, d: string)
    ensures a + (b + (c + d)) == a + b + c + d && (a + b + c + d)[..|a| + |b| + |c|] == a + b + c
    ensures (a + b + c + d)[|a| + |b| + |c|..] == d
  {}

  lemma FractionSkipped(f: string, e: string)
    requires IsFraction(f) && IsExponent(e)
    ensures SkipFraction(f + e) == Some(e)
  {
    if f == "" {
      assert f + e == e;
    } else {
      assert (f + e)[0] == '.' && (f + e)[1..] == f[1..] + e;
      SomeDigitsSkipped(f[1..], e);
    }
  }

  lemma ExponentSkipped(e: string)
    requires IsExponent(e)
    ensures SkipExponent(e) == Some("")
  {
    if e != "" {
      if |e| > 1 && e[1] in "+-" {
        SomeDigitsSkipped(e[2..], "");
        assert e[2..] + "" == e[2..];
      } else {
        SomeDigitsSkipped(e[1..], "");
        assert e[1..] + "" == e[1..];
      }
    }
  }

  /** A text is skipped whole if and only if it is a number. */
  lemma NumberExactlyWhen(s: string)
    ensures SkipNumber(s) == Some("") <==> IsNumber(s)
  {
    if SkipNumber(s) == Some("") {
      SkippedIsNumber(s);
      assert s[..|s| - 0] == s;
    }
    if sign, i, f, e :| NumberParts(s, sign, i, f, e) {
      assert s == sign + i + (f + e);
      assert f + e == "" || !IsDigit((f + e)[0]);
      IntegerSkipped(sign, i, f + e);
      FractionSkipped(f, e);
      ExponentSkipped(e);
    }
  }

  // ------------------------------------------------------------ strings

  lemma HexValueIs(c: char, d: nat)
    ensures HexValue(c) == Some(d) <==> IsHexDigit(c, d)
  {}

  lemma Hex4Is(s: string, n: nat)
    requires |s| >= 4
    ensures Hex4(s) == Some(n)
       <==> && (forall i :: 0 <= i < 4 ==> HexValue(s[i]).Some?)
            && n == 4096 * HexValue(s[0]).value + 256 * HexValue(s[1]).value + 16 * HexValue(s[2]).value
                    + HexValue(s[3]).value
  {
    assert HexRead(s, 0) == Some(0);
    assert HexRead(s, 1).Some? <==> HexValue(s[0]).Some?;
    assert HexRead(s, 2).Some? <==> HexRead(s, 1).Some? && HexValue(s[1]).Some?;
    assert HexRead(s, 3).Some? <==> HexRead(s, 2).Some? && HexValue(s[2]).Some?;
  }

  lemma FourAre(x: char, y: char, z: char, w: char, n: nat)
    ensures FourSpell(x, y, z, w, n)
       <==> && HexValue(x).Some? && HexValue(y).Some? && HexValue(z).Some? && HexValue(w).Some?
            && n == 4096 * HexValue(x).value + 256 * HexValue(y).value + 16 * HexValue(z).value + HexValue(w).value
  {
    forall c: char, d: nat ensures HexValue(c) == Some(d) <==> IsHexDigit(c, d) { HexValueIs(c, d); }
    if HexValue(x).Some? && HexValue(y).Some? && HexValue(z).Some? && HexValue(w).Some? {
      assert IsHexDigit(x, HexValue(x).value) && IsHexDigit(y, HexValue(y).value);
      assert IsHexDigit(z, HexValue(z).value) && IsHexDigit(w, HexValue(w).value);
    }
  }

  lemma UnicodeIs(s: string, n: nat)
    requires |s| >= 6 && s[0] == '\\' && s[1] == 'u'
    ensures Hex4(s[2..]) == Some(n) <==> IsUnicode(s[..6], n)
  {
    var t := s[2..];
    Hex4Is(t, n);
    FourAre(s[2], s[3], s[4], s[5], n);
    assert t[0] == s[2] && t[1] == s[3] && t[2] == s[4] && t[3] == s[5];
  }

  lemma LowIs(s: string, l: nat)
    ensures LowSurrogate(s) == Some(l) <==> |s| >= 6 && IsUnicode(s[..6], l) && IsLow(l)
  {
    if |s| >= 6 && s[0] == '\\' && s[1] == 'u' { UnicodeIs(s, l); }
  }

  lemma UnicodeSound(strict: bool, s: string)
    requires |s| >= 2 && s[0] == '\\' && s[1] == 'u' && ParseUnicodeEscape(strict, s[2..]).Some?
    ensures var e := ParseUnicodeEscape(strict, s[2..]).value;
            s[|s| - |e.rest|..] == e.rest && SpellsUnit(strict, s[..|s| - |e.rest|], e.value)
  {
    var e, h := ParseUnicodeEscape(strict, s[2..]).value, Hex4(s[2..]).value;
    UnicodeIs(s, h);
    var t := s[2..][4..];
    assert t == s[6..];
    if IsHigh(h) && LowSurrogate(t).Some? {
      LowIs(t, LowSurrogate(t).value);
      assert s[2..][10..] == s[12..];
      assert s[..12][..6] == s[..6] && s[..12][6..] == t[..6];
      assert IsPair(s[..12], e.value.c, h, LowSurrogate(t).value);
    }
  }

  lemma LetterIs(letter: char, c: char)
    ensures SimpleEscape(letter) == Some(c) <==> Escapes(letter, c)
    ensures !Escapes('u', c)
  {}

  lemma EscapeSound(strict: bool, s: string)
    requires |s| >= 2 && s[0] == '\\' && ParseEscape(strict, s[1..]).Some?
    ensures var e := ParseEscape(strict, s[1..]).value;
            s[|s| - |e.rest|..] == e.rest && SpellsUnit(strict, s[..|s| - |e.rest|], e.value)
  {
    assert s[1..][1..] == s[2..];
    if s[1] == 'u' {
      UnicodeSound(strict, s);
    } else {
      LetterIs(s[1], SimpleEscape(s[1]).value);
    }
  }

  /** The first unit of a string, as it is spelled. */
  lemma FirstSound(strict: bool, s: string) returns (p: string, u: Unit, rest: string)
    requires ParseString(strict, s).Some? && s[0] != '"'
    ensures s == p + rest && p != "" && SpellsUnit(strict, p, u)
    ensures ParseString(strict, s) == Prepend(u, ParseString(strict, rest)) && ParseString(strict, rest).Some?
  {
    if s[0] == '\\' {
      EscapeSound(strict, s);
      u, rest := ParseEscape(strict, s[1..]).value.value, ParseEscape(strict, s[1..]).value.rest;
      p := s[..|s| - |rest|];
    } else {
      p, u, rest := s[..1], Scalar(s[0]), s[1..];
      assert p == [s[0]];
    }
  }

  lemma Joined3(p: string, tail: string, rest: string)
    ensures p + (tail + "\"" + rest) == (p + tail) + "\"" + rest
  {}

  /** What is read as a string is spelled before its closing quote. */
  lemma {:induction false} StringSound(strict: bool, s: string) returns (body: string)
    requires ParseString(strict, s).Some?
    ensures s == body + "\"" + ParseString(strict, s).value.rest
    ensures SpellsUnits(strict, body, ParseString(strict, s).value.value)
    decreases |s|
  {
    if s[0] == '"' {
      body := "";
      assert s == "\"" + s[1..];
    } else {
      var p, u, rest := FirstSound(strict, s);
      var tail := StringSound(strict, rest);
      body := p + tail;
      SpellsFirst(strict, p, tail, u, ParseString(strict, rest).value.value);
      Joined3(p, tail, ParseString(strict, rest).value.rest);
    }
  }

  lemma SpellsFirst(strict: bool, p: string, rest: string, u: Unit, units: seq<Unit>)
    requires SpellsUnit(strict, p, u) && SpellsUnits(strict, rest, units)
    ensures SpellsUnits(strict, p + rest, [u] + units)
  {
    assert ([u] + units)[1..] == units;
    assert UnitsParts(strict, p + rest, [u] + units, p, rest);
  }

  /** A unit spelled before what does not pair with it is read as this unit. */
  lemma UnitRead(strict: bool, p: string, u: Unit, tail: string)
    requires SpellsUnit(strict, p, u) && (u.Lone? && IsHigh(u.u) ==> LowSurrogate(tail).None?)
    ensures ParseString(strict, p + tail) == Prepend(u, ParseString(strict, tail))
  {
    if |p| == 1 {
      PlainRead(strict, p[0], tail);
      assert p == [p[0]];
    } else {
      EscapeRead(strict, p, u, tail);
      EscapedRead(strict, p, u, tail);
    }
  }

  lemma PlainRead(strict: bool, c: char, tail: string)
    requires c as nat >= 0x20 && c != '"' && c != '\\'
    ensures ParseString(strict, [c] + tail) == Prepend(Scalar(c), ParseString(strict, tail))
  {
    var s := [c] + tail;
    assert s[0] == c && s[1..] == tail;
  }

  lemma EscapedRead(strict: bool, p: string, u: Unit, tail: string)
    requires p != "" && p[0] == '\\' && ParseEscape(strict, p[1..] + tail) == Some(Parsed(u, tail))
    ensures ParseString(strict, p + tail) == Prepend(u, ParseString(strict, tail))
  {
    var s := p + tail;
    assert s[0] == '\\' && s[1..] == p[1..] + tail;
  }

  lemma EscapeRead(strict: bool, p: string, u: Unit, tail: string)
    requires SpellsUnit(strict, p, u) && |p| > 1 && (u.Lone? && IsHigh(u.u) ==> LowSurrogate(tail).None?)
    ensures p[0] == '\\' && ParseEscape(strict, p[1..] + tail) == Some(Parsed(u, tail))
  {
    var s := p[1..] + tail;
    if |p| == 2 {
      LetterIs(p[1], u.c);
      assert s[0] == p[1] && s[1..] == tail;
    } else if |p| == 6 {
      OneUnicodeRead(strict, p, u, tail);
    } else {
      var h: nat, l: nat :| IsPair(p, u.c, h, l);
      PairRead(strict, p, u.c, h, l, tail);
    }
  }

  lemma OneUnicodeRead(strict: bool, p: string, u: Unit, tail: string)
    requires |p| == 6 && IsUnicode(p, if u.Scalar? then u.c as nat else u.u) && (u.Lone? ==> !strict)
    requires u.Lone? && IsHigh(u.u) ==> LowSurrogate(tail).None?
    ensures ParseEscape(strict, p[1..] + tail) == Some(Parsed(u, tail))
  {
    var s, n := p[1..] + tail, if u.Scalar? then u.c as nat else u.u;
    var t := p + tail;
    assert t[..6] == p && t[2..] == s[1..] && s[1..][4..] == tail && s[0] == 'u';
    UnicodeIs(t, n);
  }

  lemma PairRead(strict: bool, p: string, c: char, h: nat, l: nat, tail: string)
    requires IsPair(p, c, h, l)
    ensures ParseEscape(strict, p[1..] + tail) == Some(Parsed(Scalar(c), tail))
  {
    PairPlaces(p, tail);
    UnicodeIs(p + tail, h);
    LowIs((p + tail)[6..], l);
    PairIs(strict, p[1..] + tail, (p + tail)[2..], (p + tail)[6..], h, l, tail);
  }

  lemma PairPlaces(p: string, tail: string)
    requires |p| == 12
    ensures var s, t := p[1..] + tail, p + tail;
            && t[..6] == p[..6] && t[0] == p[0] && t[1] == p[1] && s[0] == p[1] && s[1..] == t[2..]
            && t[2..][4..] == t[6..] && t[6..][..6] == p[6..] && t[2..][10..] == tail
  {}

  lemma PairIs(strict: bool, s: string, first: string, second: string, h: nat, l: nat, tail: string)
    requires s != "" && s[0] == 'u' && s[1..] == first && |first| >= 10 && first[4..] == second && first[10..] == tail
    requires Hex4(first) == Some(h) && LowSurrogate(second) == Some(l) && IsHigh(h) && IsLow(l)
    ensures ParseEscape(strict, s)
            == Some(Parsed(Scalar((0x1_0000 + (h - 0xD800) * 0x400 + (l - 0xDC00)) as char), tail))
  {}

  lemma NotLowAfter(strict: bool, p: string, u: Unit, tail: string)
    requires SpellsUnit(strict, p, u) && !(u.Lone? && IsLow(u.u))
    ensures LowSurrogate(p + tail).None?
  {
    var s := p + tail;
    assert s[0] == p[0];
    if |p| == 2 {
      assert s[1] == p[1];
      LetterIs(p[1], u.c);
    } else if |p| >= 6 {
      assert s[1] == p[1] && s[..6] == p[..6];
      CodeNotLow(strict, p, u, s);
    }
  }

  lemma CodeNotLow(strict: bool, p: string, u: Unit, s: string)
    requires SpellsUnit(strict, p, u) && |p| >= 6 && |s| >= 6 && s[..6] == p[..6] && !(u.Lone? && IsLow(u.u))
    ensures LowSurrogate(s).None?
  {
    if LowSurrogate(s).Some? {
      var l := LowSurrogate(s).value;
      LowIs(s, l);
      UnicodeIs(s, l);
      OtherCode(strict, p, u, l, s);
    }
  }

  lemma OtherCode(strict: bool, p: string, u: Unit, l: nat, s: string)
    requires SpellsUnit(strict, p, u) && |p| >= 6 && |s| >= 6 && s[..6] == p[..6] && s[0] == '\\' && s[1] == 'u'
    requires Hex4(s[2..]) == Some(l) && !(u.Lone? && IsLow(u.u))
    ensures !IsLow(l)
  {
    if |p| == 6 {
      assert p[..6] == p;
      UnicodeIs(s, if u.Scalar? then u.c as nat else u.u);
    } else {
      var h: nat, low: nat :| IsPair(p, u.c, h, low);
      UnicodeIs(s, h);
    }
  }

  /** The rest of a string does not pair with what stands before it, unless it starts with a lone low surrogate. */
  lemma TailDoesNotPair(strict: bool, body: string, units: seq<Unit>, rest: string)
    requires SpellsUnits(strict, body, units) && (units == [] || !(units[0].Lone? && IsLow(units[0].u)))
    ensures LowSurrogate(body + "\"" + rest).None?
  {
    if units != [] {
      var p, tail :| UnitsParts(strict, body, units, p, tail);
      Joined3(p, tail, rest);
      NotLowAfter(strict, p, units[0], tail + "\"" + rest);
    }
  }

  lemma FirstRead(strict: bool, p: string, tail: string, units: seq<Unit>, rest: string)
    requires units != [] && Unpaired(units)
    requires SpellsUnit(strict, p, units[0]) && SpellsUnits(strict, tail, units[1..])
    ensures var s := tail + "\"" + rest; ParseString(strict, p + s) == Prepend(units[0], ParseString(strict, s))
  {
    assert |units| > 1 ==> !WouldPair(units[0], units[1]);
    if units[0].Lone? && IsHigh(units[0].u) { TailDoesNotPair(strict, tail, units[1..], rest); }
    UnitRead(strict, p, units[0], tail + "\"" + rest);
  }

  lemma {:induction false} UnitsRead(strict: bool, body: string, units: seq<Unit>, rest: string)
    requires SpellsUnits(strict, body, units) && Unpaired(units)
    ensures ParseString(strict, body + "\"" + rest) == Some(Parsed(units, rest))
    decreases |units|
  {
    if units == [] {
      var s := body + "\"" + rest;
      assert s[0] == '"' && s[1..] == rest;
    } else {
      var p, tail :| UnitsParts(strict, body, units, p, tail);
      UnpairedTail(units);
      UnitsRead(strict, tail, units[1..], rest);
      FirstRead(strict, p, tail, units, rest);
      Joined3(p, tail, rest);
      assert units == [units[0]] + units[1..];
    }
  }

  lemma TextualSound(strict: bool, s: string, t: Text, rest: string)
    requires s != "" && s[0] == '"' && ParseTextual(strict, s[1..]) == Some(Parsed(t, rest))
    ensures |rest| <= |s| && s[|s| - |rest|..] == rest && SpellsString(strict, s[..|s| - |rest|], t)
  {
    var units := ParseString(strict, s[1..]).value.value;
    var body := StringSound(strict, s[1..]);
    StringUnpaired(strict, s[1..]);
    PackOfUnits(t, units);
    var quoted := "\"" + body + "\"";
    assert s == [s[0]] + s[1..];
    Joined3("\"", body, rest);
    assert s == quoted + rest;
  }

  lemma QuoteOpened(body: string, rest: string)
    ensures var q := "\"" + body + "\""; q[0] == '"' && (q + rest)[1..] == body + "\"" + rest
  {}

  lemma TextualRead(strict: bool, q: string, t: Text, rest: string)
    requires SpellsString(strict, q, t)
    ensures q != "" && q[0] == '"' && ParseTextual(strict, (q + rest)[1..]) == Some(Parsed(t, rest))
  {
    var body :| q == "\"" + body + "\"" && SpellsUnits(strict, body, UnitsOf(t));
    QuoteOpened(body, rest);
    UnitsTextual(strict, body, t, rest);
  }

  lemma UnitsTextual(strict: bool, body: string, t: Text, rest: string)
    requires SpellsUnits(strict, body, UnitsOf(t))
    ensures ParseTextual(strict, body + "\"" + rest) == Some(Parsed(t, rest))
  {
    UnitsUnpaired(t);
    UnitsRead(strict, body, UnitsOf(t), rest);
    PackOfUnits(t, []);
  }

  // ------------------------------------------------------------ what is read is spelled

  lemma ItemOf(strict: bool, w: string, t: string, v: string, x: Json)
    requires IsSpace(w) && IsSpace(v) && SpellsValue(strict, t, x)
    ensures SpellsItem(strict, w + t + v, x)
  {
    assert ItemParts(strict, w + t + v, x, w, t, v);
  }

  lemma SpaceJoins(w: string, v: string)
    requires IsSpace(w) && IsSpace(v)
    ensures IsSpace(w + v)
  {}

  lemma {:induction false} ValueSound(strict: bool, s: string) returns (t: string)
    requires ParseValue(strict, s).Some?
    ensures s == t + ParseValue(strict, s).value.rest && SpellsValue(strict, t, ParseValue(strict, s).value.value)
    decreases |s|, 0
  {
    var p := ParseValue(strict, s).value;
    if s[0] == '"' {
      TextualSound(strict, s, p.value.s, p.rest);
      t := s[..|s| - |p.rest|];
    } else if s[0] == '[' {
      t := ArraySound(strict, s);
    } else if s[0] == '{' {
      t := ObjectSound(strict, s);
    } else {
      t := AtomSound(strict, s);
    }
  }

  lemma AtomSound(strict: bool, s: string) returns (t: string)
    requires s != "" && s[0] != '"' && s[0] != '[' && s[0] != '{' && ParseValue(strict, s).Some?
    ensures s == t + ParseValue(strict, s).value.rest && SpellsValue(strict, t, ParseValue(strict, s).value.value)
  {
    if "null" <= s {
      t := WordSound(strict, s, "null", Null);
    } else if "true" <= s {
      t := WordSound(strict, s, "true", Bool(true));
    } else if "false" <= s {
      t := WordSound(strict, s, "false", Bool(false));
    } else {
      SkippedIsNumber(s);
      t := s[..|s| - |ParseValue(strict, s).value.rest|];
    }
  }

  lemma WordSound(strict: bool, s: string, word: string, v: Json) returns (t: string)
    requires word <= s && ParseValue(strict, s) == Some(Parsed(v, s[|word|..])) && SpellsValue(strict, word, v)
    ensures s == t + ParseValue(strict, s).value.rest && SpellsValue(strict, t, ParseValue(strict, s).value.value)
  {
    t := word;
    assert s == s[..|word|] + s[|word|..];
  }

  lemma {:induction false} ArraySound(strict: bool, s: string) returns (t: string)
    requires s != "" && s[0] == '[' && ParseValue(strict, s).Some?
    ensures s == t + ParseValue(strict, s).value.rest && SpellsValue(strict, t, ParseValue(strict, s).value.value)
    decreases |s| - 1, 2
  {
    var p, inner := ParseValue(strict, s).value, SkipSpace(s[1..]);
    var w := SkippedIsSpace(s[1..]);
    var body;
    if inner != "" && inner[0] == ']' {
      body := w;
      Closed(w, inner, "]", p.rest);
    } else {
      var items := ElementsSound(strict, inner);
      body := w + items;
      SpacedItems(strict, w, items, p.value.items);
      Inner(w, items, "]", p.rest);
    }
    t := "[" + body + "]";
    Wrapped(s, "[", body, "]", p.rest);
  }

  lemma Closed(w: string, inner: string, close: string, rest: string)
    requires inner != "" && |close| == 1 && inner[0] == close[0] && inner[1..] == rest
    ensures w + inner == w + close + rest
  {
    assert inner == close + rest;
  }

  lemma Inner(w: string, items: string, close: string, rest: string)
    ensures w + (items + close + rest) == (w + items) + close + rest
  {}

  lemma Wrapped(s: string, open: string, body: string, close: string, rest: string)
    requires s != "" && |open| == 1 && s[0] == open[0] && s[1..] == body + close + rest
    ensures s == (open + body + close) + rest
  {
    assert s == open + s[1..];
    assert open + (body + close + rest) == (open + body + close) + rest;
  }

  lemma {:induction false} ObjectSound(strict: bool, s: string) returns (t: string)
    requires s != "" && s[0] == '{' && ParseValue(strict, s).Some?
    ensures s == t + ParseValue(strict, s).value.rest && SpellsValue(strict, t, ParseValue(strict, s).value.value)
    decreases |s| - 1, 2
  {
    var p, inner := ParseValue(strict, s).value, SkipSpace(s[1..]);
    var w := SkippedIsSpace(s[1..]);
    var body;
    if inner != "" && inner[0] == '}' {
      body := w;
      Closed(w, inner, "}", p.rest);
    } else {
      var members := MembersSound(strict, inner);
      body := w + members;
      SpacedMembers(strict, w, members, p.value.members);
      Inner(w, members, "}", p.rest);
    }
    t := "{" + body + "}";
    Wrapped(s, "{", body, "}", p.rest);
  }

  lemma SpacedItem(strict: bool, w: string, s: string, v: Json)
    requires IsSpace(w) && SpellsItem(strict, s, v)
    ensures SpellsItem(strict, w + s, v)
  {
    var w1, t, w2 :| ItemParts(strict, s, v, w1, t, w2);
    SpaceJoins(w, w1);
    Pushed(w, s, w1, t, w2);
    ItemOf(strict, w + w1, t, w2, v);
  }

  lemma PushedList(w: string, a: string, rest: string)
    ensures w + (a + "," + rest) == (w + a) + "," + rest
  {}

  lemma SpacedItems(strict: bool, w: string, s: string, items: seq<Json>)
    requires IsSpace(w) && items != [] && SpellsItems(strict, s, items)
    ensures SpellsItems(strict, w + s, items)
  {
    if |items| == 1 {
      SpacedItem(strict, w, s, items[0]);
    } else {
      var a, rest :| ItemsParts(strict, s, items, a, rest);
      SpacedItem(strict, w, a, items[0]);
      PushedList(w, a, rest);
      assert ItemsParts(strict, w + s, items, w + a, rest);
    }
  }

  lemma KeyOf(strict: bool, w: string, t: string, v: string, key: Text)
    requires IsSpace(w) && IsSpace(v) && SpellsString(strict, t, key)
    ensures SpellsKey(strict, w + t + v, key)
  {
    assert KeyParts(strict, w + t + v, key, w, t, v);
  }

  lemma Pushed(w: string, s: string, w1: string, t: string, w2: string)
    requires s == w1 + t + w2
    ensures w + s == (w + w1) + t + w2
  {}

  lemma SpacedKey(strict: bool, w: string, s: string, key: Text)
    requires IsSpace(w) && SpellsKey(strict, s, key)
    ensures SpellsKey(strict, w + s, key)
  {
    var w1, t, w2 :| KeyParts(strict, s, key, w1, t, w2);
    SpaceJoins(w, w1);
    Pushed(w, s, w1, t, w2);
    KeyOf(strict, w + w1, t, w2, key);
  }

  lemma SpacedMember(strict: bool, w: string, s: string, m: Member)
    requires IsSpace(w) && SpellsMember(strict, s, m)
    ensures SpellsMember(strict, w + s, m)
  {
    var a, b :| MemberParts(strict, s, m, a, b);
    SpacedKey(strict, w, a, m.key);
    assert w + s == (w + a) + ":" + b;
    assert MemberParts(strict, w + s, m, w + a, b);
  }

  lemma SpacedMembers(strict: bool, w: string, s: string, members: seq<Member>)
    requires IsSpace(w) && members != [] && SpellsMembers(strict, s, members)
    ensures SpellsMembers(strict, w + s, members)
  {
    if |members| == 1 {
      SpacedMember(strict, w, s, members[0]);
    } else {
      var a, rest :| MembersParts(strict, s, members, a, rest);
      SpacedMember(strict, w, a, members[0]);
      PushedList(w, a, rest);
      assert MembersParts(strict, w + s, members, w + a, rest);
    }
  }

  lemma HeadAndTail(w: string, after: string)
    requires after != ""
    ensures w + after == w + [after[0]] + after[1..]
  {
    assert after == [after[0]] + after[1..];
  }

  /** A separator or a closing character after space. */
  lemma CharacterFound(r: string) returns (w: string)
    requires SkipSpace(r) != ""
    ensures IsSpace(w) && r == w + [SkipSpace(r)[0]] + SkipSpace(r)[1..]
  {
    w := SkippedIsSpace(r);
    HeadAndTail(w, SkipSpace(r));
  }

  lemma FirstItem(strict: bool, s: string, first: string, v: Json, r: string) returns (a: string)
    requires s == first + r && SpellsValue(strict, first, v) && SkipSpace(r) != ""
    ensures SpellsItem(strict, a, v) && s == a + [SkipSpace(r)[0]] + SkipSpace(r)[1..]
  {
    var w := SkippedIsSpace(r);
    ItemOf(strict, "", first, w, v);
    a := first + w;
    assert "" + first + w == a;
    BeforeSeparator(first, w, SkipSpace(r));
  }

  lemma BeforeSeparator(first: string, w: string, after: string)
    requires after != ""
    ensures first + (w + after) == (first + w) + [after[0]] + after[1..]
  {
    assert after == [after[0]] + after[1..];
  }

  lemma {:induction false} ElementsSound(strict: bool, s: string) returns (t: string)
    requires ParseElements(strict, s).Some?
    ensures ParseElements(strict, s).value.value != []
    ensures s == t + "]" + ParseElements(strict, s).value.rest
    ensures SpellsItems(strict, t, ParseElements(strict, s).value.value)
    decreases |s|, 1
  {
    var v, p := ParseValue(strict, s).value, ParseElements(strict, s).value;
    var first := ValueSound(strict, s);
    var after := SkipSpace(v.rest);
    var a := FirstItem(strict, s, first, v.value, v.rest);
    if after[0] == ',' {
      var next := SkipSpace(after[1..]);
      var w := SkippedIsSpace(after[1..]);
      var rest := ElementsSound(strict, next);
      var items := ParseElements(strict, next).value.value;
      SpacedItems(strict, w, rest, items);
      t := a + "," + (w + rest);
      MoreItems(strict, a, w + rest, v.value, items);
      Listed(a, w, rest, "]", p.rest);
    } else {
      t := a;
    }
  }

  lemma Listed(a: string, w: string, rest: string, close: string, after: string)
    ensures a + "," + (w + (rest + close + after)) == (a + "," + (w + rest)) + close + after
  {}

  lemma MoreItems(strict: bool, a: string, rest: string, v: Json, items: seq<Json>)
    requires items != [] && SpellsItem(strict, a, v) && SpellsItems(strict, rest, items)
    ensures SpellsItems(strict, a + "," + rest, [v] + items)
  {
    assert ([v] + items)[1..] == items;
    assert ItemsParts(strict, a + "," + rest, [v] + items, a, rest);
  }

  lemma MoreMembers(strict: bool, a: string, rest: string, m: Member, members: seq<Member>)
    requires members != [] && SpellsMember(strict, a, m) && SpellsMembers(strict, rest, members)
    ensures SpellsMembers(strict, a + "," + rest, [m] + members)
  {
    assert ([m] + members)[1..] == members;
    assert MembersParts(strict, a + "," + rest, [m] + members, a, rest);
  }

  lemma FirstMember(strict: bool, s: string, first: string, m: Member, r: string) returns (a: string)
    requires s == first + r && SpellsMember(strict, first, m) && SkipSpace(r) != ""
    ensures SpellsMember(strict, a, m) && s == a + [SkipSpace(r)[0]] + SkipSpace(r)[1..]
  {
    var w := SkippedIsSpace(r);
    MemberSpaced(strict, first, w, m);
    a := first + w;
    BeforeSeparator(first, w, SkipSpace(r));
  }

  lemma {:induction false} MembersSound(strict: bool, s: string) returns (t: string)
    requires ParseMembers(strict, s).Some?
    ensures ParseMembers(strict, s).value.value != []
    ensures s == t + "}" + ParseMembers(strict, s).value.rest
    ensures SpellsMembers(strict, t, ParseMembers(strict, s).value.value)
    decreases |s|, 1
  {
    var v, p := ParseMember(strict, s).value, ParseMembers(strict, s).value;
    var first := MemberSound(strict, s);
    var after := SkipSpace(v.rest);
    var a := FirstMember(strict, s, first, v.value, v.rest);
    if after[0] == ',' {
      var next := SkipSpace(after[1..]);
      var w := SkippedIsSpace(after[1..]);
      var rest := MembersSound(strict, next);
      var members := ParseMembers(strict, next).value.value;
      SpacedMembers(strict, w, rest, members);
      t := a + "," + (w + rest);
      MoreMembers(strict, a, w + rest, v.value, members);
      Listed(a, w, rest, "}", p.rest);
    } else {
      t := a;
    }
  }

  lemma ItemSpaced(strict: bool, s: string, w: string, v: Json)
    requires SpellsItem(strict, s, v) && IsSpace(w)
    ensures SpellsItem(strict, s + w, v)
  {
    var w1, t, w2 :| ItemParts(strict, s, v, w1, t, w2);
    SpaceJoins(w2, w);
    ItemOf(strict, w1, t, w2 + w, v);
    assert s + w == w1 + t + (w2 + w);
  }

  /** A member may be followed by space, as its value is. */
  lemma MemberSpaced(strict: bool, s: string, w: string, m: Member)
    requires SpellsMember(strict, s, m) && IsSpace(w)
    ensures SpellsMember(strict, s + w, m)
  {
    var a, b :| MemberParts(strict, s, m, a, b);
    ItemSpaced(strict, b, w, m.value);
    assert s + w == a + ":" + (b + w);
    assert MemberParts(strict, s + w, m, a, b + w);
  }

  lemma {:induction false} MemberSound(strict: bool, s: string) returns (t: string)
    requires ParseMember(strict, s).Some?
    ensures s == t + ParseMember(strict, s).value.rest && SpellsMember(strict, t, ParseMember(strict, s).value.value)
    decreases |s|, 0
  {
    var p := ParseMember(strict, s).value;
    var after := SkipSpace(ParseTextual(strict, s[1..]).value.rest)[1..];
    var a := KeySound(strict, s, p.value.key);
    var w := SkippedIsSpace(after);
    var v := ValueSound(strict, SkipSpace(after));
    ItemAfter(strict, w, v, p.value.value);
    MemberOf(strict, a, w + v, p.value);
    t := a + ":" + (w + v);
    Member4(a, w, v, p.rest);
  }

  lemma Member4(a: string, w: string, v: string, rest: string)
    ensures a + ":" + (w + (v + rest)) == (a + ":" + (w + v)) + rest
  {}

  lemma KeySound(strict: bool, s: string, key: Text) returns (a: string)
    requires s != "" && s[0] == '"' && ParseTextual(strict, s[1..]).Some?
    requires ParseTextual(strict, s[1..]).value.value == key
    requires var after := SkipSpace(ParseTextual(strict, s[1..]).value.rest); after != "" && after[0] == ':'
    ensures SpellsKey(strict, a, key)
    ensures s == a + ":" + SkipSpace(ParseTextual(strict, s[1..]).value.rest)[1..]
  {
    var r := ParseTextual(strict, s[1..]).value.rest;
    TextualSound(strict, s, key, r);
    var q := s[..|s| - |r|];
    var w := SkippedIsSpace(r);
    KeyBefore(strict, q, w, key);
    a := q + w;
    KeyJoined(s, q, r, w, SkipSpace(r));
  }

  lemma KeyJoined(s: string, q: string, r: string, w: string, after: string)
    requires |r| <= |s| && q == s[..|s| - |r|] && s[|s| - |r|..] == r && r == w + after && after != ""
    ensures s == (q + w) + [after[0]] + after[1..]
  {
    BeforeSeparator(q, w, after);
    assert s == q + r;
  }

  lemma KeyBefore(strict: bool, q: string, w: string, key: Text)
    requires SpellsString(strict, q, key) && IsSpace(w)
    ensures SpellsKey(strict, q + w, key)
  {
    assert "" + q + w == q + w;
    KeyOf(strict, "", q, w, key);
  }

  lemma ItemAfter(strict: bool, w: string, t: string, v: Json)
    requires IsSpace(w) && SpellsValue(strict, t, v)
    ensures SpellsItem(strict, w + t, v)
  {
    assert w + t + "" == w + t;
    ItemOf(strict, w, t, "", v);
  }

  lemma MemberOf(strict: bool, a: string, b: string, m: Member)
    requires SpellsKey(strict, a, m.key) && SpellsItem(strict, b, m.value)
    ensures SpellsMember(strict, a + ":" + b, m)
  {
    assert MemberParts(strict, a + ":" + b, m, a, b);
  }

  // ------------------------------------------------------------ what is spelled is read

  /** A text that starts a value. */
  predicate Starts(s: string) {
    s != "" && s[0] !in " \t\n\r,:]}"
  }

  lemma ValueStarts(strict: bool, t: string, v: Json)
    requires SpellsValue(strict, t, v)
    ensures Starts(t)
  {
    match v
    case Num(_) => NumberStarts(t);
    case Str(x) => TextualRead(strict, t, x, "");
    case Arr(items) =>
      var inner :| t == "[" + inner + "]"
        && (if items == [] then IsSpace(inner) else SpellsItems(strict, inner, items));
      assert t[0] == '[';
    case Obj(members) =>
      var inner :|
        t == "{" + inner + "}" && (if members == [] then IsSpace(inner) else SpellsMembers(strict, inner, members));
      assert t[0] == '{';
    case _ =>
  }

  lemma FirstOf(t: string, sign: string, i: string, f: string, e: string)
    requires t == sign + i + f + e && i != "" && |sign| <= 1
    ensures t != "" && t[0] == if sign == "" then i[0] else sign[0]
  {
    assert (sign + i)[0] == if sign == "" then i[0] else sign[0];
  }

  lemma NumberStarts(t: string)
    requires IsNumber(t)
    ensures Starts(t)
  {
    var sign, i, f, e :| NumberParts(t, sign, i, f, e);
    FirstOf(t, sign, i, f, e);
  }

  /** Space and then a character that is none. */
  lemma SpaceThen(w: string, c: char, rest: string)
    requires IsSpace(w) && c !in " \t\n\r"
    ensures SkipSpace(w + [c] + rest) == [c] + rest
    ensures !ContinuesNumber(c) ==> Delimited(w + [c] + rest)
  {
    SpaceIsSkipped(w, [c] + rest);
    assert w + [c] + rest == w + ([c] + rest);
    if w != "" { assert (w + [c] + rest)[0] == w[0]; }
  }

  lemma {:induction false} ValueRead(strict: bool, t: string, v: Json, rest: string)
    requires SpellsValue(strict, t, v) && (v.Num? ==> Delimited(rest))
    ensures ParseValue(strict, t + rest) == Some(Parsed(v, rest))
    decreases v, 1
  {
    match v
    case Num(lexeme) =>
      NumberExactlyWhen(lexeme);
      ParseNumber(strict, lexeme, rest);
    case Str(x) =>
      TextualRead(strict, t, x, rest);
      assert (t + rest)[0] == t[0];
      ParseStringValue(strict, t + rest, x, rest);
    case Arr(items) => ArrayRead(strict, t, items, rest);
    case Obj(members) => ObjectRead(strict, t, members, rest);
    case _ => ParseLiteral(strict, v, rest);
  }

  lemma Unwrapped(open: string, inner: string, close: string, rest: string)
    requires |open| == 1
    ensures var s := open + inner + close + rest; s[0] == open[0] && s[1..] == inner + close + rest
  {}

  lemma EmptyRead(strict: bool, s: string, inner: string, close: char, rest: string)
    requires s != "" && s[1..] == inner + [close] + rest && IsSpace(inner)
    ensures s[0] == '[' && close == ']' ==> ParseValue(strict, s) == Some(Parsed(Arr([]), rest))
    ensures s[0] == '{' && close == '}' ==> ParseValue(strict, s) == Some(Parsed(Obj([]), rest))
  {
    if close !in " \t\n\r" {
      SpaceThen(inner, close, rest);
      assert ([close] + rest)[1..] == rest;
    }
  }

  lemma {:induction false} ArrayRead(strict: bool, t: string, items: seq<Json>, rest: string)
    requires SpellsValue(strict, t, Arr(items))
    ensures ParseValue(strict, t + rest) == Some(Parsed(Arr(items), rest))
    decreases Arr(items), 0
  {
    var inner :| t == "[" + inner + "]" && (if items == [] then IsSpace(inner) else SpellsItems(strict, inner, items));
    var s := t + rest;
    Unwrapped("[", inner, "]", rest);
    if items == [] {
      EmptyRead(strict, s, inner, ']', rest);
    } else {
      ItemsRead(strict, inner, items, rest, s[1..]);
      BracketRead(strict, s, items, rest);
    }
  }

  lemma BracketRead(strict: bool, s: string, items: seq<Json>, rest: string)
    requires s != "" && s[0] == '[' && Starts(SkipSpace(s[1..]))
    requires ParseElements(strict, SkipSpace(s[1..])) == Some(Parsed(items, rest))
    ensures ParseValue(strict, s) == Some(Parsed(Arr(items), rest))
  {}

  lemma {:induction false} ObjectRead(strict: bool, t: string, members: seq<Member>, rest: string)
    requires SpellsValue(strict, t, Obj(members))
    ensures ParseValue(strict, t + rest) == Some(Parsed(Obj(members), rest))
    decreases Obj(members), 0
  {
    var inner :|
      t == "{" + inner + "}" && (if members == [] then IsSpace(inner) else SpellsMembers(strict, inner, members));
    var s := t + rest;
    Unwrapped("{", inner, "}", rest);
    if members == [] {
      EmptyRead(strict, s, inner, '}', rest);
    } else {
      MembersRead(strict, inner, members, rest, s[1..]);
      BraceRead(strict, s, members, rest);
    }
  }

  lemma BraceRead(strict: bool, s: string, members: seq<Member>, rest: string)
    requires s != "" && s[0] == '{' && Starts(SkipSpace(s[1..]))
    requires ParseMembers(strict, SkipSpace(s[1..])) == Some(Parsed(members, rest))
    ensures ParseValue(strict, s) == Some(Parsed(Obj(members), rest))
  {}

  /** An item before a separator or a closing character. */
  lemma {:induction false} ItemRead(strict: bool, a: string, v: Json, c: char, rest: string, whole: string)
    requires SpellsItem(strict, a, v) && c in ",]}" && whole == a + [c] + rest
    ensures var s := SkipSpace(whole);
            && Starts(s)
            && ParseValue(strict, s).Some? && ParseValue(strict, s).value.value == v
            && SkipSpace(ParseValue(strict, s).value.rest) == [c] + rest
    decreases v, 2
  {
    var w1, t, w2 :| ItemParts(strict, a, v, w1, t, w2);
    var after := w2 + [c] + rest;
    SpaceThen(w2, c, rest);
    ValueStarts(strict, t, v);
    Around(a, w1, t, w2, c, rest);
    SpaceIsSkipped(w1, t + after);
    ValueRead(strict, t, v, after);
  }

  lemma Around(a: string, w1: string, t: string, w2: string, c: char, rest: string)
    requires a == w1 + t + w2
    ensures a + [c] + rest == w1 + (t + (w2 + [c] + rest))
    ensures Starts(t) ==> Starts(t + (w2 + [c] + rest)) && Dark(t + (w2 + [c] + rest))
  {}

  lemma ListRest(a: string, more: string, close: string, rest: string)
    ensures (a + "," + more) + close + rest == a + "," + (more + close + rest)
  {}

  lemma SplitItems(strict: bool, s: string, items: seq<Json>, rest: string, whole: string)
    returns (a: string, more: string, tail: string)
    requires |items| > 1 && SpellsItems(strict, s, items) && whole == s + "]" + rest
    ensures SpellsItem(strict, a, items[0]) && SpellsItems(strict, more, items[1..])
    ensures tail == more + "]" + rest && whole == a + [','] + tail
  {
    a, more :| ItemsParts(strict, s, items, a, more);
    tail := more + "]" + rest;
    ListRest(a, more, "]", rest);
  }

  lemma SplitMembers(strict: bool, s: string, members: seq<Member>, rest: string, whole: string)
    returns (a: string, more: string, tail: string)
    requires |members| > 1 && SpellsMembers(strict, s, members) && whole == s + "}" + rest
    ensures SpellsMember(strict, a, members[0]) && SpellsMembers(strict, more, members[1..])
    ensures tail == more + "}" + rest && whole == a + [','] + tail
  {
    a, more :| MembersParts(strict, s, members, a, more);
    tail := more + "}" + rest;
    ListRest(a, more, "}", rest);
  }

  lemma {:induction false} ItemsRead(strict: bool, s: string, items: seq<Json>, rest: string, whole: string)
    requires items != [] && SpellsItems(strict, s, items) && whole == s + "]" + rest
    ensures Starts(SkipSpace(whole)) && ParseElements(strict, SkipSpace(whole)) == Some(Parsed(items, rest))
    decreases items
  {
    if |items| == 1 {
      ItemRead(strict, s, items[0], ']', rest, whole);
      LastElementRead(strict, SkipSpace(whole), items[0], rest);
      assert items == [items[0]];
    } else {
      var a, more, tail := SplitItems(strict, s, items, rest, whole);
      ItemRead(strict, a, items[0], ',', tail, whole);
      ItemsRead(strict, more, items[1..], rest, tail);
      NextElementRead(strict, SkipSpace(whole), items, tail, rest);
    }
  }

  lemma LastElementRead(strict: bool, s: string, v: Json, rest: string)
    requires ParseValue(strict, s).Some? && ParseValue(strict, s).value.value == v
    requires SkipSpace(ParseValue(strict, s).value.rest) == [']'] + rest
    ensures ParseElements(strict, s) == Some(Parsed([v], rest))
  {
    assert ([']'] + rest)[1..] == rest;
  }

  lemma NextElementRead(strict: bool, s: string, items: seq<Json>, tail: string, rest: string)
    requires items != [] && ParseValue(strict, s).Some? && ParseValue(strict, s).value.value == items[0]
    requires SkipSpace(ParseValue(strict, s).value.rest) == [','] + tail
    requires ParseElements(strict, SkipSpace(tail)) == Some(Parsed(items[1..], rest))
    ensures ParseElements(strict, s) == Some(Parsed(items, rest))
  {
    assert ([','] + tail)[1..] == tail;
    assert items == [items[0]] + items[1..];
  }

  /** A key and its colon, then a value before a separator or a closing brace. */
  lemma {:induction false} MemberRead(strict: bool, s: string, m: Member, c: char, rest: string, whole: string)
    requires SpellsMember(strict, s, m) && c in ",}" && whole == s + [c] + rest
    ensures var t := SkipSpace(whole);
            && Starts(t)
            && ParseMember(strict, t).Some? && ParseMember(strict, t).value.value == m
            && SkipSpace(ParseMember(strict, t).value.rest) == [c] + rest
    decreases m, 0
  {
    var a, b :| MemberParts(strict, s, m, a, b);
    var w1, q, w2 :| KeyParts(strict, a, m.key, w1, q, w2);
    var value := b + [c] + rest;
    ItemRead(strict, b, m.value, c, rest, value);
    var after := w2 + ":" + value;
    SpaceThen(w2, ':', value);
    TextualRead(strict, q, m.key, after);
    Keyed(s, a, b, w1, q, w2, c, rest);
    SpaceIsSkipped(w1, q + after);
    ColonRead(strict, q + after, m, after, value);
  }

  lemma Keyed(s: string, a: string, b: string, w1: string, q: string, w2: string, c: char, rest: string)
    requires s == a + ":" + b && a == w1 + q + w2 && q != "" && q[0] == '"'
    ensures var after := w2 + ":" + (b + [c] + rest);
            s + [c] + rest == w1 + (q + after) && Starts(q + after) && Dark(q + after) && (q + after)[0] == '"'
  {}

  lemma ColonRead(strict: bool, s: string, m: Member, after: string, value: string)
    requires s != "" && s[0] == '"' && ParseTextual(strict, s[1..]) == Some(Parsed(m.key, after))
    requires SkipSpace(after) == [':'] + value
    requires ParseValue(strict, SkipSpace(value)).Some? && ParseValue(strict, SkipSpace(value)).value.value == m.value
    ensures ParseMember(strict, s) == Some(Parsed(m, ParseValue(strict, SkipSpace(value)).value.rest))
  {
    assert ([':'] + value)[1..] == value;
  }

  lemma {:induction false} OneMemberRead(strict: bool, s: string, m: Member, rest: string, whole: string)
    requires SpellsMember(strict, s, m) && whole == s + "}" + rest
    ensures Starts(SkipSpace(whole)) && ParseMembers(strict, SkipSpace(whole)) == Some(Parsed([m], rest))
    decreases m, 1
  {
    MemberRead(strict, s, m, '}', rest, whole);
    LastMemberRead(strict, SkipSpace(whole), m, rest);
  }

  lemma {:induction false} MembersRead(strict: bool, s: string, members: seq<Member>, rest: string, whole: string)
    requires members != [] && SpellsMembers(strict, s, members) && whole == s + "}" + rest
    ensures Starts(SkipSpace(whole)) && ParseMembers(strict, SkipSpace(whole)) == Some(Parsed(members, rest))
    decreases members
  {
    if |members| == 1 {
      OneMemberRead(strict, s, members[0], rest, whole);
      assert members == [members[0]];
    } else {
      var a, more, tail := SplitMembers(strict, s, members, rest, whole);
      MemberRead(strict, a, members[0], ',', tail, whole);
      MembersRead(strict, more, members[1..], rest, tail);
      NextMemberRead(strict, SkipSpace(whole), members, tail, rest);
    }
  }

  lemma LastMemberRead(strict: bool, s: string, m: Member, rest: string)
    requires ParseMember(strict, s).Some? && ParseMember(strict, s).value.value == m
    requires SkipSpace(ParseMember(strict, s).value.rest) == ['}'] + rest
    ensures ParseMembers(strict, s) == Some(Parsed([m], rest))
  {
    assert (['}'] + rest)[1..] == rest;
  }

  lemma NextMemberRead(strict: bool, s: string, members: seq<Member>, tail: string, rest: string)
    requires members != [] && ParseMember(strict, s).Some? && ParseMember(strict, s).value.value == members[0]
    requires SkipSpace(ParseMember(strict, s).value.rest) == [','] + tail
    requires ParseMembers(strict, SkipSpace(tail)) == Some(Parsed(members[1..], rest))
    ensures ParseMembers(strict, s) == Some(Parsed(members, rest))
  {
    CommaRead(strict, s, members[0], tail, members[1..], rest);
    assert members == [members[0]] + members[1..];
  }

  lemma CommaRead(strict: bool, s: string, m: Member, tail: string, ms: seq<Member>, rest: string)
    requires ParseMember(strict, s).Some? && ParseMember(strict, s).value.value == m
    requires SkipSpace(ParseMember(strict, s).value.rest) == [','] + tail
    requires ParseMembers(strict, SkipSpace(tail)) == Some(Parsed(ms, rest))
    ensures ParseMembers(strict, s) == Some(Parsed([m] + ms, rest))
  {
    assert ([','] + tail)[1..] == tail;
  }

  // ------------------------------------------------------------ whole texts

  /**
    A text parses to a document if and only if the grammar spells it, with space around it: so each text spells one
    document at most.
  */
  lemma ParsesExactlyWhen(strict: bool, s: string, v: Json)
    ensures ParseText(strict, s) == Some(v) <==> SpellsItem(strict, s, v)
  {
    if ParseText(strict, s) == Some(v) { TextSound(strict, s, v); }
    if SpellsItem(strict, s, v) { TextRead(strict, s, v); }
  }

  lemma OnlySpace(r: string)
    requires SkipSpace(r) == ""
    ensures IsSpace(r)
  {
    var w := SkippedIsSpace(r);
    assert r == w;
  }

  lemma Whole(strict: bool, s: string, w: string, t: string, r: string, v: Json)
    requires s == w + (t + r) && IsSpace(w) && IsSpace(r) && SpellsValue(strict, t, v)
    ensures SpellsItem(strict, s, v)
  {
    ItemOf(strict, w, t, r, v);
    assert s == w + t + r;
  }

  lemma TextSound(strict: bool, s: string, v: Json)
    requires ParseText(strict, s) == Some(v)
    ensures SpellsItem(strict, s, v)
  {
    var w := SkippedIsSpace(s);
    var t := ValueSound(strict, SkipSpace(s));
    var r := ParseValue(strict, SkipSpace(s)).value.rest;
    OnlySpace(r);
    Whole(strict, s, w, t, r, v);
  }

  lemma TextRead(strict: bool, s: string, v: Json)
    requires SpellsItem(strict, s, v)
    ensures ParseText(strict, s) == Some(v)
  {
    var w1, t, w2 :| ItemParts(strict, s, v, w1, t, w2);
    ValueStarts(strict, t, v);
    assert s == w1 + (t + w2) && Dark(t + w2);
    SpaceIsSkipped(w1, t + w2);
    ValueRead(strict, t, v, w2);
    SpaceIsSkipped(w2, "");
    assert w2 + "" == w2;
  }
}
