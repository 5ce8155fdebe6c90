/**
  Canonical text is the shortest: whatever reads as a document is at least as long as the document's canonical text, and
  what is as long is that text but for the case of hex digits, which are lowercase in it.
*/
module Shortest {
  import opened Canonical
  import opened Json
  import opened Texts
  import opened Wrappers

  /** The same character, or a hex digit in upper case and the same in lower case. */
  predicate SameButForCase(a: char, b: char) {
    a == b || ('A' <= a <= 'F' && b as int == a as int + 32)
  }

  /** What stands before `r` in `s` is no shorter than `p`, and if it is as long, it is `p` but for uppercase digits. */
  ghost predicate NoShorter(s: string, r: string, p: string) {
    && |p| + |r| <= |s|
    && s[|s| - |r|..] == r
    && (|p| + |r| == |s| ==> forall k :: 0 <= k < |p| ==> SameButForCase(s[k], p[k]))
  }

  lemma NoShorterTrans(s: string, m: string, r: string, p: string, q: string)
    requires NoShorter(s, m, p) && NoShorter(m, r, q)
    ensures NoShorter(s, r, p + q)
  {
    assert forall k :: 0 <= k < |m| ==> s[|s| - |m| + k] == m[k];
    assert s[|s| - |r|..] == m[|m| - |r|..];
  }

  lemma OneCharacter(s: string)
    requires s != ""
    ensures NoShorter(s, s[1..], [s[0]])
  {}

  lemma {:induction false} SpaceIsLonger(s: string)
    ensures NoShorter(s, SkipSpace(s), "")
  {
    if s != "" && s[0] in " \t\n\r" { SpaceIsLonger(s[1..]); }
  }

  lemma SkipThen(s: string, r: string, p: string)
    requires NoShorter(SkipSpace(s), r, p)
    ensures NoShorter(s, r, p)
  {
    SpaceIsLonger(s);
    NoShorterTrans(s, SkipSpace(s), r, "", p);
    assert "" + p == p;
  }

  // ------------------------------------------------------------ strings

  lemma LowercaseDigit(c: char, n: nat)
    requires n < 16 && HexValue(c) == Some(n)
    ensures SameButForCase(c, HexDigit(n))
  {}

  lemma {:induction false} HexSpelled(s: string, width: nat, k: nat)
    requires HexRead(s, width).Some? && k < width
    ensures SameButForCase(s[k], RenderHex(HexRead(s, width).value, width)[k])
  {
    var high, digit := HexRead(s, width - 1).value, HexValue(s[width - 1]).value;
    var n := HexRead(s, width).value;
    assert n / 16 == high && n % 16 == digit;
    if k == width - 1 {
      LowercaseDigit(s[k], digit);
    } else {
      HexSpelled(s, width - 1, k);
    }
  }

  lemma UnicodeSpelled(s: string)
    requires |s| >= 2 && s[0] == '\\' && s[1] == 'u' && Hex4(s[2..]).Some?
    ensures NoShorter(s, s[6..], UnicodeEscape(Hex4(s[2..]).value))
  {
    var p := UnicodeEscape(Hex4(s[2..]).value);
    forall k | 2 <= k < 6 ensures SameButForCase(s[k], p[k]) {
      HexSpelled(s[2..], 4, k - 2);
      assert s[k] == s[2..][k - 2];
    }
  }

  lemma EscapeLengths(u: Unit)
    ensures 1 <= |Escape(u)| <= 6
    ensures u.Scalar? && ' ' <= u.c && ShortEscape(u.c).None? ==> |Escape(u)| == 1
  {}

  lemma Longer(s: string, r: string, p: string)
    requires |p| + |r| < |s| && s[|s| - |r|..] == r
    ensures NoShorter(s, r, p)
  {}

  lemma UnicodeRest(strict: bool, s: string)
    requires |s| >= 2 && s[0] == '\\' && s[1] == 'u' && ParseUnicodeEscape(strict, s[2..]).Some?
    ensures var e, h := ParseUnicodeEscape(strict, s[2..]).value, Hex4(s[2..]).value;
            && Hex4(s[2..]).Some?
            && ((e.rest == s[6..] && (if h < 0xD800 || 0xE000 <= h then e.value == Scalar(h as char)
                                      else IsSurrogate(h) && e.value == Lone(h)))
                || (|s| >= 12 && e.rest == s[12..]))
  {
    assert s[2..][4..] == s[6..] && (|s| >= 12 ==> s[2..][10..] == s[12..]);
  }

  predicate IsSurrogate(h: nat) {
    IsHigh(h) || IsLow(h)
  }

  lemma UnicodeIsNoShorter(strict: bool, s: string)
    requires |s| >= 2 && s[0] == '\\' && s[1] == 'u' && ParseUnicodeEscape(strict, s[2..]).Some?
    ensures var e := ParseUnicodeEscape(strict, s[2..]).value; NoShorter(s, e.rest, Escape(e.value))
  {
    var e, h := ParseUnicodeEscape(strict, s[2..]).value, Hex4(s[2..]).value;
    UnicodeRest(strict, s);
    EscapeLengths(e.value);
    if e.rest == s[6..] && Escape(e.value) == UnicodeEscape(h) {
      UnicodeSpelled(s);
    } else {
      Longer(s, e.rest, Escape(e.value));
    }
  }

  lemma ShortIsNoShorter(s: string)
    requires |s| >= 2 && s[0] == '\\' && SimpleEscape(s[1]).Some?
    ensures NoShorter(s, s[2..], EscapeChar(SimpleEscape(s[1]).value))
  {
    var c := SimpleEscape(s[1]).value;
    if c != '/' { assert EscapeChar(c) == ['\\', s[1]]; }
  }

  /** An escape is as long as the canonical spelling of what it is read as, or longer. */
  lemma EscapeIsNoShorter(strict: bool, s: string)
    requires |s| >= 2 && s[0] == '\\' && ParseEscape(strict, s[1..]).Some?
    ensures var e := ParseEscape(strict, s[1..]).value; NoShorter(s, e.rest, Escape(e.value))
  {
    assert s[1..][1..] == s[2..];
    if s[1] == 'u' { UnicodeIsNoShorter(strict, s); } else { ShortIsNoShorter(s); }
  }

  lemma PlainIsNoShorter(s: string)
    requires s != "" && s[0] != '"' && s[0] != '\\' && s[0] >= ' '
    ensures NoShorter(s, s[1..], Escape(Scalar(s[0])))
  {}

  /** Whatever is read as a string is no shorter than its canonical spelling, the closing quote included. */
  lemma {:induction false} StringIsNoShorter(strict: bool, s: string)
    requires ParseString(strict, s).Some?
    ensures var p := ParseString(strict, s).value; NoShorter(s, p.rest, EscapeAll(p.value) + "\"")
    decreases |s|
  {
    var p := ParseString(strict, s).value;
    if s[0] == '"' {
      OneCharacter(s);
      assert EscapeAll([]) + "\"" == ['"'];
    } else {
      var e := if s[0] == '\\' then ParseEscape(strict, s[1..]).value else Parsed(Scalar(s[0]), s[1..]);
      if s[0] == '\\' { EscapeIsNoShorter(strict, s); } else { PlainIsNoShorter(s); }
      StringIsNoShorter(strict, e.rest);
      NextSpelled(s, e.value, e.rest, ParseString(strict, e.rest).value.value, p.rest);
      assert p.value == [e.value] + ParseString(strict, e.rest).value.value;
    }
  }

  lemma NextSpelled(s: string, u: Unit, m: string, units: seq<Unit>, r: string)
    requires NoShorter(s, m, Escape(u)) && NoShorter(m, r, EscapeAll(units) + "\"")
    ensures NoShorter(s, r, EscapeAll([u] + units) + "\"")
  {
    NoShorterTrans(s, m, r, Escape(u), EscapeAll(units) + "\"");
    assert ([u] + units)[1..] == units;
    assert Escape(u) + (EscapeAll(units) + "\"") == EscapeAll([u] + units) + "\"";
  }

  lemma TextualIsNoShorter(strict: bool, s: string)
    requires s != "" && s[0] == '"' && ParseTextual(strict, s[1..]).Some?
    ensures var p := ParseTextual(strict, s[1..]).value; NoShorter(s, p.rest, Quote(p.value))
  {
    var p, units := ParseTextual(strict, s[1..]).value, ParseString(strict, s[1..]).value.value;
    StringIsNoShorter(strict, s[1..]);
    StringUnpaired(strict, s[1..]);
    OneCharacter(s);
    NoShorterTrans(s, s[1..], p.rest, "\"", EscapeAll(units) + "\"");
    PackOfUnits(p.value, units);
    if p.value.Plain? { PlainEscapes(p.value.s); }
    assert Quote(p.value) == "\"" + (EscapeAll(units) + "\"");
  }

  // ------------------------------------------------------------ documents

  lemma {:induction false} ValueIsNoShorter(strict: bool, s: string)
    requires ParseValue(strict, s).Some?
    ensures var p := ParseValue(strict, s).value; NoShorter(s, p.rest, Print(p.value))
    decreases |s|, 0
  {
    if s[0] == '"' {
      TextualIsNoShorter(strict, s);
    } else if s[0] == '[' {
      ArrayIsNoShorter(strict, s);
    } else if s[0] == '{' {
      ObjectIsNoShorter(strict, s);
    } else {
      AtomIsNoShorter(strict, s);
    }
  }

  lemma AtomIsNoShorter(strict: bool, s: string)
    requires s != "" && s[0] != '"' && s[0] != '[' && s[0] != '{' && ParseValue(strict, s).Some?
    ensures var p := ParseValue(strict, s).value; NoShorter(s, p.rest, Print(p.value))
  {
    if !IsLiteral(s) { NumberConsumes(s); }
  }

  lemma {:induction false} ArrayIsNoShorter(strict: bool, s: string)
    requires s != "" && s[0] == '[' && ParseValue(strict, s).Some?
    ensures var p := ParseValue(strict, s).value; NoShorter(s, p.rest, Print(p.value))
    decreases |s| - 1, 2
  {
    var inner, p := SkipSpace(s[1..]), ParseValue(strict, s).value;
    OneCharacter(s);
    if inner != "" && inner[0] == ']' {
      OneCharacter(inner);
      SkipThen(s[1..], p.rest, "]");
      NoShorterTrans(s, s[1..], p.rest, "[", "]");
    } else {
      ElementsAreNoShorter(strict, inner);
      var items := ParseElements(strict, inner).value.value;
      SkipThen(s[1..], p.rest, PrintItems(items));
      NoShorterTrans(s, s[1..], p.rest, "[", PrintItems(items));
    }
  }

  lemma {:induction false} ObjectIsNoShorter(strict: bool, s: string)
    requires s != "" && s[0] == '{' && ParseValue(strict, s).Some?
    ensures var p := ParseValue(strict, s).value; NoShorter(s, p.rest, Print(p.value))
    decreases |s| - 1, 2
  {
    var inner, p := SkipSpace(s[1..]), ParseValue(strict, s).value;
    OneCharacter(s);
    if inner != "" && inner[0] == '}' {
      OneCharacter(inner);
      SkipThen(s[1..], p.rest, "}");
      NoShorterTrans(s, s[1..], p.rest, "{", "}");
    } else {
      MembersAreNoShorter(strict, inner);
      var members := ParseMembers(strict, inner).value.value;
      SkipThen(s[1..], p.rest, PrintMembers(members));
      NoShorterTrans(s, s[1..], p.rest, "{", PrintMembers(members));
    }
  }

  /** A closing character after space. */
  lemma CharacterAfter(r: string)
    requires SkipSpace(r) != ""
    ensures NoShorter(r, SkipSpace(r)[1..], [SkipSpace(r)[0]])
    ensures NoShorter(r, SkipSpace(SkipSpace(r)[1..]), [SkipSpace(r)[0]])
  {
    var after := SkipSpace(r);
    OneCharacter(after);
    SkipThen(r, after[1..], [after[0]]);
    SpaceIsLonger(after[1..]);
    NoShorterTrans(r, after[1..], SkipSpace(after[1..]), [after[0]], "");
    assert [after[0]] + "" == [after[0]];
  }

  lemma {:induction false} ElementsAreNoShorter(strict: bool, s: string)
    requires ParseElements(strict, s).Some?
    ensures var p := ParseElements(strict, s).value; p.value != [] && NoShorter(s, p.rest, PrintItems(p.value))
    decreases |s|, 1
  {
    var v, p := ParseValue(strict, s).value, ParseElements(strict, s).value;
    ValueIsNoShorter(strict, s);
    CharacterAfter(v.rest);
    if SkipSpace(v.rest)[0] == ',' {
      var next := SkipSpace(SkipSpace(v.rest)[1..]);
      ElementsAreNoShorter(strict, next);
      var items := ParseElements(strict, next).value.value;
      Listing(s, v.rest, next, p.rest, Print(v.value), PrintItems(items));
      assert p.value == [v.value] + items && p.value[1..] == items;
    } else {
      NoShorterTrans(s, v.rest, p.rest, Print(v.value), "]");
    }
  }

  lemma Listing(s: string, m: string, next: string, r: string, p: string, q: string)
    requires NoShorter(s, m, p) && NoShorter(m, next, ",") && NoShorter(next, r, q)
    ensures NoShorter(s, r, p + "," + q)
  {
    NoShorterTrans(s, m, next, p, ",");
    NoShorterTrans(s, next, r, p + ",", q);
  }

  lemma {:induction false} MembersAreNoShorter(strict: bool, s: string)
    requires ParseMembers(strict, s).Some?
    ensures var p := ParseMembers(strict, s).value; p.value != [] && NoShorter(s, p.rest, PrintMembers(p.value))
    decreases |s|, 1
  {
    var v, p := ParseMember(strict, s).value, ParseMembers(strict, s).value;
    MemberIsNoShorter(strict, s);
    CharacterAfter(v.rest);
    if SkipSpace(v.rest)[0] == ',' {
      var next := SkipSpace(SkipSpace(v.rest)[1..]);
      MembersAreNoShorter(strict, next);
      var members := ParseMembers(strict, next).value.value;
      Listing(s, v.rest, next, p.rest, PrintMember(v.value), PrintMembers(members));
      assert p.value == [v.value] + members && p.value[1..] == members;
    } else {
      NoShorterTrans(s, v.rest, p.rest, PrintMember(v.value), "}");
    }
  }

  lemma {:induction false} MemberIsNoShorter(strict: bool, s: string)
    requires ParseMember(strict, s).Some?
    ensures var p := ParseMember(strict, s).value; NoShorter(s, p.rest, PrintMember(p.value))
    decreases |s|, 0
  {
    var k, p := ParseTextual(strict, s[1..]).value, ParseMember(strict, s).value;
    TextualIsNoShorter(strict, s);
    CharacterAfter(k.rest);
    var next := SkipSpace(SkipSpace(k.rest)[1..]);
    ValueIsNoShorter(strict, next);
    var v := ParseValue(strict, next).value;
    NoShorterTrans(s, k.rest, next, Quote(k.value), ":");
    NoShorterTrans(s, next, p.rest, Quote(k.value) + ":", Print(v.value));
  }

  /**
    Of all texts that read as a document, canonical text is the shortest; another as short differs only by writing hex
    digits of escapes in upper case.
  */
  lemma CanonicalIsShortest(strict: bool, s: string, v: Json)
    requires ParseText(strict, s) == Some(v)
    ensures |Print(v)| <= |s|
    ensures |Print(v)| == |s| ==> forall k :: 0 <= k < |s| ==> SameButForCase(s[k], Print(v)[k])
  {
    var p := ParseValue(strict, SkipSpace(s)).value;
    ValueIsNoShorter(strict, SkipSpace(s));
    SkipThen(s, p.rest, Print(v));
    SpaceIsLonger(p.rest);
    NoShorterTrans(s, p.rest, "", Print(v), "");
    assert Print(v) + "" == Print(v);
  }
}
