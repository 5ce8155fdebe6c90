/**
  UTF-8 and UTF-16 as two instances of one notion of self-synchronizing code. The Rust engine searches,
  compares and orders UTF-8 bytes, the TypeScript engine UTF-16 code units; both are related here to
  the scalar values of the string itself (`char` ranges over Unicode scalar values).
*/
module Encoding {
  import opened Sequences

  /** A character code: the units of one character, and which units can start one. */
  datatype Code = Code(units: char -> seq<nat>, lead: nat -> bool)

  /** No character's units are a prefix of another's, and only the first unit of a character is a lead unit. */
  ghost predicate SelfSynchronizing(code: Code) {
    && (forall c: char :: WellLed(code, c))
    && (forall c: char, d: char :: code.units(c) <= code.units(d) ==> c == d)
  }

  ghost predicate WellLed(code: Code, c: char) {
    && code.units(c) != []
    && code.lead(code.units(c)[0])
    && forall i :: 1 <= i < |code.units(c)| ==> !code.lead(code.units(c)[i])
  }

  function Encode(code: Code, s: string): seq<nat> {
    if s == "" then [] else code.units(s[0]) + Encode(code, s[1..])
  }

  lemma {:induction false} EncodeAppend(code: Code, a: string, b: string)
    ensures Encode(code, a + b) == Encode(code, a) + Encode(code, b)
  {
    if a == "" {
      assert a + b == b;
    } else {
      EncodeAppend(code, a[1..], b);
      assert (a + b)[1..] == a[1..] + b;
    }
  }

  /** Prefix testing on units is prefix testing on characters. */
  lemma {:induction false} PrefixOfUnits(code: Code, a: string, b: string)
    requires SelfSynchronizing(code)
    ensures Encode(code, b) <= Encode(code, a) <==> b <= a
  {
    if b != "" {
      assert WellLed(code, b[0]);
      if Encode(code, b) <= Encode(code, a) {
        assert a != "";
        assert WellLed(code, a[0]);
        var u, v := code.units(b[0]), code.units(a[0]);
        assert u == Encode(code, a)[..|u|] && v == Encode(code, a)[..|v|];
        assert u <= v || v <= u;
        assert Encode(code, b[1..]) == Encode(code, b)[|u|..];
        PrefixOfUnits(code, a[1..], b[1..]);
      }
      if b <= a {
        PrefixOfUnits(code, a[1..], b[1..]);
      }
    }
  }

  lemma EncodeInjective(code: Code, a: string, b: string)
    requires SelfSynchronizing(code) && Encode(code, a) == Encode(code, b)
    ensures a == b
  {
    PrefixOfUnits(code, a, b);
    PrefixOfUnits(code, b, a);
  }

  /** A lead unit can only be met at a character boundary. */
  lemma {:induction false} LeadIsBoundary(code: Code, a: string, i: nat) returns (k: nat)
    requires SelfSynchronizing(code) && i < |Encode(code, a)| && code.lead(Encode(code, a)[i])
    ensures k <= |a| && Encode(code, a)[i..] == Encode(code, a[k..])
  {
    if i == 0 {
      k := 0;
    } else {
      assert WellLed(code, a[0]);
      var u := code.units(a[0]);
      assert i >= |u|;
      var j := LeadIsBoundary(code, a[1..], i - |u|);
      k := j + 1;
      assert Encode(code, a)[i..] == Encode(code, a[1..])[i - |u|..];
      assert a[1..][j..] == a[k..];
    }
  }

  /** Substring search on units is substring search on characters. */
  lemma ContainsOfUnits(code: Code, a: string, b: string)
    requires SelfSynchronizing(code)
    ensures Contains(Encode(code, a), Encode(code, b)) <==> Contains(a, b)
  {
    if Contains(a, b) {
      var pre, post := ContainsSplit(a, b);
      EncodeAppend(code, pre + b, post);
      EncodeAppend(code, pre, b);
      ContainsWitness(Encode(code, pre), Encode(code, b), Encode(code, post));
    }
    if Contains(Encode(code, a), Encode(code, b)) {
      UnitsOccurrence(code, a, b);
    }
  }

  lemma UnitsOccurrence(code: Code, a: string, b: string)
    requires SelfSynchronizing(code) && Contains(Encode(code, a), Encode(code, b))
    ensures Contains(a, b)
  {
    if b == "" {
      assert OccursAt(a, b, 0);
    } else {
      assert WellLed(code, b[0]);
      var x, y := Encode(code, a), Encode(code, b);
      var pre, post := ContainsSplit(x, y);
      assert x[|pre|..] == y + post;
      assert x[|pre|] == y[0] == code.units(b[0])[0];
      var k := LeadIsBoundary(code, a, |pre|);
      PrefixOfUnits(code, a[k..], b);
      assert OccursAt(a, b, k);
    }
  }

  // ---------------------------------------------------------------- UTF-16

  function Utf16Units(c: char): (u: seq<nat>)
    ensures |u| == 1 || |u| == 2
    ensures forall x <- u :: x < 0x1_0000
  {
    var n := c as int;
    if n < 0x1_0000 then [n]
    else [0xD800 + (n - 0x1_0000) / 0x400, 0xDC00 + (n - 0x1_0000) % 0x400]
  }

  /** JavaScript strings: sequences of UTF-16 code units. */
  const Utf16: Code := Code(Utf16Units, u => !(0xDC00 <= u < 0xE000))

  lemma Utf16SelfSynchronizing()
    ensures SelfSynchronizing(Utf16)
  {
    forall c: char, d: char | Utf16Units(c) <= Utf16Units(d) ensures c == d {
      var m, n := c as int, d as int;
      assert Utf16Units(c)[0] == Utf16Units(d)[0];
      if m >= 0x1_0000 {
        assert n >= 0x1_0000;
        assert Utf16Units(c)[1] == Utf16Units(d)[1];
        assert m - 0x1_0000 == (m - 0x1_0000) / 0x400 * 0x400 + (m - 0x1_0000) % 0x400;
        assert n - 0x1_0000 == (n - 0x1_0000) / 0x400 * 0x400 + (n - 0x1_0000) % 0x400;
      }
    }
  }

  /** `String.prototype.length`. */
  function JsLength(s: string): nat {
    |Encode(Utf16, s)|
  }

  // ---------------------------------------------------------------- UTF-8

  /** Section 3 of RFC 3629: base-64 digits, most significant first, under a lead byte that tells their number. */
  function Utf8Bytes(n: nat): (u: seq<nat>)
    requires n < 0x11_0000
    ensures |u| == Utf8Size(n)
    ensures forall x <- u :: x < 0x100
  {
    if n < 0x80 then [n]
    else if n < 0x800 then [0xC0 + n / 0x40, 0x80 + n % 0x40]
    else if n < 0x1_0000 then [0xE0 + n / 0x40 / 0x40, 0x80 + n / 0x40 % 0x40, 0x80 + n % 0x40]
    else [0xF0 + n / 0x40 / 0x40 / 0x40, 0x80 + n / 0x40 / 0x40 % 0x40, 0x80 + n / 0x40 % 0x40, 0x80 + n % 0x40]
  }

  function Utf8Size(n: nat): nat {
    if n < 0x80 then 1 else if n < 0x800 then 2 else if n < 0x1_0000 then 3 else 4
  }

  function Utf8Units(c: char): (u: seq<nat>)
    ensures 1 <= |u| <= 4
    ensures forall x <- u :: x < 0x100
  {
    Utf8Bytes(c as nat)
  }

  /** Rust strings: sequences of UTF-8 bytes. */
  const Utf8: Code := Code(Utf8Units, u => !(0x80 <= u < 0xC0))

  /** One base-64 digit at a time: the quotient decides, then the remainder. */
  lemma DigitOrder(m: nat, n: nat)
    ensures m < n <==> m / 0x40 < n / 0x40 || (m / 0x40 == n / 0x40 && m % 0x40 < n % 0x40)
    ensures m == n <==> m / 0x40 == n / 0x40 && m % 0x40 == n % 0x40
  {}

  /** The lead byte tells the size, and larger sizes have larger lead bytes. */
  lemma LeadByteTellsSize(m: nat, n: nat)
    requires m < 0x11_0000 && n < 0x11_0000
    ensures Utf8Size(m) < Utf8Size(n) ==> Utf8Bytes(m)[0] < Utf8Bytes(n)[0]
  {
    assert n < 0x800 ==> n / 0x40 < 0x20;
    assert n < 0x1_0000 ==> n / 0x40 / 0x40 < 0x10;
    assert m < 0x800 ==> m / 0x40 < 0x20;
    assert m < 0x1_0000 ==> m / 0x40 / 0x40 < 0x10;
    assert n >= 0x80 ==> n / 0x40 >= 2;
  }

  /** Distinct scalar values' bytes differ before either one ends, and there the larger value has the larger byte. */
  lemma Utf8BytesDifference(m: nat, n: nat) returns (k: nat)
    requires m < n < 0x11_0000
    ensures k < Utf8Size(m) && k < Utf8Size(n)
    ensures Utf8Bytes(m)[..k] == Utf8Bytes(n)[..k] && Utf8Bytes(m)[k] < Utf8Bytes(n)[k]
  {
    LeadByteTellsSize(m, n);
    DigitOrder(m, n);
    DigitOrder(m / 0x40, n / 0x40);
    DigitOrder(m / 0x40 / 0x40, n / 0x40 / 0x40);
    k := 0;
    if Utf8Size(m) == Utf8Size(n) > 1 {
      if m / 0x40 == n / 0x40 { k := Utf8Size(m) - 1; }
      else if m / 0x40 / 0x40 == n / 0x40 / 0x40 { k := Utf8Size(m) - 2; }
      else if m / 0x40 / 0x40 / 0x40 == n / 0x40 / 0x40 / 0x40 { k := Utf8Size(m) - 3; }
    }
  }

  lemma Utf8Difference(c: char, d: char) returns (k: nat)
    requires c != d
    ensures k < |Utf8Units(c)| && k < |Utf8Units(d)|
    ensures Utf8Units(c)[..k] == Utf8Units(d)[..k] && Utf8Units(c)[k] != Utf8Units(d)[k]
    ensures Utf8Units(c)[k] < Utf8Units(d)[k] <==> c < d
  {
    if c < d {
      k := Utf8BytesDifference(c as nat, d as nat);
    } else {
      k := Utf8BytesDifference(d as nat, c as nat);
    }
  }

  lemma Utf8SelfSynchronizing()
    ensures SelfSynchronizing(Utf8)
  {
    forall c: char, d: char | c != d ensures !(Utf8Units(c) <= Utf8Units(d)) {
      var k := Utf8Difference(c, d);
    }
  }

  // ---------------------------------------------------------------- orders

  function CodePoints(s: string): seq<nat> {
    seq(|s|, i requires 0 <= i < |s| => s[i] as nat)
  }

  /** Order of two strings that first differ at characters `c` and `d`, read off the units of `c` and `d`. */
  lemma OrderAtFirstDifference(code: Code, p: string, c: char, x: string, d: char, y: string, k: nat)
    requires k < |code.units(c)| && k < |code.units(d)|
    requires code.units(c)[..k] == code.units(d)[..k] && code.units(c)[k] != code.units(d)[k]
    ensures LexLt(Encode(code, p + [c] + x), Encode(code, p + [d] + y)) == (code.units(c)[k] < code.units(d)[k])
  {
    EncodeAround(code, p, c, x);
    EncodeAround(code, p, d, y);
    var a, b := code.units(c) + Encode(code, x), code.units(d) + Encode(code, y);
    LexCommonPrefix(Encode(code, p), a, b);
    assert a[..k] == code.units(c)[..k] && b[..k] == code.units(d)[..k];
    LexFirstDifference(a, b, k);
  }

  lemma EncodeAround(code: Code, p: string, c: char, x: string)
    ensures Encode(code, p + [c] + x) == Encode(code, p) + (code.units(c) + Encode(code, x))
  {
    EncodeAppend(code, p, [c] + x);
    assert p + [c] + x == p + ([c] + x);
    assert ([c] + x)[1..] == x;
  }

  lemma CodePointOrder(p: string, c: char, x: string, d: char, y: string)
    requires c != d
    ensures LexLt(CodePoints(p + [c] + x), CodePoints(p + [d] + y)) == (c < d)
  {
    var a, b := CodePoints(p + [c] + x), CodePoints(p + [d] + y);
    assert a[..|p|] == b[..|p|] by {
      assert forall i :: 0 <= i < |p| ==> a[i] == p[i] as nat && b[i] == p[i] as nat;
    }
    LexFirstDifference(a, b, |p|);
  }

  /** Rust orders strings by their UTF-8 bytes; that is the order of their scalar values. */
  lemma Utf8OrderIsCodePointOrder(p: string, c: char, x: string, d: char, y: string)
    requires c != d
    ensures LexLt(Encode(Utf8, p + [c] + x), Encode(Utf8, p + [d] + y))
         == LexLt(CodePoints(p + [c] + x), CodePoints(p + [d] + y))
  {
    var k := Utf8Difference(c, d);
    OrderAtFirstDifference(Utf8, p, c, x, d, y, k);
    CodePointOrder(p, c, x, d, y);
  }

  /** `js_str_cmp`: the order of `Array.prototype.sort` on strings. */
  predicate JsLess(a: string, b: string) {
    LexLt(Encode(Utf16, a), Encode(Utf16, b))
  }

  predicate Supplementary(c: char) {
    c as int >= 0x1_0000
  }

  predicate AboveSurrogates(c: char) {
    0xE000 <= c as int < 0x1_0000
  }

  /**
    Two strings that first differ at `c` and `d` are ordered differently by UTF-16 code units than by
    scalar values exactly when one of the two is in U+E000..U+FFFF and the other outside the BMP.
  */
  lemma Utf16OrderVersusCodePoints(p: string, c: char, x: string, d: char, y: string)
    requires c != d
    ensures JsLess(p + [c] + x, p + [d] + y) != LexLt(CodePoints(p + [c] + x), CodePoints(p + [d] + y))
       <==> (AboveSurrogates(c) && Supplementary(d)) || (Supplementary(c) && AboveSurrogates(d))
  {
    CodePointOrder(p, c, x, d, y);
    var u, v := Utf16Units(c), Utf16Units(d);
    if u[0] != v[0] {
      assert u[..0] == v[..0];
      OrderAtFirstDifference(Utf16, p, c, x, d, y, 0);
    } else {
      assert u[..1] == v[..1];
      OrderAtFirstDifference(Utf16, p, c, x, d, y, 1);
    }
  }
}
