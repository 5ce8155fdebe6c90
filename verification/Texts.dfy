/** JavaScript strings, and the order of object keys. */
module Texts {
  import opened Encoding
  import opened Sequences

  predicate IsHigh(u: nat) {
    0xD800 <= u < 0xDC00
  }

  predicate IsLow(u: nat) {
    0xDC00 <= u < 0xE000
  }

  type Surrogate = u: nat | IsHigh(u) || IsLow(u) witness 0xD800

  /** A scalar value, or a surrogate that pairs with none beside it. */
  datatype Unit = Scalar(c: char) | Lone(u: Surrogate)

  /** Two surrogates that would pair. */
  predicate WouldPair(a: Unit, b: Unit) {
    a.Lone? && b.Lone? && IsHigh(a.u) && IsLow(b.u)
  }

  predicate Unpaired(units: seq<Unit>) {
    forall i :: 0 < i < |units| ==> !WouldPair(units[i - 1], units[i])
  }

  predicate AllScalar(units: seq<Unit>) {
    forall i :: 0 <= i < |units| ==> units[i].Scalar?
  }

  datatype RawText = Plain(s: string) | Ill(units: seq<Unit>)

  /** A JavaScript string. Rust's strings are the plain ones. */
  type Text = t: RawText | t.Ill? ==> Unpaired(t.units) && !AllScalar(t.units) witness Plain("")

  function OneSurrogate(u: Surrogate): Text {
    var units := [Lone(u)];
    assert !units[0].Scalar?;
    Ill(units)
  }

  function Scalars(s: string): (units: seq<Unit>)
    ensures |units| == |s|
  {
    seq(|s|, i requires 0 <= i < |s| => Scalar(s[i]))
  }

  function UnitsOf(t: Text): seq<Unit> {
    match t
    case Plain(s) => Scalars(s)
    case Ill(units) => units
  }

  lemma UnitsUnpaired(t: Text)
    ensures Unpaired(UnitsOf(t)) && (AllScalar(UnitsOf(t)) <==> t.Plain?)
  {}

  function Pack(units: seq<Unit>): (t: Text)
    requires Unpaired(units)
  {
    if AllScalar(units) then Plain(seq(|units|, i requires 0 <= i < |units| => units[i].c)) else Ill(units)
  }

  /** Nothing is lost between a string and its units. */
  lemma PackOfUnits(t: Text, units: seq<Unit>)
    ensures Unpaired(UnitsOf(t)) && Pack(UnitsOf(t)) == t
    ensures Unpaired(units) ==> UnitsOf(Pack(units)) == units
  {}

  // ------------------------------------------------------------ the order of keys

  function CodeUnits(units: seq<Unit>): seq<nat> {
    if units == [] then []
    else (match units[0] case Scalar(c) => Utf16Units(c) case Lone(u) => [u]) + CodeUnits(units[1..])
  }

  lemma {:induction false} PlainCodeUnits(s: string)
    ensures CodeUnits(Scalars(s)) == Encode(Utf16, s)
  {
    if s != "" {
      PlainCodeUnits(s[1..]);
      assert Scalars(s)[1..] == Scalars(s[1..]);
    }
  }

  lemma UnpairedTail(units: seq<Unit>)
    requires Unpaired(units) && units != []
    ensures Unpaired(units[1..])
  {}

  /** The first code unit of what follows is a low surrogate only if a lone one stands there. */
  lemma StartsLow(units: seq<Unit>)
    requires Unpaired(units) && units != []
    ensures CodeUnits(units) != []
    ensures IsLow(CodeUnits(units)[0]) ==> units[0].Lone? && IsLow(units[0].u)
  {}

  /** The unit at the start is told by the code units. */
  lemma FirstUnit(a: seq<Unit>, b: seq<Unit>)
    requires Unpaired(a) && Unpaired(b) && a != [] && b != [] && CodeUnits(a) == CodeUnits(b)
    ensures a[0] == b[0]
  {
    NotAPair(a, b);
    NotAPair(b, a);
    if a[0].Scalar? && b[0].Scalar? {
      SameScalar(a[0].c, b[0].c, CodeUnits(a[1..]), CodeUnits(b[1..]));
    } else if a[0].Lone? && b[0].Lone? {
      assert CodeUnits(a)[0] == a[0].u && CodeUnits(b)[0] == b[0].u;
    }
  }

  lemma SameScalar(c: char, d: char, x: seq<nat>, y: seq<nat>)
    requires Utf16Units(c) + x == Utf16Units(d) + y
    ensures c == d
  {
    Utf16SelfSynchronizing();
    var u, v := Utf16Units(c), Utf16Units(d);
    assert u == (u + x)[..|u|] && v == (u + x)[..|v|];
    assert Utf16.units(c) == u && Utf16.units(d) == v;
    assert u <= v || v <= u;
  }

  /** A lone surrogate and a scalar value never start alike. */
  lemma NotAPair(a: seq<Unit>, b: seq<Unit>)
    requires Unpaired(a) && Unpaired(b) && a != [] && b != [] && CodeUnits(a) == CodeUnits(b)
    ensures !(a[0].Scalar? && b[0].Lone?)
  {
    if a[0].Scalar? && b[0].Lone? {
      var units := CodeUnits(a);
      assert units[0] == Utf16Units(a[0].c)[0] && units[0] == b[0].u;
      assert |Utf16Units(a[0].c)| == 2 && IsHigh(b[0].u);
      assert units[1] == Utf16Units(a[0].c)[1] && IsLow(units[1]);
      assert units[1..] == CodeUnits(b[1..]);
      assert b[1..] != [];
      StartsLow(b[1..]);
    }
  }

  lemma {:induction false} CodeUnitsInjective(a: seq<Unit>, b: seq<Unit>)
    requires Unpaired(a) && Unpaired(b) && CodeUnits(a) == CodeUnits(b)
    ensures a == b
  {
    if a != [] { StartsLow(a); }
    if b != [] { StartsLow(b); }
    if a != [] && b != [] {
      FirstUnit(a, b);
      var n := if a[0].Scalar? then |Utf16Units(a[0].c)| else 1;
      assert CodeUnits(a)[n..] == CodeUnits(a[1..]) && CodeUnits(b)[n..] == CodeUnits(b[1..]);
      CodeUnitsInjective(a[1..], b[1..]);
      assert a == [a[0]] + a[1..] && b == [b[0]] + b[1..];
    }
  }

  /** The order of `Array.prototype.sort` on strings, and `js_str_cmp` on the plain ones. */
  predicate KeyLess(a: Text, b: Text) {
    LexLt(CodeUnits(UnitsOf(a)), CodeUnits(UnitsOf(b)))
  }

  /** The key order is a strict total order, so every set of keys has exactly one sorted arrangement. */
  lemma KeyLessTotal(a: Text, b: Text, c: Text)
    ensures !KeyLess(a, a)
    ensures KeyLess(a, b) && KeyLess(b, c) ==> KeyLess(a, c)
    ensures KeyLess(a, b) || a == b || KeyLess(b, a)
  {
    var x, y, z := CodeUnits(UnitsOf(a)), CodeUnits(UnitsOf(b)), CodeUnits(UnitsOf(c));
    LexIrreflexive(x);
    if KeyLess(a, b) && KeyLess(b, c) { LexTransitive(x, y, z); }
    LexTrichotomy(x, y);
    if x == y {
      UnitsUnpaired(a);
      UnitsUnpaired(b);
      CodeUnitsInjective(UnitsOf(a), UnitsOf(b));
      PackOfUnits(a, []);
      PackOfUnits(b, []);
    }
  }

  /** On plain strings it is the order of their UTF-16 code units. */
  lemma KeyLessOfPlain(s: string, t: string)
    ensures KeyLess(Plain(s), Plain(t)) == JsLess(s, t)
  {
    PlainCodeUnits(s);
    PlainCodeUnits(t);
  }
}
