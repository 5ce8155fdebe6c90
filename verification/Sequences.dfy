/**
  Substring search and lexicographic order on sequences, as used on strings, bytes and UTF-16 code units. A
  sequence occurs in another if it is one of its slices; the order compares at the first difference, and a
  proper prefix is smaller. Both are stated here for units of any kind, so that one statement serves the byte
  strings of Rust and the code-unit strings of JavaScript.
*/
module Sequences {

  /** `y` occurs in `x` at index `i`. */
  predicate OccursAt<T(==)>(x: seq<T>, y: seq<T>, i: nat) {
    i + |y| <= |x| && x[i..i + |y|] == y
  }

  /** `x.includes(y)` in JavaScript, `x.contains(y)` in Rust. */
  predicate Contains<T(==)>(x: seq<T>, y: seq<T>) {
    exists i: nat :: i + |y| <= |x| && OccursAt(x, y, i)
  }

  lemma ContainsWitness<T>(pre: seq<T>, y: seq<T>, post: seq<T>)
    ensures Contains(pre + y + post, y)
  {
    assert OccursAt(pre + y + post, y, |pre|);
  }

  lemma ContainsSplit<T>(x: seq<T>, y: seq<T>) returns (pre: seq<T>, post: seq<T>)
    requires Contains(x, y)
    ensures x == pre + y + post
  {
    var i: nat :| i + |y| <= |x| && OccursAt(x, y, i);
    pre, post := x[..i], x[i + |y|..];
  }

  lemma ContainsTransitive<T>(x: seq<T>, y: seq<T>, z: seq<T>)
    requires Contains(x, y) && Contains(y, z)
    ensures Contains(x, z)
  {
    var a, b := ContainsSplit(x, y);
    var c, d := ContainsSplit(y, z);
    assert x == (a + c) + z + (d + b);
    ContainsWitness(a + c, z, d + b);
  }

  /** Strict lexicographic order: a proper prefix is smaller. */
  predicate LexLt(a: seq<nat>, b: seq<nat>) {
    b != [] && (a == [] || a[0] < b[0] || (a[0] == b[0] && LexLt(a[1..], b[1..])))
  }

  predicate LexLe(a: seq<nat>, b: seq<nat>) {
    a == b || LexLt(a, b)
  }

  lemma LexIrreflexive(a: seq<nat>)
    ensures !LexLt(a, a)
  {}

  lemma {:induction false} LexTransitive(a: seq<nat>, b: seq<nat>, c: seq<nat>)
    requires LexLt(a, b) && LexLt(b, c)
    ensures LexLt(a, c)
  {
    if a != [] && a[0] == b[0] && b[0] == c[0] {
      LexTransitive(a[1..], b[1..], c[1..]);
    }
  }

  lemma {:induction false} LexTrichotomy(a: seq<nat>, b: seq<nat>)
    ensures LexLt(a, b) || a == b || LexLt(b, a)
  {
    if a != [] && b != [] && a[0] == b[0] {
      LexTrichotomy(a[1..], b[1..]);
      assert a == [a[0]] + a[1..] && b == [b[0]] + b[1..];
    }
  }

  lemma LexAsymmetric(a: seq<nat>, b: seq<nat>)
    requires LexLt(a, b)
    ensures a != b && !LexLt(b, a)
  {
    LexIrreflexive(a);
    if LexLt(b, a) { LexTransitive(a, b, a); }
  }

  /** Dropping a common prefix does not change the comparison. */
  lemma {:induction false} LexCommonPrefix(p: seq<nat>, a: seq<nat>, b: seq<nat>)
    ensures LexLt(p + a, p + b) == LexLt(a, b)
  {
    if p == [] {
      assert p + a == a && p + b == b;
    } else {
      LexCommonPrefix(p[1..], a, b);
      assert (p + a)[1..] == p[1..] + a && (p + b)[1..] == p[1..] + b;
    }
  }

  /** The comparison is decided at the first position where the two differ. */
  lemma LexFirstDifference(a: seq<nat>, b: seq<nat>, k: nat)
    requires k < |a| && k < |b| && a[..k] == b[..k] && a[k] != b[k]
    ensures LexLt(a, b) == (a[k] < b[k])
  {
    LexCommonPrefix(a[..k], a[k..], b[k..]);
    assert a == a[..k] + a[k..] && b == b[..k] + b[k..];
  }

  /** A prefix is below whatever extends it. */
  lemma LexPrefix(a: seq<nat>, b: seq<nat>)
    requires a <= b
    ensures LexLe(a, b)
  {
    if a != b {
      LexCommonPrefix(a, [], b[|a|..]);
      assert a + [] == a && a + b[|a|..] == b;
    }
  }
}
