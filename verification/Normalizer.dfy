/**
  The text normalizer of the safety policy, twice: the sequence of rewrites of
  packages/policy/src/engine.ts and the single fused walk of prover/policy-core/src/normalize.rs.
*/
module Normalizer {
  /**
    What both sides take from the Unicode tables: NFKC followed by lowercasing, and membership in the
    general categories P* and S*.
  */
  datatype Unicode = Unicode(fold: string -> string, punctuationOrSymbol: char -> bool)

  /** Letters are neither punctuation nor symbols; only the six that the leet fold can produce matter. */
  ghost predicate ValidTables(u: Unicode) {
    forall c: char :: c in LEET_OUTPUTS ==> !u.punctuationOrSymbol(c)
  }

  const ZERO_WIDTH: set<char> := {'\U{200B}', '\U{200C}', '\U{200D}', '\U{200E}', '\U{200F}', '\U{2060}', '\U{FEFF}'}
  const LEET_KEYS: set<char> := {'@', '$', '0', '1', '3', '4', '5', '7'}
  const LEET_OUTPUTS: set<char> := {'a', 's', 'o', 'i', 'e', 't'}

  // ------------------------------------------------------------ character classes

  /** `[\u200B-\u200F\u2060\uFEFF]`, as a range and two single characters. */
  predicate JsZeroWidth(c: char) {
    0x200B <= c as int <= 0x200F || c == '\U{2060}' || c == '\U{FEFF}'
  }

  /** ECMAScript `\s`: the WhiteSpace and LineTerminator productions. */
  predicate JsWhitespace(c: char) {
    var n := c as int;
    || 0x9 <= n <= 0xD || n == 0x20 || n == 0xA0 || n == 0xFEFF || n == 0x1680
    || 0x2000 <= n <= 0x200A || n == 0x2028 || n == 0x2029 || n == 0x202F || n == 0x205F || n == 0x3000
  }

  /** `char::is_whitespace`: the Unicode property White_Space. */
  predicate RustWhitespace(c: char) {
    var n := c as int;
    || 0x9 <= n <= 0xD || n == 0x20 || n == 0x85 || n == 0xA0 || n == 0x1680
    || 0x2000 <= n <= 0x200A || n == 0x2028 || n == 0x2029 || n == 0x202F || n == 0x205F || n == 0x3000
  }

  predicate IsZeroWidth(c: char) {
    c in ZERO_WIDTH
  }

  predicate IsJsWhitespace(c: char) {
    c == '\U{FEFF}' || (RustWhitespace(c) && c != '\U{0085}')
  }

  /** `[\s\p{P}\p{S}]`. */
  predicate JsCollapsible(u: Unicode, c: char) {
    JsWhitespace(c) || u.punctuationOrSymbol(c)
  }

  predicate IsCollapsible(u: Unicode, c: char) {
    IsJsWhitespace(c) || u.punctuationOrSymbol(c)
  }

  /** The two spellings of each class accept the same characters. */
  lemma ClassesAgree(u: Unicode, c: char)
    ensures IsZeroWidth(c) == JsZeroWidth(c)
    ensures IsCollapsible(u, c) == JsCollapsible(u, c)
  {
    if JsZeroWidth(c) { assert c as int in {0x200B, 0x200C, 0x200D, 0x200E, 0x200F, 0x2060, 0xFEFF}; }
  }

  function FoldLeet(c: char): char {
    match c
    case '@' => 'a'
    case '$' => 's'
    case '0' => 'o'
    case '1' => 'i'
    case '3' => 'e'
    case '4' => 'a'
    case '5' => 's'
    case '7' => 't'
    case _ => c
  }

  // ------------------------------------------------------------ the TypeScript rewrites

  /** `t.replace(/[zero-width]/g, "")`. */
  function StripZeroWidth(t: string): string {
    if t == "" then ""
    else if JsZeroWidth(t[0]) then StripZeroWidth(t[1..])
    else [t[0]] + StripZeroWidth(t[1..])
  }

  /** `t.replace(/from/g, to)` for single characters. */
  function ReplaceAll(t: string, from: char, to: char): (r: string)
    ensures |r| == |t|
  {
    if t == "" then "" else [if t[0] == from then to else t[0]] + ReplaceAll(t[1..], from, to)
  }

  function LeetReplaces(t: string): string {
    var t := ReplaceAll(t, '@', 'a');
    var t := ReplaceAll(t, '$', 's');
    var t := ReplaceAll(t, '0', 'o');
    var t := ReplaceAll(t, '1', 'i');
    var t := ReplaceAll(t, '3', 'e');
    var t := ReplaceAll(t, '4', 'a');
    var t := ReplaceAll(t, '5', 's');
    ReplaceAll(t, '7', 't')
  }

  /** What is left after a maximal run of collapsible characters. */
  function SkipRun(u: Unicode, t: string): (r: string)
    ensures |r| <= |t|
  {
    if t != "" && JsCollapsible(u, t[0]) then SkipRun(u, t[1..]) else t
  }

  /** `t.replace(/[\s\p{P}\p{S}]+/gu, " ")`. */
  function Collapse(u: Unicode, t: string): string
    decreases |t|
  {
    if t == "" then ""
    else if JsCollapsible(u, t[0]) then " " + Collapse(u, SkipRun(u, t[1..]))
    else [t[0]] + Collapse(u, t[1..])
  }

  function TrimStart(t: string): string {
    if t != "" && JsWhitespace(t[0]) then TrimStart(t[1..]) else t
  }

  function TrimEnd(t: string): string {
    if t != "" && JsWhitespace(t[|t| - 1]) then TrimEnd(t[..|t| - 1]) else t
  }

  /** `String.prototype.trim`. */
  function Trim(t: string): string {
    TrimEnd(TrimStart(t))
  }

  /** The rewrites after NFKC and lowercasing. */
  function Rewrites(u: Unicode, t: string): string {
    Trim(Collapse(u, LeetReplaces(StripZeroWidth(t))))
  }

  /** `normalize` of engine.ts. */
  function JsNormalize(u: Unicode, text: string): string {
    Rewrites(u, u.fold(text))
  }

  // ------------------------------------------------------------ the fused walk

  /** What the walk still has to append when it stands before `t` with `started` output and a pending space. */
  function Walk(u: Unicode, t: string, started: bool, pending: bool): string {
    if t == "" then ""
    else if IsZeroWidth(t[0]) then Walk(u, t[1..], started, pending)
    else
      var c := FoldLeet(t[0]);
      if IsCollapsible(u, c) then Walk(u, t[1..], started, true)
      else (if pending && started then " " else "") + [c] + Walk(u, t[1..], true, false)
  }

  /** `normalize` of normalize.rs. */
  method Normalize(u: Unicode, text: string) returns (out: string)
    ensures out == JsNormalize(u, text)
  {
    var folded := u.fold(text);
    out := "";
    var pendingSpace := false;
    for i := 0 to |folded|
      invariant Walk(u, folded, false, false) == out + Walk(u, folded[i..], out != "", pendingSpace)
    {
      assert folded[i..][0] == folded[i] && folded[i..][1..] == folded[i + 1..];
      if !IsZeroWidth(folded[i]) {
        var c := FoldLeet(folded[i]);
        if IsCollapsible(u, c) {
          pendingSpace := true;
        } else {
          if pendingSpace {
            if out != "" {
              out := out + " ";
            }
            pendingSpace := false;
          }
          out := out + [c];
        }
      }
    }
    WalkIsRewrites(u, folded);
  }

  // ------------------------------------------------------------ refinement

  /** Stripping and then folding, character by character. */
  function Residue(t: string): string {
    if t == "" then ""
    else if IsZeroWidth(t[0]) then Residue(t[1..])
    else [FoldLeet(t[0])] + Residue(t[1..])
  }

  lemma {:induction false} ReplaceCons(c: char, t: string, from: char, to: char)
    ensures ReplaceAll([c] + t, from, to) == [if c == from then to else c] + ReplaceAll(t, from, to)
  {
    assert ([c] + t)[1..] == t;
  }

  lemma LeetReplacesCons(c: char, t: string)
    ensures LeetReplaces([c] + t) == [FoldLeet(c)] + LeetReplaces(t)
  {
    var c0, t0 := c, t;
    ReplaceCons(c0, t0, '@', 'a');
    var c1, t1 := if c0 == '@' then 'a' else c0, ReplaceAll(t0, '@', 'a');
    ReplaceCons(c1, t1, '$', 's');
    var c2, t2 := if c1 == '$' then 's' else c1, ReplaceAll(t1, '$', 's');
    ReplaceCons(c2, t2, '0', 'o');
    var c3, t3 := if c2 == '0' then 'o' else c2, ReplaceAll(t2, '0', 'o');
    ReplaceCons(c3, t3, '1', 'i');
    var c4, t4 := if c3 == '1' then 'i' else c3, ReplaceAll(t3, '1', 'i');
    ReplaceCons(c4, t4, '3', 'e');
    var c5, t5 := if c4 == '3' then 'e' else c4, ReplaceAll(t4, '3', 'e');
    ReplaceCons(c5, t5, '4', 'a');
    var c6, t6 := if c5 == '4' then 'a' else c5, ReplaceAll(t5, '4', 'a');
    ReplaceCons(c6, t6, '5', 's');
    var c7, t7 := if c6 == '5' then 's' else c6, ReplaceAll(t6, '5', 's');
    ReplaceCons(c7, t7, '7', 't');
  }

  /** The strip pass and the eight replaces amount to one character-wise pass: no replacement is itself replaced. */
  lemma {:induction false} ResidueIsStripAndFold(t: string)
    ensures LeetReplaces(StripZeroWidth(t)) == Residue(t)
  {
    if t != "" {
      ClassesAgree(Unicode(x => x, x => false), t[0]);
      ResidueIsStripAndFold(t[1..]);
      if JsZeroWidth(t[0]) {
        assert StripZeroWidth(t) == StripZeroWidth(t[1..]);
      } else {
        LeetReplacesCons(t[0], StripZeroWidth(t[1..]));
      }
    }
  }

  lemma {:induction false} TrimEndCons(c: char, t: string)
    ensures TrimEnd([c] + t) == if TrimEnd(t) == "" && JsWhitespace(c) then "" else [c] + TrimEnd(t)
  {
    var x := [c] + t;
    if t == "" {
      assert x[..|x| - 1] == "";
    } else if JsWhitespace(t[|t| - 1]) {
      assert x[..|x| - 1] == [c] + t[..|t| - 1];
      TrimEndCons(c, t[..|t| - 1]);
    }
  }

  /** The walk before `t`, as a function of the residue `r` of `t`, in each of the states it can be in. */
  ghost function WalkSpec(u: Unicode, r: string, started: bool, pending: bool): string {
    TrimEnd(if !started then Collapse(u, SkipRun(u, r))
            else if pending then " " + Collapse(u, SkipRun(u, r))
            else Collapse(u, r))
  }

  lemma WalkSpecStep(u: Unicode, c: char, r: string, started: bool, pending: bool)
    ensures WalkSpec(u, [c] + r, started, pending)
         == if IsCollapsible(u, c) then WalkSpec(u, r, started, true)
            else (if pending && started then " " else "") + [c] + WalkSpec(u, r, true, false)
  {
    assert ([c] + r)[1..] == r;
    ClassesAgree(u, c);
    if !IsCollapsible(u, c) {
      TrimEndCons(c, Collapse(u, r));
      TrimEndCons(' ', [c] + Collapse(u, r));
    }
  }

  lemma {:induction false} WalkInvariant(u: Unicode, t: string, started: bool, pending: bool)
    ensures Walk(u, t, started, pending) == WalkSpec(u, Residue(t), started, pending)
  {
    if t == "" {
      assert " " + "" == " " && " "[..0] == "";
    } else if IsZeroWidth(t[0]) {
      assert Residue(t) == Residue(t[1..]);
      WalkInvariant(u, t[1..], started, pending);
    } else {
      WalkSpecStep(u, FoldLeet(t[0]), Residue(t[1..]), started, pending);
      if IsCollapsible(u, FoldLeet(t[0])) {
        WalkInvariant(u, t[1..], started, true);
      } else {
        WalkInvariant(u, t[1..], true, false);
      }
    }
  }

  /** Trimming the front of a collapsed text is skipping the leading run before collapsing it. */
  lemma {:induction false} TrimStartOfCollapse(u: Unicode, t: string)
    ensures TrimStart(Collapse(u, t)) == Collapse(u, SkipRun(u, t))
    decreases |t|
  {
    if t != "" && JsCollapsible(u, t[0]) {
      var rest := SkipRun(u, t[1..]);
      TrimStartOfCollapse(u, rest);
      SkipRunStops(u, t[1..]);
      assert SkipRun(u, rest) == rest;
      assert Collapse(u, t)[1..] == Collapse(u, rest);
    }
  }

  lemma SkipRunStops(u: Unicode, t: string)
    ensures var r := SkipRun(u, t); r == "" || !JsCollapsible(u, r[0])
  {}

  /** The fused walk computes the sequence of rewrites, on every text. */
  lemma WalkIsRewrites(u: Unicode, t: string)
    ensures Walk(u, t, false, false) == Rewrites(u, t)
  {
    WalkInvariant(u, t, false, false);
    TrimStartOfCollapse(u, Residue(t));
    ResidueIsStripAndFold(t);
  }

  // ------------------------------------------------------------ the normal form

  /** A character that normalized text can hold: what the rewrites remove or replace is gone, but for U+0020. */
  predicate CleanChar(u: Unicode, c: char) {
    c == ' ' || (!IsZeroWidth(c) && c !in LEET_KEYS && !IsCollapsible(u, c))
  }

  /** Clean characters, no two adjacent spaces, no space at either end. */
  ghost predicate NormalForm(u: Unicode, t: string) {
    && (forall i :: 0 <= i < |t| ==> CleanChar(u, t[i]))
    && (forall i :: 0 < i < |t| ==> t[i - 1] != ' ' || t[i] != ' ')
    && (t != "" ==> t[0] != ' ' && t[|t| - 1] != ' ')
  }

  lemma FoldedIsClean(u: Unicode, c: char)
    requires ValidTables(u) && !IsZeroWidth(c) && !IsCollapsible(u, FoldLeet(c))
    ensures CleanChar(u, FoldLeet(c)) && FoldLeet(c) != ' '
  {
    assert FoldLeet(c) == c || FoldLeet(c) in LEET_OUTPUTS;
  }

  lemma NormalExtend(u: Unicode, out: string, gap: string, c: char)
    requires NormalForm(u, out) && CleanChar(u, c) && c != ' '
    requires gap == "" || (gap == " " && out != "")
    ensures NormalForm(u, out + gap + [c])
  {
    var t := out + gap + [c];
    forall i | 0 <= i < |t| ensures CleanChar(u, t[i]) {
      assert t[i] == if i < |out| then out[i] else if i < |out + gap| then ' ' else c;
    }
  }

  /** Everything the walk appends is in normal form once what precedes it is. */
  lemma {:induction false} WalkIsNormal(u: Unicode, out: string, t: string, pending: bool)
    requires ValidTables(u) && NormalForm(u, out)
    ensures NormalForm(u, out + Walk(u, t, out != "", pending))
    decreases |t|
  {
    if t == "" {
      assert out + "" == out;
    } else if IsZeroWidth(t[0]) {
      WalkIsNormal(u, out, t[1..], pending);
    } else {
      var c := FoldLeet(t[0]);
      if IsCollapsible(u, c) {
        WalkIsNormal(u, out, t[1..], true);
      } else {
        FoldedIsClean(u, t[0]);
        var gap := if pending && out != "" then " " else "";
        NormalExtend(u, out, gap, c);
        var longer := out + gap + [c];
        WalkIsNormal(u, longer, t[1..], false);
        assert out + (gap + [c] + Walk(u, t[1..], true, false)) == longer + Walk(u, t[1..], true, false);
      }
    }
  }

  lemma RewritesAreNormal(u: Unicode, t: string)
    requires ValidTables(u)
    ensures NormalForm(u, Rewrites(u, t))
  {
    WalkIsRewrites(u, t);
    WalkIsNormal(u, "", t, false);
    assert "" + Walk(u, t, false, false) == Walk(u, t, false, false);
  }

  /** On text in normal form the walk only copies, holding a space back for one step. */
  lemma {:induction false} WalkCopies(u: Unicode, t: string, i: nat)
    requires ValidTables(u) && NormalForm(u, t) && i <= |t|
    ensures var held := i > 0 && t[i - 1] == ' ';
            Walk(u, t[i..], i > 0, held) == if held then t[i - 1..] else t[i..]
    decreases |t| - i
  {
    if i < |t| {
      WalkCopies(u, t, i + 1);
      WalkStep(u, t[i], t[i + 1..], i > 0, i > 0 && t[i - 1] == ' ');
      assert t[i..] == [t[i]] + t[i + 1..];
      if i > 0 && t[i - 1] == ' ' {
        assert t[i - 1..] == " " + t[i..];
      }
    }
  }

  lemma WalkStep(u: Unicode, c: char, rest: string, started: bool, pending: bool)
    requires CleanChar(u, c)
    ensures Walk(u, [c] + rest, started, pending)
         == if c == ' ' then Walk(u, rest, started, true)
            else (if pending && started then " " else "") + ([c] + Walk(u, rest, true, false))
  {
    assert ([c] + rest)[1..] == rest;
    assert FoldLeet(c) == c && IsCollapsible(u, c) == (c == ' ');
  }

  /** Normal forms are the fixed points of the rewrites; in particular rewriting twice is rewriting once. */
  lemma RewritesIdempotent(u: Unicode, t: string)
    requires ValidTables(u)
    ensures NormalForm(u, t) <==> Rewrites(u, t) == t
    ensures Rewrites(u, Rewrites(u, t)) == Rewrites(u, t)
  {
    RewritesAreNormal(u, t);
    NormalIsFixed(u, Rewrites(u, t));
    if NormalForm(u, t) {
      NormalIsFixed(u, t);
    }
  }

  lemma NormalIsFixed(u: Unicode, t: string)
    requires ValidTables(u) && NormalForm(u, t)
    ensures Rewrites(u, t) == t
  {
    WalkCopies(u, t, 0);
    WalkIsRewrites(u, t);
    assert t[0..] == t;
  }
}
