/** What an evaluation says, without the functions that compute it, and how it changes with the ruleset. */
module PolicyLaws {
  import opened PolicyEngine
  import opened Wrappers
  import C = Canonicalizers
  import J = Json

  // ------------------------------------------------------------ what an evaluation says

  ghost predicate SomeHit<P>(phrases: seq<P>, hit: P -> bool) {
    exists i :: 0 <= i < |phrases| && hit(phrases[i])
  }

  /** The target is of the category and one of its phrases matches. */
  ghost predicate Counts<P>(t: Target<P>, category: string, hit: P -> bool) {
    t.category == category && SomeHit(t.phrases, hit)
  }

  ghost function TargetPoints<P>(targets: seq<Target<P>>, category: string, hit: P -> bool): int {
    if targets == [] then 0
    else
      var last := targets[|targets| - 1];
      TargetPoints(targets[..|targets| - 1], category, hit) + if Counts(last, category, hit) then last.weight else 0
  }

  ghost function TargetNames<P>(targets: seq<Target<P>>, category: string, hit: P -> bool): seq<string> {
    if targets == [] then []
    else
      var last := targets[|targets| - 1];
      TargetNames(targets[..|targets| - 1], category, hit) + if Counts(last, category, hit) then [last.id] else []
  }

  ghost function ModifierPoints<P>(modifiers: seq<Modifier<P>>, hit: P -> bool): int {
    if modifiers == [] then 0
    else
      var last := modifiers[|modifiers| - 1];
      ModifierPoints(modifiers[..|modifiers| - 1], hit) + if SomeHit(last.phrases, hit) then last.weight else 0
  }

  ghost function ModifierNames<P>(modifiers: seq<Modifier<P>>, hit: P -> bool): seq<string> {
    if modifiers == [] then []
    else
      var last := modifiers[|modifiers| - 1];
      ModifierNames(modifiers[..|modifiers| - 1], hit) + if SomeHit(last.phrases, hit) then [last.id] else []
  }

  /**
    The points of a category: those of its matched targets, and if there are any, the bonuses and, unless a suppressor
    matches, those of the matched modifiers.
  */
  ghost function Points<P>(rules: Rules<P>, category: string, hit: P -> bool): int {
    if forall t <- rules.targets :: !Counts(t, category, hit) then 0
    else
      TargetPoints(rules.targets, category, hit)
      + (if SomeHit(rules.intentPhrases, hit) then rules.intentBonus else 0)
      + (if SomeHit(rules.constructionVerbs, hit) then rules.constructionBonus else 0)
      + (if SomeHit(rules.modifierSuppressors, hit) then 0 else ModifierPoints(rules.modifiers, hit))
  }

  function AtLeastZero(n: int): int {
    if n < 0 then 0 else n
  }

  /** The hard block with the least index of which a phrase matches. */
  ghost predicate FirstBlock<P>(blocks: seq<HardBlock<P>>, hit: P -> bool, k: nat) {
    && k < |blocks| && SomeHit(blocks[k].phrases, hit)
    && forall i :: 0 <= i < k ==> !SomeHit(blocks[i].phrases, hit)
  }

  ghost predicate Scored<P>(rules: Rules<P>, entry: (string, CategoryMeta), hit: P -> bool, line: CategoryScore) {
    && line.category == entry.0 && line.name == entry.1.name && line.threshold == entry.1.threshold
    && line.matchedTargets == TargetNames(rules.targets, entry.0, hit)
    && line.score == AtLeastZero(Points(rules, entry.0, hit))
  }

  /** What the evaluation of a ruleset says. */
  ghost predicate Says<P>(rules: Rules<P>, entries: seq<(string, CategoryMeta)>, hit: P -> bool, v: Evaluation) {
    if exists k: nat :: FirstBlock(rules.hardBlocks, hit, k) then
      && (exists k: nat :: FirstBlock(rules.hardBlocks, hit, k) && v.hardBlock == Some(rules.hardBlocks[k].id))
      && v.decision.Deny? && v.categories == [] && v.modifiersApplied == []
      && !v.intentPresent && !v.constructionPresent
    else
      && v.hardBlock.None?
      && (v.intentPresent <==> SomeHit(rules.intentPhrases, hit))
      && (v.constructionPresent <==> SomeHit(rules.constructionVerbs, hit))
      && v.modifiersApplied
         == (if SomeHit(rules.modifierSuppressors, hit) then [] else ModifierNames(rules.modifiers, hit))
      && |v.categories| == |entries|
      && (forall i :: 0 <= i < |entries| ==> Scored(rules, entries[i], hit, v.categories[i]))
      && (v.decision.Deny?
        <==> exists i :: 0 <= i < |v.categories| && v.categories[i].score >= v.categories[i].threshold)
  }

  lemma MatchedFirst<P>(t: Target<P>, rest: seq<Target<P>>, category: string, hit: P -> bool)
    ensures Matched([t] + rest, category, hit)
            == (if t.category == category && AnyHit(t.phrases, hit) then [t] else []) + Matched(rest, category, hit)
  {
    var all := [t] + rest;
    assert all[0] == t && all[1..] == rest;
  }

  lemma {:induction false} MatchedAppend<P>(a: seq<Target<P>>, b: seq<Target<P>>, category: string, hit: P -> bool)
    ensures Matched(a + b, category, hit) == Matched(a, category, hit) + Matched(b, category, hit)
  {
    if a == [] {
      assert a + b == b;
    } else {
      MatchedAppend(a[1..], b, category, hit);
      MatchedFirst(a[0], a[1..] + b, category, hit);
      MatchedFirst(a[0], a[1..], category, hit);
      assert a + b == [a[0]] + (a[1..] + b) && a == [a[0]] + a[1..];
    }
  }

  lemma {:induction false} TargetSumAppend<P>(a: seq<Target<P>>, b: seq<Target<P>>)
    ensures TargetSum(a + b) == TargetSum(a) + TargetSum(b) && TargetIds(a + b) == TargetIds(a) + TargetIds(b)
  {
    if a == [] {
      assert a + b == b;
    } else {
      TargetSumAppend(a[1..], b);
      assert (a + b)[0] == a[0] && (a + b)[1..] == a[1..] + b;
    }
  }

  lemma OneTarget<P>(t: Target<P>, category: string, hit: P -> bool)
    ensures Matched([t], category, hit) == if Counts(t, category, hit) then [t] else []
    ensures TargetSum([t]) == t.weight && TargetIds([t]) == [t.id]
  {
    assert [t][1..] == [];
    assert AnyHit(t.phrases, hit) <==> SomeHit(t.phrases, hit);
  }

  lemma {:induction false} TargetsMatched<P>(targets: seq<Target<P>>, category: string, hit: P -> bool)
    ensures TargetSum(Matched(targets, category, hit)) == TargetPoints(targets, category, hit)
    ensures TargetIds(Matched(targets, category, hit)) == TargetNames(targets, category, hit)
    ensures Matched(targets, category, hit) == [] <==> forall t <- targets :: !Counts(t, category, hit)
  {
    if targets != [] {
      var init, last := targets[..|targets| - 1], targets[|targets| - 1];
      assert targets == init + [last];
      TargetsMatched(init, category, hit);
      MatchedAppend(init, [last], category, hit);
      OneTarget(last, category, hit);
      TargetSumAppend(Matched(init, category, hit), Matched([last], category, hit));
    }
  }

  lemma {:induction false} AppliedAppend<P>(a: seq<Modifier<P>>, b: seq<Modifier<P>>, hit: P -> bool)
    ensures Applied(a + b, hit) == Applied(a, hit) + Applied(b, hit)
  {
    if a == [] {
      assert a + b == b;
    } else {
      AppliedAppend(a[1..], b, hit);
      assert (a + b)[0] == a[0] && (a + b)[1..] == a[1..] + b;
    }
  }

  lemma {:induction false} ModifierSumAppend<P>(a: seq<Modifier<P>>, b: seq<Modifier<P>>)
    ensures ModifierSum(a + b) == ModifierSum(a) + ModifierSum(b)
            && ModifierIds(a + b) == ModifierIds(a) + ModifierIds(b)
  {
    if a == [] {
      assert a + b == b;
    } else {
      ModifierSumAppend(a[1..], b);
      assert (a + b)[0] == a[0] && (a + b)[1..] == a[1..] + b;
    }
  }

  lemma OneModifier<P>(m: Modifier<P>, hit: P -> bool)
    ensures Applied([m], hit) == if SomeHit(m.phrases, hit) then [m] else []
    ensures ModifierSum([m]) == m.weight && ModifierIds([m]) == [m.id]
  {
    assert [m][1..] == [];
    assert AnyHit(m.phrases, hit) <==> SomeHit(m.phrases, hit);
  }

  lemma {:induction false} ModifiersApply<P>(modifiers: seq<Modifier<P>>, hit: P -> bool)
    ensures ModifierSum(Applied(modifiers, hit)) == ModifierPoints(modifiers, hit)
    ensures ModifierIds(Applied(modifiers, hit)) == ModifierNames(modifiers, hit)
  {
    if modifiers != [] {
      var init, last := modifiers[..|modifiers| - 1], modifiers[|modifiers| - 1];
      assert modifiers == init + [last];
      ModifiersApply(init, hit);
      AppliedAppend(init, [last], hit);
      OneModifier(last, hit);
      ModifierSumAppend(Applied(init, hit), Applied([last], hit));
    }
  }

  lemma ScoreIsPoints<P>(rules: Rules<P>, category: string, hit: P -> bool)
    ensures Score(rules, category, hit) == AtLeastZero(Points(rules, category, hit))
  {
    TargetsMatched(rules.targets, category, hit);
    ModifiersApply(rules.modifiers, hit);
    assert forall phrases: seq<P> :: AnyHit(phrases, hit) <==> SomeHit(phrases, hit);
  }

  lemma {:induction false} BlockFound<P>(blocks: seq<HardBlock<P>>, hit: P -> bool) returns (k: nat)
    ensures FirstHardBlock(blocks, hit).Some? ==>
              FirstBlock(blocks, hit, k) && FirstHardBlock(blocks, hit) == Some(blocks[k].id)
    ensures FirstHardBlock(blocks, hit).None? ==> forall i :: 0 <= i < |blocks| ==> !SomeHit(blocks[i].phrases, hit)
  {
    k := 0;
    if blocks != [] {
      assert AnyHit(blocks[0].phrases, hit) <==> SomeHit(blocks[0].phrases, hit);
      if !AnyHit(blocks[0].phrases, hit) {
        var j := BlockFound(blocks[1..], hit);
        k := j + 1;
        assert forall i :: 0 < i < |blocks| ==> blocks[i] == blocks[1..][i - 1];
      }
    }
  }

  lemma LinesScored<P>(rules: Rules<P>, entries: seq<(string, CategoryMeta)>, hit: P -> bool)
    ensures var lines := ScoreLines(rules, entries, hit);
            |lines| == |entries| && forall i :: 0 <= i < |entries| ==> Scored(rules, entries[i], hit, lines[i])
  {
    forall i | 0 <= i < |entries| ensures Scored(rules, entries[i], hit, ScoreLine(rules, entries[i], hit)) {
      ScoreIsPoints(rules, entries[i].0, hit);
      TargetsMatched(rules.targets, entries[i].0, hit);
    }
  }

  lemma DenialIsOnALine<P>(rules: Rules<P>, entries: seq<(string, CategoryMeta)>, hit: P -> bool)
    ensures var lines := ScoreLines(rules, entries, hit);
            SomeCategoryDenies(rules, entries, hit)
            <==> (exists i :: 0 <= i < |lines| && lines[i].score >= lines[i].threshold)
  {
    var lines := ScoreLines(rules, entries, hit);
    if i :| 0 <= i < |entries| && Score(rules, entries[i].0, hit) >= entries[i].1.threshold {
      assert lines[i].score >= lines[i].threshold;
    }
    if i :| 0 <= i < |lines| && lines[i].score >= lines[i].threshold {
      assert Score(rules, entries[i].0, hit) >= entries[i].1.threshold;
    }
  }

  /** The verdict both engines compute says this, whatever the rules, the order of the categories and the matcher. */
  lemma VerdictSays<P>(rules: Rules<P>, entries: seq<(string, CategoryMeta)>, hit: P -> bool)
    ensures Says(rules, entries, hit, Verdict(rules, entries, hit))
  {
    var k := BlockFound(rules.hardBlocks, hit);
    ModifiersApply(rules.modifiers, hit);
    LinesScored(rules, entries, hit);
    DenialIsOnALine(rules, entries, hit);
    assert forall phrases: seq<P> :: AnyHit(phrases, hit) <==> SomeHit(phrases, hit);
  }

  // ------------------------------------------------------------ laws

  /** A matched suppressor is as good as no modifiers at all. */
  lemma SuppressorDropsModifiers<P>(rules: Rules<P>, entries: seq<(string, CategoryMeta)>, hit: P -> bool)
    requires SomeHit(rules.modifierSuppressors, hit)
    ensures Verdict(rules, entries, hit) == Verdict(rules.(modifiers := []), entries, hit)
  {
    var bare := rules.(modifiers := []);
    assert AnyHit(rules.modifierSuppressors, hit);
    forall e | e in entries ensures ScoreLine(rules, e, hit) == ScoreLine(bare, e, hit) {}
    assert ScoreLines(rules, entries, hit) == ScoreLines(bare, entries, hit);
    SameDenial(rules, bare, entries, hit);
  }

  lemma SameDenial<P>(rules: Rules<P>, other: Rules<P>, entries: seq<(string, CategoryMeta)>, hit: P -> bool)
    requires ScoreLines(rules, entries, hit) == ScoreLines(other, entries, hit)
    ensures SomeCategoryDenies(rules, entries, hit) == SomeCategoryDenies(other, entries, hit)
  {
    DenialIsOnALine(rules, entries, hit);
    DenialIsOnALine(other, entries, hit);
  }

  /**
    Two scores of which one has `shift` points more before what is below zero is cut off. Either tells the other unless
    it is zero itself.
  */
  predicate ShiftedBy(more: int, less: int, shift: int) {
    && more >= 0 && less >= 0
    && (less > 0 ==> more == AtLeastZero(less + shift))
    && (more > 0 ==> less == AtLeastZero(more - shift))
  }

  /** The same lines, but for the scores: shifted where a target matched, and zero both where none did. */
  ghost predicate LinesShifted(more: seq<CategoryScore>, less: seq<CategoryScore>, shift: int) {
    && |more| == |less|
    && forall i :: 0 <= i < |more| ==>
         && more[i] == less[i].(score := more[i].score)
         && (if less[i].matchedTargets == [] then more[i].score == less[i].score == 0
             else ShiftedBy(more[i].score, less[i].score, shift))
  }

  lemma PointsShift<P>(rules: Rules<P>, other: Rules<P>, category: string, hit: P -> bool, shift: int)
    requires rules.targets == other.targets
    requires (exists t <- rules.targets :: Counts(t, category, hit)) ==>
               Points(rules, category, hit) == Points(other, category, hit) + shift
    ensures if forall t <- rules.targets :: !Counts(t, category, hit)
            then Score(rules, category, hit) == Score(other, category, hit) == 0
            else ShiftedBy(Score(rules, category, hit), Score(other, category, hit), shift)
  {
    ScoreIsPoints(rules, category, hit);
    ScoreIsPoints(other, category, hit);
  }

  lemma {:induction false} NoNames<P>(targets: seq<Target<P>>, category: string, hit: P -> bool)
    ensures TargetNames(targets, category, hit) == [] <==> forall t <- targets :: !Counts(t, category, hit)
  {
    if targets != [] {
      NoNames(targets[..|targets| - 1], category, hit);
      assert targets == targets[..|targets| - 1] + [targets[|targets| - 1]];
    }
  }

  /** What the rules have in common when they differ in phrases or modifiers only, by `shift` points. */
  ghost predicate DifferBy<P>(rules: Rules<P>, other: Rules<P>, hit: P -> bool, shift: int) {
    && rules.targets == other.targets && rules.hardBlocks == other.hardBlocks
    && forall category :: (exists t <- rules.targets :: Counts(t, category, hit)) ==>
         Points(rules, category, hit) == Points(other, category, hit) + shift
  }

  lemma ShiftsLines<P>(rules: Rules<P>, other: Rules<P>, entries: seq<(string, CategoryMeta)>, hit: P -> bool,
                       shift: int)
    requires DifferBy(rules, other, hit, shift) && Verdict(rules, entries, hit).hardBlock.None?
    ensures Verdict(other, entries, hit).hardBlock.None?
    ensures LinesShifted(Verdict(rules, entries, hit).categories, Verdict(other, entries, hit).categories, shift)
  {
    var a, b := ScoreLines(rules, entries, hit), ScoreLines(other, entries, hit);
    forall i | 0 <= i < |a|
      ensures a[i] == b[i].(score := a[i].score)
      ensures if b[i].matchedTargets == [] then a[i].score == b[i].score == 0
              else ShiftedBy(a[i].score, b[i].score, shift)
    {
      PointsShift(rules, other, entries[i].0, hit, shift);
      TargetsMatched(rules.targets, entries[i].0, hit);
      NoNames(rules.targets, entries[i].0, hit);
    }
  }

  lemma {:induction false} ModifierPointsAppend<P>(a: seq<Modifier<P>>, b: seq<Modifier<P>>, hit: P -> bool)
    ensures ModifierPoints(a + b, hit) == ModifierPoints(a, hit) + ModifierPoints(b, hit)
    ensures ModifierNames(a + b, hit) == ModifierNames(a, hit) + ModifierNames(b, hit)
  {
    if b == [] {
      assert a + b == a;
    } else {
      var init, last := b[..|b| - 1], b[|b| - 1];
      ModifierPointsAppend(a, init, hit);
      assert (a + b)[..|a + b| - 1] == a + init && (a + b)[|a + b| - 1] == last;
    }
  }

  lemma ModifierBetween<P>(pre: seq<Modifier<P>>, m: Modifier<P>, post: seq<Modifier<P>>, hit: P -> bool)
    ensures ModifierPoints(pre + [m] + post, hit)
            == ModifierPoints(pre + post, hit) + (if SomeHit(m.phrases, hit) then m.weight else 0)
    ensures ModifierNames(pre + [m] + post, hit)
            == ModifierNames(pre, hit) + (if SomeHit(m.phrases, hit) then [m.id] else []) + ModifierNames(post, hit)
  {
    ModifierPointsAppend(pre + [m], post, hit);
    ModifierPointsAppend(pre, [m], hit);
    ModifierPointsAppend(pre, post, hit);
    assert [m][..0] == [];
  }

  /**
    Without a suppressor, a matched modifier shifts every category with a matched target and is listed in its place.
  */
  lemma ModifierShifts<P>(rules: Rules<P>, pre: seq<Modifier<P>>, m: Modifier<P>, post: seq<Modifier<P>>,
                          entries: seq<(string, CategoryMeta)>, hit: P -> bool)
    requires rules.modifiers == pre + [m] + post && SomeHit(m.phrases, hit) && !SomeHit(rules.modifierSuppressors, hit)
    requires Verdict(rules, entries, hit).hardBlock.None?
    ensures var v, without := Verdict(rules, entries, hit), Verdict(rules.(modifiers := pre + post), entries, hit);
            && LinesShifted(v.categories, without.categories, m.weight)
            && v.modifiersApplied == Verdict(rules.(modifiers := pre), entries, hit).modifiersApplied + [m.id]
                                     + Verdict(rules.(modifiers := post), entries, hit).modifiersApplied
  {
    ModifierBetween(pre, m, post, hit);
    ShiftsLines(rules, rules.(modifiers := pre + post), entries, hit, m.weight);
    VerdictSays(rules, entries, hit);
    VerdictSays(rules.(modifiers := pre), entries, hit);
    VerdictSays(rules.(modifiers := post), entries, hit);
  }

  lemma UnmatchedIsNotApplied<P>(pre: seq<Modifier<P>>, m: Modifier<P>, post: seq<Modifier<P>>, hit: P -> bool)
    requires !SomeHit(m.phrases, hit)
    ensures Applied(pre + [m] + post, hit) == Applied(pre + post, hit)
  {
    AppliedAppend(pre + [m], post, hit);
    AppliedAppend(pre, [m], hit);
    AppliedAppend(pre, post, hit);
    OneModifier(m, hit);
  }

  /** A modifier of which no phrase matches changes nothing. */
  lemma UnmatchedModifierIsIdle<P>(rules: Rules<P>, pre: seq<Modifier<P>>, m: Modifier<P>, post: seq<Modifier<P>>,
                                   entries: seq<(string, CategoryMeta)>, hit: P -> bool)
    requires rules.modifiers == pre + [m] + post && !SomeHit(m.phrases, hit)
    ensures Verdict(rules, entries, hit) == Verdict(rules.(modifiers := pre + post), entries, hit)
  {
    UnmatchedIsNotApplied(pre, m, post, hit);
    var without := rules.(modifiers := pre + post);
    assert ScoreLines(rules, entries, hit) == ScoreLines(without, entries, hit);
    SameDenial(rules, without, entries, hit);
  }

  /** A matched intent phrase adds the bonus to every category with a matched target, and is reported. */
  lemma IntentShifts<P>(rules: Rules<P>, entries: seq<(string, CategoryMeta)>, hit: P -> bool)
    requires SomeHit(rules.intentPhrases, hit) && Verdict(rules, entries, hit).hardBlock.None?
    ensures var v, without := Verdict(rules, entries, hit), Verdict(rules.(intentPhrases := []), entries, hit);
            && LinesShifted(v.categories, without.categories, rules.intentBonus)
            && v.intentPresent && !without.intentPresent
            && v.constructionPresent == without.constructionPresent && v.modifiersApplied == without.modifiersApplied
  {
    var without := rules.(intentPhrases := []);
    ShiftsLines(rules, without, entries, hit, rules.intentBonus);
    VerdictSays(rules, entries, hit);
    VerdictSays(without, entries, hit);
  }

  /** So does a matched construction verb. */
  lemma ConstructionShifts<P>(rules: Rules<P>, entries: seq<(string, CategoryMeta)>, hit: P -> bool)
    requires SomeHit(rules.constructionVerbs, hit) && Verdict(rules, entries, hit).hardBlock.None?
    ensures var v, without := Verdict(rules, entries, hit), Verdict(rules.(constructionVerbs := []), entries, hit);
            && LinesShifted(v.categories, without.categories, rules.constructionBonus)
            && v.constructionPresent && !without.constructionPresent
            && v.intentPresent == without.intentPresent && v.modifiersApplied == without.modifiersApplied
  {
    var without := rules.(constructionVerbs := []);
    ShiftsLines(rules, without, entries, hit, rules.constructionBonus);
    VerdictSays(rules, entries, hit);
    VerdictSays(without, entries, hit);
  }

  /**
    Phrases and modifiers alone score nothing: a category without a matched target is at zero, whatever else
    matches.
  */
  lemma NoTargetNoScore<P>(rules: Rules<P>, entries: seq<(string, CategoryMeta)>, hit: P -> bool, i: nat)
    requires i < |Verdict(rules, entries, hit).categories| && i < |entries|
    requires forall t <- rules.targets :: t.category == entries[i].0 ==> !SomeHit(t.phrases, hit)
    ensures Verdict(rules, entries, hit).categories[i].score == 0
    ensures Verdict(rules, entries, hit).categories[i].matchedTargets == []
  {
    VerdictSays(rules, entries, hit);
    NoNames(rules.targets, entries[i].0, hit);
    assert Scored(rules, entries[i], hit, Verdict(rules, entries, hit).categories[i]);
  }

  // ------------------------------------------------------------ keys that come first

  lemma {:induction false} SameValue(s: string)
    ensures DecimalValue(s) == C.DigitsValue(s)
  {
    if s != "" { SameValue(s[..|s| - 1]); }
  }

  ghost predicate Decimal(s: string) {
    s != "" && (forall c <- s :: '0' <= c <= '9') && (s[0] == '0' ==> s == "0")
  }

  lemma LastDigit(init: string, c: char)
    requires '0' <= c <= '9'
    ensures C.DigitsValue(init + [c]) == 10 * C.DigitsValue(init) + (c - '0') as nat
  {
    assert (init + [c])[..|init|] == init;
  }

  lemma WithLastDigit(m: nat, c: char)
    requires '0' <= c <= '9'
    ensures m > 0 ==> C.Digits(10 * m + (c - '0') as nat) == C.Digits(m) + [c]
    ensures C.Digits((c - '0') as nat) == [c]
  {
    var d := (c - '0') as nat;
    assert (10 * m + d) / 10 == m && (10 * m + d) % 10 == d;
    assert (d as char) + '0' == c && (d as char - 0 as char) + '0' == c;
  }

  lemma {:induction false} DecimalIsWritten(s: string)
    requires Decimal(s)
    ensures C.Digits(C.DigitsValue(s)) == s
  {
    var init, c := s[..|s| - 1], s[|s| - 1];
    assert s == init + [c] && c in s;
    LastDigit(init, c);
    WithLastDigit(C.DigitsValue(init), c);
    if init != "" {
      assert s[0] in s && init[0] == s[0] && forall x <- init :: x in s;
      PositiveValue(init);
      DecimalIsWritten(init);
    }
  }

  lemma {:induction false} PositiveValue(s: string)
    requires s != "" && (forall c <- s :: '0' <= c <= '9') && s[0] != '0'
    ensures C.DigitsValue(s) > 0
  {
    var init := s[..|s| - 1];
    assert s[|s| - 1] in s;
    if init != "" {
      assert init[0] == s[0] && forall c <- init :: c in s;
      PositiveValue(init);
    }
  }

  /** The keys that come first in an object are the numbers below 2^32 - 1, as they are printed. */
  lemma IndexKeysAreNumbers(key: string)
    ensures IsArrayIndex(key) <==> exists n: nat :: n < 4294967295 && key == C.Digits(n)
  {
    SameValue(key);
    if IsArrayIndex(key) { DecimalIsWritten(key); }
    if n: nat :| n < 4294967295 && key == C.Digits(n) {
      C.DigitsReadBack(n);
      assert forall c <- key :: J.IsDigit(c);
    }
  }
}
