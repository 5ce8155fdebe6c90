/** The scoring engine, twice: of packages/policy/src/engine.ts, and of prover/policy-core/src/engine.rs. */
module PolicyEngine {
  import opened Encoding
  import opened Matcher
  import opened Normalizer
  import opened Wrappers

  datatype Decision = Allow | Deny

  datatype CategoryMeta = CategoryMeta(name: string, threshold: int)
  datatype Target<P> = Target(id: string, category: string, weight: int, phrases: seq<P>)
  datatype HardBlock<P> = HardBlock(id: string, phrases: seq<P>)
  datatype Modifier<P> = Modifier(id: string, weight: int, phrases: seq<P>)

  /**
    The fields of a ruleset that evaluation reads, over raw phrases (`PolicyRules`) or prepared ones
    (`PreparedRules`). Categories are in the order of the rules document.
  */
  datatype Rules<P> = Rules(
    intentBonus: int,
    constructionBonus: int,
    intentPhrases: seq<P>,
    constructionVerbs: seq<P>,
    modifierSuppressors: seq<P>,
    categories: seq<(string, CategoryMeta)>,
    targets: seq<Target<P>>,
    hardBlocks: seq<HardBlock<P>>,
    modifiers: seq<Modifier<P>>)

  type PolicyRules = Rules<string>
  type PreparedRules = Rules<Needle>

  datatype CategoryScore = CategoryScore(category: string, name: string, score: int, threshold: int,
                                         matchedTargets: seq<string>)

  datatype Evaluation = Evaluation(
    decision: Decision,
    categories: seq<CategoryScore>,
    intentPresent: bool,
    constructionPresent: bool,
    hardBlock: Option<string>,
    modifiersApplied: seq<string>)

  // ------------------------------------------------------------ reference definition

  predicate AnyHit<P>(phrases: seq<P>, hit: P -> bool) {
    exists i :: 0 <= i < |phrases| && hit(phrases[i])
  }

  function FirstHardBlock<P>(blocks: seq<HardBlock<P>>, hit: P -> bool): Option<string> {
    if blocks == [] then None
    else if AnyHit(blocks[0].phrases, hit) then Some(blocks[0].id)
    else FirstHardBlock(blocks[1..], hit)
  }

  function Applied<P>(modifiers: seq<Modifier<P>>, hit: P -> bool): seq<Modifier<P>> {
    if modifiers == [] then []
    else if AnyHit(modifiers[0].phrases, hit) then [modifiers[0]] + Applied(modifiers[1..], hit)
    else Applied(modifiers[1..], hit)
  }

  function ModifierSum<P>(modifiers: seq<Modifier<P>>): int {
    if modifiers == [] then 0 else modifiers[0].weight + ModifierSum(modifiers[1..])
  }

  function ModifierIds<P>(modifiers: seq<Modifier<P>>): seq<string> {
    if modifiers == [] then [] else [modifiers[0].id] + ModifierIds(modifiers[1..])
  }

  function Matched<P>(targets: seq<Target<P>>, category: string, hit: P -> bool): seq<Target<P>> {
    if targets == [] then []
    else if targets[0].category == category && AnyHit(targets[0].phrases, hit)
      then [targets[0]] + Matched(targets[1..], category, hit)
    else Matched(targets[1..], category, hit)
  }

  function TargetSum<P>(targets: seq<Target<P>>): int {
    if targets == [] then 0 else targets[0].weight + TargetSum(targets[1..])
  }

  function TargetIds<P>(targets: seq<Target<P>>): seq<string> {
    if targets == [] then [] else [targets[0].id] + TargetIds(targets[1..])
  }

  function ModifiersInForce<P>(rules: Rules<P>, hit: P -> bool): seq<Modifier<P>> {
    if AnyHit(rules.modifierSuppressors, hit) then [] else Applied(rules.modifiers, hit)
  }

  /** The sum of the matched weights, with bonuses and context modifiers only if something matched, never below 0. */
  function Score<P>(rules: Rules<P>, category: string, hit: P -> bool): int {
    var matched := Matched(rules.targets, category, hit);
    var raw := if matched == [] then 0
               else TargetSum(matched)
                    + (if AnyHit(rules.intentPhrases, hit) then rules.intentBonus else 0)
                    + (if AnyHit(rules.constructionVerbs, hit) then rules.constructionBonus else 0)
                    + ModifierSum(ModifiersInForce(rules, hit));
    if raw < 0 then 0 else raw
  }

  function ScoreLine<P>(rules: Rules<P>, entry: (string, CategoryMeta), hit: P -> bool): CategoryScore {
    CategoryScore(entry.0, entry.1.name, Score(rules, entry.0, hit), entry.1.threshold,
                  TargetIds(Matched(rules.targets, entry.0, hit)))
  }

  function ScoreLines<P>(rules: Rules<P>, entries: seq<(string, CategoryMeta)>, hit: P -> bool): seq<CategoryScore> {
    seq(|entries|, i requires 0 <= i < |entries| => ScoreLine(rules, entries[i], hit))
  }

  predicate SomeCategoryDenies<P>(rules: Rules<P>, entries: seq<(string, CategoryMeta)>, hit: P -> bool) {
    exists i :: 0 <= i < |entries| && Score(rules, entries[i].0, hit) >= entries[i].1.threshold
  }

  /** The evaluation of a ruleset whose categories are visited in the order `entries`. */
  function Verdict<P>(rules: Rules<P>, entries: seq<(string, CategoryMeta)>, hit: P -> bool): Evaluation {
    match FirstHardBlock(rules.hardBlocks, hit)
    case Some(id) => Evaluation(Deny, [], false, false, Some(id), [])
    case None =>
      Evaluation(if SomeCategoryDenies(rules, entries, hit) then Deny else Allow,
                 ScoreLines(rules, entries, hit),
                 AnyHit(rules.intentPhrases, hit),
                 AnyHit(rules.constructionVerbs, hit),
                 None,
                 ModifierIds(ModifiersInForce(rules, hit)))
  }

  // ------------------------------------------------------------ Object.entries

  /** A canonical array index below 2^32 - 1: such keys come first in a JavaScript object, in ascending order. */
  predicate IsArrayIndex(key: string) {
    && key != ""
    && (forall c <- key :: '0' <= c <= '9')
    && (key[0] == '0' ==> key == "0")
    && DecimalValue(key) < 0xFFFF_FFFF
  }

  function DecimalValue(digits: string): nat {
    if digits == "" then 0
    else 10 * DecimalValue(digits[..|digits| - 1])
         + (var c := digits[|digits| - 1]; if '0' <= c <= '9' then (c - '0') as nat else 0)
  }

  function InsertByIndex(entry: (string, CategoryMeta),
                         entries: seq<(string, CategoryMeta)>): seq<(string, CategoryMeta)> {
    if entries == [] || DecimalValue(entry.0) <= DecimalValue(entries[0].0) then [entry] + entries
    else [entries[0]] + InsertByIndex(entry, entries[1..])
  }

  function IndexEntries(entries: seq<(string, CategoryMeta)>): seq<(string, CategoryMeta)> {
    if entries == [] then []
    else if IsArrayIndex(entries[0].0) then InsertByIndex(entries[0], IndexEntries(entries[1..]))
    else IndexEntries(entries[1..])
  }

  function NamedEntries(entries: seq<(string, CategoryMeta)>): seq<(string, CategoryMeta)> {
    if entries == [] then []
    else if IsArrayIndex(entries[0].0) then NamedEntries(entries[1..])
    else [entries[0]] + NamedEntries(entries[1..])
  }

  /** `Object.entries` of an object whose keys were created in the order of `entries`. */
  function ObjectEntries(entries: seq<(string, CategoryMeta)>): seq<(string, CategoryMeta)> {
    IndexEntries(entries) + NamedEntries(entries)
  }

  // ------------------------------------------------------------ the evaluation loops

  /** The loops of both engines, with `hit` for the matcher call. */
  method Evaluate<P>(rules: Rules<P>, entries: seq<(string, CategoryMeta)>, hit: P -> bool) returns (r: Evaluation)
    ensures r == Verdict(rules, entries, hit)
  {
    for i := 0 to |rules.hardBlocks|
      invariant FirstHardBlock(rules.hardBlocks, hit) == FirstHardBlock(rules.hardBlocks[i..], hit)
    {
      var hb := rules.hardBlocks[i];
      assert rules.hardBlocks[i..][0] == hb && rules.hardBlocks[i..][1..] == rules.hardBlocks[i + 1..];
      for j := 0 to |hb.phrases|
        invariant forall k :: 0 <= k < j ==> !hit(hb.phrases[k])
      {
        if hit(hb.phrases[j]) {
          return Evaluation(Deny, [], false, false, Some(hb.id), []);
        }
      }
    }
    r := EvaluateCategories(rules, entries, hit);
  }

  method EvaluateCategories<P>(rules: Rules<P>, entries: seq<(string, CategoryMeta)>,
                               hit: P -> bool) returns (r: Evaluation)
    requires FirstHardBlock(rules.hardBlocks, hit).None?
    ensures r == Verdict(rules, entries, hit)
  {
    var intentPresent := AnyHit(rules.intentPhrases, hit);
    var constructionPresent := AnyHit(rules.constructionVerbs, hit);
    var suppressed := AnyHit(rules.modifierSuppressors, hit);
    var modifierTotal, modifiersApplied := ApplyModifiers(rules, suppressed, hit);

    var categories: seq<CategoryScore> := [];
    var decision := Allow;
    for i := 0 to |entries|
      invariant categories == ScoreLines(rules, entries[..i], hit)
      invariant decision == if SomeCategoryDenies(rules, entries[..i], hit) then Deny else Allow
    {
      var (cat, meta) := entries[i];
      var score, matchedTargets := MatchTargets(rules, cat, hit);
      if matchedTargets != [] {
        if intentPresent { score := score + rules.intentBonus; }
        if constructionPresent { score := score + rules.constructionBonus; }
        score := score + modifierTotal;
      }
      if score < 0 { score := 0; }
      categories := categories + [CategoryScore(cat, meta.name, score, meta.threshold, matchedTargets)];
      if score >= meta.threshold { decision := Deny; }
      NextCategory(rules, entries, i, hit);
    }
    assert entries[..|entries|] == entries;
    r := Evaluation(decision, categories, intentPresent, constructionPresent, None, modifiersApplied);
  }

  lemma NextCategory<P>(rules: Rules<P>, entries: seq<(string, CategoryMeta)>, i: nat, hit: P -> bool)
    requires i < |entries|
    ensures ScoreLines(rules, entries[..i + 1], hit)
            == ScoreLines(rules, entries[..i], hit) + [ScoreLine(rules, entries[i], hit)]
    ensures SomeCategoryDenies(rules, entries[..i + 1], hit)
       <==> SomeCategoryDenies(rules, entries[..i], hit) || Score(rules, entries[i].0, hit) >= entries[i].1.threshold
  {
    var shorter, longer := entries[..i], entries[..i + 1];
    assert longer[i] == entries[i] && forall k :: 0 <= k < i ==> shorter[k] == longer[k];
  }

  method ApplyModifiers<P>(rules: Rules<P>, suppressed: bool, hit: P -> bool) returns (total: int, ids: seq<string>)
    ensures var inForce := if suppressed then [] else Applied(rules.modifiers, hit);
            total == ModifierSum(inForce) && ids == ModifierIds(inForce)
  {
    total, ids := 0, [];
    if !suppressed {
      for i := 0 to |rules.modifiers|
        invariant ModifierSum(Applied(rules.modifiers, hit)) == total + ModifierSum(Applied(rules.modifiers[i..], hit))
        invariant ModifierIds(Applied(rules.modifiers, hit)) == ids + ModifierIds(Applied(rules.modifiers[i..], hit))
      {
        var m := rules.modifiers[i];
        assert rules.modifiers[i..][0] == m && rules.modifiers[i..][1..] == rules.modifiers[i + 1..];
        if AnyHit(m.phrases, hit) {
          total := total + m.weight;
          ids := ids + [m.id];
        }
      }
    }
  }

  method MatchTargets<P>(rules: Rules<P>, cat: string, hit: P -> bool) returns (score: int, matchedTargets: seq<string>)
    ensures score == TargetSum(Matched(rules.targets, cat, hit))
    ensures matchedTargets == TargetIds(Matched(rules.targets, cat, hit))
  {
    score, matchedTargets := 0, [];
    for i := 0 to |rules.targets|
      invariant TargetSum(Matched(rules.targets, cat, hit)) == score + TargetSum(Matched(rules.targets[i..], cat, hit))
      invariant TargetIds(Matched(rules.targets, cat, hit))
                == matchedTargets + TargetIds(Matched(rules.targets[i..], cat, hit))
    {
      var tgt := rules.targets[i];
      assert rules.targets[i..][0] == tgt && rules.targets[i..][1..] == rules.targets[i + 1..];
      if tgt.category == cat {
        if AnyHit(tgt.phrases, hit) {
          score := score + tgt.weight;
          matchedTargets := matchedTargets + [tgt.id];
        }
      }
    }
  }

  // ------------------------------------------------------------ the two engines

  function JsHit(u: Unicode, rawText: string): string -> bool {
    var corpus := BuildJsCorpus(JsNormalize(u, rawText));
    phrase => JsMatch(u, corpus, phrase)
  }

  function PreparedHit(u: Unicode, rawText: string): Needle -> bool {
    var corpus := BuildRustCorpus(JsNormalize(u, rawText));
    needle => MatchPrepared(corpus, needle)
  }

  /** `evaluate` of engine.ts. */
  method JsEvaluate(u: Unicode, rules: PolicyRules, rawText: string) returns (r: Evaluation)
    ensures r == Verdict(rules, ObjectEntries(rules.categories), JsHit(u, rawText))
  {
    r := Evaluate(rules, ObjectEntries(rules.categories), JsHit(u, rawText));
  }

  /** `evaluate_prepared` of engine.rs. */
  method EvaluatePrepared(u: Unicode, rules: PreparedRules, rawText: string) returns (r: Evaluation)
    ensures r == Verdict(rules, rules.categories, PreparedHit(u, rawText))
  {
    var text := Normalize(u, rawText);
    var corpus := BuildRustCorpus(text);
    r := Evaluate(rules, rules.categories, needle => MatchPrepared(corpus, needle));
  }

  /** `PreparedRules::prepare`: every phrase is replaced by its needle. */
  function PrepareAll(u: Unicode, raws: seq<string>): seq<Needle> {
    seq(|raws|, i requires 0 <= i < |raws| => Prepare(u, raws[i]))
  }

  function PrepareTarget(u: Unicode, t: Target<string>): Target<Needle> {
    Target(t.id, t.category, t.weight, PrepareAll(u, t.phrases))
  }

  function PrepareHardBlock(u: Unicode, h: HardBlock<string>): HardBlock<Needle> {
    HardBlock(h.id, PrepareAll(u, h.phrases))
  }

  function PrepareModifier(u: Unicode, m: Modifier<string>): Modifier<Needle> {
    Modifier(m.id, m.weight, PrepareAll(u, m.phrases))
  }

  function PrepareRules(u: Unicode, rules: PolicyRules): PreparedRules {
    Rules(rules.intentBonus, rules.constructionBonus,
          PrepareAll(u, rules.intentPhrases), PrepareAll(u, rules.constructionVerbs),
            PrepareAll(u, rules.modifierSuppressors),
          rules.categories,
          seq(|rules.targets|, i requires 0 <= i < |rules.targets| => PrepareTarget(u, rules.targets[i])),
          seq(|rules.hardBlocks|, i requires 0 <= i < |rules.hardBlocks| => PrepareHardBlock(u, rules.hardBlocks[i])),
          seq(|rules.modifiers|, i requires 0 <= i < |rules.modifiers| => PrepareModifier(u, rules.modifiers[i])))
  }

  // ------------------------------------------------------------ the hoist changes no answer

  /** `ready` answers on a prepared phrase what `raw` answers on the phrase. */
  ghost predicate SameHits(u: Unicode, raw: string -> bool, ready: Needle -> bool) {
    forall p: string :: raw(p) == ready(Prepare(u, p))
  }

  lemma HitsAgree(u: Unicode, rawText: string)
    ensures SameHits(u, JsHit(u, rawText), PreparedHit(u, rawText))
  {
    forall p: string ensures JsHit(u, rawText)(p) == PreparedHit(u, rawText)(Prepare(u, p)) {
      MatchersAgree(u, JsNormalize(u, rawText), p);
    }
  }

  lemma AnyHitPrepared(u: Unicode, phrases: seq<string>, raw: string -> bool, ready: Needle -> bool)
    requires SameHits(u, raw, ready)
    ensures AnyHit(PrepareAll(u, phrases), ready) == AnyHit(phrases, raw)
  {
    var prepared := PrepareAll(u, phrases);
    assert forall i :: 0 <= i < |phrases| ==> raw(phrases[i]) == ready(prepared[i]);
  }

  lemma {:induction false} HardBlockPrepared(u: Unicode, rules: PolicyRules, i: nat, raw: string -> bool,
                                             ready: Needle -> bool)
    requires SameHits(u, raw, ready) && i <= |rules.hardBlocks|
    ensures FirstHardBlock(PrepareRules(u, rules).hardBlocks[i..], ready) == FirstHardBlock(rules.hardBlocks[i..], raw)
    decreases |rules.hardBlocks| - i
  {
    if i < |rules.hardBlocks| {
      var xs, ys := rules.hardBlocks, PrepareRules(u, rules).hardBlocks;
      assert xs[i..][0] == xs[i] && ys[i..][0] == PrepareHardBlock(u, xs[i]);
      assert xs[i..][1..] == xs[i + 1..] && ys[i..][1..] == ys[i + 1..];
      AnyHitPrepared(u, xs[i].phrases, raw, ready);
      HardBlockPrepared(u, rules, i + 1, raw, ready);
    }
  }

  lemma {:induction false} ModifiersPrepared(u: Unicode, rules: PolicyRules, i: nat, raw: string -> bool,
                                             ready: Needle -> bool)
    requires SameHits(u, raw, ready) && i <= |rules.modifiers|
    ensures ModifierSum(Applied(PrepareRules(u, rules).modifiers[i..], ready))
            == ModifierSum(Applied(rules.modifiers[i..], raw))
    ensures ModifierIds(Applied(PrepareRules(u, rules).modifiers[i..], ready))
            == ModifierIds(Applied(rules.modifiers[i..], raw))
    decreases |rules.modifiers| - i
  {
    if i < |rules.modifiers| {
      var xs, ys := rules.modifiers, PrepareRules(u, rules).modifiers;
      assert xs[i..][0] == xs[i] && ys[i..][0] == PrepareModifier(u, xs[i]);
      assert xs[i..][1..] == xs[i + 1..] && ys[i..][1..] == ys[i + 1..];
      AnyHitPrepared(u, xs[i].phrases, raw, ready);
      ModifiersPrepared(u, rules, i + 1, raw, ready);
    }
  }

  lemma {:induction false} TargetsPrepared(u: Unicode, rules: PolicyRules, i: nat, cat: string, raw: string -> bool,
                                           ready: Needle -> bool)
    requires SameHits(u, raw, ready) && i <= |rules.targets|
    ensures TargetSum(Matched(PrepareRules(u, rules).targets[i..], cat, ready))
            == TargetSum(Matched(rules.targets[i..], cat, raw))
    ensures TargetIds(Matched(PrepareRules(u, rules).targets[i..], cat, ready))
            == TargetIds(Matched(rules.targets[i..], cat, raw))
    decreases |rules.targets| - i
  {
    if i < |rules.targets| {
      var xs, ys := rules.targets, PrepareRules(u, rules).targets;
      assert xs[i..][0] == xs[i] && ys[i..][0] == PrepareTarget(u, xs[i]);
      assert xs[i..][1..] == xs[i + 1..] && ys[i..][1..] == ys[i + 1..];
      AnyHitPrepared(u, xs[i].phrases, raw, ready);
      TargetsPrepared(u, rules, i + 1, cat, raw, ready);
    }
  }

  lemma {:induction false} NoIdsNoTargets<P>(targets: seq<Target<P>>)
    ensures TargetIds(targets) == [] <==> targets == []
  {}

  lemma ScoreLinePrepared(u: Unicode, rules: PolicyRules, entry: (string, CategoryMeta), raw: string -> bool,
                          ready: Needle -> bool)
    requires SameHits(u, raw, ready)
    ensures ScoreLine(PrepareRules(u, rules), entry, ready) == ScoreLine(rules, entry, raw)
  {
    var prepared := PrepareRules(u, rules);
    AnyHitPrepared(u, rules.intentPhrases, raw, ready);
    AnyHitPrepared(u, rules.constructionVerbs, raw, ready);
    ModifiersInForcePrepared(u, rules, raw, ready);
    TargetsPrepared(u, rules, 0, entry.0, raw, ready);
    assert prepared.targets[0..] == prepared.targets && rules.targets[0..] == rules.targets;
    NoIdsNoTargets(Matched(prepared.targets, entry.0, ready));
    NoIdsNoTargets(Matched(rules.targets, entry.0, raw));
  }

  /** Evaluating prepared rules is evaluating the rules, for every order of the categories. */
  lemma PreparationPreservesVerdict(u: Unicode, rules: PolicyRules, entries: seq<(string, CategoryMeta)>,
                                    rawText: string)
    ensures Verdict(PrepareRules(u, rules), entries, PreparedHit(u, rawText))
            == Verdict(rules, entries, JsHit(u, rawText))
  {
    var prepared, raw, ready := PrepareRules(u, rules), JsHit(u, rawText), PreparedHit(u, rawText);
    HitsAgree(u, rawText);
    HardBlockPrepared(u, rules, 0, raw, ready);
    assert prepared.hardBlocks[0..] == prepared.hardBlocks && rules.hardBlocks[0..] == rules.hardBlocks;
    AnyHitPrepared(u, rules.intentPhrases, raw, ready);
    AnyHitPrepared(u, rules.constructionVerbs, raw, ready);
    ModifiersInForcePrepared(u, rules, raw, ready);
    LinesPrepared(u, rules, entries, raw, ready);
  }

  lemma ModifiersInForcePrepared(u: Unicode, rules: PolicyRules, raw: string -> bool, ready: Needle -> bool)
    requires SameHits(u, raw, ready)
    ensures ModifierSum(ModifiersInForce(PrepareRules(u, rules), ready)) == ModifierSum(ModifiersInForce(rules, raw))
    ensures ModifierIds(ModifiersInForce(PrepareRules(u, rules), ready)) == ModifierIds(ModifiersInForce(rules, raw))
  {
    AnyHitPrepared(u, rules.modifierSuppressors, raw, ready);
    ModifiersPrepared(u, rules, 0, raw, ready);
    var prepared := PrepareRules(u, rules);
    assert prepared.modifiers[0..] == prepared.modifiers && rules.modifiers[0..] == rules.modifiers;
  }

  lemma LinesPrepared(u: Unicode, rules: PolicyRules, entries: seq<(string, CategoryMeta)>, raw: string -> bool,
                      ready: Needle -> bool)
    requires SameHits(u, raw, ready)
    ensures ScoreLines(PrepareRules(u, rules), entries, ready) == ScoreLines(rules, entries, raw)
    ensures SomeCategoryDenies(PrepareRules(u, rules), entries, ready) == SomeCategoryDenies(rules, entries, raw)
  {
    var prepared := PrepareRules(u, rules);
    forall i | 0 <= i < |entries|
      ensures ScoreLine(prepared, entries[i], ready) == ScoreLine(rules, entries[i], raw)
      ensures Score(prepared, entries[i].0, ready) == Score(rules, entries[i].0, raw)
    {
      ScoreLinePrepared(u, rules, entries[i], raw, ready);
    }
  }

  // ------------------------------------------------------------ agreement of the two engines

  /** `Object.entries` rearranges: it neither drops nor invents an entry. */
  lemma {:induction false} ObjectEntriesSameMembers(entries: seq<(string, CategoryMeta)>, e: (string, CategoryMeta))
    ensures e in ObjectEntries(entries) <==> e in entries
  {
    if entries != [] {
      ObjectEntriesSameMembers(entries[1..], e);
      assert entries == [entries[0]] + entries[1..];
      if IsArrayIndex(entries[0].0) {
        InsertMembers(entries[0], IndexEntries(entries[1..]), e);
      }
    }
  }

  lemma {:induction false} InsertMembers(entry: (string, CategoryMeta), entries: seq<(string, CategoryMeta)>,
                                         e: (string, CategoryMeta))
    ensures e in InsertByIndex(entry, entries) <==> e == entry || e in entries
  {
    if entries != [] && DecimalValue(entry.0) > DecimalValue(entries[0].0) {
      InsertMembers(entry, entries[1..], e);
      assert entries == [entries[0]] + entries[1..];
    }
  }

  lemma {:induction false} NamedKeysKeepTheirOrder(entries: seq<(string, CategoryMeta)>)
    requires forall e <- entries :: !IsArrayIndex(e.0)
    ensures IndexEntries(entries) == [] && NamedEntries(entries) == entries
    ensures ObjectEntries(entries) == entries
  {
    if entries != [] {
      assert forall e <- entries[1..] :: e in entries;
      assert entries[0] in entries;
      NamedKeysKeepTheirOrder(entries[1..]);
      assert entries == [entries[0]] + entries[1..];
    }
  }

  /** The decision does not depend on the order of the categories. */
  lemma DecisionIgnoresOrder<P>(rules: Rules<P>, xs: seq<(string, CategoryMeta)>, ys: seq<(string, CategoryMeta)>,
                                hit: P -> bool)
    requires forall e :: e in xs <==> e in ys
    ensures Verdict(rules, xs, hit).decision == Verdict(rules, ys, hit).decision
  {
    if i :| 0 <= i < |xs| && Score(rules, xs[i].0, hit) >= xs[i].1.threshold {
      assert xs[i] in ys;
    }
    if i :| 0 <= i < |ys| && Score(rules, ys[i].0, hit) >= ys[i].1.threshold {
      assert ys[i] in xs;
    }
  }

  /**
    On every ruleset and every text the two engines decide alike, and on named categories they agree in the whole
    evaluation.
  */
  lemma EnginesAgree(u: Unicode, rules: PolicyRules, rawText: string)
    ensures Verdict(PrepareRules(u, rules), rules.categories, PreparedHit(u, rawText)).decision
         == Verdict(rules, ObjectEntries(rules.categories), JsHit(u, rawText)).decision
    ensures (forall e <- rules.categories :: !IsArrayIndex(e.0)) ==>
              Verdict(PrepareRules(u, rules), rules.categories, PreparedHit(u, rawText))
              == Verdict(rules, ObjectEntries(rules.categories), JsHit(u, rawText))
  {
    PreparationPreservesVerdict(u, rules, rules.categories, rawText);
    forall e ensures e in ObjectEntries(rules.categories) <==> e in rules.categories {
      ObjectEntriesSameMembers(rules.categories, e);
    }
    DecisionIgnoresOrder(rules, rules.categories, ObjectEntries(rules.categories), JsHit(u, rawText));
    if forall e <- rules.categories :: !IsArrayIndex(e.0) {
      NamedKeysKeepTheirOrder(rules.categories);
    }
  }

  /** Array-index keys stand first, in ascending order. */
  ghost predicate InIndexOrder(entries: seq<(string, CategoryMeta)>) {
    forall i, j :: 0 <= i < j < |entries| && IsArrayIndex(entries[j].0) ==>
      IsArrayIndex(entries[i].0) && DecimalValue(entries[i].0) <= DecimalValue(entries[j].0)
  }

  ghost predicate AllIndex(entries: seq<(string, CategoryMeta)>) {
    forall i :: 0 <= i < |entries| ==> IsArrayIndex(entries[i].0)
  }

  ghost predicate AllNamed(entries: seq<(string, CategoryMeta)>) {
    forall i :: 0 <= i < |entries| ==> !IsArrayIndex(entries[i].0)
  }

  lemma {:induction false} InsertKeepsIndexOrder(entry: (string, CategoryMeta), entries: seq<(string, CategoryMeta)>)
    requires IsArrayIndex(entry.0) && AllIndex(entries) && InIndexOrder(entries)
    ensures AllIndex(InsertByIndex(entry, entries)) && InIndexOrder(InsertByIndex(entry, entries))
  {
    if entries != [] && DecimalValue(entry.0) > DecimalValue(entries[0].0) {
      InsertKeepsIndexOrder(entry, entries[1..]);
      var tail := InsertByIndex(entry, entries[1..]);
      forall j | 0 <= j < |tail| ensures DecimalValue(entries[0].0) <= DecimalValue(tail[j].0) {
        InsertMembers(entry, entries[1..], tail[j]);
        if tail[j] in entries[1..] {
          var k :| 0 <= k < |entries[1..]| && entries[1..][k] == tail[j];
          assert entries[k + 1] == tail[j];
        }
      }
    }
  }

  lemma {:induction false} SplitByIndex(entries: seq<(string, CategoryMeta)>)
    ensures AllIndex(IndexEntries(entries)) && InIndexOrder(IndexEntries(entries)) && AllNamed(NamedEntries(entries))
  {
    if entries != [] {
      SplitByIndex(entries[1..]);
      if IsArrayIndex(entries[0].0) { InsertKeepsIndexOrder(entries[0], IndexEntries(entries[1..])); }
    }
  }

  lemma NoIndexAfterName(entries: seq<(string, CategoryMeta)>)
    requires entries != [] && InIndexOrder(entries) && !IsArrayIndex(entries[0].0)
    ensures forall e <- entries :: !IsArrayIndex(e.0)
  {
    forall e | e in entries ensures !IsArrayIndex(e.0) {
      var j :| 0 <= j < |entries| && entries[j] == e;
    }
  }

  lemma IndexPrepends(entry: (string, CategoryMeta), rest: seq<(string, CategoryMeta)>)
    requires InIndexOrder([entry] + rest) && IsArrayIndex(entry.0) && ObjectEntries(rest) == rest
    ensures ObjectEntries([entry] + rest) == [entry] + rest
  {
    var entries, index := [entry] + rest, IndexEntries(rest);
    assert entries[1..] == rest;
    if index != [] {
      SplitByIndex(rest);
      assert index[0] == rest[0] == entries[1] && entries[0] == entry;
    }
    assert InsertByIndex(entry, index) == [entry] + index;
  }

  lemma {:induction false} OrderedStay(entries: seq<(string, CategoryMeta)>)
    requires InIndexOrder(entries)
    ensures ObjectEntries(entries) == entries
  {
    if entries != [] {
      if IsArrayIndex(entries[0].0) {
        OrderedStay(entries[1..]);
        assert entries == [entries[0]] + entries[1..];
        IndexPrepends(entries[0], entries[1..]);
      } else {
        NoIndexAfterName(entries);
        NamedKeysKeepTheirOrder(entries);
      }
    }
  }

  /** `Object.entries` keeps the document order if and only if array-index keys stand first in it, ascending. */
  lemma KeepsOrderExactlyWhen(entries: seq<(string, CategoryMeta)>)
    ensures ObjectEntries(entries) == entries <==> InIndexOrder(entries)
  {
    if InIndexOrder(entries) { OrderedStay(entries); }
    if ObjectEntries(entries) == entries {
      SplitByIndex(entries);
      var n := |IndexEntries(entries)|;
      assert forall i :: 0 <= i < n ==> entries[i] == IndexEntries(entries)[i];
      assert forall i :: n <= i < |entries| ==> entries[i] == NamedEntries(entries)[i - n];
    }
  }

  lemma LinesTellTheOrder(rules: PolicyRules, xs: seq<(string, CategoryMeta)>, ys: seq<(string, CategoryMeta)>,
                          hit: string -> bool)
    requires forall i, j :: 0 <= i < j < |xs| ==> xs[i].0 != xs[j].0
    requires forall e :: e in ys ==> e in xs
    requires ScoreLines(rules, xs, hit) == ScoreLines(rules, ys, hit)
    ensures xs == ys
  {
    var a, b := ScoreLines(rules, xs, hit), ScoreLines(rules, ys, hit);
    assert |a| == |xs| && |b| == |ys|;
    forall i | 0 <= i < |xs| ensures xs[i] == ys[i] {
      assert a[i].category == xs[i].0 && b[i].category == ys[i].0;
      var j :| 0 <= j < |xs| && xs[j] == ys[i];
      assert i == j;
    }
  }

  /** The two evaluations agree if and only if a hard block matches or array-index keys stand first, ascending. */
  lemma EvaluationsAgreeExactlyWhen(u: Unicode, rules: PolicyRules, rawText: string)
    requires forall i, j :: 0 <= i < j < |rules.categories| ==> rules.categories[i].0 != rules.categories[j].0
    ensures Verdict(PrepareRules(u, rules), rules.categories, PreparedHit(u, rawText))
            == Verdict(rules, ObjectEntries(rules.categories), JsHit(u, rawText))
       <==> FirstHardBlock(rules.hardBlocks, JsHit(u, rawText)).Some? || InIndexOrder(rules.categories)
  {
    var xs, ys, hit := rules.categories, ObjectEntries(rules.categories), JsHit(u, rawText);
    PreparationPreservesVerdict(u, rules, xs, rawText);
    KeepsOrderExactlyWhen(xs);
    if FirstHardBlock(rules.hardBlocks, hit).None? && Verdict(rules, xs, hit) == Verdict(rules, ys, hit) {
      forall e | e in ys ensures e in xs { ObjectEntriesSameMembers(xs, e); }
      LinesTellTheOrder(rules, xs, ys, hit);
    }
  }

  /** A ruleset on which they differ, on every text: a category named "0" listed after one that is not an index. */
  lemma IndexKeysAreReordered(u: Unicode, rules: PolicyRules, m: CategoryMeta, rawText: string)
    requires rules.hardBlocks == [] && rules.categories == [("P1", m), ("0", m)]
    ensures ObjectEntries(rules.categories) == [("0", m), ("P1", m)]
    ensures Verdict(PrepareRules(u, rules), rules.categories, PreparedHit(u, rawText))
         != Verdict(rules, ObjectEntries(rules.categories), JsHit(u, rawText))
  {
    ZeroComesFirst(m);
    assert "P1" != "0" && rules.categories[1].0 == "0" && rules.categories[0].0 == "P1";
    EvaluationsAgreeExactlyWhen(u, rules, rawText);
  }

  lemma ZeroComesFirst(m: CategoryMeta)
    ensures ObjectEntries([("P1", m), ("0", m)]) == [("0", m), ("P1", m)]
    ensures IsArrayIndex("0") && !IsArrayIndex("P1")
  {
    var e := [("P1", m), ("0", m)];
    assert "P1"[0] in "P1" && !IsArrayIndex("P1");
    assert DecimalValue("") == 0 && "0"[..0] == "";
    assert DecimalValue("0") == 0;
    assert IsArrayIndex("0");
    assert e[1..] == [("0", m)] && e[1..][1..] == [];
    assert IndexEntries([]) == [] && NamedEntries([]) == [];
    assert IndexEntries(e[1..]) == [("0", m)] && NamedEntries(e[1..]) == [];
  }

  /** DENY means: some phrase of some hard block matches, or some category's clamped score reaches its threshold. */
  lemma DeniesExactlyWhen<P>(rules: Rules<P>, entries: seq<(string, CategoryMeta)>, hit: P -> bool)
    ensures Verdict(rules, entries, hit).decision == Deny
       <==> || (exists hb <- rules.hardBlocks :: exists p <- hb.phrases :: hit(p))
            || (exists e <- entries :: Score(rules, e.0, hit) >= e.1.threshold)
  {
    HardBlockExactlyWhen(rules.hardBlocks, hit);
    if SomeCategoryDenies(rules, entries, hit) {
      var i :| 0 <= i < |entries| && Score(rules, entries[i].0, hit) >= entries[i].1.threshold;
      assert entries[i] in entries;
    }
  }

  lemma {:induction false} HardBlockExactlyWhen<P>(blocks: seq<HardBlock<P>>, hit: P -> bool)
    ensures FirstHardBlock(blocks, hit).Some? <==> exists hb <- blocks :: exists p <- hb.phrases :: hit(p)
  {
    if blocks != [] {
      HardBlockExactlyWhen(blocks[1..], hit);
      assert blocks == [blocks[0]] + blocks[1..];
      if AnyHit(blocks[0].phrases, hit) {
        var i :| 0 <= i < |blocks[0].phrases| && hit(blocks[0].phrases[i]);
        assert blocks[0].phrases[i] in blocks[0].phrases;
      }
    }
  }
}
