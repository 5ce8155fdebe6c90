/** The phrase matcher, twice: of packages/policy/src/engine.ts, and of prover/policy-core/src/engine.rs. */
module Matcher {
  import opened Encoding
  import opened Normalizer
  import opened Sequences
  import opened Wrappers

  const SQUASH_MIN := 8
  const PREFIX_MIN := 4

  /** `text.split(" ")`. */
  function Split(text: string): (parts: seq<string>)
    ensures parts != []
  {
    if text == "" then [""]
    else
      var rest := Split(text[1..]);
      if text[0] == ' ' then [""] + rest else [[text[0]] + rest[0]] + rest[1..]
  }

  /** `parts.join("")`. */
  function JoinParts(parts: seq<string>): string {
    if parts == [] then "" else parts[0] + JoinParts(parts[1..])
  }

  /** `text.replace(' ', "")`. */
  function RemoveSpaces(text: string): string {
    if text == "" then ""
    else if text[0] == ' ' then RemoveSpaces(text[1..])
    else [text[0]] + RemoveSpaces(text[1..])
  }

  // ------------------------------------------------------------ engine.ts

  /** `x.includes(y)`, on UTF-16 code units. */
  predicate JsIncludes(x: string, y: string) {
    Contains(Encode(Utf16, x), Encode(Utf16, y))
  }

  /** `x.startsWith(y)`, on UTF-16 code units. */
  predicate JsStartsWith(x: string, y: string) {
    Encode(Utf16, y) <= Encode(Utf16, x)
  }

  datatype JsCorpus = JsCorpus(padded: string, tokens: set<string>, squashed: string)

  function BuildJsCorpus(text: string): JsCorpus {
    JsCorpus(" " + text + " ", (set t | t in Split(text) && t != ""), JoinParts(Split(text)))
  }

  /** `match` on an already normalized needle. */
  predicate JsMatchNormalized(corpus: JsCorpus, n: string) {
    && n != ""
    && (|| (if JsIncludes(n, " ")
            then JsIncludes(corpus.padded, " " + n + " ") || JsIncludes(corpus.padded, " " + n + "s ")
            else
              || n in corpus.tokens
              || (JsLength(n) >= PREFIX_MIN && exists tok <- corpus.tokens :: JsStartsWith(tok, n)))
        || (JsLength(JoinParts(Split(n))) >= SQUASH_MIN && JsIncludes(corpus.squashed, JoinParts(Split(n)))))
  }

  /** `match` of engine.ts: the needle is normalized on every call. */
  predicate JsMatch(u: Unicode, corpus: JsCorpus, needleRaw: string) {
    JsMatchNormalized(corpus, JsNormalize(u, needleRaw))
  }

  // ------------------------------------------------------------ engine.rs and prepared.rs

  /** `Ord` on `str`: byte order. */
  predicate ByteLess(a: string, b: string) {
    LexLt(Encode(Utf8, a), Encode(Utf8, b))
  }

  predicate RustContains(x: string, y: string) {
    Contains(Encode(Utf8, x), Encode(Utf8, y))
  }

  predicate RustStartsWith(x: string, y: string) {
    Encode(Utf8, y) <= Encode(Utf8, x)
  }

  ghost predicate Ascending(tokens: seq<string>) {
    forall i, j :: 0 <= i < j < |tokens| ==> ByteLess(tokens[i], tokens[j])
  }

  /** A `BTreeSet<String>`: its elements in ascending byte order. */
  function TreeInsert(tokens: seq<string>, t: string): seq<string> {
    if tokens == [] || ByteLess(t, tokens[0]) then [t] + tokens
    else if t == tokens[0] then tokens
    else [tokens[0]] + TreeInsert(tokens[1..], t)
  }

  function CollectTokens(parts: seq<string>): seq<string> {
    if parts == [] then []
    else
      var init := CollectTokens(parts[..|parts| - 1]);
      var t := parts[|parts| - 1];
      if t == "" then init else TreeInsert(init, t)
  }

  datatype RustCorpus = RustCorpus(padded: string, tokens: seq<string>, squashed: string)

  function BuildRustCorpus(text: string): RustCorpus {
    RustCorpus(" " + text + " ", CollectTokens(Split(text)), RemoveSpaces(text))
  }

  datatype NeedleShape = Phrase(padded: string, paddedPlural: string) | Token(prefixEligible: bool)

  datatype Needle = Needle(normalized: string, shape: NeedleShape, squashed: Option<string>)

  /** `Needle::prepare`. */
  function Prepare(u: Unicode, raw: string): Needle {
    var n := JsNormalize(u, raw);
    var squashed := RemoveSpaces(n);
    Needle(n,
           if RustContains(n, " ") then Phrase(" " + n + " ", " " + n + "s ") else Token(JsLength(n) >= PREFIX_MIN),
           if JsLength(squashed) >= SQUASH_MIN then Some(squashed) else None)
  }

  /** `tokens.range(needle..).next()`. */
  function FirstAtOrAfter(tokens: seq<string>, needle: string): Option<string> {
    if tokens == [] then None
    else if ByteLess(tokens[0], needle) then FirstAtOrAfter(tokens[1..], needle)
    else Some(tokens[0])
  }

  predicate AnyTokenStartsWith(tokens: seq<string>, needle: string) {
    match FirstAtOrAfter(tokens, needle)
    case None => false
    case Some(tok) => RustStartsWith(tok, needle)
  }

  /** `match_prepared`. */
  predicate MatchPrepared(corpus: RustCorpus, needle: Needle) {
    && needle.normalized != ""
    && (|| (match needle.shape
            case Phrase(padded, plural) => RustContains(corpus.padded, padded) || RustContains(corpus.padded, plural)
            case Token(prefixEligible) =>
              needle.normalized in corpus.tokens
                || (prefixEligible && AnyTokenStartsWith(corpus.tokens, needle.normalized)))
        || (needle.squashed.Some? && RustContains(corpus.squashed, needle.squashed.value)))
  }

  // ------------------------------------------------------------ searching agrees

  /** Byte search, code-unit search and character search are one relation, and so are the three prefix tests. */
  lemma SearchesAgree(x: string, y: string)
    ensures JsIncludes(x, y) == RustContains(x, y) == Contains(x, y)
    ensures JsStartsWith(x, y) == RustStartsWith(x, y) == (y <= x)
  {
    Utf8SelfSynchronizing();
    Utf16SelfSynchronizing();
    ContainsOfUnits(Utf8, x, y);
    ContainsOfUnits(Utf16, x, y);
    PrefixOfUnits(Utf8, x, y);
    PrefixOfUnits(Utf16, x, y);
  }

  /** What lies between a prefix and something it is a prefix of starts with that prefix. */
  lemma {:induction false} PrefixSandwich(n: seq<nat>, x: seq<nat>, t: seq<nat>)
    requires LexLe(n, x) && LexLe(x, t) && n <= t
    ensures n <= x
  {
    if n != [] && n != x && x != t {
      assert n[0] == t[0] && x[0] == n[0];
      assert n == [n[0]] + n[1..] && x == [x[0]] + x[1..];
      assert n[1..] <= t[1..];
      PrefixSandwich(n[1..], x[1..], t[1..]);
    }
  }

  /** Testing only the first token at or after the needle decides whether any token starts with it. */
  lemma {:induction false} SeekDecides(tokens: seq<string>, needle: string)
    requires Ascending(tokens)
    ensures AnyTokenStartsWith(tokens, needle) <==> exists tok <- tokens :: RustStartsWith(tok, needle)
  {
    if tokens != [] {
      var n := Encode(Utf8, needle);
      if ByteLess(tokens[0], needle) {
        SeekDecides(tokens[1..], needle);
        if n <= Encode(Utf8, tokens[0]) {
          LexPrefix(n, Encode(Utf8, tokens[0]));
          LexAsymmetric(Encode(Utf8, tokens[0]), n);
        }
        assert tokens == [tokens[0]] + tokens[1..];
      } else if tok :| tok in tokens && RustStartsWith(tok, needle) {
        LexTrichotomy(Encode(Utf8, tokens[0]), n);
        PrefixSandwich(n, Encode(Utf8, tokens[0]), Encode(Utf8, tok));
      }
    }
  }

  lemma {:induction false} TreeInsertIsSetInsert(tokens: seq<string>, t: string)
    requires Ascending(tokens)
    ensures Ascending(TreeInsert(tokens, t))
    ensures forall x :: x in TreeInsert(tokens, t) <==> x == t || x in tokens
  {
    if tokens == [] {
    } else if ByteLess(t, tokens[0]) {
      forall j | 0 <= j < |tokens| ensures ByteLess(t, tokens[j]) {
        if j > 0 { LexTransitive(Encode(Utf8, t), Encode(Utf8, tokens[0]), Encode(Utf8, tokens[j])); }
      }
    } else if t != tokens[0] {
      var rest := tokens[1..];
      TreeInsertIsSetInsert(rest, t);
      LexTrichotomy(Encode(Utf8, t), Encode(Utf8, tokens[0]));
      if Encode(Utf8, t) == Encode(Utf8, tokens[0]) {
        Utf8SelfSynchronizing();
        EncodeInjective(Utf8, t, tokens[0]);
      }
      assert tokens == [tokens[0]] + rest;
      forall x | x in TreeInsert(rest, t) ensures ByteLess(tokens[0], x) {}
    }
  }

  lemma {:induction false} CollectTokensIsSet(parts: seq<string>)
    ensures Ascending(CollectTokens(parts))
    ensures forall x :: x in CollectTokens(parts) <==> x in parts && x != ""
  {
    if parts != [] {
      var init, t := parts[..|parts| - 1], parts[|parts| - 1];
      CollectTokensIsSet(init);
      assert parts == init + [t];
      if t != "" { TreeInsertIsSetInsert(CollectTokens(init), t); }
    }
  }

  lemma {:induction false} JoinSplitRemovesSpaces(text: string)
    ensures JoinParts(Split(text)) == RemoveSpaces(text)
  {
    if text != "" {
      JoinSplitRemovesSpaces(text[1..]);
      var rest := Split(text[1..]);
      assert ([""] + rest)[1..] == rest;
      assert ([[text[0]] + rest[0]] + rest[1..])[1..] == rest[1..];
    }
  }

  /**
    The prepared matcher over the sorted tokens answers what the TypeScript matcher answers, on every text and
    phrase.
  */
  lemma MatchersAgree(u: Unicode, text: string, raw: string)
    ensures MatchPrepared(BuildRustCorpus(text), Prepare(u, raw)) == JsMatch(u, BuildJsCorpus(text), raw)
  {
    var n := JsNormalize(u, raw);
    var rust, js := BuildRustCorpus(text), BuildJsCorpus(text);
    JoinSplitRemovesSpaces(text);
    JoinSplitRemovesSpaces(n);
    CollectTokensIsSet(Split(text));
    SearchesAgree(n, " ");
    SearchesAgree(rust.padded, " " + n + " ");
    SearchesAgree(rust.padded, " " + n + "s ");
    SearchesAgree(rust.squashed, RemoveSpaces(n));
    SeekDecides(rust.tokens, n);
    forall tok ensures JsStartsWith(tok, n) == RustStartsWith(tok, n) { SearchesAgree(tok, n); }
  }

  // ------------------------------------------------------------ what long needles match

  lemma {:induction false} RemoveSpacesAppend(a: string, b: string)
    ensures RemoveSpaces(a + b) == RemoveSpaces(a) + RemoveSpaces(b)
  {
    if a == "" {
      assert a + b == b;
    } else {
      RemoveSpacesAppend(a[1..], b);
      assert (a + b)[0] == a[0] && (a + b)[1..] == a[1..] + b;
      var rest, more := RemoveSpaces(a[1..]), RemoveSpaces(b);
      assert [a[0]] + (rest + more) == [a[0]] + rest + more;
    }
  }

  lemma RemoveSpacesContains(x: string, y: string)
    requires Contains(x, y)
    ensures Contains(RemoveSpaces(x), RemoveSpaces(y))
  {
    var pre, post := ContainsSplit(x, y);
    RemoveSpacesAppend(pre + y, post);
    RemoveSpacesAppend(pre, y);
    ContainsWitness(RemoveSpaces(pre), RemoveSpaces(y), RemoveSpaces(post));
  }

  lemma {:induction false} FirstPartIsPrefix(text: string)
    ensures Split(text)[0] <= text
  {
    if text != "" && text[0] != ' ' {
      FirstPartIsPrefix(text[1..]);
      assert text == [text[0]] + text[1..];
    }
  }

  /** Every part of a split text occurs in it. */
  lemma {:induction false} PartsOccur(text: string, t: string)
    requires t in Split(text)
    ensures Contains(text, t)
  {
    FirstPartIsPrefix(text);
    if t == Split(text)[0] {
      assert OccursAt(text, t, 0);
    } else {
      assert t in Split(text[1..]);
      PartsOccur(text[1..], t);
      var i: nat :| i + |t| <= |text[1..]| && OccursAt(text[1..], t, i);
      assert text[i + 1..i + 1 + |t|] == text[1..][i..i + |t|];
      assert OccursAt(text, t, i + 1);
    }
  }

  /**
    A needle whose separator-free form is long enough matches exactly when that form occurs in the
    separator-free text: whole phrases, plurals, tokens and token prefixes add nothing.
  */
  lemma LongNeedleIsSubstringSearch(text: string, n: string)
    requires JsLength(RemoveSpaces(n)) >= 8
    ensures JsMatchNormalized(BuildJsCorpus(text), n) <==> Contains(RemoveSpaces(text), RemoveSpaces(n))
  {
    var corpus := BuildJsCorpus(text);
    JoinSplitRemovesSpaces(text);
    JoinSplitRemovesSpaces(n);
    SearchesAgree(corpus.squashed, RemoveSpaces(n));
    assert " " + n + "" + " " == " " + n + " " && " " + n + "s" + " " == " " + n + "s ";
    PhraseIsSubsumed(text, n, "");
    PhraseIsSubsumed(text, n, "s");
    if tok :| tok in corpus.tokens && (tok == n || JsStartsWith(tok, n)) {
      TokenIsSubsumed(text, n, tok);
    }
  }

  lemma TokenIsSubsumed(text: string, n: string, tok: string)
    requires tok in Split(text) && JsStartsWith(tok, n)
    ensures Contains(RemoveSpaces(text), RemoveSpaces(n))
  {
    SearchesAgree(tok, n);
    PartsOccur(text, tok);
    assert tok == "" + n + tok[|n|..];
    ContainsWitness("", n, tok[|n|..]);
    ContainsTransitive(text, tok, n);
    RemoveSpacesContains(text, n);
  }

  lemma PhraseIsSubsumed(text: string, n: string, suffix: string)
    ensures JsIncludes(" " + text + " ", " " + n + suffix + " ") ==> Contains(RemoveSpaces(text), RemoveSpaces(n))
  {
    var padded, phrase := " " + text + " ", " " + n + suffix + " ";
    SearchesAgree(padded, phrase);
    if Contains(padded, phrase) {
      RemoveSpacesAppend(" " + text, " ");
      RemoveSpacesAppend(" ", text);
      assert RemoveSpaces(" ") == "" by { assert " "[1..] == ""; }
      assert RemoveSpaces(padded) == RemoveSpaces(text);
      assert phrase == " " + n + (suffix + " ");
      ContainsWitness(" ", n, suffix + " ");
      ContainsTransitive(padded, phrase, n);
      RemoveSpacesContains(padded, n);
    }
  }

  // ------------------------------------------------------------ separators do not hide long needles

  /** Dropped by the strip, or collapsed after the leet fold. */
  predicate Vanishes(u: Unicode, c: char) {
    IsZeroWidth(c) || IsCollapsible(u, FoldLeet(c))
  }

  function Visible(u: Unicode, t: string): string {
    if t == "" then ""
    else if Vanishes(u, t[0]) then Visible(u, t[1..])
    else [FoldLeet(t[0])] + Visible(u, t[1..])
  }

  lemma {:induction false} VisibleAppend(u: Unicode, a: string, b: string)
    ensures Visible(u, a + b) == Visible(u, a) + Visible(u, b)
  {
    if a == "" {
      assert a + b == b;
    } else {
      VisibleAppend(u, a[1..], b);
      assert (a + b)[1..] == a[1..] + b;
    }
  }

  lemma {:induction false} WalkWithoutSpaces(u: Unicode, t: string, started: bool, pending: bool)
    ensures RemoveSpaces(Walk(u, t, started, pending)) == Visible(u, t)
  {
    if t != "" {
      var c := FoldLeet(t[0]);
      if IsZeroWidth(t[0]) {
        WalkWithoutSpaces(u, t[1..], started, pending);
      } else if IsCollapsible(u, c) {
        WalkWithoutSpaces(u, t[1..], started, true);
      } else {
        WalkWithoutSpaces(u, t[1..], true, false);
        var gap := if pending && started then " " else "";
        RemoveSpacesAppend(gap + [c], Walk(u, t[1..], true, false));
        RemoveSpacesAppend(gap, [c]);
        assert [c][1..] == "" && " "[1..] == "" && c != ' ';
      }
    }
  }

  /**
    Inserting (or, read backwards, deleting) a character that vanishes, anywhere in the folded text, does
    not change whether a long needle matches.
  */
  lemma SeparatorsDoNotHide(u: Unicode, a: string, c: char, b: string, n: string)
    requires Vanishes(u, c) && JsLength(RemoveSpaces(n)) >= 8
    ensures JsMatchNormalized(BuildJsCorpus(Rewrites(u, a + [c] + b)), n)
            == JsMatchNormalized(BuildJsCorpus(Rewrites(u, a + b)), n)
  {
    LongNeedleIsSubstringSearch(Rewrites(u, a + [c] + b), n);
    LongNeedleIsSubstringSearch(Rewrites(u, a + b), n);
    WalkIsRewrites(u, a + [c] + b);
    WalkIsRewrites(u, a + b);
    WalkWithoutSpaces(u, a + [c] + b, false, false);
    WalkWithoutSpaces(u, a + b, false, false);
    VisibleAppend(u, a + [c], b);
    VisibleAppend(u, a, [c]);
    VisibleAppend(u, a, b);
    assert [c][1..] == "" && Visible(u, [c]) == "";
    assert Visible(u, a) + "" == Visible(u, a);
  }

  // ------------------------------------------------------------ which texts long needles tell apart

  /** Whether a text as given is matched by a needle in its normal form. */
  predicate Hit(u: Unicode, x: string, n: string) {
    JsMatchNormalized(BuildJsCorpus(JsNormalize(u, x)), n)
  }

  function VisibleOf(u: Unicode, x: string): string {
    Visible(u, u.fold(x))
  }

  lemma HitsAreVisible(u: Unicode, x: string, n: string)
    requires JsLength(RemoveSpaces(n)) >= 8
    ensures Hit(u, x, n) <==> Contains(VisibleOf(u, x), RemoveSpaces(n))
  {
    LongNeedleIsSubstringSearch(JsNormalize(u, x), n);
    WalkIsRewrites(u, u.fold(x));
    WalkWithoutSpaces(u, u.fold(x), false, false);
  }

  lemma {:induction false} VisibleIsClean(u: Unicode, t: string)
    requires ValidTables(u)
    ensures forall i :: 0 <= i < |Visible(u, t)| ==> CleanChar(u, Visible(u, t)[i]) && Visible(u, t)[i] != ' '
  {
    if t != "" {
      VisibleIsClean(u, t[1..]);
      if !Vanishes(u, t[0]) { FoldedIsClean(u, t[0]); }
    }
  }

  lemma VisibleIsNormal(u: Unicode, t: string)
    requires ValidTables(u)
    ensures NormalForm(u, Visible(u, t)) && RemoveSpaces(Visible(u, t)) == Visible(u, t)
  {
    VisibleIsClean(u, t);
    NoSpaces(Visible(u, t));
  }

  lemma LongerIsNotWithin(a: string, b: string)
    requires Contains(a, b)
    ensures JsLength(b) <= JsLength(a) && |b| <= |a|
  {
    var pre, post := ContainsSplit(a, b);
    EncodeAppend(Utf16, pre + b, post);
    EncodeAppend(Utf16, pre, b);
  }

  ghost predicate MatchedAlike(u: Unicode, x: string, y: string) {
    forall n | NormalForm(u, n) && JsLength(RemoveSpaces(n)) >= 8 :: Hit(u, x, n) == Hit(u, y, n)
  }

  lemma OneHoldsTheOther(u: Unicode, x: string, y: string)
    requires ValidTables(u) && MatchedAlike(u, x, y) && JsLength(VisibleOf(u, x)) >= 8
    ensures Contains(VisibleOf(u, y), VisibleOf(u, x))
  {
    var n := VisibleOf(u, x);
    VisibleIsNormal(u, u.fold(x));
    HitsAreVisible(u, x, n);
    HitsAreVisible(u, y, n);
    assert OccursAt(n, n, 0);
  }

  /**
    On texts as given: two texts are matched alike by every long needle if and only if they fold to the same visible
    characters, or both to fewer than a long needle has.
  */
  lemma MatchedAlikeExactlyWhen(u: Unicode, x: string, y: string)
    requires ValidTables(u)
    ensures MatchedAlike(u, x, y)
       <==> || VisibleOf(u, x) == VisibleOf(u, y)
            || (JsLength(VisibleOf(u, x)) < 8 && JsLength(VisibleOf(u, y)) < 8)
  {
    var a, b := VisibleOf(u, x), VisibleOf(u, y);
    if a == b || (JsLength(a) < 8 && JsLength(b) < 8) {
      forall n | NormalForm(u, n) && JsLength(RemoveSpaces(n)) >= 8 ensures Hit(u, x, n) == Hit(u, y, n) {
        HitsAreVisible(u, x, n);
        HitsAreVisible(u, y, n);
        if Contains(a, RemoveSpaces(n)) { LongerIsNotWithin(a, RemoveSpaces(n)); }
        if Contains(b, RemoveSpaces(n)) { LongerIsNotWithin(b, RemoveSpaces(n)); }
      }
    } else if MatchedAlike(u, x, y) {
      SameVisible(u, x, y);
    }
  }

  lemma SameVisible(u: Unicode, x: string, y: string)
    requires ValidTables(u) && MatchedAlike(u, x, y)
    requires JsLength(VisibleOf(u, x)) >= 8 || JsLength(VisibleOf(u, y)) >= 8
    ensures VisibleOf(u, x) == VisibleOf(u, y)
  {
    var a, b := VisibleOf(u, x), VisibleOf(u, y);
    if JsLength(a) >= 8 {
      OneHoldsTheOther(u, x, y);
      LongerIsNotWithin(b, a);
      OneHoldsTheOther(u, y, x);
    } else {
      OneHoldsTheOther(u, y, x);
      LongerIsNotWithin(a, b);
      OneHoldsTheOther(u, x, y);
    }
    EachHoldsTheOther(a, b);
  }

  lemma EachHoldsTheOther(a: string, b: string)
    requires Contains(a, b) && Contains(b, a)
    ensures a == b
  {
    LongerIsNotWithin(a, b);
    LongerIsNotWithin(b, a);
    var pre, post := ContainsSplit(a, b);
    assert pre == "" && post == "";
  }

  const E_ACUTE := '\U{00E9}'
  const ACUTE := '\U{0301}'
  const ZERO_WIDTH_SPACE := '\U{200B}'

  /**
    NFKC composes an e and a combining acute, but not across a zero-width character: inserted there, after seven
    letters q, it hides a needle that the text matches without it.
  */
  lemma CompositionLetsSeparatorsHide(u: Unicode, q: string)
    requires |q| == 7 && forall i :: 0 <= i < |q| ==> q[i] == 'q'
    requires u.fold(q + ['e'] + [ACUTE]) == q + [E_ACUTE]
    requires u.fold(q + ['e'] + [ZERO_WIDTH_SPACE] + [ACUTE]) == q + ['e'] + [ZERO_WIDTH_SPACE] + [ACUTE]
    requires ValidTables(u) && forall c :: IsLetter(c) ==> !u.punctuationOrSymbol(c)
    ensures JsMatchNormalized(BuildJsCorpus(JsNormalize(u, q + ['e'] + [ACUTE])), q + [E_ACUTE])
    ensures !JsMatchNormalized(BuildJsCorpus(JsNormalize(u, q + ['e'] + [ZERO_WIDTH_SPACE] + [ACUTE])), q + [E_ACUTE])
  {
    var n, s := q + [E_ACUTE], q + ['e'] + [ACUTE];
    UnitsOfBmp(n);
    LettersAreNormal(u, n);
    MatchesItself(n);
    LettersAreNormal(u, s);
    NotThere(s, n);
    NotAcrossZeroWidth(u, q + ['e'], s, n);
  }

  lemma NotAcrossZeroWidth(u: Unicode, a: string, s: string, n: string)
    requires s == a + [ACUTE] && Rewrites(u, s) == s && RemoveSpaces(s) == s && RemoveSpaces(n) == n
    requires !Contains(s, n) && JsLength(n) >= 8
    ensures !JsMatchNormalized(BuildJsCorpus(Rewrites(u, a + [ZERO_WIDTH_SPACE] + [ACUTE])), n)
  {
    SeparatorsDoNotHide(u, a, ZERO_WIDTH_SPACE, [ACUTE], n);
    LongNeedleIsSubstringSearch(s, n);
  }

  lemma MatchesItself(n: string)
    requires RemoveSpaces(n) == n && JsLength(n) >= 8
    ensures JsMatchNormalized(BuildJsCorpus(n), n)
  {
    LongNeedleIsSubstringSearch(n, n);
    assert OccursAt(n, n, 0);
  }

  predicate IsLetter(c: char) {
    c == 'q' || c == 'e' || c == E_ACUTE || c == ACUTE
  }

  lemma NotThere(s: string, n: string)
    requires |n| == 8 && n[7] == E_ACUTE && forall i :: 0 <= i < |s| ==> s[i] != E_ACUTE
    ensures !Contains(s, n)
  {
    forall i: nat | i + |n| <= |s| ensures !OccursAt(s, n, i) {
      assert s[i..i + |n|][7] == s[i + 7];
    }
  }

  /** Text of these letters is its own normal form, without a space. */
  lemma LettersAreNormal(u: Unicode, t: string)
    requires ValidTables(u) && (forall c :: IsLetter(c) ==> !u.punctuationOrSymbol(c))
    requires forall i :: 0 <= i < |t| ==> IsLetter(t[i])
    ensures Rewrites(u, t) == t && RemoveSpaces(t) == t
  {
    assert forall i :: 0 <= i < |t| ==> CleanChar(u, t[i]) && t[i] != ' ';
    NormalIsFixed(u, t);
    NoSpaces(t);
  }

  lemma {:induction false} NoSpaces(t: string)
    requires ' ' !in t
    ensures RemoveSpaces(t) == t
  {
    if t != "" {
      NoSpaces(t[1..]);
      assert t == [t[0]] + t[1..] && t[0] in t;
    }
  }

  lemma {:induction false} UnitsOfBmp(t: string)
    requires forall i :: 0 <= i < |t| ==> t[i] as nat < 0x1_0000
    ensures JsLength(t) == |t|
  {
    if t != "" { UnitsOfBmp(t[1..]); }
  }

  lemma ContainsSpace(n: string)
    ensures Contains(n, " ") <==> ' ' in n
  {
    if Contains(n, " ") {
      var pre, post := ContainsSplit(n, " ");
      assert n[|pre|] == ' ';
    }
    if i :| 0 <= i < |n| && n[i] == ' ' {
      assert OccursAt(n, " ", i);
    }
  }

  predicate SomeStartsWith(parts: seq<string>, n: string) {
    exists i :: 0 <= i < |parts| && n <= parts[i]
  }

  /** A single word of four to seven code units matches exactly the texts with a token that starts with it. */
  lemma ShortWordMatchesTokenPrefixes(text: string, n: string)
    requires ' ' !in n && 4 <= JsLength(n) < 8
    ensures JsMatchNormalized(BuildJsCorpus(text), n) <==> SomeStartsWith(Split(text), n)
  {
    SearchesAgree(n, " ");
    ContainsSpace(n);
    SplitWord(n);
    assert JoinParts([n]) == n;
    var corpus := BuildJsCorpus(text);
    forall tok ensures JsStartsWith(tok, n) == (n <= tok) { SearchesAgree(tok, n); }
    var parts := Split(text);
    if i :| 0 <= i < |parts| && n <= parts[i] {
      assert n != "";
      assert parts[i] in corpus.tokens && JsStartsWith(parts[i], n);
    }
    if tok :| tok in corpus.tokens && (tok == n || JsStartsWith(tok, n)) {
      var i :| 0 <= i < |parts| && parts[i] == tok;
      assert n <= parts[i];
    }
  }

  /** So the length gate is needed: a space inserted into a short word hides it, wherever it is inserted. */
  lemma SpaceHidesShortWord(u: Unicode, w: string, x: string)
    requires ValidTables(u) && w != "" && x != "" && ' ' !in w + x
    requires NormalForm(u, w + x) && NormalForm(u, w + " " + x)
    requires 4 <= JsLength(w + x) < 8
    ensures JsMatchNormalized(BuildJsCorpus(Rewrites(u, w + x)), w + x)
    ensures !JsMatchNormalized(BuildJsCorpus(Rewrites(u, w + " " + x)), w + x)
  {
    NormalIsFixed(u, w + x);
    NormalIsFixed(u, w + " " + x);
    SplitWord(w + x);
    SplitAtSpace(w, x);
    SplitWord(x);
    ShortWordMatchesTokenPrefixes(w + x, w + x);
    ShortWordMatchesTokenPrefixes(w + " " + x, w + x);
  }

  lemma {:induction false} SplitWord(w: string)
    requires ' ' !in w
    ensures Split(w) == [w]
  {
    if w != "" {
      SplitWord(w[1..]);
      assert w == [w[0]] + w[1..];
    }
  }

  lemma {:induction false} SplitAtSpace(w: string, rest: string)
    requires ' ' !in w
    ensures Split(w + " " + rest) == [w] + Split(rest)
  {
    var t := w + " " + rest;
    if w == "" {
      assert t[1..] == rest;
    } else {
      SplitAtSpace(w[1..], rest);
      assert t[1..] == w[1..] + " " + rest;
      assert w == [w[0]] + w[1..];
    }
  }

  // ------------------------------------------------------------ for which needles separators never matter

  /** A letter the needle does not start with. */
  function Other(n: string): char
    requires n != ""
  {
    if n[0] == 'a' then 's' else 'a'
  }

  lemma OtherIsClean(u: Unicode, n: string)
    requires ValidTables(u) && n != ""
    ensures CleanChar(u, Other(n)) && Other(n) != ' '
  {
    assert 'a' in LEET_OUTPUTS && 's' in LEET_OUTPUTS;
  }

  lemma BehindIsNormal(u: Unicode, c: char, n: string)
    requires NormalForm(u, n) && n != "" && CleanChar(u, c) && c != ' '
    ensures NormalForm(u, [c] + n)
  {
    var t := [c] + n;
    forall i | 0 <= i < |t| ensures CleanChar(u, t[i]) && (i > 0 ==> t[i - 1] != ' ' || t[i] != ' ') {
      assert t[i] == if i == 0 then c else n[i - 1];
    }
    assert t[|t| - 1] == n[|n| - 1];
  }

  lemma ApartIsNormal(u: Unicode, c: char, n: string)
    requires NormalForm(u, n) && n != "" && CleanChar(u, c) && c != ' '
    ensures NormalForm(u, [c] + " " + n)
  {
    var t := [c] + " " + n;
    forall i | 0 <= i < |t| ensures CleanChar(u, t[i]) && (i > 0 ==> t[i - 1] != ' ' || t[i] != ' ') {
      assert t[i] == if i == 0 then c else if i == 1 then ' ' else n[i - 2];
    }
    assert t[|t| - 1] == n[|n| - 1];
  }

  /** After another word, a needle is matched. */
  lemma ApartMatches(n: string, c: char)
    requires n != "" && c != ' '
    ensures JsMatchNormalized(BuildJsCorpus([c] + " " + n), n)
  {
    var text := [c] + " " + n;
    SearchesAgree(n, " ");
    ContainsSpace(n);
    if ' ' in n {
      SearchesAgree(" " + text + " ", " " + n + " ");
      ContainsWitness(" " + [c], " " + n + " ", "");
      assert " " + [c] + (" " + n + " ") + "" == " " + text + " ";
    } else {
      SplitAtSpace([c], n);
      SplitWord(n);
      assert n in Split(text);
    }
  }

  lemma WordBehindDoesNot(n: string, c: char)
    requires n != "" && c != ' ' && c != n[0] && ' ' !in n
    ensures n !in BuildJsCorpus([c] + n).tokens
    ensures forall tok <- BuildJsCorpus([c] + n).tokens :: !JsStartsWith(tok, n)
  {
    var text := [c] + n;
    SplitWord(text);
    SearchesAgree(text, n);
    assert text[0] != n[0];
  }

  /** Behind another letter, a short needle is not. */
  lemma BehindDoesNot(n: string, c: char)
    requires n != "" && c != ' ' && c != n[0] && JsLength(RemoveSpaces(n)) < 8
    ensures !JsMatchNormalized(BuildJsCorpus([c] + n), n)
  {
    SearchesAgree(n, " ");
    ContainsSpace(n);
    JoinSplitRemovesSpaces(n);
    if ' ' in n {
      NotInPadded(n, c, "");
      NotInPadded(n, c, "s");
      assert " " + n + "" + " " == " " + n + " " && " " + n + "s" + " " == " " + n + "s ";
    } else {
      WordBehindDoesNot(n, c);
    }
  }

  lemma NotInPadded(n: string, c: char, suffix: string)
    requires n != "" && c != ' ' && c != n[0] && |suffix| <= 1
    ensures !JsIncludes(" " + ([c] + n) + " ", " " + n + suffix + " ")
  {
    var padded, phrase := " " + ([c] + n) + " ", " " + n + suffix + " ";
    SearchesAgree(padded, phrase);
    forall i: nat | i + |phrase| <= |padded| ensures !OccursAt(padded, phrase, i) {
      assert padded[i..i + |phrase|][0] == padded[i] && padded[i..i + |phrase|][1] == padded[i + 1];
      assert phrase[0] == ' ' && phrase[1] == n[0] && padded[1] == c;
    }
  }

  predicate Indifferent(u: Unicode, n: string, a: string, c: char, b: string) {
    JsMatchNormalized(BuildJsCorpus(Rewrites(u, a + [c] + b)), n)
    == JsMatchNormalized(BuildJsCorpus(Rewrites(u, a + b)), n)
  }

  /** Inserting a separator anywhere in a folded text never changes whether the needle matches. */
  ghost predicate SeparatorsNeverMatter(u: Unicode, n: string) {
    forall a, c, b | Vanishes(u, c) :: Indifferent(u, n, a, c, b)
  }

  lemma SpaceMattersToShort(u: Unicode, n: string)
    requires ValidTables(u) && NormalForm(u, n) && n != "" && JsLength(RemoveSpaces(n)) < 8
    ensures !Indifferent(u, n, [Other(n)], ' ', n)
  {
    var c := Other(n);
    OtherIsClean(u, n);
    BehindIsNormal(u, c, n);
    ApartIsNormal(u, c, n);
    NormalIsFixed(u, [c] + n);
    NormalIsFixed(u, [c] + " " + n);
    ApartMatches(n, c);
    BehindDoesNot(n, c);
    assert [c] + [' '] + n == [c] + " " + n;
  }

  lemma LongIsIndifferent(u: Unicode, n: string)
    requires JsLength(RemoveSpaces(n)) >= 8
    ensures SeparatorsNeverMatter(u, n)
  {
    forall a, c, b | Vanishes(u, c) ensures Indifferent(u, n, a, c, b) {
      SeparatorsDoNotHide(u, a, c, b, n);
    }
  }

  lemma SpaceVanishes(u: Unicode)
    ensures Vanishes(u, ' ')
  {}

  /** That is so of exactly the needles whose separator-free form is long enough. */
  lemma SeparatorsNeverMatterExactlyWhen(u: Unicode, n: string)
    requires ValidTables(u) && NormalForm(u, n) && n != ""
    ensures SeparatorsNeverMatter(u, n) <==> JsLength(RemoveSpaces(n)) >= 8
  {
    if JsLength(RemoveSpaces(n)) >= 8 {
      LongIsIndifferent(u, n);
    } else {
      SpaceVanishes(u);
      SpaceMattersToShort(u, n);
    }
  }
}
