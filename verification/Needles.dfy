/** Which needles match which texts, in terms of the text's characters alone. */
module Needles {
  import opened Encoding
  import opened Matcher
  import opened Normalizer
  import opened Sequences

  /** The phrase stands at `i`, between ends of the text and spaces. */
  predicate StandsAt(text: string, p: string, i: nat) {
    && i + |p| <= |text| && text[i..i + |p|] == p
    && (i == 0 || text[i - 1] == ' ') && (i + |p| == |text| || text[i + |p|] == ' ')
  }

  ghost predicate Stands(text: string, p: string) {
    exists i: nat :: StandsAt(text, p, i)
  }

  /** Searching the padded text for the padded phrase finds it where it stands. */
  lemma PaddedSearch(text: string, p: string)
    ensures Contains(" " + text + " ", " " + p + " ") <==> Stands(text, p)
  {
    var x, y := " " + text + " ", " " + p + " ";
    if Contains(x, y) {
      var i: nat :| i + |y| <= |x| && OccursAt(x, y, i);
      PaddedStands(text, p, i);
    }
    if i: nat :| StandsAt(text, p, i) { StandsPadded(text, p, i); }
  }

  lemma PaddedStands(text: string, p: string, i: nat)
    requires i + |p| + 2 <= |text| + 2 && OccursAt(" " + text + " ", " " + p + " ", i)
    ensures StandsAt(text, p, i)
  {
    var x, y := " " + text + " ", " " + p + " ";
    assert x[i..i + |y|] == y;
    assert x[i] == y[0] && x[i + |y| - 1] == y[|y| - 1];
    var t := text[i..i + |p|];
    forall k | 0 <= k < |p| ensures t[k] == p[k] {
      assert t[k] == text[i + k] == x[i + k + 1];
      assert x[i..i + |y|][k + 1] == y[k + 1];
    }
    assert t == p;
    assert i > 0 ==> text[i - 1] == x[i];
    assert i + |p| < |text| ==> text[i + |p|] == x[i + |y| - 1];
  }

  lemma StandsPadded(text: string, p: string, i: nat)
    requires StandsAt(text, p, i)
    ensures Contains(" " + text + " ", " " + p + " ")
  {
    var x, y := " " + text + " ", " " + p + " ";
    assert x[i] == ' ' && x[i + |p| + 1] == ' ';
    assert x[i + 1..i + 1 + |p|] == text[i..i + |p|];
    assert x[i..i + |y|] == [x[i]] + x[i + 1..i + 1 + |p|] + [x[i + |p| + 1]];
    assert OccursAt(x, y, i);
  }

  // ------------------------------------------------------------ tokens

  lemma {:induction false} FirstSpace(text: string) returns (w: string, rest: string)
    requires ' ' in text
    ensures text == w + " " + rest && ' ' !in w
  {
    if text[0] == ' ' {
      w, rest := "", text[1..];
    } else {
      var w', rest' := FirstSpace(text[1..]);
      w, rest := [text[0]] + w', rest';
    }
  }

  ghost predicate NoSpaces(text: string, i: nat, j: nat) {
    j <= |text| && forall k :: i <= k < j ==> text[k] != ' '
  }

  lemma SpacelessSlice(text: string, n: string, i: nat)
    requires ' ' !in n && i + |n| <= |text| && text[i..i + |n|] == n
    ensures NoSpaces(text, i, i + |n|)
  {
    forall k | i <= k < i + |n| ensures text[k] != ' ' {
      assert text[k] == n[k - i] && n[k - i] in n;
    }
  }

  lemma StandsAlone(text: string, n: string)
    requires ' ' !in text
    ensures Stands(text, n) <==> n == text
  {
    assert text[0..|text|] == text;
    SpacelessSlice(text, text, 0);
    if n == text { assert StandsAt(text, n, 0); }
  }

  /** A word stands before the first space, as all there is, or after it. */
  lemma StandsAround(w: string, rest: string, n: string)
    requires ' ' !in w && ' ' !in n
    ensures Stands(w + " " + rest, n) <==> n == w || Stands(rest, n)
  {
    var text := w + " " + rest;
    if i: nat :| StandsAt(text, n, i) { StandsWhere(w, rest, n, i); }
    if n == w {
      assert text[0..|w|] == w;
      assert StandsAt(text, n, 0);
    }
    if i: nat :| StandsAt(rest, n, i) { StandsLater(w, rest, n, i); }
  }

  lemma StandsLater(w: string, rest: string, n: string, i: nat)
    requires StandsAt(rest, n, i)
    ensures StandsAt(w + " " + rest, n, |w| + 1 + i)
  {
    var text, j := w + " " + rest, |w| + 1 + i;
    assert text[j..j + |n|] == rest[i..i + |n|];
  }

  lemma StandsWhere(w: string, rest: string, n: string, i: nat)
    requires ' ' !in w && ' ' !in n && StandsAt(w + " " + rest, n, i)
    ensures n == w || Stands(rest, n)
  {
    var text := w + " " + rest;
    SpacelessSlice(text, n, i);
    assert text[0..|w|] == w && text[|w|] == ' ';
    SpacelessSlice(text, w, 0);
    if i > |w| {
      assert text[i..i + |n|] == rest[i - |w| - 1..i - |w| - 1 + |n|];
      assert StandsAt(rest, n, i - |w| - 1);
    }
  }

  lemma {:induction false} TokensStand(text: string, n: string)
    requires ' ' !in n
    ensures n in Split(text) <==> Stands(text, n)
    decreases |text|
  {
    if ' ' in text {
      var w, rest := FirstSpace(text);
      SplitAtSpace(w, rest);
      StandsAround(w, rest, n);
      TokensStand(rest, n);
    } else {
      SplitWord(text);
      StandsAlone(text, n);
    }
  }

  // ------------------------------------------------------------ starts of tokens

  predicate StartsAt(text: string, n: string, i: nat) {
    i + |n| <= |text| && text[i..i + |n|] == n && (i == 0 || text[i - 1] == ' ')
  }

  /** The word starts at the start of the text or after a space. */
  ghost predicate Starts(text: string, n: string) {
    exists i: nat :: StartsAt(text, n, i)
  }

  lemma StartsAlone(text: string, n: string)
    requires ' ' !in text && n != ""
    ensures Starts(text, n) <==> n <= text
  {
    assert text[0..|text|] == text;
    SpacelessSlice(text, text, 0);
    if n <= text { assert StartsAt(text, n, 0); }
  }

  lemma StartsAround(w: string, rest: string, n: string)
    requires ' ' !in w && ' ' !in n && n != ""
    ensures Starts(w + " " + rest, n) <==> n <= w || Starts(rest, n)
  {
    var text := w + " " + rest;
    if i: nat :| StartsAt(text, n, i) { StartsWhere(w, rest, n, i); }
    if n <= w {
      assert text[0..|n|] == w[..|n|] == n;
      assert StartsAt(text, n, 0);
    }
    if i: nat :| StartsAt(rest, n, i) {
      var j := |w| + 1 + i;
      assert text[j..j + |n|] == rest[i..i + |n|];
      assert StartsAt(text, n, j);
    }
  }

  lemma StartsWhere(w: string, rest: string, n: string, i: nat)
    requires ' ' !in w && ' ' !in n && n != "" && StartsAt(w + " " + rest, n, i)
    ensures n <= w || Starts(rest, n)
  {
    var text := w + " " + rest;
    SpacelessSlice(text, n, i);
    assert text[0..|w|] == w && text[|w|] == ' ';
    SpacelessSlice(text, w, 0);
    if i > |w| {
      assert text[i..i + |n|] == rest[i - |w| - 1..i - |w| - 1 + |n|];
      assert StartsAt(rest, n, i - |w| - 1);
    } else {
      assert text[0..|n|] == w[..|n|];
    }
  }

  lemma {:induction false} TokensStart(text: string, n: string)
    requires ' ' !in n && n != ""
    ensures SomeStartsWith(Split(text), n) <==> Starts(text, n)
    decreases |text|
  {
    if ' ' in text {
      var w, rest := FirstSpace(text);
      SplitAtSpace(w, rest);
      StartsAround(w, rest, n);
      TokensStart(rest, n);
      FirstOrRest(w, Split(rest), n);
    } else {
      SplitWord(text);
      StartsAlone(text, n);
      FirstOrRest(text, [], n);
      assert [text] + [] == [text];
    }
  }

  lemma FirstOrRest(w: string, parts: seq<string>, n: string)
    ensures SomeStartsWith([w] + parts, n) <==> n <= w || SomeStartsWith(parts, n)
  {
    var all := [w] + parts;
    assert all[0] == w;
    if i :| 0 <= i < |parts| && n <= parts[i] { assert all[i + 1] == parts[i]; }
  }

  // ------------------------------------------------------------ the matcher

  lemma ShortPhrase(text: string, n: string)
    requires ' ' in n && JsLength(RemoveSpaces(n)) < 8
    ensures JsMatchNormalized(BuildJsCorpus(text), n) <==> Stands(text, n) || Stands(text, n + "s")
  {
    SearchesAgree(n, " ");
    var k :| 0 <= k < |n| && n[k] == ' ';
    assert n[k..k + 1] == " ";
    assert OccursAt(n, " ", k);
    JoinSplitRemovesSpaces(n);
    var corpus := BuildJsCorpus(text);
    SearchesAgree(corpus.padded, " " + n + " ");
    SearchesAgree(corpus.padded, " " + n + "s ");
    PaddedSearch(text, n);
    PaddedSearch(text, n + "s");
    assert " " + (n + "s") + " " == " " + n + "s ";
  }

  lemma ShortestWord(text: string, n: string)
    requires n != "" && ' ' !in n && JsLength(n) < 4
    ensures JsMatchNormalized(BuildJsCorpus(text), n) <==> Stands(text, n)
  {
    SearchesAgree(n, " ");
    ContainsSpace(n);
    SplitWord(n);
    assert JoinParts([n]) == n;
    TokensStand(text, n);
  }

  /**
    With eight code units or more beside its spaces a needle is searched for in the text without spaces; otherwise a
    phrase must stand in the text as it is or with an s, a word of four or more must start a token, and a shorter word
    must stand there alone.
  */
  ghost predicate Occurs(text: string, n: string) {
    if JsLength(RemoveSpaces(n)) >= 8 then Contains(RemoveSpaces(text), RemoveSpaces(n))
    else if ' ' in n then Stands(text, n) || Stands(text, n + "s")
    else if JsLength(n) >= 4 then Starts(text, n)
    else Stands(text, n)
  }

  /** This is what the matcher does, with any text and any normalized needle. */
  lemma MatchesExactlyWhen(text: string, n: string)
    ensures JsMatchNormalized(BuildJsCorpus(text), n) <==> n != "" && Occurs(text, n)
  {
    if n == "" {
    } else if JsLength(RemoveSpaces(n)) >= 8 {
      LongNeedleIsSubstringSearch(text, n);
    } else if ' ' in n {
      ShortPhrase(text, n);
    } else {
      WordWithoutSpaces(n);
      if JsLength(n) >= 4 { ShortWord(text, n); } else { ShortestWord(text, n); }
    }
  }

  lemma ShortWord(text: string, n: string)
    requires n != "" && ' ' !in n && 4 <= JsLength(n) < 8
    ensures JsMatchNormalized(BuildJsCorpus(text), n) <==> Starts(text, n)
  {
    ShortWordMatchesTokenPrefixes(text, n);
    TokensStart(text, n);
  }

  lemma {:induction false} WordWithoutSpaces(n: string)
    requires ' ' !in n
    ensures RemoveSpaces(n) == n
  {
    if n != "" { WordWithoutSpaces(n[1..]); }
  }
}
