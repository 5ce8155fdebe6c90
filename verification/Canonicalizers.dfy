/**
  The two canonicalizers: `canonicalJson` of packages/protocol/src/canonical.ts over JavaScript values and
  `canonical_value` of prover/policy-core/src/policy_id.rs over serde_json values.
*/
module Canonicalizers {
  import opened Canonical
  import opened Encoding
  import opened Json
  import opened Sequences
  import opened Texts
  import opened Wrappers

  /**
    A value handed to a canonicalizer. `Real` is a number that is no integer literal; JavaScript may still
    hold an integer (1.0 is 1), serde_json does not. `Undefined` and `Unsupported` (functions, symbols)
    exist in JavaScript only.
  */
  datatype Value =
    | Undefined
    | Unsupported
    | VNull
    | VBool(b: bool)
    | VInt(n: int)
    | VReal(asInteger: Option<int>)
    | VStr(s: Text)
    | VArr(items: seq<Value>)
    | VObj(fields: seq<Field>)

  datatype Field = Field(key: Text, value: Value)

  /** `String.prototype.normalize("NFC")`, and the same of Rust's strings, which are plain. */
  type Nfc = Text -> Text

  const MAX_SAFE_INTEGER: int := 0x20_0000_0000_0000 - 1

  /** `Number.isSafeInteger`, and the bound of policy_id.rs. */
  predicate IsSafe(n: int) {
    -MAX_SAFE_INTEGER <= n <= MAX_SAFE_INTEGER
  }

  // ------------------------------------------------------------ decimal integers

  function Digits(n: nat): string {
    if n < 10 then [(n as char - 0 as char) + '0'] else Digits(n / 10) + [((n % 10) as char) + '0']
  }

  /** `String(n)` and `n.to_string()`. */
  function IntToString(n: int): string {
    if n < 0 then "-" + Digits(-n) else Digits(n)
  }

  function DigitsValue(s: string): nat {
    if s == "" then 0
    else 10 * DigitsValue(s[..|s| - 1]) + (if IsDigit(s[|s| - 1]) then (s[|s| - 1] - '0') as nat else 0)
  }

  /** The integer of an integer literal. */
  function LiteralValue(lexeme: string): int {
    if lexeme != "" && lexeme[0] == '-' then 0 - DigitsValue(lexeme[1..]) as int else DigitsValue(lexeme) as int
  }

  lemma {:induction false} DigitsReadBack(n: nat)
    ensures Digits(n) != "" && (forall c <- Digits(n) :: IsDigit(c))
    ensures n > 0 ==> Digits(n)[0] != '0'
    ensures n == 0 ==> Digits(n) == "0"
    ensures DigitsValue(Digits(n)) == n
  {
    if n >= 10 {
      DigitsReadBack(n / 10);
      var d := Digits(n);
      assert d[..|d| - 1] == Digits(n / 10);
    } else {
      var d := Digits(n);
      assert d[..0] == "" && DigitsValue("") == 0;
    }
  }

  lemma {:induction false} AllDigitsAreSkipped(s: string)
    requires forall c <- s :: IsDigit(c)
    ensures SkipDigits(s) == ""
  {
    if s != "" {
      assert s[0] in s && forall c <- s[1..] :: c in s;
      AllDigitsAreSkipped(s[1..]);
    }
  }

  /** Printed integers are JSON numbers, and read back as the integer. */
  lemma IntRoundTrip(n: int)
    ensures SkipNumber(IntToString(n)) == Some("")
    ensures LiteralValue(IntToString(n)) == n
  {
    var m := if n < 0 then -n else n;
    var d := Digits(m);
    DigitsReadBack(m);
    assert d[0] in d && forall c <- d[1..] :: c in d;
    AllDigitsAreSkipped(d[1..]);
    assert n < 0 ==> IntToString(n)[1..] == d;
    assert m == 0 ==> d[1..] == "";
  }

  // ------------------------------------------------------------ key order

  function InsertField(f: Field, sorted: seq<Field>): (r: seq<Field>)
    ensures multiset(r) == multiset{f} + multiset(sorted)
  {
    if sorted == [] || !KeyLess(sorted[0].key, f.key) then [f] + sorted
    else
      assert sorted == [sorted[0]] + sorted[1..];
      [sorted[0]] + InsertField(f, sorted[1..])
  }

  /** The fields in the order of `Object.keys(obj).sort()`. */
  function SortFields(fields: seq<Field>): (r: seq<Field>)
    ensures multiset(r) == multiset(fields)
  {
    if fields == [] then []
    else
      assert fields == [fields[0]] + fields[1..];
      InsertField(fields[0], SortFields(fields[1..]))
  }

  lemma SortKeepsFields(fields: seq<Field>)
    ensures |SortFields(fields)| == |fields|
    ensures forall f :: f in SortFields(fields) <==> f in fields
  {
    assert |multiset(SortFields(fields))| == |multiset(fields)|;
    forall f ensures f in SortFields(fields) <==> f in fields {
      assert f in multiset(SortFields(fields)) <==> f in multiset(fields);
    }
  }

  /** Fields of `obj`, in whatever order and number. */
  ghost predicate FieldsOf(obj: Value, some: seq<Field>) {
    obj.VObj? && forall f <- some :: f in obj.fields
  }

  lemma SortedFieldsOf(obj: Value)
    requires obj.VObj?
    ensures FieldsOf(obj, SortFields(obj.fields))
  {
    SortKeepsFields(obj.fields);
  }

  lemma FieldsOfTail(obj: Value, some: seq<Field>)
    requires FieldsOf(obj, some) && some != []
    ensures some[0] in obj.fields && some[0].value < obj && FieldsOf(obj, some[1..])
  {
    assert some[0] in some && forall f <- some[1..] :: f in some;
  }

  // ------------------------------------------------------------ canonical.ts

  function JoinComma(parts: seq<string>): string {
    if parts == [] then "" else if |parts| == 1 then parts[0] else parts[0] + "," + JoinComma(parts[1..])
  }

  function Bracketed(open: string, parts: Option<seq<string>>, close: string): Option<string> {
    match parts
    case None => None
    case Some(texts) => Some(open + JoinComma(texts) + close)
  }

  /** `canonicalJson`; `None` is the CanonicalizationError. */
  function JsCanonical(nfc: Nfc, v: Value): Option<string>
    decreases v, 1, 0
  {
    match v
    case Undefined => None
    case Unsupported => None
    case VNull => Some("null")
    case VBool(b) => Some(if b then "true" else "false")
    case VInt(n) => if IsSafe(n) then Some(IntToString(n)) else None
    case VReal(asInteger) => if asInteger.Some? && IsSafe(asInteger.value) then Some(IntToString(asInteger.value))
      else None
    case VStr(s) => Some(Quote(nfc(s)))
    case VArr(items) => Bracketed("[", JsItems(nfc, items), "]")
    case VObj(fields) => SortedFieldsOf(v); Bracketed("{", JsParts(nfc, v, SortFields(fields)), "}")
  }

  function JsItems(nfc: Nfc, items: seq<Value>): Option<seq<string>>
    decreases items, 0, 0
  {
    if items == [] then Some([])
    else
      match (JsCanonical(nfc, items[0]), JsItems(nfc, items[1..]))
      case (Some(t), Some(ts)) => Some([t] + ts)
      case _ => None
  }

  /** `keys.filter(k => obj[k] !== undefined).map(...)` over sorted fields of `obj`. */
  function JsParts(nfc: Nfc, ghost obj: Value, sorted: seq<Field>): Option<seq<string>>
    requires FieldsOf(obj, sorted)
    decreases obj, 0, |sorted|
  {
    if sorted == [] then Some([])
    else
      FieldsOfTail(obj, sorted);
      if sorted[0].value.Undefined? then JsParts(nfc, obj, sorted[1..])
      else
        match (JsCanonical(nfc, sorted[0].value), JsParts(nfc, obj, sorted[1..]))
        case (Some(t), Some(ts)) => Some([Quote(sorted[0].key) + ":" + t] + ts)
        case _ => None
  }

  // ------------------------------------------------------------ what the text stands for

  /** The document a value canonicalizes to: strings composed, undefined fields dropped, keys in order. */
  function TreeOf(nfc: Nfc, v: Value): Option<Json>
    decreases v, 1, 0
  {
    match v
    case Undefined => None
    case Unsupported => None
    case VNull => Some(Null)
    case VBool(b) => Some(Bool(b))
    case VInt(n) => if IsSafe(n) then Some(Num(IntToString(n))) else None
    case VReal(asInteger) => if asInteger.Some? && IsSafe(asInteger.value) then Some(Num(IntToString(asInteger.value)))
      else None
    case VStr(s) => Some(Str(nfc(s)))
    case VArr(items) =>
      (match TreeItems(nfc, items)
       case None => None
       case Some(trees) => Some(Arr(trees)))
    case VObj(fields) =>
      SortedFieldsOf(v);
      match TreeMembers(nfc, v, SortFields(fields))
      case None => None
      case Some(members) => Some(Obj(members))
  }

  function TreeItems(nfc: Nfc, items: seq<Value>): Option<seq<Json>>
    decreases items, 0, 0
  {
    if items == [] then Some([])
    else
      match (TreeOf(nfc, items[0]), TreeItems(nfc, items[1..]))
      case (Some(t), Some(ts)) => Some([t] + ts)
      case _ => None
  }

  function TreeMembers(nfc: Nfc, ghost obj: Value, sorted: seq<Field>): Option<seq<Member>>
    requires FieldsOf(obj, sorted)
    decreases obj, 0, |sorted|
  {
    if sorted == [] then Some([])
    else
      FieldsOfTail(obj, sorted);
      if sorted[0].value.Undefined? then TreeMembers(nfc, obj, sorted[1..])
      else
        match (TreeOf(nfc, sorted[0].value), TreeMembers(nfc, obj, sorted[1..]))
        case (Some(t), Some(ms)) => Some([Member(sorted[0].key, t)] + ms)
        case _ => None
  }

  function PrintedItems(trees: seq<Json>): seq<string> {
    if trees == [] then [] else [Print(trees[0])] + PrintedItems(trees[1..])
  }

  function PrintedMembers(members: seq<Member>): seq<string> {
    if members == [] then [] else [PrintMember(members[0])] + PrintedMembers(members[1..])
  }

  lemma {:induction false} JoinItems(trees: seq<Json>)
    requires trees != []
    ensures |PrintedItems(trees)| == |trees| && JoinComma(PrintedItems(trees)) + "]" == PrintItems(trees)
  {
    if |trees| > 1 {
      JoinItems(trees[1..]);
      assert PrintedItems(trees)[1..] == PrintedItems(trees[1..]);
      assert Print(trees[0]) + "," + JoinComma(PrintedItems(trees[1..])) + "]"
             == Print(trees[0]) + "," + PrintItems(trees[1..]);
    } else {
      assert PrintedItems(trees[1..]) == [];
    }
  }

  lemma {:induction false} JoinMembers(members: seq<Member>)
    requires members != []
    ensures |PrintedMembers(members)| == |members| && JoinComma(PrintedMembers(members)) + "}" == PrintMembers(members)
  {
    var head := PrintMember(members[0]);
    if |members| > 1 {
      JoinMembers(members[1..]);
      assert PrintedMembers(members)[1..] == PrintedMembers(members[1..]);
      Regroup(head, ",", JoinComma(PrintedMembers(members[1..])), "}");
      Regroup(head, ",", "", JoinComma(PrintedMembers(members[1..])) + "}");
    } else {
      assert PrintedMembers(members[1..]) == [];
    }
  }

  /** `canonicalJson` prints the document, and its numbers are JSON numbers. */
  lemma {:induction false} PrintsTheTree(nfc: Nfc, v: Value)
    ensures JsCanonical(nfc, v) == match TreeOf(nfc, v) case None => None case Some(t) => Some(Print(t))
    ensures TreeOf(nfc, v).Some? ==> WellFormed(TreeOf(nfc, v).value)
    decreases v, 1, 0
  {
    match v
    case VInt(n) => IntRoundTrip(n);
    case VReal(a) => if a.Some? { IntRoundTrip(a.value); }
    case VArr(items) =>
      PrintsTheItems(nfc, items);
      if trees :| TreeItems(nfc, items) == Some(trees) { BracketItems(trees); }
    case VObj(fields) =>
      SortedFieldsOf(v);
      PrintsTheMembers(nfc, v, SortFields(fields));
      if members :| TreeMembers(nfc, v, SortFields(fields)) == Some(members) { BraceMembers(members); }
    case _ =>
  }

  lemma BracketItems(trees: seq<Json>)
    ensures "[" + JoinComma(PrintedItems(trees)) + "]" == Print(Arr(trees))
  {
    Regroup("[", JoinComma(PrintedItems(trees)), "", "]");
    if trees == [] {
      assert "[" + "" + "]" == "[]";
    } else {
      JoinItems(trees);
    }
  }

  lemma BraceMembers(members: seq<Member>)
    ensures "{" + JoinComma(PrintedMembers(members)) + "}" == Print(Obj(members))
  {
    Regroup("{", JoinComma(PrintedMembers(members)), "", "}");
    if members == [] {
      assert "{" + "" + "}" == "{}";
    } else {
      JoinMembers(members);
    }
  }

  lemma {:induction false} PrintsTheItems(nfc: Nfc, items: seq<Value>)
    ensures JsItems(nfc, items) == match TreeItems(nfc, items) case None => None case Some(ts) => Some(PrintedItems(ts))
    ensures TreeItems(nfc, items).Some? ==>
              var ts := TreeItems(nfc, items).value;
              |ts| == |items| && forall i :: 0 <= i < |ts| ==> WellFormed(ts[i])
    decreases items, 0, 0
  {
    if items != [] {
      PrintsTheTree(nfc, items[0]);
      PrintsTheItems(nfc, items[1..]);
    }
  }

  lemma {:induction false} PrintsTheMembers(nfc: Nfc, obj: Value, sorted: seq<Field>)
    requires FieldsOf(obj, sorted)
    ensures JsParts(nfc, obj, sorted) == match TreeMembers(nfc, obj, sorted) case None => None
            case Some(ms) => Some(PrintedMembers(ms))
    ensures TreeMembers(nfc, obj, sorted).Some? ==>
              var ms := TreeMembers(nfc, obj, sorted).value;
              forall i :: 0 <= i < |ms| ==> WellFormed(ms[i].value)
    decreases obj, 0, |sorted|
  {
    if sorted != [] {
      FieldsOfTail(obj, sorted);
      PrintsTheTree(nfc, sorted[0].value);
      PrintsTheMembers(nfc, obj, sorted[1..]);
    }
  }

  /** No string that is printed, and no key, holds a lone surrogate. */
  ghost predicate PlainTexts(nfc: Nfc, v: Value) {
    match v
    case VStr(s) => nfc(s).Plain?
    case VArr(items) => forall i :: 0 <= i < |items| ==> PlainTexts(nfc, items[i])
    case VObj(fields) =>
      forall i :: 0 <= i < |fields| && !fields[i].value.Undefined? ==>
        fields[i].key.Plain? && PlainTexts(nfc, fields[i].value)
    case _ => true
  }

  lemma {:induction false} PlainTree(nfc: Nfc, v: Value)
    requires TreeOf(nfc, v).Some?
    ensures AllPlain(TreeOf(nfc, v).value) <==> PlainTexts(nfc, v)
    decreases v, 1, 0
  {
    match v
    case VArr(items) => PlainItems(nfc, items);
    case VObj(fields) =>
      SortedFieldsOf(v);
      PlainMembers(nfc, v, SortFields(fields));
      SortKeepsFields(fields);
      PlainFields(nfc, fields, SortFields(fields));
    case _ =>
  }

  lemma PlainFields(nfc: Nfc, a: seq<Field>, b: seq<Field>)
    requires forall f :: f in b <==> f in a
    ensures PlainTexts(nfc, VObj(a)) <==> PlainTexts(nfc, VObj(b))
  {
    forall i | 0 <= i < |a| ensures a[i] in b { assert a[i] in a; }
    forall i | 0 <= i < |b| ensures b[i] in a { assert b[i] in b; }
  }

  lemma PlainValuesCons(nfc: Nfc, v: Value, vs: seq<Value>)
    ensures PlainTexts(nfc, VArr([v] + vs)) <==> PlainTexts(nfc, v) && PlainTexts(nfc, VArr(vs))
  {
    var all := [v] + vs;
    if PlainTexts(nfc, VArr(all)) {
      assert PlainTexts(nfc, all[0]);
      forall i | 0 <= i < |vs| ensures PlainTexts(nfc, vs[i]) { assert all[i + 1] == vs[i]; }
    }
  }

  lemma PlainFieldsCons(nfc: Nfc, f: Field, fs: seq<Field>)
    ensures PlainTexts(nfc, VObj([f] + fs))
       <==> (f.value.Undefined? || (f.key.Plain? && PlainTexts(nfc, f.value))) && PlainTexts(nfc, VObj(fs))
  {
    var all := [f] + fs;
    if PlainTexts(nfc, VObj(all)) {
      assert all[0] == f;
      forall i | 0 <= i < |fs| && !fs[i].value.Undefined? ensures fs[i].key.Plain? && PlainTexts(nfc, fs[i].value) {
        assert all[i + 1] == fs[i];
      }
    }
  }

  lemma AllPlainCons(t: Json, ts: seq<Json>)
    ensures AllPlain(Arr([t] + ts)) <==> AllPlain(t) && AllPlain(Arr(ts))
  {
    var all := [t] + ts;
    if AllPlain(Arr(all)) {
      assert AllPlain(all[0]);
      forall i | 0 <= i < |ts| ensures AllPlain(ts[i]) { assert all[i + 1] == ts[i]; }
    }
  }

  lemma AllPlainMember(m: Member, ms: seq<Member>)
    ensures AllPlain(Obj([m] + ms)) <==> m.key.Plain? && AllPlain(m.value) && AllPlain(Obj(ms))
  {
    var all := [m] + ms;
    if AllPlain(Obj(all)) {
      assert all[0] == m;
      forall i | 0 <= i < |ms| ensures ms[i].key.Plain? && AllPlain(ms[i].value) { assert all[i + 1] == ms[i]; }
    }
  }

  lemma {:induction false} PlainItems(nfc: Nfc, items: seq<Value>)
    requires TreeItems(nfc, items).Some?
    ensures AllPlain(Arr(TreeItems(nfc, items).value)) <==> PlainTexts(nfc, VArr(items))
    decreases items, 0, 0
  {
    if items != [] {
      PlainTree(nfc, items[0]);
      PlainItems(nfc, items[1..]);
      var t, ts := TreeOf(nfc, items[0]).value, TreeItems(nfc, items[1..]).value;
      PlainValuesCons(nfc, items[0], items[1..]);
      AllPlainCons(t, ts);
      assert items == [items[0]] + items[1..];
    }
  }

  lemma {:induction false} PlainMembers(nfc: Nfc, obj: Value, sorted: seq<Field>)
    requires FieldsOf(obj, sorted) && TreeMembers(nfc, obj, sorted).Some?
    ensures AllPlain(Obj(TreeMembers(nfc, obj, sorted).value)) <==> PlainTexts(nfc, VObj(sorted))
    decreases obj, 0, |sorted|
  {
    if sorted != [] {
      FieldsOfTail(obj, sorted);
      PlainMembers(nfc, obj, sorted[1..]);
      assert sorted == [sorted[0]] + sorted[1..];
      PlainFieldsCons(nfc, sorted[0], sorted[1..]);
      if !sorted[0].value.Undefined? {
        PlainTree(nfc, sorted[0].value);
        var t, ms := TreeOf(nfc, sorted[0].value).value, TreeMembers(nfc, obj, sorted[1..]).value;
        AllPlainMember(Member(sorted[0].key, t), ms);
      }
    }
  }

  /**
    The canonical text of any value parses to the document it stands for: in JavaScript always, and in Rust if and
    only if no string and no key of it holds a lone surrogate.
  */
  lemma CanonicalParsesBack(nfc: Nfc, v: Value, strict: bool)
    requires JsCanonical(nfc, v).Some?
    ensures TreeOf(nfc, v).Some?
    ensures ParseText(strict, JsCanonical(nfc, v).value)
         == if strict && !PlainTexts(nfc, v) then None else TreeOf(nfc, v)
  {
    PrintsTheTree(nfc, v);
    PlainTree(nfc, v);
    TextRoundTrip(strict, TreeOf(nfc, v).value);
  }

  // ------------------------------------------------------------ policy_id.rs

  /** What `canonical_value` appends for a value, or `None` where it refuses the document. */
  function RustCanonical(nfc: Nfc, v: Value): Option<string>
    decreases v, 1, 0
  {
    match v
    case VNull => Some("null")
    case VBool(b) => Some(if b then "true" else "false")
    case VInt(n) => if IsSafe(n) then Some(IntToString(n)) else None
    case VStr(s) => if s.Plain? then Some(Quote(nfc(s))) else None
    case VArr(items) => Bracketed("[", RustItems(nfc, items), "]")
    case VObj(fields) => SortedFieldsOf(v); Bracketed("{", RustParts(nfc, v, SortFields(fields)), "}")
    case _ => None
  }

  function RustItems(nfc: Nfc, items: seq<Value>): Option<seq<string>>
    decreases items, 0, 0
  {
    if items == [] then Some([])
    else
      match (RustCanonical(nfc, items[0]), RustItems(nfc, items[1..]))
      case (Some(t), Some(ts)) => Some([t] + ts)
      case _ => None
  }

  function RustParts(nfc: Nfc, ghost obj: Value, sorted: seq<Field>): Option<seq<string>>
    requires FieldsOf(obj, sorted)
    decreases obj, 0, |sorted|
  {
    if sorted == [] then Some([])
    else
      FieldsOfTail(obj, sorted);
      if !sorted[0].key.Plain? then None
      else
        match (RustCanonical(nfc, sorted[0].value), RustParts(nfc, obj, sorted[1..]))
        case (Some(t), Some(ts)) => Some([Quote(sorted[0].key) + ":" + t] + ts)
        case _ => None
  }

  function After(done: seq<string>, rest: Option<seq<string>>): Option<seq<string>> {
    match rest
    case None => None
    case Some(ts) => Some(done + ts)
  }

  lemma {:induction false} JoinSnoc(done: seq<string>, part: string)
    ensures JoinComma(done + [part]) == if done == [] then part else JoinComma(done) + "," + part
  {
    if |done| > 0 {
      assert (done + [part])[1..] == done[1..] + [part];
      JoinSnoc(done[1..], part);
      if |done| > 1 {
        Regroup(done[0] + ",", JoinComma(done[1..]), "," + part, "");
        Regroup(JoinComma(done[1..]), ",", "", part);
      }
    }
  }

  /** Appending a part to an open list, with a comma unless it is the first. */
  lemma AppendPart(open: string, done: seq<string>, part: string)
    ensures open + JoinComma(done + [part]) == open + JoinComma(done) + (if done == [] then "" else ",") + part
  {
    JoinSnoc(done, part);
    Regroup(open, JoinComma(done), ",", part);
    assert open + "" == open && open + "" + part == open + part;
  }

  lemma AppendMember(open: string, done: seq<string>, quoted: string, t: string)
    ensures open + JoinComma(done + [quoted + ":" + t])
         == (open + JoinComma(done) + (if done == [] then "" else ",")) + quoted + ":" + t
  {
    AppendPart(open, done, quoted + ":" + t);
    var start := open + JoinComma(done) + (if done == [] then "" else ",");
    Regroup(start, quoted, ":", t);
    Regroup(quoted, ":", "", t);
  }

  lemma AfterStep(done: seq<string>, part: string, rest: Option<seq<string>>)
    ensures After([], rest) == rest
    ensures After(done, After([part], rest)) == After(done + [part], rest)
  {
    if rest.Some? {
      assert [] + rest.value == rest.value;
      assert done + ([part] + rest.value) == done + [part] + rest.value;
    }
  }

  lemma Bracket(prior: string, open: string, text: string, close: string)
    ensures prior + open + text + close == prior + (open + text + close)
  {}

  /** `canonical_value`: appends to `prior`, which stands for the contents of `out` at the call. */
  method CanonicalValue(nfc: Nfc, value: Value, prior: string) returns (ok: bool, out: string)
    ensures ok == RustCanonical(nfc, value).Some?
    ensures ok ==> out == prior + RustCanonical(nfc, value).value
    decreases value, 1, 0
  {
    out, ok := prior, true;
    match value
    case VNull => out := out + "null";
    case VBool(b) => out := out + (if b then "true" else "false");
    case VInt(n) =>
      if IsSafe(n) { out := out + IntToString(n); } else { ok := false; }
    case VStr(s) =>
      if s.Plain? { out := out + Quote(nfc(s)); } else { ok := false; }
    case VArr(items) => ok, out := CanonicalItems(nfc, items, prior);
    case VObj(_) => ok, out := CanonicalFields(nfc, value, prior);
    case _ => ok := false;
  }

  method CanonicalItems(nfc: Nfc, items: seq<Value>, prior: string) returns (ok: bool, out: string)
    ensures var text := Bracketed("[", RustItems(nfc, items), "]");
            ok == text.Some? && (ok ==> out == prior + text.value)
    decreases items, 0, 0
  {
    ok, out := true, prior + "[";
    ghost var done: seq<string> := [];
    AfterStep([], "", RustItems(nfc, items));
    assert items[0..] == items && prior + "[" + "" == prior + "[";
    for i := 0 to |items|
      invariant |done| == i && out == prior + "[" + JoinComma(done)
      invariant RustItems(nfc, items) == After(done, RustItems(nfc, items[i..]))
    {
      assert items[i..][0] == items[i] && items[i..][1..] == items[i + 1..];
      if i > 0 { out := out + ","; }
      ok, out := CanonicalValue(nfc, items[i], out);
      if !ok { return; }
      ghost var part := RustCanonical(nfc, items[i]).value;
      AppendPart(prior + "[", done, part);
      AfterStep(done, part, RustItems(nfc, items[i + 1..]));
      done := done + [part];
    }
    assert items[|items|..] == [] && done + [] == done;
    out := out + "]";
    Bracket(prior, "[", JoinComma(done), "]");
  }

  /** The first `i` fields are written, as the parts `done`. */
  ghost predicate Written(nfc: Nfc, obj: Value, keys: seq<Field>, i: nat, done: seq<string>, open: string, out: string)
    requires FieldsOf(obj, keys)
  {
    && i <= |keys| && FieldsOf(obj, keys[i..]) && |done| == i && out == open + JoinComma(done)
    && RustParts(nfc, obj, keys) == After(done, RustParts(nfc, obj, keys[i..]))
  }

  lemma WriteField(nfc: Nfc, obj: Value, keys: seq<Field>, i: nat, done: seq<string>, open: string, out: string,
                   t: string)
    requires FieldsOf(obj, keys) && Written(nfc, obj, keys, i, done, open, out) && i < |keys|
    requires keys[i].key.Plain? && RustCanonical(nfc, keys[i].value) == Some(t)
    ensures var q := Quote(keys[i].key);
            var begun := out + (if i == 0 then "" else ",") + q + ":";
            Written(nfc, obj, keys, i + 1, done + [q + ":" + t], open, begun + t)
  {
    assert keys[i..][0] == keys[i] && keys[i..][1..] == keys[i + 1..];
    FieldsOfTail(obj, keys[i..]);
    AppendMember(open, done, Quote(keys[i].key), t);
    AfterStep(done, Quote(keys[i].key) + ":" + t, RustParts(nfc, obj, keys[i + 1..]));
  }

  lemma RefuseField(nfc: Nfc, obj: Value, keys: seq<Field>, i: nat, done: seq<string>, open: string, out: string)
    requires FieldsOf(obj, keys) && Written(nfc, obj, keys, i, done, open, out) && i < |keys|
    requires !keys[i].key.Plain? || RustCanonical(nfc, keys[i].value).None?
    ensures RustParts(nfc, obj, keys).None?
  {
    assert keys[i..][0] == keys[i];
  }

  method CanonicalField(nfc: Nfc, field: Field, first: bool, prior: string) returns (ok: bool, out: string)
    ensures ok == (field.key.Plain? && RustCanonical(nfc, field.value).Some?)
    ensures ok ==>
              out == prior + (if first then "" else ",") + Quote(field.key) + ":"
                + RustCanonical(nfc, field.value).value
    decreases field.value, 2, 0
  {
    if !field.key.Plain? { return false, prior; }
    out := prior + (if first then "" else ",") + Quote(field.key) + ":";
    ok, out := CanonicalValue(nfc, field.value, out);
  }

  method CanonicalFields(nfc: Nfc, obj: Value, prior: string) returns (ok: bool, out: string)
    requires obj.VObj?
    ensures FieldsOf(obj, SortFields(obj.fields))
    ensures var text := Bracketed("{", RustParts(nfc, obj, SortFields(obj.fields)), "}");
            ok == text.Some? && (ok ==> out == prior + text.value)
    decreases obj, 0, 0
  {
    var keys := SortFields(obj.fields);
    SortedFieldsOf(obj);
    ok, out := true, prior + "{";
    ghost var done: seq<string> := [];
    AfterStep([], "", RustParts(nfc, obj, keys));
    assert keys[0..] == keys && prior + "{" + "" == prior + "{";
    for i := 0 to |keys|
      invariant ok && FieldsOf(obj, keys) && Written(nfc, obj, keys, i, done, prior + "{", out)
    {
      FieldsOfTail(obj, keys[i..]);
      ghost var before := out;
      ok, out := CanonicalField(nfc, keys[i], i == 0, out);
      if !ok {
        RefuseField(nfc, obj, keys, i, done, prior + "{", before);
        return;
      }
      ghost var t := RustCanonical(nfc, keys[i].value).value;
      WriteField(nfc, obj, keys, i, done, prior + "{", before, t);
      done := done + [Quote(keys[i].key) + ":" + t];
    }
    assert keys[|keys|..] == [] && done + [] == done;
    out := out + "}";
    Bracket(prior, "{", JoinComma(done), "}");
  }

  // ------------------------------------------------------------ the two agree

  /** A value serde_json can hold as this one, with integer numbers only. */
  ghost predicate Portable(v: Value) {
    match v
    case Undefined => false
    case Unsupported => false
    case VReal(_) => false
    case VStr(s) => s.Plain?
    case VArr(items) => forall i :: 0 <= i < |items| ==> Portable(items[i])
    case VObj(fields) => forall i :: 0 <= i < |fields| ==> fields[i].key.Plain? && Portable(fields[i].value)
    case _ => true
  }

  /**
    The Rust canonicalizer accepts exactly the portable values the TypeScript one accepts, and prints the same text.
  */
  lemma {:induction false} CanonicalizersAgree(nfc: Nfc, v: Value)
    ensures RustCanonical(nfc, v) == if Portable(v) then JsCanonical(nfc, v) else None
    decreases v, 1, 0
  {
    match v
    case VArr(items) => ItemsAgree(nfc, items);
    case VObj(fields) =>
      SortedFieldsOf(v);
      FieldsAgree(nfc, v, SortFields(fields));
      PortableFields(v);
    case _ =>
  }

  /** Values on which they differ: a whole number that is written as a real one, and a lone surrogate. */
  lemma CanonicalizersDiffer(nfc: Nfc)
    ensures JsCanonical(nfc, VReal(Some(1))) == Some("1") && RustCanonical(nfc, VReal(Some(1))).None?
    ensures var lone := VStr(OneSurrogate(0xD800)); JsCanonical(nfc, lone).Some? && RustCanonical(nfc, lone).None?
  {
    assert IntToString(1) == Digits(1) == "1";
  }

  lemma {:induction false} ItemsAgree(nfc: Nfc, items: seq<Value>)
    ensures RustItems(nfc, items)
         == if forall i :: 0 <= i < |items| ==> Portable(items[i]) then JsItems(nfc, items) else None
    decreases items, 0, 0
  {
    if items != [] {
      CanonicalizersAgree(nfc, items[0]);
      ItemsAgree(nfc, items[1..]);
      assert items == [items[0]] + items[1..];
    }
  }

  lemma {:induction false} FieldsAgree(nfc: Nfc, obj: Value, sorted: seq<Field>)
    requires FieldsOf(obj, sorted)
    ensures RustParts(nfc, obj, sorted)
         == if forall f <- sorted :: f.key.Plain? && Portable(f.value) then JsParts(nfc, obj, sorted) else None
    decreases obj, 0, |sorted|
  {
    if sorted != [] {
      FieldsOfTail(obj, sorted);
      CanonicalizersAgree(nfc, sorted[0].value);
      FieldsAgree(nfc, obj, sorted[1..]);
      assert sorted == [sorted[0]] + sorted[1..];
    }
  }

  lemma PortableFields(obj: Value)
    requires obj.VObj?
    ensures Portable(obj) <==> forall f <- SortFields(obj.fields) :: f.key.Plain? && Portable(f.value)
  {
    SortKeepsFields(obj.fields);
    if forall f <- SortFields(obj.fields) :: f.key.Plain? && Portable(f.value) {
      forall i | 0 <= i < |obj.fields| ensures obj.fields[i].key.Plain? && Portable(obj.fields[i].value) {
        assert obj.fields[i] in SortFields(obj.fields);
      }
    }
  }

  // ------------------------------------------------------------ the order of fields is immaterial

  ghost predicate DistinctKeys(fields: seq<Field>) {
    forall i, j :: 0 <= i < j < |fields| ==> fields[i].key != fields[j].key
  }

  ghost predicate KeysAscend(fields: seq<Field>) {
    forall i, j :: 0 <= i < j < |fields| ==> KeyLess(fields[i].key, fields[j].key)
  }

  lemma InsertMembers(f: Field, sorted: seq<Field>, x: Field)
    requires x in InsertField(f, sorted)
    ensures x == f || x in sorted
  {
    assert x in multiset(InsertField(f, sorted));
  }

  /** The key is before those of all these fields. */
  ghost predicate Below(k: Text, fields: seq<Field>) {
    forall j :: 0 <= j < |fields| ==> KeyLess(k, fields[j].key)
  }

  lemma ConsAscending(f: Field, sorted: seq<Field>)
    requires KeysAscend(sorted) && Below(f.key, sorted)
    ensures KeysAscend([f] + sorted)
  {}

  lemma BelowInserted(k: Text, f: Field, rest: seq<Field>)
    requires KeyLess(k, f.key) && Below(k, rest)
    ensures Below(k, InsertField(f, rest))
  {
    var tail := InsertField(f, rest);
    forall j | 0 <= j < |tail| ensures KeyLess(k, tail[j].key) {
      InsertMembers(f, rest, tail[j]);
      if tail[j] in rest {
        var i :| 0 <= i < |rest| && rest[i] == tail[j];
      }
    }
  }

  lemma BelowSorted(k: Text, sorted: seq<Field>)
    requires KeysAscend(sorted) && sorted != [] && KeyLess(k, sorted[0].key)
    ensures Below(k, sorted)
  {
    forall j | 0 <= j < |sorted| ensures KeyLess(k, sorted[j].key) {
      KeyLessTotal(k, sorted[0].key, sorted[j].key);
    }
  }

  lemma TailAbove(sorted: seq<Field>)
    requires KeysAscend(sorted) && sorted != []
    ensures KeysAscend(sorted[1..]) && Below(sorted[0].key, sorted[1..])
  {
    forall j | 0 <= j < |sorted[1..]| ensures KeyLess(sorted[0].key, sorted[1..][j].key) {
      assert sorted[1..][j] == sorted[j + 1];
    }
  }

  lemma {:induction false} InsertKeepsAscending(f: Field, sorted: seq<Field>)
    requires KeysAscend(sorted) && forall g <- sorted :: g.key != f.key
    ensures KeysAscend(InsertField(f, sorted))
  {
    if sorted != [] && KeyLess(sorted[0].key, f.key) {
      var head, rest := sorted[0], sorted[1..];
      assert forall g <- rest :: g in sorted;
      TailAbove(sorted);
      InsertKeepsAscending(f, rest);
      BelowInserted(head.key, f, rest);
      ConsAscending(head, InsertField(f, rest));
    } else {
      if sorted != [] {
        assert sorted[0] in sorted;
        KeyLessTotal(f.key, sorted[0].key, f.key);
        BelowSorted(f.key, sorted);
      }
      ConsAscending(f, sorted);
    }
  }

  lemma {:induction false} SortAscends(fields: seq<Field>)
    requires DistinctKeys(fields)
    ensures KeysAscend(SortFields(fields))
  {
    if fields != [] {
      SortAscends(fields[1..]);
      SortKeepsFields(fields[1..]);
      forall g | g in SortFields(fields[1..]) ensures g.key != fields[0].key {
        assert g in fields[1..];
      }
      InsertKeepsAscending(fields[0], SortFields(fields[1..]));
    }
  }

  function Keys(fields: seq<Field>): (keys: seq<Text>)
    ensures |keys| == |fields|
  {
    seq(|fields|, i requires 0 <= i < |fields| => fields[i].key)
  }

  ghost predicate Ascending(keys: seq<Text>) {
    forall i, j :: 0 <= i < j < |keys| ==> KeyLess(keys[i], keys[j])
  }

  lemma LeastIsFirst(a: seq<Text>, b: seq<Text>)
    requires a != [] && b != [] && Ascending(a) && Ascending(b) && a[0] in b && b[0] in a
    ensures a[0] == b[0]
  {
    var i :| 0 <= i < |b| && b[i] == a[0];
    var j :| 0 <= j < |a| && a[j] == b[0];
    if i != 0 && j != 0 {
      KeyLessTotal(a[0], b[0], a[0]);
    }
  }

  lemma AfterFirst(a: seq<Text>, k: Text)
    requires a != [] && Ascending(a)
    ensures k in a[1..] <==> k in a && k != a[0]
  {
    assert a == [a[0]] + a[1..];
    if k in a[1..] {
      var i :| 0 <= i < |a[1..]| && a[1..][i] == k;
      assert KeyLess(a[0], a[i + 1]);
      KeyLessTotal(k, k, k);
    }
  }

  /** An ascending list of keys is determined by which keys it has. */
  lemma {:induction false} AscendingUnique(a: seq<Text>, b: seq<Text>)
    requires Ascending(a) && Ascending(b) && forall k :: k in a <==> k in b
    ensures a == b
  {
    assert a == [] <==> b == [] by {
      if a != [] { assert a[0] in a; }
      if b != [] { assert b[0] in b; }
    }
    if a != [] {
      assert a[0] in a && b[0] in b;
      LeastIsFirst(a, b);
      forall k ensures k in a[1..] <==> k in b[1..] {
        AfterFirst(a, k);
        AfterFirst(b, k);
      }
      AscendingUnique(a[1..], b[1..]);
      assert a == [a[0]] + a[1..] && b == [b[0]] + b[1..];
    }
  }

  /** The same document with the fields of its objects in another order. */
  ghost predicate SameDocument(v: Value, w: Value)
    decreases v
  {
    match v
    case VArr(items) =>
      w.VArr? && |w.items| == |items| && forall i :: 0 <= i < |items| ==> SameDocument(items[i], w.items[i])
    case VObj(fields) =>
      && w.VObj? && DistinctKeys(fields) && DistinctKeys(w.fields)
      && (forall k :: k in Keys(fields) <==> k in Keys(w.fields))
      && (forall i, j | 0 <= i < |fields| && 0 <= j < |w.fields| && fields[i].key == w.fields[j].key ::
            SameDocument(fields[i].value, w.fields[j].value))
    case _ => w == v
  }

  lemma SortedKeys(fields: seq<Field>)
    requires DistinctKeys(fields)
    ensures Ascending(Keys(SortFields(fields)))
    ensures forall k :: k in Keys(SortFields(fields)) <==> k in Keys(fields)
  {
    SortAscends(fields);
    SortKeepsFields(fields);
    SameKeySet(fields, SortFields(fields));
  }

  lemma KeyOfField(fields: seq<Field>, k: Text)
    ensures k in Keys(fields) <==> exists f <- fields :: f.key == k
  {
    if k in Keys(fields) {
      var i :| 0 <= i < |fields| && Keys(fields)[i] == k;
      assert fields[i] in fields;
    }
    if f :| f in fields && f.key == k {
      var i :| 0 <= i < |fields| && fields[i] == f;
      assert Keys(fields)[i] == k;
    }
  }

  lemma SameKeySet(a: seq<Field>, b: seq<Field>)
    requires forall f :: f in a <==> f in b
    ensures forall k :: k in Keys(b) <==> k in Keys(a)
  {
    forall k ensures k in Keys(b) <==> k in Keys(a) {
      KeyOfField(a, k);
      KeyOfField(b, k);
    }
  }

  lemma SortedPairUp(v: Value, w: Value)
    requires v.VObj? && SameDocument(v, w)
    ensures Keys(SortFields(v.fields)) == Keys(SortFields(w.fields))
    ensures forall i :: 0 <= i < |SortFields(v.fields)| ==>
            SameDocument(SortFields(v.fields)[i].value, SortFields(w.fields)[i].value)
  {
    var a, b := SortFields(v.fields), SortFields(w.fields);
    SortedKeys(v.fields);
    SortedKeys(w.fields);
    AscendingUnique(Keys(a), Keys(b));
    forall i | 0 <= i < |a| ensures SameDocument(a[i].value, b[i].value) {
      SortKeepsFields(v.fields);
      SortKeepsFields(w.fields);
      assert a[i] in v.fields && b[i] in w.fields;
      var k :| 0 <= k < |v.fields| && v.fields[k] == a[i];
      var m :| 0 <= m < |w.fields| && w.fields[m] == b[i];
      assert Keys(a)[i] == Keys(b)[i];
    }
  }

  /** Canonical text does not depend on the order in which the fields of an object were written. */
  lemma {:induction false} OrderIsImmaterial(nfc: Nfc, v: Value, w: Value)
    requires SameDocument(v, w)
    ensures JsCanonical(nfc, v) == JsCanonical(nfc, w)
    decreases v, 1, 0
  {
    match v
    case VArr(items) => ItemsOrderImmaterial(nfc, items, w.items);
    case VObj(fields) =>
      SortedPairUp(v, w);
      SortedFieldsOf(v); SortedFieldsOf(w);
      FieldsOrderImmaterial(nfc, v, SortFields(fields), w, SortFields(w.fields));
    case _ =>
  }

  lemma {:induction false} ItemsOrderImmaterial(nfc: Nfc, a: seq<Value>, b: seq<Value>)
    requires |a| == |b| && forall i :: 0 <= i < |a| ==> SameDocument(a[i], b[i])
    ensures JsItems(nfc, a) == JsItems(nfc, b)
    decreases a, 0, 0
  {
    if a != [] {
      OrderIsImmaterial(nfc, a[0], b[0]);
      ItemsOrderImmaterial(nfc, a[1..], b[1..]);
    }
  }

  lemma {:induction false} FieldsOrderImmaterial(nfc: Nfc, v: Value, a: seq<Field>, w: Value,
                                                 b: seq<Field>)
    requires FieldsOf(v, a) && FieldsOf(w, b) && Keys(a) == Keys(b)
    requires forall i :: 0 <= i < |a| ==> SameDocument(a[i].value, b[i].value)
    ensures JsParts(nfc, v, a) == JsParts(nfc, w, b)
    decreases v, 0, |a|
  {
    assert |a| == |b|;
    if a != [] {
      FieldsOfTail(v, a);
      FieldsOfTail(w, b);
      assert Keys(a)[0] == Keys(b)[0];
      assert Keys(a[1..]) == Keys(a)[1..] && Keys(b[1..]) == Keys(b)[1..];
      OrderIsImmaterial(nfc, a[0].value, b[0].value);
      assert a[0].value.Undefined? == b[0].value.Undefined?;
      FieldsOrderImmaterial(nfc, v, a[1..], w, b[1..]);
    }
  }
}
