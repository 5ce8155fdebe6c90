/** Canonical text is a fixed point: parsing it and canonicalizing again changes nothing. */
module Recanonical {
  import opened Canonical
  import opened Canonicalizers
  import opened Encoding
  import opened Json
  import opened Texts
  import opened Wrappers

  /** What is taken of Unicode NFC: composing twice is composing once, and ASCII is composed already. */
  ghost predicate NfcSound(nfc: Nfc) {
    && (forall t :: nfc(nfc(t)) == nfc(t))
    && (forall s :: IsAscii(s) ==> nfc(Plain(s)) == Plain(s))
  }

  predicate IsAscii(s: string) {
    forall i :: 0 <= i < |s| ==> s[i] as nat < 0x80
  }

  /** The number of a lexeme: an integer literal is its integer; what other literals are does not matter here. */
  function NumberOf(lexeme: string): Value {
    if forall i :: 0 <= i < |lexeme| ==> lexeme[i] == '-' || IsDigit(lexeme[i]) then VInt(LiteralValue(lexeme))
    else VReal(None)
  }

  /** `JSON.parse` of a document without repeated keys. */
  function ValueOf(t: Json): Value
    decreases t, 0
  {
    match t
    case Null => VNull
    case Bool(b) => VBool(b)
    case Num(lexeme) => NumberOf(lexeme)
    case Str(s) => VStr(s)
    case Arr(items) => VArr(ValuesOf(items))
    case Obj(members) => VObj(FieldsFrom(members))
  }

  function ValuesOf(items: seq<Json>): (r: seq<Value>)
    ensures |r| == |items|
    decreases items, 1
  {
    if items == [] then [] else [ValueOf(items[0])] + ValuesOf(items[1..])
  }

  function FieldsFrom(members: seq<Member>): (r: seq<Field>)
    ensures |r| == |members| && forall i :: 0 <= i < |r| ==> r[i].key == members[i].key
    decreases members, 1
  {
    if members == [] then [] else [FieldFrom(members[0])] + FieldsFrom(members[1..])
  }

  function FieldFrom(m: Member): (f: Field)
    ensures f.key == m.key
    decreases m, 0
  {
    Field(m.key, ValueOf(m.value))
  }

  /** A JavaScript object has each key once. */
  ghost predicate KeysOnce(v: Value) {
    match v
    case VArr(items) => forall i :: 0 <= i < |items| ==> KeysOnce(items[i])
    case VObj(fields) => DistinctKeys(fields) && forall i :: 0 <= i < |fields| ==> KeysOnce(fields[i].value)
    case _ => true
  }

  /** Fields in order stay as they are. */
  lemma {:induction false} SortOfAscending(fields: seq<Field>)
    requires KeysAscend(fields)
    ensures SortFields(fields) == fields
  {
    if fields != [] {
      SortOfAscending(fields[1..]);
      if |fields| > 1 {
        assert fields[1..][0] == fields[1];
        KeyLessTotal(fields[0].key, fields[1].key, fields[0].key);
      }
      assert fields == [fields[0]] + fields[1..];
    }
  }

  lemma PrintedInteger(n: int)
    ensures NumberOf(IntToString(n)) == VInt(n)
  {
    IntRoundTrip(n);
    DigitsReadBack(if n < 0 then -n else n);
    var s := IntToString(n);
    var d := if n < 0 then s[1..] else s;
    assert forall i :: 0 <= i < |d| ==> d[i] in d;
    assert n < 0 ==> forall i :: 1 <= i < |s| ==> s[i] == d[i - 1];
  }

  lemma {:induction false} KeysOfTree(nfc: Nfc, obj: Value, sorted: seq<Field>)
    requires FieldsOf(obj, sorted) && TreeMembers(nfc, obj, sorted).Some? && KeysAscend(sorted)
    ensures var ms := TreeMembers(nfc, obj, sorted).value;
            && (forall i, j :: 0 <= i < j < |ms| ==> KeyLess(ms[i].key, ms[j].key))
            && (forall i :: 0 <= i < |ms| ==> exists k :: 0 <= k < |sorted| && sorted[k].key == ms[i].key)
    decreases |sorted|
  {
    if sorted != [] {
      FieldsOfTail(obj, sorted);
      var rest := sorted[1..];
      KeysOfTree(nfc, obj, rest);
      var ms, tail := TreeMembers(nfc, obj, sorted).value, TreeMembers(nfc, obj, rest).value;
      forall i | 0 <= i < |tail|
        ensures KeyLess(sorted[0].key, tail[i].key) && exists k :: 0 <= k < |sorted| && sorted[k].key == tail[i].key {
        var k :| 0 <= k < |rest| && rest[k].key == tail[i].key;
        assert sorted[k + 1].key == tail[i].key;
      }
      if !sorted[0].value.Undefined? {
        assert ms == [ms[0]] + tail && ms[0].key == sorted[0].key;
      }
    }
  }

  /** The document of a value, read back and canonicalized, is the same document. */
  lemma {:induction false} TreeAgain(nfc: Nfc, v: Value)
    requires NfcSound(nfc) && KeysOnce(v) && TreeOf(nfc, v).Some?
    ensures TreeOf(nfc, ValueOf(TreeOf(nfc, v).value)) == TreeOf(nfc, v)
    decreases v, 2, 0
  {
    match v
    case VInt(n) => PrintedInteger(n);
    case VReal(a) => PrintedInteger(a.value);
    case VArr(items) => ItemsAgain(nfc, items);
    case VObj(_) => ObjectAgain(nfc, v);
    case _ =>
  }

  lemma FieldsStaySorted(nfc: Nfc, v: Value, ms: seq<Member>)
    requires v.VObj? && DistinctKeys(v.fields) && FieldsOf(v, SortFields(v.fields))
             && TreeMembers(nfc, v, SortFields(v.fields)) == Some(ms)
    ensures SortFields(FieldsFrom(ms)) == FieldsFrom(ms)
  {
    SortAscends(v.fields);
    KeysOfTree(nfc, v, SortFields(v.fields));
    SortOfAscending(FieldsFrom(ms));
  }

  lemma {:induction false} ObjectAgain(nfc: Nfc, v: Value)
    requires NfcSound(nfc) && v.VObj? && KeysOnce(v) && TreeOf(nfc, v).Some?
    ensures TreeOf(nfc, ValueOf(TreeOf(nfc, v).value)) == TreeOf(nfc, v)
    decreases v, 1, 0
  {
    SortedFieldsOf(v);
    var ms := TreeMembers(nfc, v, SortFields(v.fields)).value;
    var again := VObj(FieldsFrom(ms));
    FieldsStaySorted(nfc, v, ms);
    SortedFieldsOf(again);
    MembersAgain(nfc, v, SortFields(v.fields), again, FieldsFrom(ms));
  }

  lemma {:induction false} ItemsAgain(nfc: Nfc, items: seq<Value>)
    requires NfcSound(nfc) && TreeItems(nfc, items).Some? && forall i :: 0 <= i < |items| ==> KeysOnce(items[i])
    ensures TreeItems(nfc, ValuesOf(TreeItems(nfc, items).value)) == TreeItems(nfc, items)
    decreases items, 0, 0
  {
    if items != [] {
      TreeAgain(nfc, items[0]);
      ItemsAgain(nfc, items[1..]);
      var ts := TreeItems(nfc, items).value;
      assert ts[1..] == TreeItems(nfc, items[1..]).value;
      assert ValuesOf(ts)[1..] == ValuesOf(ts[1..]);
    }
  }

  lemma {:induction false} MembersAgain(nfc: Nfc, obj: Value, sorted: seq<Field>, again: Value,
                                        fields: seq<Field>)
    requires NfcSound(nfc) && KeysOnce(obj) && FieldsOf(obj, sorted) && FieldsOf(again, fields)
    requires TreeMembers(nfc, obj, sorted).Some? && fields == FieldsFrom(TreeMembers(nfc, obj, sorted).value)
    ensures TreeMembers(nfc, again, fields) == TreeMembers(nfc, obj, sorted)
    decreases obj, 0, |sorted|
  {
    if sorted != [] {
      FieldsOfTail(obj, sorted);
      var ms, tail := TreeMembers(nfc, obj, sorted).value, TreeMembers(nfc, obj, sorted[1..]).value;
      if sorted[0].value.Undefined? {
        MembersAgain(nfc, obj, sorted[1..], again, fields);
      } else {
        var k :| 0 <= k < |obj.fields| && obj.fields[k] == sorted[0];
        TreeAgain(nfc, sorted[0].value);
        assert ms[1..] == tail;
        FieldsOfTail(again, fields);
        MembersAgain(nfc, obj, sorted[1..], again, fields[1..]);
        NotUndefined(ms[0].value);
      }
    }
  }

  lemma NotUndefined(t: Json)
    ensures !ValueOf(t).Undefined?
  {}

  /** `canonicalJson(JSON.parse(canonicalJson(v)))` is `canonicalJson(v)`. */
  lemma CanonicalIsFixed(nfc: Nfc, v: Value)
    requires NfcSound(nfc) && KeysOnce(v) && JsCanonical(nfc, v).Some?
    ensures var text := JsCanonical(nfc, v).value;
            ParseText(false, text).Some? && JsCanonical(nfc, ValueOf(ParseText(false, text).value)) == Some(text)
  {
    CanonicalParsesBack(nfc, v, false);
    TreeAgain(nfc, v);
    PrintsTheTree(nfc, v);
    PrintsTheTree(nfc, ValueOf(TreeOf(nfc, v).value));
  }
}
