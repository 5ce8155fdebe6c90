/**
  What canonical text says of a value, without the canonicalizers: which document it is of, that a value has at most one
  such document, and that it is canonicalized exactly when it has one. With the results of `Shortest` this gives
  canonical text a meaning of its own: it is the shortest JSON text of the only document of its value, and that document
  has its strings composed, its integers in decimal, and its fields once each in the order of their keys.
*/
module CanonicalMeaning {
  import opened Canonical
  import opened Canonicalizers
  import opened Json
  import opened Recanonical
  import opened Shortest
  import opened Texts
  import opened Wrappers

  ghost function MemberKeys(members: seq<Member>): (keys: seq<Text>)
    ensures |keys| == |members|
  {
    seq(|members|, i requires 0 <= i < |members| => members[i].key)
  }

  /**
    The document is one of the value: strings composed, integers of 53 bits in decimal, undefined fields left out, and
    the rest of the fields once each in the order of their keys.
  */
  ghost predicate StandsFor(nfc: Nfc, v: Value, t: Json)
    decreases v, 2
  {
    match v
    case Undefined => false
    case Unsupported => false
    case VNull => t == Null
    case VBool(b) => t == Bool(b)
    case VInt(n) => IsInteger(n, t)
    case VReal(asInteger) => asInteger.Some? && IsInteger(asInteger.value, t)
    case VStr(s) => t == Str(nfc(s))
    case VArr(items) =>
      t.Arr? && |t.items| == |items| && forall i :: 0 <= i < |items| ==> StandsFor(nfc, items[i], t.items[i])
    case VObj(fields) =>
      && t.Obj? && Ascending(MemberKeys(t.members))
      && (forall i :: 0 <= i < |t.members| ==> HasField(nfc, v, t.members[i]))
      && (forall k :: 0 <= k < |fields| && !fields[k].value.Undefined? ==> fields[k].key in MemberKeys(t.members))
  }

  /** The member is of the `k`-th field. */
  ghost predicate FieldStands(nfc: Nfc, obj: Value, m: Member, k: nat)
    requires obj.VObj?
    decreases obj, 0
  {
    k < |obj.fields| && obj.fields[k].key == m.key && StandsFor(nfc, obj.fields[k].value, m.value)
  }

  ghost predicate HasField(nfc: Nfc, obj: Value, m: Member)
    requires obj.VObj?
    decreases obj, 1
  {
    exists k: nat :: FieldStands(nfc, obj, m, k)
  }

  ghost predicate IsInteger(n: int, t: Json) {
    -9007199254740991 <= n <= 9007199254740991 && t == Num(IntToString(n))
  }

  // ------------------------------------------------------------ there is at most one

  lemma FieldOfMember(nfc: Nfc, v: Value, t: Json, i: nat) returns (k: nat)
    requires v.VObj? && StandsFor(nfc, v, t) && i < |t.members|
    ensures FieldStands(nfc, v, t.members[i], k) && !v.fields[k].value.Undefined?
  {
    assert HasField(nfc, v, t.members[i]);
    var j: nat :| FieldStands(nfc, v, t.members[i], j);
    k := j;
    assert !StandsFor(nfc, Undefined, t.members[i].value);
  }

  lemma SameMemberKeys(nfc: Nfc, v: Value, a: Json, b: Json, key: Text)
    requires v.VObj? && StandsFor(nfc, v, a) && StandsFor(nfc, v, b) && key in MemberKeys(a.members)
    ensures key in MemberKeys(b.members)
  {
    var i :| 0 <= i < |a.members| && MemberKeys(a.members)[i] == key;
    var k := FieldOfMember(nfc, v, a, i);
  }

  lemma {:induction false} StandsForOne(nfc: Nfc, v: Value, a: Json, b: Json)
    requires KeysOnce(v) && StandsFor(nfc, v, a) && StandsFor(nfc, v, b)
    ensures a == b
    decreases v
  {
    match v
    case VArr(items) =>
      forall i | 0 <= i < |items| ensures a.items[i] == b.items[i] {
        StandsForOne(nfc, items[i], a.items[i], b.items[i]);
      }
      assert a.items == b.items;
    case VObj(fields) =>
      forall key ensures key in MemberKeys(a.members) <==> key in MemberKeys(b.members) {
        if key in MemberKeys(a.members) { SameMemberKeys(nfc, v, a, b, key); }
        if key in MemberKeys(b.members) { SameMemberKeys(nfc, v, b, a, key); }
      }
      AscendingUnique(MemberKeys(a.members), MemberKeys(b.members));
      forall i | 0 <= i < |a.members| ensures a.members[i] == b.members[i] {
        assert MemberKeys(a.members)[i] == MemberKeys(b.members)[i];
        var k := FieldOfMember(nfc, v, a, i);
        var j := FieldOfMember(nfc, v, b, i);
        assert k == j;
        StandsForOne(nfc, fields[k].value, a.members[i].value, b.members[i].value);
      }
      assert a.members == b.members;
    case _ =>
  }

  // ------------------------------------------------------------ it is the one that is printed

  lemma {:induction false} TreeStands(nfc: Nfc, v: Value)
    requires KeysOnce(v) && TreeOf(nfc, v).Some?
    ensures StandsFor(nfc, v, TreeOf(nfc, v).value)
    decreases v, 1, 0
  {
    match v
    case VArr(items) => ItemsStand(nfc, items);
    case VObj(_) => ObjectStands(nfc, v);
    case _ =>
  }

  lemma {:induction false} ItemsStand(nfc: Nfc, items: seq<Value>)
    requires TreeItems(nfc, items).Some? && forall i :: 0 <= i < |items| ==> KeysOnce(items[i])
    ensures var ts := TreeItems(nfc, items).value;
            |ts| == |items| && forall i :: 0 <= i < |ts| ==> StandsFor(nfc, items[i], ts[i])
    decreases items, 0, 0
  {
    if items != [] {
      TreeStands(nfc, items[0]);
      ItemsStand(nfc, items[1..]);
      var ts := TreeItems(nfc, items).value;
      assert ts[1..] == TreeItems(nfc, items[1..]).value;
      forall i | 0 < i < |ts| ensures StandsFor(nfc, items[i], ts[i]) {
        assert items[i] == items[1..][i - 1] && ts[i] == ts[1..][i - 1];
      }
    }
  }

  /** Each member is of some field. */
  ghost predicate AllOfFields(nfc: Nfc, obj: Value, ms: seq<Member>)
    requires obj.VObj?
  {
    forall i :: 0 <= i < |ms| ==> HasField(nfc, obj, ms[i])
  }

  lemma ConsOfFields(nfc: Nfc, obj: Value, m: Member, ms: seq<Member>, k: nat)
    requires obj.VObj? && FieldStands(nfc, obj, m, k) && AllOfFields(nfc, obj, ms)
    ensures AllOfFields(nfc, obj, [m] + ms)
    ensures MemberKeys([m] + ms) == [m.key] + MemberKeys(ms)
  {
    var all := [m] + ms;
    assert HasField(nfc, obj, m);
    forall i | 0 <= i < |all| ensures HasField(nfc, obj, all[i]) {
      assert all[i] == if i == 0 then m else ms[i - 1];
    }
  }

  lemma {:induction false} MembersStand(nfc: Nfc, obj: Value, sorted: seq<Field>)
    requires KeysOnce(obj) && FieldsOf(obj, sorted) && TreeMembers(nfc, obj, sorted).Some?
    ensures var ms := TreeMembers(nfc, obj, sorted).value;
            && AllOfFields(nfc, obj, ms)
            && (forall f <- sorted :: !f.value.Undefined? ==> f.key in MemberKeys(ms))
    decreases obj, 0, |sorted|
  {
    if sorted != [] {
      FieldsOfTail(obj, sorted);
      MembersStand(nfc, obj, sorted[1..]);
      var tail := TreeMembers(nfc, obj, sorted[1..]).value;
      assert sorted == [sorted[0]] + sorted[1..];
      if !sorted[0].value.Undefined? {
        var k :| 0 <= k < |obj.fields| && obj.fields[k] == sorted[0];
        TreeStands(nfc, sorted[0].value);
        ConsOfFields(nfc, obj, Member(sorted[0].key, TreeOf(nfc, sorted[0].value).value), tail, k);
      }
    }
  }

  lemma StandsIf(nfc: Nfc, v: Value, ms: seq<Member>)
    requires v.VObj? && AllOfFields(nfc, v, ms)
    requires forall i, j :: 0 <= i < j < |ms| ==> KeyLess(ms[i].key, ms[j].key)
    requires forall f <- v.fields :: !f.value.Undefined? ==> f.key in MemberKeys(ms)
    ensures StandsFor(nfc, v, Obj(ms))
  {}

  lemma {:induction false} ObjectStands(nfc: Nfc, v: Value)
    requires v.VObj? && KeysOnce(v) && TreeOf(nfc, v).Some?
    ensures StandsFor(nfc, v, TreeOf(nfc, v).value)
    decreases v, 0, |v.fields| + 1
  {
    SortedFieldsOf(v);
    SortKeepsFields(v.fields);
    SortAscends(v.fields);
    MembersStand(nfc, v, SortFields(v.fields));
    KeysOfTree(nfc, v, SortFields(v.fields));
    StandsIf(nfc, v, TreeMembers(nfc, v, SortFields(v.fields)).value);
  }

  // ------------------------------------------------------------ a value that has one is accepted

  lemma {:induction false} StandsIsAccepted(nfc: Nfc, v: Value, t: Json)
    requires KeysOnce(v) && StandsFor(nfc, v, t)
    ensures TreeOf(nfc, v).Some?
    decreases v, 1, 0
  {
    match v
    case VArr(items) => ItemsAccepted(nfc, items, t.items);
    case VObj(fields) =>
      SortedFieldsOf(v);
      MembersAccepted(nfc, v, SortFields(fields), t);
    case _ =>
  }

  lemma {:induction false} ItemsAccepted(nfc: Nfc, items: seq<Value>, ts: seq<Json>)
    requires |ts| == |items|
    requires forall i :: 0 <= i < |items| ==> KeysOnce(items[i]) && StandsFor(nfc, items[i], ts[i])
    ensures TreeItems(nfc, items).Some?
    decreases items, 0, 0
  {
    if items != [] {
      StandsIsAccepted(nfc, items[0], ts[0]);
      forall i | 0 <= i < |items[1..]| ensures KeysOnce(items[1..][i]) && StandsFor(nfc, items[1..][i], ts[1..][i]) {
        assert items[1..][i] == items[i + 1] && ts[1..][i] == ts[i + 1];
      }
      ItemsAccepted(nfc, items[1..], ts[1..]);
    }
  }

  /** The member of a field that is not left out. */
  lemma MemberOfField(nfc: Nfc, v: Value, t: Json, f: Field) returns (i: nat)
    requires v.VObj? && KeysOnce(v) && StandsFor(nfc, v, t) && f in v.fields && !f.value.Undefined?
    ensures i < |t.members| && StandsFor(nfc, f.value, t.members[i].value)
  {
    var k :| 0 <= k < |v.fields| && v.fields[k] == f;
    assert f.key in MemberKeys(t.members);
    var j :| 0 <= j < |t.members| && MemberKeys(t.members)[j] == f.key;
    var k' := FieldOfMember(nfc, v, t, j);
    assert k == k';
    i := j;
  }

  lemma {:induction false} MembersAccepted(nfc: Nfc, v: Value, sorted: seq<Field>, t: Json)
    requires KeysOnce(v) && FieldsOf(v, sorted) && StandsFor(nfc, v, t)
    ensures TreeMembers(nfc, v, sorted).Some?
    decreases v, 0, |sorted|
  {
    if sorted != [] {
      FieldsOfTail(v, sorted);
      MembersAccepted(nfc, v, sorted[1..], t);
      if !sorted[0].value.Undefined? {
        var i := MemberOfField(nfc, v, t, sorted[0]);
        var k :| 0 <= k < |v.fields| && v.fields[k] == sorted[0];
        StandsIsAccepted(nfc, sorted[0].value, t.members[i].value);
      }
    }
  }

  /** A value is canonicalized exactly when it stands for a document, to the text of the only one it stands for. */
  lemma CanonicalExactlyWhen(nfc: Nfc, v: Value, text: string)
    requires KeysOnce(v)
    ensures JsCanonical(nfc, v) == Some(text) <==> exists t :: StandsFor(nfc, v, t) && text == Print(t)
    ensures forall a, b :: StandsFor(nfc, v, a) && StandsFor(nfc, v, b) ==> a == b
  {
    PrintsTheTree(nfc, v);
    if TreeOf(nfc, v).Some? { TreeStands(nfc, v); }
    forall a, b | StandsFor(nfc, v, a) && StandsFor(nfc, v, b) ensures a == b {
      StandsForOne(nfc, v, a, b);
    }
    if t :| StandsFor(nfc, v, t) && text == Print(t) {
      StandsIsAccepted(nfc, v, t);
    }
  }

  /**
    Canonical text is the shortest JSON text of its value: whatever else parses to a document of the value is longer, or
    writes hex digits in upper case.
  */
  lemma CanonicalTextIsShortest(nfc: Nfc, v: Value, text: string, strict: bool, s: string)
    requires KeysOnce(v) && JsCanonical(nfc, v) == Some(text)
    requires ParseText(strict, s).Some? && StandsFor(nfc, v, ParseText(strict, s).value)
    ensures |text| <= |s|
    ensures |text| == |s| ==> forall k :: 0 <= k < |s| ==> SameButForCase(s[k], text[k])
  {
    CanonicalExactlyWhen(nfc, v, text);
    CanonicalIsShortest(strict, s, ParseText(strict, s).value);
  }
}
