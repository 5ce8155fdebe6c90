/**
  Which bytes the guest takes for which request, without the functions that read them: strict JSON in UTF-8 of one
  document that has exactly the fields of the request, by name in any order or by position in the order of their
  declaration. The guest's reader looks fields up by name after it has compared the set of names; here a field is simply
  a member of the document, and counting shows that this is the same.
*/
module GuestRequests {
  import opened Canonicalizers
  import opened Framing
  import opened Json
  import opened Preimages
  import opened Recanonical
  import opened Requests
  import opened Texts
  import opened Wrappers

  /** An integer literal of 64 bits; serde_json reads `-0` as a floating-point number. */
  ghost predicate IsInt64(t: Json, n: int) {
    && t.Num? && t.lexeme != "-0"
    && (forall i :: 0 <= i < |t.lexeme| ==> t.lexeme[i] == '-' || '0' <= t.lexeme[i] <= '9')
    && n == LiteralValue(t.lexeme) && -9223372036854775808 <= n <= 9223372036854775807
  }

  /** The two fields of a message and no other, in any order, or both in the order of declaration. */
  ghost predicate IsMessage(t: Json, m: Message) {
    if t.Arr? then t.items == [Str(m.role), Str(m.content)]
    else
      && t.Obj? && |t.members| == 2
      && Member(Plain("role"), Str(m.role)) in t.members && Member(Plain("content"), Str(m.content)) in t.members
  }

  ghost predicate AreMessages(t: Json, ms: seq<Message>) {
    t.Arr? && |t.items| == |ms| && forall i :: 0 <= i < |ms| ==> IsMessage(t.items[i], ms[i])
  }

  /** The four fields of a request and no other, in any order, or all in the order of declaration. */
  ghost predicate IsRequest(t: Json, r: Request) {
    if t.Arr? then
      && |t.items| == 4 && t.items[0] == Str(r.model) && AreMessages(t.items[1], r.messages)
      && IsInt64(t.items[2], r.temperatureMillis) && IsInt64(t.items[3], r.maxTokens)
    else
      && t.Obj? && |t.members| == 4
      && Member(Plain("model"), Str(r.model)) in t.members
      && (exists v :: Member(Plain("messages"), v) in t.members && AreMessages(v, r.messages))
      && (exists v :: Member(Plain("temperature_millis"), v) in t.members && IsInt64(v, r.temperatureMillis))
      && (exists v :: Member(Plain("max_tokens"), v) in t.members && IsInt64(v, r.maxTokens))
  }

  // ------------------------------------------------------------ fields by name

  lemma {:induction false} NamedIsMember(members: seq<Member>, key: Text, v: Json)
    ensures Named(members, key) == Some(v) ==> Member(key, v) in members
    ensures Member(key, v) in members ==> Named(members, key).Some?
  {
    if members != [] {
      NamedIsMember(members[1..], key, v);
      assert members == [members[0]] + members[1..];
      assert members[0] == Member(members[0].key, members[0].value);
    }
  }

  ghost predicate KeysDiffer(members: seq<Member>) {
    forall i, j :: 0 <= i < j < |members| ==> members[i].key != members[j].key
  }

  /** With every key once, a member is what its name finds. */
  lemma NamedExactlyWhen(members: seq<Member>, key: Text, v: Json)
    requires KeysDiffer(members)
    ensures Named(members, key) == Some(v) <==> Member(key, v) in members
  {
    NamedIsMember(members, key, v);
    if Member(key, v) in members {
      var w := Named(members, key).value;
      NamedIsMember(members, key, w);
      var i :| 0 <= i < |members| && members[i] == Member(key, v);
      var j :| 0 <= j < |members| && members[j] == Member(key, w);
    }
  }

  ghost predicate HasKey(members: seq<Member>, key: Text) {
    exists i :: 0 <= i < |members| && members[i].key == key
  }

  ghost function KeySet(members: seq<Member>): set<Text> {
    set m <- members :: m.key
  }

  lemma InKeySet(members: seq<Member>, key: Text)
    ensures key in KeySet(members) <==> HasKey(members, key)
  {
    if key in KeySet(members) {
      var m :| m in members && m.key == key;
      var i :| 0 <= i < |members| && members[i] == m;
      assert members[i].key == key;
    }
    if i :| 0 <= i < |members| && members[i].key == key { assert members[i] in members; }
  }

  lemma LastKey(init: seq<Member>, last: Member)
    ensures KeySet(init + [last]) == KeySet(init) + {last.key}
    ensures KeysDiffer(init + [last]) <==> KeysDiffer(init) && !HasKey(init, last.key)
  {
    var all := init + [last];
    if KeysDiffer(all) {
      forall i, j | 0 <= i < j < |init| ensures init[i].key != init[j].key {
        assert all[i] == init[i] && all[j] == init[j];
      }
      forall i | 0 <= i < |init| ensures init[i].key != last.key {
        assert all[i] == init[i] && all[|init|] == last;
      }
    }
  }

  /** There are at most as many keys as members, and as many only if they differ. */
  lemma {:induction false} KeyCount(members: seq<Member>)
    ensures |KeySet(members)| <= |members| && (|KeySet(members)| == |members| <==> KeysDiffer(members))
  {
    if members != [] {
      var init, last := members[..|members| - 1], members[|members| - 1];
      assert members == init + [last];
      KeyCount(init);
      LastKey(init, last);
      InKeySet(init, last.key);
      CountWith(KeySet(init), last.key);
    }
  }

  lemma CountWith(keys: set<Text>, key: Text)
    ensures |keys + {key}| == if key in keys then |keys| else |keys| + 1
  {
    if key in keys { assert keys + {key} == keys; }
  }

  lemma {:induction false} SubsetCount(a: set<Text>, b: set<Text>)
    requires a <= b
    ensures |a| <= |b| && (|a| == |b| ==> a == b)
  {
    assert b == a + (b - a);
  }

  /** As many members as keys, and a member for each: every key stands there once. */
  lemma AllKeysOnce(members: seq<Member>, keys: set<Text>)
    requires |members| == |keys| && forall k <- keys :: HasKey(members, k)
    ensures HasFields(members, keys)
  {
    forall k | k in keys ensures k in KeySet(members) { InKeySet(members, k); }
    SubsetCount(keys, KeySet(members));
    KeyCount(members);
  }

  lemma KeySizes()
    ensures |MESSAGE_KEYS| == 2 && |REQUEST_KEYS| == 4
  {
    var a, b := Plain("role"), Plain("content");
    var c, d, e, f := Plain("model"), Plain("messages"), Plain("temperature_millis"), Plain("max_tokens");
    assert |a.s| == 4 && |b.s| == 7 && |c.s| == 5 && |d.s| == 8 && |e.s| == 18 && |f.s| == 10;
    assert MESSAGE_KEYS == {a, b} && REQUEST_KEYS == {c, d, e, f};
  }

  lemma KeyOfMember(members: seq<Member>, key: Text, v: Json)
    requires Member(key, v) in members
    ensures HasKey(members, key)
  {}

  // ------------------------------------------------------------ reading

  lemma ReadMessageExactlyWhen(t: Json, m: Message)
    ensures ReadMessage(t) == Some(m) <==> IsMessage(t, m)
  {
    match t
    case Arr(items) =>
      if IsMessage(t, m) { assert items[0] == Str(m.role) && items[1] == Str(m.content); }
      if ReadMessage(t) == Some(m) { assert items == [items[0], items[1]]; }
    case Obj(members) => MessageMembers(members, m);
    case _ =>
  }

  lemma MessageHasKeys(members: seq<Member>, m: Message)
    requires IsMessage(Obj(members), m)
    ensures HasFields(members, MESSAGE_KEYS)
  {
    KeyOfMember(members, Plain("role"), Str(m.role));
    KeyOfMember(members, Plain("content"), Str(m.content));
    KeySizes();
    AllKeysOnce(members, MESSAGE_KEYS);
  }

  lemma MessageMembers(members: seq<Member>, m: Message)
    ensures ReadMessage(Obj(members)) == Some(m) <==> IsMessage(Obj(members), m)
  {
    if HasFields(members, MESSAGE_KEYS) {
      KeyCount(members);
      KeySizes();
      assert KeySet(members) == MESSAGE_KEYS;
      NamedExactlyWhen(members, Plain("role"), Str(m.role));
      NamedExactlyWhen(members, Plain("content"), Str(m.content));
    } else if IsMessage(Obj(members), m) {
      MessageHasKeys(members, m);
    }
  }

  lemma {:induction false} ReadMessagesExactlyWhen(items: seq<Json>, ms: seq<Message>)
    ensures ReadMessages(items) == Some(ms) <==> AreMessages(Arr(items), ms)
  {
    if items == [] || ms == [] {
    } else {
      ReadMessageExactlyWhen(items[0], ms[0]);
      ReadMessagesExactlyWhen(items[1..], ms[1..]);
      assert ms == [ms[0]] + ms[1..];
      if AreMessages(Arr(items), ms) {
        forall i | 0 <= i < |ms[1..]| ensures IsMessage(items[1..][i], ms[1..][i]) {
          assert items[1..][i] == items[i + 1] && ms[1..][i] == ms[i + 1];
        }
      }
      if AreMessages(Arr(items[1..]), ms[1..]) && IsMessage(items[0], ms[0]) {
        forall i | 0 <= i < |ms| ensures IsMessage(items[i], ms[i]) {
          if i > 0 { assert items[1..][i - 1] == items[i] && ms[1..][i - 1] == ms[i]; }
        }
      }
    }
  }

  lemma ReadIntegerExactlyWhen(t: Json, n: int)
    ensures ReadInteger(Some(t)) == Some(n) <==> IsInt64(t, n)
  {}

  lemma ReadFieldsExactlyWhen(model: Json, messages: Json, temperature: Json, maxTokens: Json, r: Request)
    ensures ReadFields(Some(model), Some(messages), Some(temperature), Some(maxTokens)) == Some(r)
       <==> model == Str(r.model) && AreMessages(messages, r.messages) && IsInt64(temperature, r.temperatureMillis)
            && IsInt64(maxTokens, r.maxTokens)
  {
    ReadIntegerExactlyWhen(temperature, r.temperatureMillis);
    ReadIntegerExactlyWhen(maxTokens, r.maxTokens);
    if messages.Arr? { ReadMessagesExactlyWhen(messages.items, r.messages); }
  }

  lemma RequestHasKeys(members: seq<Member>, r: Request)
    requires IsRequest(Obj(members), r)
    ensures HasFields(members, REQUEST_KEYS)
  {
    KeyOfMember(members, Plain("model"), Str(r.model));
    var v :| Member(Plain("messages"), v) in members && AreMessages(v, r.messages);
    KeyOfMember(members, Plain("messages"), v);
    var w :| Member(Plain("temperature_millis"), w) in members && IsInt64(w, r.temperatureMillis);
    KeyOfMember(members, Plain("temperature_millis"), w);
    var x :| Member(Plain("max_tokens"), x) in members && IsInt64(x, r.maxTokens);
    KeyOfMember(members, Plain("max_tokens"), x);
    KeySizes();
    AllKeysOnce(members, REQUEST_KEYS);
  }

  /** A field that is there once. */
  lemma FieldOf(members: seq<Member>, key: Text) returns (v: Json)
    requires HasFields(members, REQUEST_KEYS) && key in REQUEST_KEYS
    ensures Named(members, key) == Some(v)
    ensures forall w :: Member(key, w) in members <==> w == v
  {
    var m :| m in members && m.key == key;
    v := m.value;
    assert m == Member(key, v);
    NamedExactlyWhen(members, key, v);
    forall w ensures Member(key, w) in members <==> w == v {
      NamedExactlyWhen(members, key, w);
    }
  }

  lemma RequestMembers(members: seq<Member>, r: Request)
    requires HasFields(members, REQUEST_KEYS)
    ensures ReadRequest(Obj(members)) == Some(r) <==> IsRequest(Obj(members), r)
  {
    KeyCount(members);
    KeySizes();
    assert KeySet(members) == REQUEST_KEYS;
    var model := FieldOf(members, Plain("model"));
    var messages := FieldOf(members, Plain("messages"));
    var temperature := FieldOf(members, Plain("temperature_millis"));
    var maxTokens := FieldOf(members, Plain("max_tokens"));
    ReadFieldsExactlyWhen(model, messages, temperature, maxTokens, r);
  }

  lemma ReadRequestExactlyWhen(t: Json, r: Request)
    ensures ReadRequest(t) == Some(r) <==> IsRequest(t, r)
  {
    match t
    case Arr(items) =>
      if |items| == 4 { ReadFieldsExactlyWhen(items[0], items[1], items[2], items[3], r); }
    case Obj(members) =>
      if HasFields(members, REQUEST_KEYS) {
        RequestMembers(members, r);
      } else if IsRequest(t, r) {
        RequestHasKeys(members, r);
      }
    case _ =>
  }

  ghost predicate RolesAreKnown(r: Request) {
    forall i :: 0 <= i < |r.messages| ==> r.messages[i].role in {Plain("system"), Plain("user"), Plain("assistant")}
  }

  /** The bytes are a strict JSON text, in UTF-8, of a document of the request. */
  ghost predicate Spelled(bytes: Bytes, r: Request) {
    exists s :: bytes == Utf8Of(s) && ParseText(true, s).Some? && IsRequest(ParseText(true, s).value, r)
  }

  lemma SpelledExactlyWhen(bytes: Bytes, r: Request)
    ensures Spelled(bytes, r)
       <==> Utf8Decode(bytes).Some? && ParseText(true, Utf8Decode(bytes).value).Some?
            && ReadRequest(ParseText(true, Utf8Decode(bytes).value).value) == Some(r)
  {
    if s :| bytes == Utf8Of(s) && ParseText(true, s).Some? && IsRequest(ParseText(true, s).value, r) {
      Utf8DecodesExactlyWhen(bytes, s);
      ReadRequestExactlyWhen(ParseText(true, s).value, r);
    }
    if Utf8Decode(bytes).Some? && ParseText(true, Utf8Decode(bytes).value).Some? {
      Utf8DecodesExactlyWhen(bytes, Utf8Decode(bytes).value);
      ReadRequestExactlyWhen(ParseText(true, Utf8Decode(bytes).value).value, r);
    }
  }

  /**
    The guest takes bytes for a request if and only if they spell it, with messages, all of the three roles; it names a
    missing message or an unknown role only where that is all that is wrong.
  */
  lemma GuestAcceptsExactlyWhen(bytes: Bytes, r: Request)
    ensures FromJsonBytes(bytes) == Ok(r) <==> Spelled(bytes, r) && r.messages != [] && RolesAreKnown(r)
    ensures FromJsonBytes(bytes) == Err(RequestHasNoMessages) <==> exists q :: Spelled(bytes, q) && q.messages == []
    ensures FromJsonBytes(bytes) == Err(RequestRoleNotCanonical)
       <==> exists q :: Spelled(bytes, q) && q.messages != [] && !RolesAreKnown(q)
    ensures forall q :: Spelled(bytes, q) && Spelled(bytes, r) ==> q == r
  {
    forall q ensures Spelled(bytes, q) <==>
        Utf8Decode(bytes).Some? && ParseText(true, Utf8Decode(bytes).value).Some?
        && ReadRequest(ParseText(true, Utf8Decode(bytes).value).value) == Some(q) {
      SpelledExactlyWhen(bytes, q);
    }
    forall q: Request
      ensures RolesAreKnown(q) <==> !exists i :: 0 <= i < |q.messages| && !IsRole(q.messages[i].role) {}
  }
}
