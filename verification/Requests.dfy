/**
  Canonical requests: `toCanonicalRequest` of packages/protocol/src/canonical.ts builds and prints them, the
  guest's `from_json_bytes` of prover/policy-core/src/input.rs reads them. Both ends are modelled with their
  error cases, and related through the document that the canonical text stands for: the guest looks fields up
  by name, so the order in which they were printed does not matter to it.
*/
module Requests {
  import opened Canonical
  import opened Canonicalizers
  import opened Encoding
  import opened Framing
  import opened Json
  import opened Preimages
  import opened Recanonical
  import opened Texts
  import opened Wrappers

  datatype Message = Message(role: Text, content: Text)

  datatype Request = CanonicalRequest(model: Text, messages: seq<Message>, temperatureMillis: int, maxTokens: int)

  /** A number given where a safe integer is asked for. */
  datatype Number = Integer(n: int) | NoInteger

  /** A message as given; absent content is one that is not a string. */
  datatype Given = Given(role: Text, content: Option<Text>)

  /** A temperature given: what is no number, infinite or NaN is all refused alike. */
  datatype Temperature = Finite(t: real) | NoTemperature

  /** A request as given: absent model or messages are ones of another type. */
  datatype Input = Input(
    model: Option<Text>, messages: Option<seq<Given>>, temperature: Option<Temperature>,
    temperatureMillis: Option<Number>, maxTokens: Option<Number>)

  datatype Refusal =
    | NotAString | ModelRequired | MessagesRequired | RoleInvalid | NotAnInteger | TemperatureOutOfRange
      | MaxTokensOutOfRange

  predicate IsRole(role: Text) {
    role == Plain("system") || role == Plain("user") || role == Plain("assistant")
  }

  function ToMessages(nfc: Nfc, given: seq<Given>): Result<seq<Message>, Refusal> {
    if given == [] then Ok([])
    else if !IsRole(given[0].role) then Err(RoleInvalid)
    else if given[0].content.None? then Err(NotAString)
    else
      match ToMessages(nfc, given[1..])
      case Err(e) => Err(e)
      case Ok(rest) => Ok([Message(given[0].role, nfc(given[0].content.value))] + rest)
  }

  /** `Math.round`: to the nearest integer, halves upward. */
  function Round(x: real): int {
    (x + 0.5).Floor
  }

  function ToTemperature(input: Input): Result<int, Refusal> {
    match input.temperatureMillis
    case Some(Integer(n)) => if IsSafe(n) then Ok(n) else Err(NotAnInteger)
    case Some(NoInteger) => Err(NotAnInteger)
    case None =>
      match input.temperature
      case Some(Finite(t)) => if 0.0 <= t <= 2.0 then Ok(Round(t * 1000.0)) else Err(TemperatureOutOfRange)
      case Some(NoTemperature) => Err(TemperatureOutOfRange)
      case None => Ok(1000)
  }

  function ToMaxTokens(input: Input): Result<int, Refusal> {
    match input.maxTokens
    case None => Ok(1024)
    case Some(Integer(n)) => if IsSafe(n) then Ok(n) else Err(NotAnInteger)
    case Some(NoInteger) => Err(NotAnInteger)
  }

  function ToCanonicalRequest(nfc: Nfc, input: Input): Result<Request, Refusal> {
    if input.model.None? then Err(NotAString)
    else if nfc(input.model.value) == Plain("") then Err(ModelRequired)
    else if input.messages.None? || input.messages.value == [] then Err(MessagesRequired)
    else
      match ToMessages(nfc, input.messages.value)
      case Err(e) => Err(e)
      case Ok(messages) =>
        match ToTemperature(input)
        case Err(e) => Err(e)
        case Ok(t) =>
          if !(0 <= t <= 2000) then Err(TemperatureOutOfRange)
          else
            match ToMaxTokens(input)
            case Err(e) => Err(e)
            case Ok(n) => if 1 <= n <= 128000 then Ok(CanonicalRequest(nfc(input.model.value), messages, t, n))
              else Err(MaxTokensOutOfRange)
  }

  predicate GivenWell(m: Given) {
    IsRole(m.role) && m.content.Some?
  }

  lemma {:induction false} MessagesAcceptedExactlyWhen(nfc: Nfc, given: seq<Given>)
    ensures ToMessages(nfc, given).Ok? <==> forall i :: 0 <= i < |given| ==> GivenWell(given[i])
  {
    if given != [] {
      MessagesAcceptedExactlyWhen(nfc, given[1..]);
      assert given == [given[0]] + given[1..];
    }
  }

  /** An optional integer parameter with its default and range. */
  predicate InRange(given: Option<Number>, low: int, high: int) {
    given.Some? ==> given.value.Integer? && low <= given.value.n <= high
  }

  predicate TemperatureInRange(given: Option<Temperature>) {
    given.Some? ==> given.value.Finite? && 0.0 <= given.value.t <= 2.0
  }

  /** A request is accepted exactly when it has a model, messages of the three roles with text, and numbers in range. */
  lemma AcceptedExactlyWhen(nfc: Nfc, input: Input)
    ensures ToCanonicalRequest(nfc, input).Ok? <==>
      && input.model.Some? && nfc(input.model.value) != Plain("")
      && input.messages.Some? && input.messages.value != []
      && (forall i :: 0 <= i < |input.messages.value| ==>
            var m := input.messages.value[i];
            m.content.Some? && m.role in {Plain("system"), Plain("user"), Plain("assistant")})
      && InRange(input.temperatureMillis, 0, 2000)
      && (input.temperatureMillis.None? ==> TemperatureInRange(input.temperature))
      && InRange(input.maxTokens, 1, 128000)
  {
    if input.messages.Some? {
      MessagesAcceptedExactlyWhen(nfc, input.messages.value);
      forall i | 0 <= i < |input.messages.value|
        ensures var m := input.messages.value[i];
                GivenWell(m) <==> m.content.Some? && m.role in {Plain("system"), Plain("user"), Plain("assistant")} {}
    }
  }

  lemma {:induction false} MessagesAre(nfc: Nfc, given: seq<Given>)
    requires ToMessages(nfc, given).Ok?
    ensures var ms := ToMessages(nfc, given).value;
            && |ms| == |given|
            && forall i :: 0 <= i < |ms| ==>
                 given[i].content.Some? && ms[i] == Message(given[i].role, nfc(given[i].content.value))
  {
    if given != [] {
      MessagesAre(nfc, given[1..]);
      var ms := ToMessages(nfc, given).value;
      assert ms[1..] == ToMessages(nfc, given[1..]).value;
      forall i | 0 < i < |ms|
        ensures given[i].content.Some? && ms[i] == Message(given[i].role, nfc(given[i].content.value)) {
        assert ms[i] == ms[1..][i - 1] && given[i] == given[1..][i - 1];
      }
    }
  }

  /**
    What is accepted is what was given: the messages in their order, texts composed, a temperature within half a
    thousandth of the one given, and integers as they are.
  */
  lemma AcceptedIsWhatWasGiven(nfc: Nfc, input: Input)
    requires ToCanonicalRequest(nfc, input).Ok?
    ensures var r := ToCanonicalRequest(nfc, input).value;
            && input.model.Some? && r.model == nfc(input.model.value)
            && input.messages.Some? && |r.messages| == |input.messages.value|
            && (forall i :: 0 <= i < |r.messages| ==>
                  var given := input.messages.value[i];
                  given.content.Some? && r.messages[i] == Message(given.role, nfc(given.content.value)))
            && (input.temperatureMillis.Some? ==> input.temperatureMillis == Some(Integer(r.temperatureMillis)))
            && (input.temperatureMillis.None? && input.temperature.Some? ==>
                  input.temperature.value.Finite?
                  && r.temperatureMillis as real - 0.5 <= input.temperature.value.t * 1000.0
                  && input.temperature.value.t * 1000.0 < r.temperatureMillis as real + 0.5)
            && (input.maxTokens.Some? ==> input.maxTokens == Some(Integer(r.maxTokens)))
  {
    MessagesAre(nfc, input.messages.value);
  }

  /** Leaving a number out is giving its default: a temperature of 1, in either unit, and 1024 tokens. */
  lemma LeftOutIsDefault(nfc: Nfc, input: Input)
    ensures input.temperatureMillis.None? && input.temperature.None? ==>
              && ToCanonicalRequest(nfc, input) == ToCanonicalRequest(nfc, input.(temperature := Some(Finite(1.0))))
              && ToCanonicalRequest(nfc, input)
                 == ToCanonicalRequest(nfc, input.(temperatureMillis := Some(Integer(1000))))
    ensures input.maxTokens.None? ==>
              ToCanonicalRequest(nfc, input) == ToCanonicalRequest(nfc, input.(maxTokens := Some(Integer(1024))))
  {
    assert Round(1.0 * 1000.0) == 1000;
  }

  // ------------------------------------------------------------ an accepted request is its own canonical form

  function GivenFrom(messages: seq<Message>): seq<Given> {
    if messages == [] then [] else [Given(messages[0].role, Some(messages[0].content))] + GivenFrom(messages[1..])
  }

  /** A canonical request, given again. */
  function InputFrom(r: Request): Input {
    Input(Some(r.model), Some(GivenFrom(r.messages)), None, Some(Integer(r.temperatureMillis)),
          Some(Integer(r.maxTokens)))
  }

  /** The same request with its temperature as the providers are sent it. */
  function InputByTemperature(r: Request): Input {
    InputFrom(r).(temperatureMillis := None, temperature := Some(Finite(r.temperatureMillis as real / 1000.0)))
  }

  lemma MillisReadBack(n: int)
    requires 0 <= n <= 2000
    ensures var t := n as real / 1000.0; 0.0 <= t <= 2.0 && Round(t * 1000.0) == n
  {}

  lemma {:induction false} MessagesAgain(nfc: Nfc, given: seq<Given>)
    requires NfcSound(nfc) && ToMessages(nfc, given).Ok?
    ensures var ms := ToMessages(nfc, given).value;
            && |ms| == |given| && ToMessages(nfc, GivenFrom(ms)) == Ok(ms) && |GivenFrom(ms)| == |ms|
            && forall i :: 0 <= i < |ms| ==> IsRole(ms[i].role) && nfc(ms[i].content) == ms[i].content
  {
    if given != [] {
      MessagesAgain(nfc, given[1..]);
      var ms := ToMessages(nfc, given).value;
      assert ms[1..] == ToMessages(nfc, given[1..]).value;
      assert GivenFrom(ms)[1..] == GivenFrom(ms[1..]);
    }
  }

  /** What `toCanonicalRequest` accepts, it returns unchanged when given it again, its temperature in either unit. */
  lemma AcceptedIsCanonical(nfc: Nfc, input: Input)
    requires NfcSound(nfc) && ToCanonicalRequest(nfc, input).Ok?
    ensures ToCanonicalRequest(nfc, InputFrom(ToCanonicalRequest(nfc, input).value)) == ToCanonicalRequest(nfc, input)
    ensures ToCanonicalRequest(nfc, InputByTemperature(ToCanonicalRequest(nfc, input).value))
            == ToCanonicalRequest(nfc, input)
    ensures Accepted(nfc, ToCanonicalRequest(nfc, input).value)
  {
    MessagesAgain(nfc, input.messages.value);
    MillisReadBack(ToCanonicalRequest(nfc, input).value.temperatureMillis);
  }

  /** What a canonical request is. */
  ghost predicate Accepted(nfc: Nfc, r: Request) {
    && r.model != Plain("") && nfc(r.model) == r.model
    && r.messages != []
      && (forall i :: 0 <= i < |r.messages| ==>
        IsRole(r.messages[i].role) && nfc(r.messages[i].content) == r.messages[i].content)
    && 0 <= r.temperatureMillis <= 2000 && 1 <= r.maxTokens <= 128000
  }

  // ------------------------------------------------------------ printing

  function MessageValue(m: Message): Value {
    VObj([Field(Plain("role"), VStr(m.role)), Field(Plain("content"), VStr(m.content))])
  }

  function MessageValues(messages: seq<Message>): (r: seq<Value>)
    ensures |r| == |messages|
  {
    if messages == [] then [] else [MessageValue(messages[0])] + MessageValues(messages[1..])
  }

  function RequestFields(r: Request): seq<Field> {
    [Field(Plain("model"), VStr(r.model)), Field(Plain("messages"), VArr(MessageValues(r.messages))),
     Field(Plain("temperature_millis"), VInt(r.temperatureMillis)), Field(Plain("max_tokens"), VInt(r.maxTokens))]
  }

  /** `canonicalBytes`. */
  function CanonicalBytes(nfc: Nfc, r: Request): Option<Bytes> {
    match JsCanonical(nfc, VObj(RequestFields(r)))
    case None => None
    case Some(text) => Some(Utf8Of(text))
  }

  // ------------------------------------------------------------ reading in the guest

  datatype GuestRejection = RequestDoesNotParse | RequestHasNoMessages | RequestRoleNotCanonical

  const MESSAGE_KEYS: set<Text> := {Plain("role"), Plain("content")}
  const REQUEST_KEYS: set<Text> := {Plain("model"), Plain("messages"), Plain("temperature_millis"), Plain("max_tokens")}

  /** A struct's fields: serde refuses unknown, missing and repeated ones. */
  predicate HasFields(members: seq<Member>, keys: set<Text>) {
    (set m <- members :: m.key) == keys && forall i, j :: 0 <= i < j < |members| ==> members[i].key != members[j].key
  }

  function Named(members: seq<Member>, key: Text): Option<Json> {
    if members == [] then None else if members[0].key == key then Some(members[0].value) else Named(members[1..], key)
  }

  function ReadString(t: Option<Json>): Option<Text> {
    match t
    case Some(Str(s)) => Some(s)
    case _ => None
  }

  /** An `i64`: an integer literal in range; serde_json reads `-0` as a floating-point number. */
  function ReadInteger(t: Option<Json>): Option<int> {
    match t
    case Some(Num(lexeme)) =>
      (match NumberOf(lexeme)
       case VInt(n) => if lexeme != "-0" && -0x8000_0000_0000_0000 <= n < 0x8000_0000_0000_0000 then Some(n) else None
       case _ => None)
    case _ => None
  }

  /** A struct is an object with its fields in any order, or an array of them in the order of their declaration. */
  function ReadMessage(t: Json): Option<Message> {
    match t
    case Arr(items) =>
      if |items| != 2 then None
      else
        (match (ReadString(Some(items[0])), ReadString(Some(items[1])))
         case (Some(role), Some(content)) => Some(Message(role, content))
         case _ => None)
    case Obj(members) =>
      if !HasFields(members, MESSAGE_KEYS) then None
      else
        (match (ReadString(Named(members, Plain("role"))), ReadString(Named(members, Plain("content"))))
         case (Some(role), Some(content)) => Some(Message(role, content))
         case _ => None)
    case _ => None
  }

  function ReadMessages(items: seq<Json>): Option<seq<Message>> {
    if items == [] then Some([])
    else
      match (ReadMessage(items[0]), ReadMessages(items[1..]))
      case (Some(m), Some(ms)) => Some([m] + ms)
      case _ => None
  }

  function ReadFields(model: Option<Json>, messages: Option<Json>, temperatureMillis: Option<Json>,
                      maxTokens: Option<Json>): Option<Request> {
    match (ReadString(model), messages, ReadInteger(temperatureMillis), ReadInteger(maxTokens))
    case (Some(m), Some(Arr(items)), Some(t), Some(n)) =>
      (match ReadMessages(items)
       case Some(ms) => Some(CanonicalRequest(m, ms, t, n))
       case None => None)
    case _ => None
  }

  function ReadRequest(t: Json): Option<Request> {
    match t
    case Arr(items) =>
      if |items| != 4 then None else ReadFields(Some(items[0]), Some(items[1]), Some(items[2]), Some(items[3]))
    case Obj(members) =>
      if !HasFields(members, REQUEST_KEYS) then None
      else ReadFields(Named(members, Plain("model")), Named(members, Plain("messages")),
                      Named(members, Plain("temperature_millis")),
                      Named(members, Plain("max_tokens")))
    case _ => None
  }

  /** `CanonicalRequestV1::from_json_bytes`. */
  function FromJsonBytes(bytes: Bytes): Result<Request, GuestRejection> {
    match Utf8Decode(bytes)
    case None => Err(RequestDoesNotParse)
    case Some(text) =>
      match ParseText(true, text)
      case None => Err(RequestDoesNotParse)
      case Some(t) =>
        match ReadRequest(t)
        case None => Err(RequestDoesNotParse)
        case Some(r) =>
          if r.messages == [] then Err(RequestHasNoMessages)
          else if exists i :: 0 <= i < |r.messages| && !IsRole(r.messages[i].role) then Err(RequestRoleNotCanonical)
          else Ok(r)
  }

  // ------------------------------------------------------------ the guest reads what was printed

  /** Every field that is not undefined is a member of the document, under its own key. */
  lemma {:induction false} TreeHolds(nfc: Nfc, obj: Value, sorted: seq<Field>)
    requires FieldsOf(obj, sorted) && DistinctKeys(sorted)
             && (forall i :: 0 <= i < |sorted| ==> TreeOf(nfc, sorted[i].value).Some?)
    ensures TreeMembers(nfc, obj, sorted).Some?
    ensures var ms := TreeMembers(nfc, obj, sorted).value;
            && |ms| == |sorted|
              && (forall i :: 0 <= i < |ms| ==> ms[i] == Member(sorted[i].key, TreeOf(nfc, sorted[i].value).value))
            && forall i :: 0 <= i < |ms| ==> Named(ms, sorted[i].key) == TreeOf(nfc, sorted[i].value)
    decreases |sorted|
  {
    if sorted != [] {
      FieldsOfTail(obj, sorted);
      assert DistinctKeys(sorted[1..]);
      TreeHolds(nfc, obj, sorted[1..]);
      var ms := TreeMembers(nfc, obj, sorted).value;
      assert ms[1..] == TreeMembers(nfc, obj, sorted[1..]).value;
    }
  }

  lemma SortedTrees(nfc: Nfc, fields: seq<Field>)
    requires DistinctKeys(fields) && forall i :: 0 <= i < |fields| ==> TreeOf(nfc, fields[i].value).Some?
    ensures var sorted := SortFields(fields);
            && FieldsOf(VObj(fields), sorted) && DistinctKeys(sorted) && (forall f :: f in sorted <==> f in fields)
            && forall i :: 0 <= i < |sorted| ==> TreeOf(nfc, sorted[i].value).Some?
  {
    var sorted := SortFields(fields);
    SortedFieldsOf(VObj(fields));
    SortKeepsFields(fields);
    SortAscends(fields);
    SortedDistinct(sorted);
    forall i | 0 <= i < |sorted| ensures TreeOf(nfc, sorted[i].value).Some? {
      assert sorted[i] in fields;
    }
  }

  lemma NamedByField(nfc: Nfc, fields: seq<Field>, sorted: seq<Field>, ms: seq<Member>, i: nat)
    requires i < |fields| && forall f :: f in sorted <==> f in fields
    requires |ms| == |sorted| && forall k :: 0 <= k < |ms| ==> Named(ms, sorted[k].key) == TreeOf(nfc, sorted[k].value)
    ensures Named(ms, fields[i].key) == TreeOf(nfc, fields[i].value)
  {
    assert fields[i] in sorted;
    var k :| 0 <= k < |sorted| && sorted[k] == fields[i];
  }

  /** The members of an object's document, by key. */
  lemma ObjectHolds(nfc: Nfc, fields: seq<Field>)
    requires DistinctKeys(fields) && forall i :: 0 <= i < |fields| ==> TreeOf(nfc, fields[i].value).Some?
    ensures TreeOf(nfc, VObj(fields)).Some? && TreeOf(nfc, VObj(fields)).value.Obj?
    ensures var ms := TreeOf(nfc, VObj(fields)).value.members;
            && (forall i :: 0 <= i < |fields| ==> Named(ms, fields[i].key) == TreeOf(nfc, fields[i].value))
            && HasFields(ms, set f <- fields :: f.key)
  {
    var sorted := SortFields(fields);
    SortedTrees(nfc, fields);
    var ms := ObjectTree(nfc, fields, sorted);
    KeysHeld(fields, sorted, ms);
    forall i | 0 <= i < |fields| ensures Named(ms, fields[i].key) == TreeOf(nfc, fields[i].value) {
      NamedByField(nfc, fields, sorted, ms, i);
    }
  }

  lemma ObjectTree(nfc: Nfc, fields: seq<Field>, sorted: seq<Field>) returns (ms: seq<Member>)
    requires sorted == SortFields(fields) && FieldsOf(VObj(fields), sorted) && DistinctKeys(sorted)
    requires forall i :: 0 <= i < |sorted| ==> TreeOf(nfc, sorted[i].value).Some?
    ensures TreeOf(nfc, VObj(fields)) == Some(Obj(ms)) && |ms| == |sorted|
    ensures forall k :: 0 <= k < |ms| ==> ms[k].key == sorted[k].key
    ensures forall k :: 0 <= k < |ms| ==> Named(ms, sorted[k].key) == TreeOf(nfc, sorted[k].value)
  {
    TreeHolds(nfc, VObj(fields), sorted);
    ms := TreeMembers(nfc, VObj(fields), sorted).value;
  }

  lemma SortedDistinct(sorted: seq<Field>)
    requires KeysAscend(sorted)
    ensures DistinctKeys(sorted)
  {
    forall i, j | 0 <= i < j < |sorted| ensures sorted[i].key != sorted[j].key {
      KeyLessTotal(sorted[i].key, sorted[j].key, sorted[i].key);
    }
  }

  lemma KeysHeld(fields: seq<Field>, sorted: seq<Field>, ms: seq<Member>)
    requires DistinctKeys(sorted) && (forall f :: f in sorted <==> f in fields)
    requires |ms| == |sorted| && forall i :: 0 <= i < |ms| ==> ms[i].key == sorted[i].key
    ensures HasFields(ms, set f <- fields :: f.key)
  {
    var keys := set f <- fields :: f.key;
    forall k ensures k in (set m <- ms :: m.key) <==> k in keys {
      if m :| m in ms && m.key == k {
        var i :| 0 <= i < |ms| && ms[i] == m;
        assert sorted[i] in fields;
      }
      if f :| f in fields && f.key == k {
        assert f in sorted;
        var i :| 0 <= i < |sorted| && sorted[i] == f;
        assert ms[i] in ms;
      }
    }
  }

  lemma MessageKeys(fields: seq<Field>)
    requires |fields| == 2 && fields[0].key == Plain("role") && fields[1].key == Plain("content")
    ensures DistinctKeys(fields) && (set f <- fields :: f.key) == MESSAGE_KEYS
  {
    assert fields[0].key.s[0] != fields[1].key.s[0];
    assert fields[0] in fields && fields[1] in fields;
  }

  lemma MessageReads(nfc: Nfc, m: Message)
    requires NfcSound(nfc) && IsRole(m.role) && nfc(m.content) == m.content
    ensures TreeOf(nfc, MessageValue(m)).Some? && ReadMessage(TreeOf(nfc, MessageValue(m)).value) == Some(m)
  {
    var fields := [Field(Plain("role"), VStr(m.role)), Field(Plain("content"), VStr(m.content))];
    assert m.role.Plain? && IsAscii(m.role.s);
    MessageKeys(fields);
    ObjectHolds(nfc, fields);
    ReadsMessage(TreeOf(nfc, VObj(fields)).value.members, m);
  }

  lemma ReadsMessage(ms: seq<Member>, m: Message)
    requires HasFields(ms, MESSAGE_KEYS) && Named(ms, Plain("role")) == Some(Str(m.role))
             && Named(ms, Plain("content")) == Some(Str(m.content))
    ensures ReadMessage(Obj(ms)) == Some(m)
  {}

  lemma ReadsOneMore(nfc: Nfc, v: Value, vs: seq<Value>, m: Message, ms: seq<Message>)
    requires TreeOf(nfc, v).Some? && ReadMessage(TreeOf(nfc, v).value) == Some(m)
    requires TreeItems(nfc, vs).Some? && ReadMessages(TreeItems(nfc, vs).value) == Some(ms)
    ensures TreeItems(nfc, [v] + vs).Some? && ReadMessages(TreeItems(nfc, [v] + vs).value) == Some([m] + ms)
  {
    var t, ts := TreeOf(nfc, v).value, TreeItems(nfc, vs).value;
    assert ([v] + vs)[1..] == vs;
    assert ([t] + ts)[1..] == ts;
  }

  lemma {:induction false} MessagesRead(nfc: Nfc, messages: seq<Message>)
    requires NfcSound(nfc)
    requires forall i :: 0 <= i < |messages| ==>
             IsRole(messages[i].role) && nfc(messages[i].content) == messages[i].content
    ensures TreeItems(nfc, MessageValues(messages)).Some?
    ensures ReadMessages(TreeItems(nfc, MessageValues(messages)).value) == Some(messages)
  {
    if messages != [] {
      var m, rest := messages[0], messages[1..];
      MessageReads(nfc, m);
      MessagesRead(nfc, rest);
      ReadsOneMore(nfc, MessageValue(m), MessageValues(rest), m, rest);
      assert messages == [m] + rest;
    }
  }

  lemma RequestKeys(fields: seq<Field>)
    requires |fields| == 4 && fields[0].key == Plain("model") && fields[1].key == Plain("messages")
    requires fields[2].key == Plain("temperature_millis") && fields[3].key == Plain("max_tokens")
    ensures DistinctKeys(fields)
            && (set f <- fields :: f.key) == REQUEST_KEYS
  {
    assert |fields[0].key.s| == 5 && |fields[1].key.s| == 8 && |fields[2].key.s| == 18 && |fields[3].key.s| == 10;
    assert fields[0] in fields && fields[1] in fields && fields[2] in fields && fields[3] in fields;
  }

  lemma ReadsRequest(ms: seq<Member>, items: seq<Json>, r: Request)
    requires HasFields(ms, REQUEST_KEYS)
    requires Named(ms, Plain("model")) == Some(Str(r.model)) && Named(ms, Plain("messages")) == Some(Arr(items))
    requires ReadInteger(Named(ms, Plain("temperature_millis"))) == Some(r.temperatureMillis)
             && ReadInteger(Named(ms, Plain("max_tokens"))) == Some(r.maxTokens)
    requires ReadMessages(items) == Some(r.messages)
    ensures ReadRequest(Obj(ms)) == Some(r)
  {}

  lemma IntegerReads(nfc: Nfc, n: int)
    requires 0 <= n <= 128000
    ensures TreeOf(nfc, VInt(n)).Some? && ReadInteger(TreeOf(nfc, VInt(n))) == Some(n)
  {
    PrintedInteger(n);
    DigitsReadBack(n);
    assert IntToString(n)[0] in IntToString(n);
  }

  lemma TextTree(nfc: Nfc, t: Text)
    requires nfc(t) == t
    ensures TreeOf(nfc, VStr(t)) == Some(Str(t))
  {}

  lemma ArrayTree(nfc: Nfc, vs: seq<Value>)
    requires TreeItems(nfc, vs).Some?
    ensures TreeOf(nfc, VArr(vs)) == Some(Arr(TreeItems(nfc, vs).value))
  {}

  ghost predicate HoldFields(r: Request, fields: seq<Field>) {
    && |fields| == 4 && fields[0] == Field(Plain("model"), VStr(r.model))
    && fields[1] == Field(Plain("messages"), VArr(MessageValues(r.messages)))
    && fields[2] == Field(Plain("temperature_millis"), VInt(r.temperatureMillis))
    && fields[3] == Field(Plain("max_tokens"), VInt(r.maxTokens))
  }

  lemma FieldTrees(nfc: Nfc, r: Request, fields: seq<Field>)
    requires NfcSound(nfc) && Accepted(nfc, r) && HoldFields(r, fields)
    ensures Spells(nfc, r, fields)
  {
    MessagesRead(nfc, r.messages);
    TextTree(nfc, r.model);
    ArrayTree(nfc, MessageValues(r.messages));
    IntegerReads(nfc, r.temperatureMillis);
    IntegerReads(nfc, r.maxTokens);
  }

  lemma RequestTree(nfc: Nfc, r: Request)
    requires NfcSound(nfc) && Accepted(nfc, r)
    ensures var t := TreeOf(nfc, VObj(RequestFields(r))); t.Some? && ReadRequest(t.value) == Some(r)
  {
    FieldTrees(nfc, r, RequestFields(r));
    FourFields(nfc, r, RequestFields(r));
  }

  /** Fields that a request is read from. */
  ghost predicate Spells(nfc: Nfc, r: Request, fields: seq<Field>) {
    && |fields| == 4 && fields[0].key == Plain("model") && fields[1].key == Plain("messages")
    && fields[2].key == Plain("temperature_millis") && fields[3].key == Plain("max_tokens")
    && TreeOf(nfc, fields[2].value).Some? && TreeOf(nfc, fields[3].value).Some?
    && TreeOf(nfc, fields[0].value) == Some(Str(r.model))
    && TreeOf(nfc, fields[1].value).Some? && TreeOf(nfc, fields[1].value).value.Arr?
    && ReadMessages(TreeOf(nfc, fields[1].value).value.items) == Some(r.messages)
    && ReadInteger(TreeOf(nfc, fields[2].value)) == Some(r.temperatureMillis)
    && ReadInteger(TreeOf(nfc, fields[3].value)) == Some(r.maxTokens)
  }

  lemma FourHaveTrees(nfc: Nfc, fields: seq<Field>)
    requires |fields| == 4 && TreeOf(nfc, fields[0].value).Some? && TreeOf(nfc, fields[1].value).Some?
    requires TreeOf(nfc, fields[2].value).Some? && TreeOf(nfc, fields[3].value).Some?
    ensures forall i :: 0 <= i < |fields| ==> TreeOf(nfc, fields[i].value).Some?
  {
    forall i | 0 <= i < |fields| ensures TreeOf(nfc, fields[i].value).Some? {
      assert i == 0 || i == 1 || i == 2 || i == 3;
    }
  }

  lemma FourFields(nfc: Nfc, r: Request, fields: seq<Field>)
    requires Spells(nfc, r, fields)
    ensures var t := TreeOf(nfc, VObj(fields)); t.Some? && ReadRequest(t.value) == Some(r)
  {
    RequestKeys(fields);
    FourHaveTrees(nfc, fields);
    ObjectHolds(nfc, fields);
    ReadsSpelled(nfc, r, fields, TreeOf(nfc, VObj(fields)).value.members);
  }

  lemma ReadsSpelled(nfc: Nfc, r: Request, fields: seq<Field>, ms: seq<Member>)
    requires Spells(nfc, r, fields) && HasFields(ms, REQUEST_KEYS)
    requires forall i :: 0 <= i < |fields| ==> Named(ms, fields[i].key) == TreeOf(nfc, fields[i].value)
    ensures ReadRequest(Obj(ms)) == Some(r)
  {
    NamedFour(nfc, ms, fields);
    ReadsRequest(ms, TreeOf(nfc, fields[1].value).value.items, r);
  }

  lemma NamedFour(nfc: Nfc, ms: seq<Member>, fields: seq<Field>)
    requires |fields| == 4 && fields[0].key == Plain("model") && fields[1].key == Plain("messages")
    requires fields[2].key == Plain("temperature_millis") && fields[3].key == Plain("max_tokens")
    requires forall i :: 0 <= i < |fields| ==> Named(ms, fields[i].key) == TreeOf(nfc, fields[i].value)
    ensures Named(ms, Plain("model")) == TreeOf(nfc, fields[0].value)
            && Named(ms, Plain("messages")) == TreeOf(nfc, fields[1].value)
    ensures Named(ms, Plain("temperature_millis")) == TreeOf(nfc, fields[2].value)
            && Named(ms, Plain("max_tokens")) == TreeOf(nfc, fields[3].value)
  {}

  // ------------------------------------------------------------ lone surrogates

  /** Lone surrogates stay what they are under NFC, and none comes about. */
  ghost predicate KeepsSurrogates(nfc: Nfc) {
    forall t :: nfc(t).Plain? <==> t.Plain?
  }

  /** No text of the request as given holds a lone surrogate. */
  predicate GivenPlain(input: Input) {
    && (input.model.Some? ==> input.model.value.Plain?)
    && (input.messages.Some? ==> ContentsPlain(input.messages.value))
  }

  predicate ContentsPlain(given: seq<Given>) {
    forall i :: 0 <= i < |given| && given[i].content.Some? ==> given[i].content.value.Plain?
  }

  lemma {:induction false} PlainMessageValues(nfc: Nfc, ms: seq<Message>)
    requires NfcSound(nfc) && KeepsSurrogates(nfc) && forall i :: 0 <= i < |ms| ==> IsRole(ms[i].role)
    ensures PlainTexts(nfc, VArr(MessageValues(ms))) <==> forall i :: 0 <= i < |ms| ==> ms[i].content.Plain?
  {
    if ms != [] {
      PlainMessageValues(nfc, ms[1..]);
      PlainMessage(nfc, ms[0]);
      PlainValuesCons(nfc, MessageValue(ms[0]), MessageValues(ms[1..]));
      assert ms == [ms[0]] + ms[1..];
    }
  }

  lemma {:induction false} ContentsComposed(nfc: Nfc, given: seq<Given>)
    requires ToMessages(nfc, given).Ok?
    ensures var ms := ToMessages(nfc, given).value;
            |ms| == |given|
            && forall i :: 0 <= i < |ms| ==>
                 IsRole(ms[i].role) && given[i].content.Some? && ms[i].content == nfc(given[i].content.value)
  {
    if given != [] { ContentsComposed(nfc, given[1..]); }
  }

  lemma PlainMessages(nfc: Nfc, given: seq<Given>)
    requires NfcSound(nfc) && KeepsSurrogates(nfc) && ToMessages(nfc, given).Ok?
    ensures PlainTexts(nfc, VArr(MessageValues(ToMessages(nfc, given).value))) <==> ContentsPlain(given)
  {
    ContentsComposed(nfc, given);
    PlainMessageValues(nfc, ToMessages(nfc, given).value);
  }

  lemma PlainMessage(nfc: Nfc, m: Message)
    requires NfcSound(nfc) && KeepsSurrogates(nfc) && IsRole(m.role)
    ensures PlainTexts(nfc, MessageValue(m)) <==> m.content.Plain?
  {
    var fields := [Field(Plain("role"), VStr(m.role)), Field(Plain("content"), VStr(m.content))];
    assert PlainTexts(nfc, fields[0].value);
    assert PlainTexts(nfc, fields[1].value) <==> m.content.Plain?;
  }

  lemma PlainFour(nfc: Nfc, fields: seq<Field>)
    requires |fields| == 4 && forall i :: 0 <= i < 4 ==> fields[i].key.Plain? && !fields[i].value.Undefined?
    ensures PlainTexts(nfc, VObj(fields))
       <==> && PlainTexts(nfc, fields[0].value) && PlainTexts(nfc, fields[1].value)
            && PlainTexts(nfc, fields[2].value) && PlainTexts(nfc, fields[3].value)
  {}

  lemma PlainRequest(nfc: Nfc, input: Input)
    requires NfcSound(nfc) && KeepsSurrogates(nfc) && ToCanonicalRequest(nfc, input).Ok?
    ensures PlainTexts(nfc, VObj(RequestFields(ToCanonicalRequest(nfc, input).value))) <==> GivenPlain(input)
  {
    var r := ToCanonicalRequest(nfc, input).value;
    PlainMessages(nfc, input.messages.value);
    PlainRequestFields(nfc, r);
    assert r.model.Plain? <==> input.model.value.Plain?;
  }

  lemma PlainRequestFields(nfc: Nfc, r: Request)
    requires KeepsSurrogates(nfc)
    ensures PlainTexts(nfc, VObj(RequestFields(r)))
            <==> r.model.Plain? && PlainTexts(nfc, VArr(MessageValues(r.messages)))
  {
    PlainFour(nfc, RequestFields(r));
    assert PlainTexts(nfc, VStr(r.model)) <==> r.model.Plain?;
  }

  lemma BytesRead(nfc: Nfc, input: Input, strict: bool)
    requires NfcSound(nfc) && ToCanonicalRequest(nfc, input).Ok?
    ensures var v := VObj(RequestFields(ToCanonicalRequest(nfc, input).value));
            && JsCanonical(nfc, v).Some? && TreeOf(nfc, v).Some?
            && ReadRequest(TreeOf(nfc, v).value) == Some(ToCanonicalRequest(nfc, input).value)
            && ParseText(strict, JsCanonical(nfc, v).value)
            == if strict && !PlainTexts(nfc, v) then None else TreeOf(nfc, v)
  {
    var r := ToCanonicalRequest(nfc, input).value;
    AcceptedIsCanonical(nfc, input);
    RequestTree(nfc, r);
    PrintsTheTree(nfc, VObj(RequestFields(r)));
    CanonicalParsesBack(nfc, VObj(RequestFields(r)), strict);
  }

  /**
    The guest reads an accepted request's canonical bytes as that request, with the same model, messages and numbers,
    if and only if no text of it holds a lone surrogate; otherwise it refuses them.
  */
  lemma GuestReadsExactlyWhen(nfc: Nfc, input: Input)
    requires NfcSound(nfc) && KeepsSurrogates(nfc) && ToCanonicalRequest(nfc, input).Ok?
    ensures var r := ToCanonicalRequest(nfc, input).value;
            && CanonicalBytes(nfc, r).Some?
            && FromJsonBytes(CanonicalBytes(nfc, r).value) == if GivenPlain(input) then Ok(r)
              else Err(RequestDoesNotParse)
  {
    var r := ToCanonicalRequest(nfc, input).value;
    AcceptedIsCanonical(nfc, input);
    BytesRead(nfc, input, true);
    PlainRequest(nfc, input);
    EncodedDecodes(JsCanonical(nfc, VObj(RequestFields(r))).value);
  }

  /** Two accepted requests with the same canonical bytes are the same request, lone surrogates included. */
  lemma BytesDetermineTheRequest(nfc: Nfc, x: Input, y: Input)
    requires NfcSound(nfc) && ToCanonicalRequest(nfc, x).Ok? && ToCanonicalRequest(nfc, y).Ok?
    requires CanonicalBytes(nfc, ToCanonicalRequest(nfc, x).value)
             == CanonicalBytes(nfc, ToCanonicalRequest(nfc, y).value)
    ensures ToCanonicalRequest(nfc, x) == ToCanonicalRequest(nfc, y)
  {
    BytesRead(nfc, x, false);
    BytesRead(nfc, y, false);
    EncodedDecodes(JsCanonical(nfc, VObj(RequestFields(ToCanonicalRequest(nfc, x).value))).value);
    EncodedDecodes(JsCanonical(nfc, VObj(RequestFields(ToCanonicalRequest(nfc, y).value))).value);
  }

  /** The request whose one message is a lone surrogate is accepted, and the guest refuses its bytes. */
  lemma LoneSurrogateIsRefused(nfc: Nfc)
    requires NfcSound(nfc) && KeepsSurrogates(nfc)
    ensures var input :=
            Input(Some(Plain("m")), Some([Given(Plain("user"), Some(OneSurrogate(0xD800)))]), None, None, None);
            && ToCanonicalRequest(nfc, input).Ok?
            && CanonicalBytes(nfc, ToCanonicalRequest(nfc, input).value).Some?
            && FromJsonBytes(CanonicalBytes(nfc, ToCanonicalRequest(nfc, input).value).value)
              == Err(RequestDoesNotParse)
  {
    var given := [Given(Plain("user"), Some(OneSurrogate(0xD800)))];
    var input := Input(Some(Plain("m")), Some(given), None, None, None);
    assert IsAscii("m");
    assert given[1..] == [] && ToMessages(nfc, given).Ok?;
    GuestReadsExactlyWhen(nfc, input);
    assert !given[0].content.value.Plain?;
  }
}
