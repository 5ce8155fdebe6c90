/**
  The journal the guest prints (`PolicyJournalV1` of prover/policy-core/src/input.rs), and what both verifiers
  read of it. The guest spells the five keys out in one format string; that string is related here to the
  document it stands for, so that the parser's round trip and the verifiers' checks of shape apply to it.
*/
module GuestJournal {
  import opened BrowserVerifier
  import opened Canonical
  import opened Canonicalizers
  import opened Encoding
  import opened Framing
  import opened Json
  import opened Preimages
  import opened Texts
  import opened Verifiers
  import opened Wrappers

  datatype Journal = Journal(protocolVersion: nat, requestCommitment: string, policyId: string, decision: string,
                             proofNonce: string)

  /** The format string of `to_canonical_json_bytes`: the keys are spelled out, in this order. */
  function Format(d: string, p: string, n: string, v: string, c: string): string {
    "{\"decision\":" + d + ",\"policyId\":" + p + ",\"proofNonce\":" + n + ",\"protocolVersion\":" + v
      + ",\"requestCommitment\":" + c + "}"
  }

  /** `to_canonical_json_bytes`, before UTF-8. */
  function GuestPrint(nfc: string -> string, j: Journal): string {
    Format(Quote(Plain(nfc(j.decision))), Quote(Plain(nfc(j.policyId))), Quote(Plain(nfc(j.proofNonce))),
           IntToString(j.protocolVersion),
           Quote(Plain(nfc(j.requestCommitment))))
  }

  /** The document it stands for. */
  function GuestMembers(nfc: string -> string, j: Journal): seq<Member> {
    [Member(Plain("decision"), Str(Plain(nfc(j.decision)))), Member(Plain("policyId"), Str(Plain(nfc(j.policyId)))),
     Member(Plain("proofNonce"), Str(Plain(nfc(j.proofNonce)))),
     Member(Plain("protocolVersion"), Num(IntToString(j.protocolVersion))),
       Member(Plain("requestCommitment"), Str(Plain(nfc(j.requestCommitment))))]
  }

  lemma {:induction false} PlainText(s: string)
    requires forall i :: 0 <= i < |s| ==> s[i] >= ' ' && s[i] != '"' && s[i] != '\\'
    ensures EscapePlain(s) == s
  {
    if s != "" {
      PlainText(s[1..]);
      assert s == [s[0]] + s[1..];
    }
  }

  lemma KeyText(key: string, quoted: string, v: Json)
    requires forall i :: 0 <= i < |key| ==> key[i] >= ' ' && key[i] != '"' && key[i] != '\\'
    requires quoted == "\"" + key + "\":"
    ensures PrintMember(Member(Plain(key), v)) == quoted + Print(v)
  {
    PlainText(key);
    assert "\"" + key + "\"" + ":" == "\"" + key + "\":";
  }

  lemma PrintedMembers(m: Member, ms: seq<Member>)
    requires ms != []
    ensures PrintMembers([m] + ms) == PrintMember(m) + "," + PrintMembers(ms)
    ensures PrintMembers([m]) == PrintMember(m) + "}"
  {
    assert ([m] + ms)[1..] == ms;
  }

  lemma LastPiece(acc: string, lead: string, sep: string, key: string, value: string, close: string)
    requires lead == sep + key
    ensures acc + lead + value + close == acc + (sep + (key + value + close))
  {
    assert sep + key + value + close == sep + (key + value + close);
  }

  lemma NextPiece(acc: string, lead: string, sep: string, key: string, value: string, rest: string)
    requires lead == sep + key
    ensures acc + lead + value + ("," + rest) == acc + (sep + (key + value + "," + rest))
  {
    LastPiece(acc, lead, sep, key, value, "," + rest);
    assert key + value + ("," + rest) == key + value + "," + rest;
  }

  lemma Keys()
    ensures "{\"decision\":" == "{" + "\"decision\":" && ",\"policyId\":" == "," + "\"policyId\":"
    ensures ",\"proofNonce\":" == "," + "\"proofNonce\":" && ",\"protocolVersion\":" == "," + "\"protocolVersion\":"
    ensures ",\"requestCommitment\":" == "," + "\"requestCommitment\":"
  {}

  /** The format string, regrouped as nested members. */
  lemma Nested(d: string, p: string, n: string, v: string, c: string)
    ensures "{\"decision\":" + d + ",\"policyId\":" + p + ",\"proofNonce\":" + n + ",\"protocolVersion\":" + v
            + ",\"requestCommitment\":" + c + "}"
         == "{" + ("\"decision\":" + d + "," + ("\"policyId\":" + p + "," + ("\"proofNonce\":" + n + ","
            + ("\"protocolVersion\":" + v + "," + ("\"requestCommitment\":" + c + "}")))))
  {
    Keys();
    var t5 := "\"requestCommitment\":" + c + "}";
    var t4 := "\"protocolVersion\":" + v + "," + t5;
    var t3 := "\"proofNonce\":" + n + "," + t4;
    var t2 := "\"policyId\":" + p + "," + t3;
    var a1 := "{\"decision\":" + d;
    var a2 := a1 + ",\"policyId\":" + p;
    var a3 := a2 + ",\"proofNonce\":" + n;
    var a4 := a3 + ",\"protocolVersion\":" + v;
    LastPiece(a4, ",\"requestCommitment\":", ",", "\"requestCommitment\":", c, "}");
    NextPiece(a3, ",\"protocolVersion\":", ",", "\"protocolVersion\":", v, t5);
    NextPiece(a2, ",\"proofNonce\":", ",", "\"proofNonce\":", n, t4);
    NextPiece(a1, ",\"policyId\":", ",", "\"policyId\":", p, t3);
    NextPiece("", "{\"decision\":", "{", "\"decision\":", d, t2);
    assert "" + "{\"decision\":" + d + ("," + t2) == a1 + ("," + t2);
    assert "" + ("{" + ("\"decision\":" + d + "," + t2)) == "{" + ("\"decision\":" + d + "," + t2);
  }

  lemma DecisionText(v: Json)
    ensures PrintMember(Member(Plain("decision"), v)) == "\"decision\":" + Print(v)
  {
    KeyText("decision", "\"decision\":", v);
  }

  lemma PolicyIdText(v: Json)
    ensures PrintMember(Member(Plain("policyId"), v)) == "\"policyId\":" + Print(v)
  {
    KeyText("policyId", "\"policyId\":", v);
  }

  lemma ProofNonceText(v: Json)
    ensures PrintMember(Member(Plain("proofNonce"), v)) == "\"proofNonce\":" + Print(v)
  {
    KeyText("proofNonce", "\"proofNonce\":", v);
  }

  lemma ProtocolVersionText(v: Json)
    ensures PrintMember(Member(Plain("protocolVersion"), v)) == "\"protocolVersion\":" + Print(v)
  {
    KeyText("protocolVersion", "\"protocolVersion\":", v);
  }

  lemma RequestCommitmentText(v: Json)
    ensures PrintMember(Member(Plain("requestCommitment"), v)) == "\"requestCommitment\":" + Print(v)
  {
    KeyText("requestCommitment", "\"requestCommitment\":", v);
  }

  lemma MembersPrint(md: Member, mp: Member, mn: Member, mv: Member, mc: Member,
                     d: string, p: string, n: string, v: string, c: string)
    requires PrintMember(md) == "\"decision\":" + d && PrintMember(mp) == "\"policyId\":" + p
    requires PrintMember(mn) == "\"proofNonce\":" + n && PrintMember(mv) == "\"protocolVersion\":" + v
    requires PrintMember(mc) == "\"requestCommitment\":" + c
    ensures Print(Obj([md, mp, mn, mv, mc])) == Format(d, p, n, v, c)
  {
    PrintedInTurn(md, mp, mn, mv, mc);
    Nested(d, p, n, v, c);
  }

  lemma FormatPrints(d: Json, p: Json, n: Json, v: Json, c: Json)
    ensures Print(Obj([Member(Plain("decision"), d), Member(Plain("policyId"), p), Member(Plain("proofNonce"), n),
                       Member(Plain("protocolVersion"), v), Member(Plain("requestCommitment"), c)]))
         == Format(Print(d), Print(p), Print(n), Print(v), Print(c))
  {
    var md, mp, mn := Member(Plain("decision"), d), Member(Plain("policyId"), p), Member(Plain("proofNonce"), n);
    var mv, mc := Member(Plain("protocolVersion"), v), Member(Plain("requestCommitment"), c);
    DecisionText(d); PolicyIdText(p); ProofNonceText(n); ProtocolVersionText(v); RequestCommitmentText(c);
    MembersPrint(md, mp, mn, mv, mc, Print(d), Print(p), Print(n), Print(v), Print(c));
  }

  /** The guest's format string is the canonical text of that document. */
  lemma GuestPrintsTheDocument(nfc: string -> string, j: Journal)
    ensures GuestPrint(nfc, j) == Print(Obj(GuestMembers(nfc, j)))
  {
    FormatPrints(Str(Plain(nfc(j.decision))), Str(Plain(nfc(j.policyId))), Str(Plain(nfc(j.proofNonce))),
                 Num(IntToString(j.protocolVersion)), Str(Plain(nfc(j.requestCommitment))));
  }

  lemma PrintedInTurn(d: Member, p: Member, n: Member, v: Member, c: Member)
    ensures Print(Obj([d, p, n, v, c]))
         == "{" + (PrintMember(d) + ","
           + (PrintMember(p) + "," + (PrintMember(n) + "," + (PrintMember(v) + "," + (PrintMember(c) + "}")))))
  {
    PrintedMembers(c, [c]);
    PrintedMembers(v, [c]); PrintedMembers(n, [v, c]); PrintedMembers(p, [n, v, c]); PrintedMembers(d, [p, n, v, c]);
    assert [v] + [c] == [v, c] && [n] + [v, c] == [n, v, c] && [p] + [n, v, c] == [p, n, v, c]
           && [d] + [p, n, v, c] == [d, p, n, v, c];
  }

  // ------------------------------------------------------------ what the verifiers read

  /** Four plain strings and a number, under plain keys. */
  ghost predicate FourTextsAndNumber(ms: seq<Member>, n: string) {
    && |ms| == 5 && ms[3].value == Num(n) && (forall i :: 0 <= i < 5 ==> ms[i].key.Plain?)
    && (forall i :: 0 <= i < 5 && i != 3 ==> ms[i].value.Str? && ms[i].value.s.Plain?)
  }

  lemma ShapeIsWellFormed(ms: seq<Member>, n: string)
    requires FourTextsAndNumber(ms, n) && SkipNumber(n) == Some("")
    ensures WellFormed(Obj(ms)) && AllPlain(Obj(ms))
  {
    forall i | 0 <= i < 5 ensures WellFormed(ms[i].value) && AllPlain(ms[i].value) {}
  }

  lemma GuestShape(nfc: string -> string, j: Journal)
    ensures FourTextsAndNumber(GuestMembers(nfc, j), IntToString(j.protocolVersion))
  {}

  lemma GuestWellFormed(nfc: string -> string, j: Journal)
    ensures WellFormed(Obj(GuestMembers(nfc, j))) && AllPlain(Obj(GuestMembers(nfc, j)))
  {
    GuestShape(nfc, j);
    IntRoundTrip(j.protocolVersion);
    ShapeIsWellFormed(GuestMembers(nfc, j), IntToString(j.protocolVersion));
  }

  lemma EncodedDoc(strict: bool, text: string, doc: Json)
    requires text == Print(doc) && WellFormed(doc) && AllPlain(doc)
    ensures JournalDoc(strict, Utf8Of(text)) == Some(doc)
  {
    EncodedDecodes(text);
    TextRoundTrip(strict, doc);
  }

  lemma GuestReads(nfc: string -> string, j: Journal, strict: bool)
    ensures JournalDoc(strict, Utf8Of(GuestPrint(nfc, j))) == Some(Obj(GuestMembers(nfc, j)))
  {
    GuestPrintsTheDocument(nfc, j);
    GuestWellFormed(nfc, j);
    EncodedDoc(strict, GuestPrint(nfc, j), Obj(GuestMembers(nfc, j)));
  }

  lemma {:induction false} EscapedLength(s: string)
    ensures |EscapePlain(s)| <= 6 * |s|
  {
    if s != "" { EscapedLength(s[1..]); }
  }

  lemma {:induction false} Utf8Length(s: string)
    ensures |Utf8Of(s)| <= 4 * |s|
  {
    if s != "" { Utf8Length(s[1..]); }
  }

  /** What the checks say of the five fields bounds the journal's size. */
  lemma GuestPrintIsBraced(nfc: string -> string, j: Journal)
    requires |nfc(j.decision)| <= 66 && |nfc(j.policyId)| <= 66 && |nfc(j.proofNonce)| <= 66
             && |nfc(j.requestCommitment)| <= 66
    requires |IntToString(j.protocolVersion)| <= 20
    ensures Braced(Utf8Of(GuestPrint(nfc, j)))
  {
    var text := GuestPrint(nfc, j);
    EscapedLength(nfc(j.decision)); EscapedLength(nfc(j.policyId)); EscapedLength(nfc(j.proofNonce));
    EscapedLength(nfc(j.requestCommitment));
    Utf8Length(text);
    assert |text| <= 2000;
    assert text[0] == '{' && text[|text| - 1] == '}';
    EndsOfText(text);
    assert Utf8Of(text)[0] == '{' as nat;
  }

  /** A content check of the Rust verifier, in terms of the document it reads. */
  lemma RustContent(z: Zkvm, i: Inputs, c: Check)
    requires RustVerifies(z, i) && IsContent(c) && Always(c)
    ensures i.manifest.Some? && i.manifest.value.journalVersion == JOURNAL_VERSION
    ensures ContentHolds(c, RustDoc(z, i), VersionTest(i.manifest.value), i.manifest.value.policyId, i.expected)
  {
    InOrder(i.expected, Manifest);
    InOrder(i.expected, c);
    assert Holds(z, i, Manifest) && Holds(z, i, c);
  }

  lemma Accepted(ms: seq<Member>, key: string, accepts: string -> bool, s: string)
    requires StringField(Some(Obj(ms)), key, accepts) && MemberValue(ms, key) == Some(Str(Plain(s)))
    ensures accepts(s)
  {}

  lemma AcceptedNumber(ms: seq<Member>, m: ReleaseManifest, version: nat)
    requires NumberField(Some(Obj(ms)), "protocolVersion", VersionTest(m)) && m.journalVersion == JOURNAL_VERSION
    requires MemberValue(ms, "protocolVersion") == Some(Num(IntToString(version)))
    ensures |IntToString(version)| <= 20
  {
    assert VersionTest(m)(IntToString(version));
    DigitsReadBack(version);
  }

  function KeyOf(c: Check): string {
    match c
    case JournalDecision => "decision"
    case PolicyId => "policyId"
    case JournalProofNonce => "proofNonce"
    case _ => "requestCommitment"
  }

  lemma ShapeBounds(z: Zkvm, i: Inputs, ms: seq<Member>, c: Check, s: string)
    requires RustVerifies(z, i) && RustDoc(z, i) == Some(Obj(ms)) && MemberValue(ms, KeyOf(c)) == Some(Str(Plain(s)))
    requires c.JournalDecision? || c.PolicyId? || c.JournalProofNonce? || c.JournalRequestCommitment?
    ensures |s| <= 66
  {
    RustContent(z, i, c);
    match c
    case JournalDecision => Accepted(ms, "decision", IsDecision, s);
    case PolicyId => Accepted(ms, "policyId", PolicyTest(i.manifest.value.policyId), s);
    case JournalProofNonce => Accepted(ms, "proofNonce", IsProofNonce, s);
    case JournalRequestCommitment => Accepted(ms, "requestCommitment", Is0xSha256, s);
  }

  lemma ShapesBound(z: Zkvm, i: Inputs, nfc: string -> string, j: Journal)
    requires RustVerifies(z, i) && RustDoc(z, i) == Some(Obj(GuestMembers(nfc, j)))
    ensures |nfc(j.decision)| <= 66 && |nfc(j.policyId)| <= 66 && |nfc(j.proofNonce)| <= 66
            && |nfc(j.requestCommitment)| <= 66
    ensures |IntToString(j.protocolVersion)| <= 20
  {
    var ms := GuestMembers(nfc, j);
    FieldsOfGuest(ms);
    ShapeBounds(z, i, ms, JournalDecision, nfc(j.decision));
    ShapeBounds(z, i, ms, PolicyId, nfc(j.policyId));
    ShapeBounds(z, i, ms, JournalProofNonce, nfc(j.proofNonce));
    ShapeBounds(z, i, ms, JournalRequestCommitment, nfc(j.requestCommitment));
    RustContent(z, i, JournalProtocolVersion);
    AcceptedNumber(ms, i.manifest.value, j.protocolVersion);
  }

  lemma FieldsOfGuest(ms: seq<Member>)
    requires |ms| == 5 && ms[0].key == Plain("decision") && ms[1].key == Plain("policyId")
             && ms[2].key == Plain("proofNonce")
    requires ms[3].key == Plain("protocolVersion") && ms[4].key == Plain("requestCommitment")
    ensures MemberValue(ms, "decision") == Some(ms[0].value) && MemberValue(ms, "policyId") == Some(ms[1].value)
    ensures MemberValue(ms, "proofNonce") == Some(ms[2].value)
            && MemberValue(ms, "protocolVersion") == Some(ms[3].value)
    ensures MemberValue(ms, "requestCommitment") == Some(ms[4].value)
  {
    assert ms[..4][..3] == ms[..3] && ms[..3][..2] == ms[..2] && ms[..2][..1] == ms[..1];
    assert MemberValue(ms[..1], "decision") == Some(ms[0].value);
    assert MemberValue(ms[..2], "decision") == MemberValue(ms[..1], "decision");
    assert MemberValue(ms[..3], "decision") == MemberValue(ms[..2], "decision");
    assert MemberValue(ms[..4], "decision") == MemberValue(ms[..3], "decision");
    assert MemberValue(ms[..3], "policyId") == MemberValue(ms[..2], "policyId") == Some(ms[1].value);
    assert MemberValue(ms[..4], "policyId") == MemberValue(ms[..3], "policyId");
    assert MemberValue(ms[..4], "proofNonce") == MemberValue(ms[..3], "proofNonce") == Some(ms[2].value);
  }

  /** Whenever the Rust verifier accepts a receipt that carries the guest's print, the browser's own checks all pass. */
  lemma VerifiedGuestReceiptPasses(z: Zkvm, i: Inputs, numberIs: NumberIs, nfc: string -> string, j: Journal)
    requires ZkvmSound(z) && ReadsIntegers(numberIs) && RustVerifies(z, i)
    requires Decoded(z, i).Some? && Decoded(z, i).value.journal == Utf8Of(GuestPrint(nfc, j))
    ensures i.manifest.Some? && BrowserVerifies(i.receipt, ForBrowser(i.manifest.value), numberIs, i.expected)
  {
    GuestReads(nfc, j, true);
    ShapesBound(z, i, nfc, j);
    GuestPrintIsBraced(nfc, j);
    BrowserAcceptsExactlyWhen(z, i, numberIs);
  }
}
