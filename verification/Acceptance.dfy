/** When exactly each verifier accepts a receipt that carries a guest's print: in terms of the guest's five fields. */
module Acceptance {
  import opened BrowserVerifier
  import opened Canonicalizers
  import opened Framing
  import opened GuestJournal
  import opened ImageId
  import opened Json
  import opened Preimages
  import opened Texts
  import opened Verifiers
  import opened Wrappers

  /** Each expectation given is the field it names. */
  ghost predicate AsExpected(nfc: string -> string, j: Journal, e: Expectations) {
    && (e.commitment.Some? ==> nfc(j.requestCommitment) == e.commitment.value)
    && (e.decision.Some? ==> nfc(j.decision) == e.decision.value)
    && (e.proofNonce.Some? ==> nfc(j.proofNonce) == e.proofNonce.value)
  }

  /** The fields have their shapes, the policy is the one pinned, and the expectations are met. */
  ghost predicate Fits(nfc: string -> string, j: Journal, policyId: string, e: Expectations) {
    && (nfc(j.decision) == "ALLOW" || nfc(j.decision) == "DENY")
    && Is0xSha256(nfc(j.requestCommitment)) && IsProofNonce(nfc(j.proofNonce))
    && nfc(j.policyId) == policyId && Is0xSha256(policyId)
    && AsExpected(nfc, j, e)
  }

  predicate SixtyFourDigits(d: string) {
    |d| == 64 && forall i :: 0 <= i < 64 ==> '0' <= d[i] <= '9' || 'a' <= d[i] <= 'f'
  }

  /** A digest as it is written: 0x and 64 lowercase digits. */
  lemma DigestIsWritten(s: string)
    ensures Is0xSha256(s) <==> exists d :: s == "0x" + d && SixtyFourDigits(d)
  {
    if Is0xSha256(s) {
      assert s == "0x" + s[2..] && SixtyFourDigits(s[2..]);
    }
    if d :| s == "0x" + d && SixtyFourDigits(d) {
      assert s[2..] == d;
    }
  }

  /** The content checks that a run asks for. */
  ghost predicate AllSaid(content: Content) {
    forall c <- Order(content.expected) :: IsContent(c) ==> Says(content, c)
  }

  lemma AskedFor(e: Expectations, c: Check)
    ensures c in Order(e) <==>
            || Always(c) || (c.ExpectCommitment? && e.commitment.Some?)
            || (c.ExpectDecision? && e.decision.Some?) || (c.ExpectProofNonce? && e.proofNonce.Some?)
  {
    if Always(c) { OrderAt(e, Place(c)); } else { OrderEndsWith(e, c); }
  }

  lemma OrderEndsWith(e: Expectations, c: Check)
    requires !Always(c)
    ensures c in Order(e) <==>
            || (c.ExpectCommitment? && e.commitment.Some?)
            || (c.ExpectDecision? && e.decision.Some?) || (c.ExpectProofNonce? && e.proofNonce.Some?)
  {}

  // ------------------------------------------------------------ what the checks say of the guest's print

  lemma GuestKeys(ms: seq<Member>)
    requires |ms| == 5 && ms[0].key == Plain("decision") && ms[1].key == Plain("policyId")
             && ms[2].key == Plain("proofNonce")
    requires ms[3].key == Plain("protocolVersion") && ms[4].key == Plain("requestCommitment")
    ensures KeysOf(ms) == JOURNAL_KEYS
  {
    assert ms[0] in ms && ms[1] in ms && ms[2] in ms && ms[3] in ms && ms[4] in ms;
  }

  lemma FieldIs(ms: seq<Member>, key: string, accepts: string -> bool, s: string)
    requires MemberValue(ms, key) == Some(Str(Plain(s)))
    ensures StringField(Some(Obj(ms)), key, accepts) <==> accepts(s)
  {}

  /** The fields of a document, read by name. */
  ghost predicate Spells(ms: seq<Member>, nfc: string -> string, j: Journal) {
    && KeysOf(ms) == JOURNAL_KEYS
    && MemberValue(ms, "decision") == Some(Str(Plain(nfc(j.decision))))
    && MemberValue(ms, "policyId") == Some(Str(Plain(nfc(j.policyId))))
    && MemberValue(ms, "proofNonce") == Some(Str(Plain(nfc(j.proofNonce))))
    && MemberValue(ms, "protocolVersion") == Some(Num(IntToString(j.protocolVersion)))
    && MemberValue(ms, "requestCommitment") == Some(Str(Plain(nfc(j.requestCommitment))))
  }

  lemma GuestSpells(nfc: string -> string, j: Journal)
    ensures Spells(GuestMembers(nfc, j), nfc, j)
  {
    var ms := GuestMembers(nfc, j);
    GuestKeys(ms);
    FieldsOfGuest(ms);
  }

  lemma ShapeSays(content: Content, ms: seq<Member>, nfc: string -> string, j: Journal)
    requires content.doc == Some(Obj(ms)) && Spells(ms, nfc, j)
    ensures Says(content, JournalParses) && Says(content, JournalKeySet)
    ensures Says(content, JournalProtocolVersion) <==> content.isVersion(IntToString(j.protocolVersion))
    ensures Says(content, JournalDecision) <==> nfc(j.decision) == "ALLOW" || nfc(j.decision) == "DENY"
  {
    FieldIs(ms, "decision", IsDecision, nfc(j.decision));
  }

  lemma DigestsSay(content: Content, ms: seq<Member>, nfc: string -> string, j: Journal)
    requires content.doc == Some(Obj(ms)) && Spells(ms, nfc, j)
    ensures Says(content, JournalRequestCommitment) <==> Is0xSha256(nfc(j.requestCommitment))
    ensures Says(content, JournalProofNonce) <==> IsProofNonce(nfc(j.proofNonce))
    ensures Says(content, PolicyId) <==> nfc(j.policyId) == content.policyId && Is0xSha256(content.policyId)
  {
    FieldIs(ms, "requestCommitment", Is0xSha256, nfc(j.requestCommitment));
    FieldIs(ms, "proofNonce", IsProofNonce, nfc(j.proofNonce));
    FieldIs(ms, "policyId", PolicyTest(content.policyId), nfc(j.policyId));
  }

  lemma ExpectationIs(e: Option<string>, ms: seq<Member>, key: string, s: string)
    requires MemberValue(ms, key) == Some(Str(Plain(s)))
    ensures Expected(e, Some(Obj(ms)), key) <==> (e.Some? ==> s == e.value)
  {}

  lemma ExpectationsSay(content: Content, ms: seq<Member>, nfc: string -> string, j: Journal)
    requires content.doc == Some(Obj(ms)) && Spells(ms, nfc, j)
    ensures var e := content.expected;
            && (Says(content, ExpectCommitment)
              <==> (e.commitment.Some? ==> nfc(j.requestCommitment) == e.commitment.value))
            && (Says(content, ExpectDecision) <==> (e.decision.Some? ==> nfc(j.decision) == e.decision.value))
            && (Says(content, ExpectProofNonce) <==> (e.proofNonce.Some? ==> nfc(j.proofNonce) == e.proofNonce.value))
  {
    ExpectationIs(content.expected.commitment, ms, "requestCommitment", nfc(j.requestCommitment));
    ExpectationIs(content.expected.decision, ms, "decision", nfc(j.decision));
    ExpectationIs(content.expected.proofNonce, ms, "proofNonce", nfc(j.proofNonce));
  }

  /** Every content check, asked for or not; those not asked for hold. */
  ghost predicate EverySaid(content: Content) {
    forall c :: IsContent(c) ==> Says(content, c)
  }

  lemma UnaskedHold(content: Content)
    ensures AllSaid(content) <==> EverySaid(content)
  {
    forall c | IsContent(c) && c !in Order(content.expected) ensures Says(content, c) {
      AskedFor(content.expected, c);
    }
  }

  /** All content checks of a run hold of the guest's print if and only if its fields fit. */
  lemma ContentHoldsExactlyWhen(content: Content, nfc: string -> string, j: Journal)
    requires content.doc == Some(Obj(GuestMembers(nfc, j)))
    ensures AllSaid(content)
       <==> content.isVersion(IntToString(j.protocolVersion)) && Fits(nfc, j, content.policyId, content.expected)
  {
    GuestSpells(nfc, j);
    ShapeSays(content, GuestMembers(nfc, j), nfc, j);
    DigestsSay(content, GuestMembers(nfc, j), nfc, j);
    ExpectationsSay(content, GuestMembers(nfc, j), nfc, j);
    UnaskedHold(content);
    EveryContent(content);
  }

  lemma EveryContent(content: Content)
    ensures EverySaid(content)
       <==> && Says(content, JournalParses) && Says(content, JournalKeySet) && Says(content, JournalProtocolVersion)
            && Says(content, JournalDecision) && Says(content, JournalRequestCommitment)
            && Says(content, JournalProofNonce) && Says(content, PolicyId)
            && Says(content, ExpectCommitment) && Says(content, ExpectDecision) && Says(content, ExpectProofNonce)
  {
    if EverySaid(content) {
      assert IsContent(JournalParses) && IsContent(JournalKeySet) && IsContent(JournalProtocolVersion);
      assert IsContent(JournalDecision) && IsContent(JournalRequestCommitment) && IsContent(JournalProofNonce);
      assert IsContent(PolicyId) && IsContent(ExpectCommitment) && IsContent(ExpectDecision);
      assert IsContent(ExpectProofNonce);
    }
  }

  // ------------------------------------------------------------ the Rust verifier

  /** What the manifest pins. */
  ghost predicate Pins(m: ReleaseManifest) {
    && |m.imageIdHex| == 64 && IsLowerHex(m.imageIdHex) && Is0xSha256(m.policyId) && Is0xSha256(m.rulesDigest)
    && m.journalVersion == 1 && m.receiptCodec == "bincode-v1" && m.builtAt != "" && m.risc0Version != ""
  }

  /** The receipt claims the pinned image, its seal is valid for it, and the policy files give the pinned digests. */
  ghost predicate Proves(z: Zkvm, m: ReleaseManifest, receipt: Receipt, policy: PolicySource) {
    && ImageWords(m.imageIdHex).Some?
    && z.claimedImage(receipt) == ImageWords(m.imageIdHex) && z.sealValid(receipt, ImageWords(m.imageIdHex).value)
    && (policy.SkippedByFlag? || policy == Derived(m.policyId, m.rulesDigest))
  }

  lemma ReceiptChecks(z: Zkvm, i: Inputs, m: ReleaseManifest, receipt: Receipt)
    requires i.manifest == Some(m) && Decoded(z, i) == Some(receipt)
    ensures (forall c :: !IsContent(c) ==> ReceiptHolds(z, m, Some(receipt), i.policy, c))
       <==> Pins(m) && Proves(z, m, receipt, i.policy)
  {
    if forall c :: !IsContent(c) ==> ReceiptHolds(z, m, Some(receipt), i.policy, c) {
      assert !IsContent(Manifest) && !IsContent(ReceiptCodec) && !IsContent(ImageIdClaimed) && !IsContent(Seal);
      assert !IsContent(RulesDigest);
      assert ReceiptHolds(z, m, Some(receipt), i.policy, RulesDigest);
      assert ReceiptHolds(z, m, Some(receipt), i.policy, Manifest);
    }
  }

  lemma RustSplits(z: Zkvm, i: Inputs, m: ReleaseManifest)
    requires i.manifest == Some(m)
    ensures RustVerifies(z, i)
       <==> && (forall c :: !IsContent(c) ==> ReceiptHolds(z, m, Decoded(z, i), i.policy, c))
            && AllSaid(ContentOf(z, i, m))
  {
    forall c | !IsContent(c) ensures c in Order(i.expected) {
      OrderAt(i.expected, Place(c));
    }
    if RustVerifies(z, i) {
      forall c | !IsContent(c) ensures ReceiptHolds(z, m, Decoded(z, i), i.policy, c) { assert Holds(z, i, c); }
      forall c | c in Order(i.expected) && IsContent(c) ensures Says(ContentOf(z, i, m), c) { assert Holds(z, i, c); }
    }
  }

  lemma VersionIsOne(m: ReleaseManifest, n: nat)
    requires m.journalVersion == 1
    ensures VersionTest(m)(IntToString(n)) <==> n == 1
  {
    DigitsReadBack(n);
  }

  /**
    The Rust verifier accepts a receipt that carries a guest's print if and only if the manifest pins what it must, the
    receipt is proved for the pinned image, and the journal's version, decision, commitment, nonce and policy fit, the
    expectations among them.
  */
  lemma RustAcceptsExactlyWhen(z: Zkvm, i: Inputs, nfc: string -> string, j: Journal)
    requires Decoded(z, i).Some? && Decoded(z, i).value.journal == Utf8Of(GuestPrint(nfc, j))
    ensures RustVerifies(z, i)
       <==> && i.manifest.Some?
            && var m := i.manifest.value;
               && Pins(m) && Proves(z, m, Decoded(z, i).value, i.policy)
               && j.protocolVersion == 1 && Fits(nfc, j, m.policyId, i.expected)
  {
    GuestReads(nfc, j, true);
    if i.manifest.Some? {
      var m := i.manifest.value;
      RustSplits(z, i, m);
      ReceiptChecks(z, i, m, Decoded(z, i).value);
      ContentHoldsExactlyWhen(ContentOf(z, i, m), nfc, j);
      if m.journalVersion == 1 { VersionIsOne(m, j.protocolVersion); }
    } else {
      InOrder(i.expected, Manifest);
      assert !Holds(z, i, Manifest);
    }
  }

  // ------------------------------------------------------------ the browser's verifier

  ghost predicate PinsForBrowser(m: JsManifest) {
    && |m.imageIdHex| == 64 && IsLowerHex(m.imageIdHex) && Is0xSha256(m.policyId) && Is0xSha256(m.rulesDigest)
    && (m.journalVersion.Some? ==> m.journalVersion.value == 1)
    && (m.receiptCodec.Some? ==> m.receiptCodec.value == "bincode-v1")
  }

  lemma LocalChecks(framed: Framed, m: JsManifest)
    ensures (forall c :: !IsContent(c) ==> LocalHolds(Some(framed), m, c))
            <==> PinsForBrowser(m) && framed.innerTag != 3
  {
    if forall c :: !IsContent(c) ==> LocalHolds(Some(framed), m, c) {
      assert !IsContent(Manifest) && !IsContent(ReceiptCodec) && !IsContent(Seal);
      assert LocalHolds(Some(framed), m, Manifest) && LocalHolds(Some(framed), m, Seal);
    }
  }

  lemma BrowserSplits(b: Bytes, m: JsManifest, numberIs: NumberIs, e: Expectations)
    ensures BrowserVerifies(b, m, numberIs, e)
       <==> && (forall c :: !IsContent(c) ==> LocalHolds(JournalOf(b), m, c))
            && AllSaid(BrowserContent(JournalOf(b), m, numberIs, e))
  {
    var framed := JournalOf(b);
    forall c | !IsContent(c) ensures c in Order(e) {
      OrderAt(e, Place(c));
    }
    if BrowserVerifies(b, m, numberIs, e) {
      forall c | !IsContent(c) ensures LocalHolds(framed, m, c) { assert TsHolds(framed, m, numberIs, e, c); }
      forall c | c in Order(e) && IsContent(c) ensures Says(BrowserContent(framed, m, numberIs, e), c) {
        assert TsHolds(framed, m, numberIs, e, c);
      }
    }
  }

  /** The browser's own checks all pass on bytes whose framed journal is a guest's print under the same conditions. */
  lemma BrowserPassesExactlyWhen(b: Bytes, m: JsManifest, numberIs: NumberIs, e: Expectations, nfc: string -> string,
                                 j: Journal, innerTag: nat)
    requires JournalOf(b) == Some(Framed(innerTag, Obj(GuestMembers(nfc, j))))
    ensures BrowserVerifies(b, m, numberIs, e)
       <==> && PinsForBrowser(m) && innerTag != 3
            && numberIs(IntToString(j.protocolVersion), 1) && Fits(nfc, j, m.policyId, e)
  {
    BrowserSplits(b, m, numberIs, e);
    LocalChecks(Framed(innerTag, Obj(GuestMembers(nfc, j))), m);
    ContentHoldsExactlyWhen(BrowserContent(JournalOf(b), m, numberIs, e), nfc, j);
    assert PinsForBrowser(m) ==> VersionOf(m) == 1;
  }

  // ------------------------------------------------------------ reports

  /** Every check there can be, in the order it is made and reported in. */
  ghost function Sixteen(): (all: seq<Check>)
    ensures |all| == 16
  {
    [Manifest, ReceiptCodec, ReceiptDecodes, ImageIdClaimed, Seal, JournalParses, JournalKeySet,
     JournalProtocolVersion, JournalDecision, JournalRequestCommitment, JournalProofNonce, PolicyId, RulesDigest,
     ExpectCommitment, ExpectDecision, ExpectProofNonce]
  }

  /** A run makes the first thirteen, and then those of the last three for which an expectation is given. */
  lemma OrderIsOfSixteen(e: Expectations)
    ensures |Order(e)| >= 13 && Order(e)[..13] == Sixteen()[..13]
    ensures var given := [e.commitment.Some?, e.decision.Some?, e.proofNonce.Some?];
            Order(e)[13..] == (if given[0] then [Sixteen()[13]] else []) + (if given[1] then [Sixteen()[14]] else [])
                              + (if given[2] then [Sixteen()[15]] else [])
  {
    forall k | 0 <= k < 13 ensures Order(e)[k] == Sixteen()[k] { OrderAt(e, k); }
  }

  /** Of the lines the Rust verifier reports only the rules digest can be not available, and is if skipped by flag. */
  lemma RustReports(z: Zkvm, i: Inputs, r: Report, k: nat)
    requires Longest(RustPlan(z, i), r) && k < |r.lines|
    ensures r.lines[k].check == Order(i.expected)[k]
    ensures r.lines[k].status
            == if r.lines[k].check == RulesDigest && i.policy == SkippedByFlag then NotAvailable else Passed
  {
    assert r.lines[k] == Line(Order(i.expected)[k], RustPlan(z, i).status(Order(i.expected)[k]));
  }

  /** The browser reports exactly the image id, the seal and the rules digest as delegated. */
  lemma BrowserReports(b: Bytes, m: JsManifest, numberIs: NumberIs, e: Expectations, r: Report, k: nat)
    requires Longest(TsPlan(JournalOf(b), m, numberIs, e), r) && k < |r.lines|
    ensures r.lines[k].check == Order(e)[k]
    ensures r.lines[k].status == if r.lines[k].check in {ImageIdClaimed, Seal, RulesDigest} then Delegated else Passed
  {
    var p := TsPlan(JournalOf(b), m, numberIs, e);
    assert r.lines[k] == Line(p.order[k], p.status(p.order[k]));
  }
}
