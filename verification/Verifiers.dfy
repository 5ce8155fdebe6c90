/** `run_checks` of prover/verify/src/lib.rs, and what it shares with packages/verify/src/verify.ts. */
module Verifiers {
  import opened Canonicalizers
  import opened Encoding
  import opened Framing
  import opened ImageId
  import opened Json
  import opened Preimages
  import opened Texts
  import opened Wrappers

  datatype Check =
    | Manifest | ReceiptCodec | ReceiptDecodes | ImageIdClaimed | Seal
    | JournalParses | JournalKeySet | JournalProtocolVersion | JournalDecision | JournalRequestCommitment
      | JournalProofNonce
    | PolicyId | RulesDigest | ExpectCommitment | ExpectDecision | ExpectProofNonce

  datatype Expectations = Expectations(commitment: Option<string>, decision: Option<string>, proofNonce: Option<string>)

  /** The checks of every run, in order. */
  function Nth(k: nat): Check
    requires k < 13
  {
    match k
    case 0 => Manifest
    case 1 => ReceiptCodec
    case 2 => ReceiptDecodes
    case 3 => ImageIdClaimed
    case 4 => Seal
    case 5 => JournalParses
    case 6 => JournalKeySet
    case 7 => JournalProtocolVersion
    case 8 => JournalDecision
    case 9 => JournalRequestCommitment
    case 10 => JournalProofNonce
    case 11 => PolicyId
    case _ => RulesDigest
  }

  /** The checks of a run, in order: an expectation that is absent is not checked. */
  function Order(e: Expectations): seq<Check> {
    seq(13, k requires 0 <= k < 13 => Nth(k)) + (if e.commitment.Some? then [ExpectCommitment] else [])
                                              + (if e.decision.Some? then [ExpectDecision] else [])
                                              + (if e.proofNonce.Some? then [ExpectProofNonce] else [])
  }

  predicate Always(c: Check) {
    !c.ExpectCommitment? && !c.ExpectDecision? && !c.ExpectProofNonce?
  }

  function Place(c: Check): (k: nat)
    ensures k < 13 && (Always(c) ==> Nth(k) == c)
  {
    match c
    case Manifest => 0
    case ReceiptCodec => 1
    case ReceiptDecodes => 2
    case ImageIdClaimed => 3
    case Seal => 4
    case JournalParses => 5
    case JournalKeySet => 6
    case JournalProtocolVersion => 7
    case JournalDecision => 8
    case JournalRequestCommitment => 9
    case JournalProofNonce => 10
    case PolicyId => 11
    case _ => 12
  }

  lemma OrderAt(e: Expectations, k: nat)
    requires k < 13
    ensures |Order(e)| > k && Order(e)[k] == Nth(k)
  {}

  // ------------------------------------------------------------ runs of checks

  datatype Status = Passed | NotAvailable | Delegated

  datatype Line = Line(check: Check, status: Status)

  datatype Report = Report(lines: seq<Line>, failure: Option<Check>)

  /** Checks in order, what each asks given that the ones before it hold, and how it is reported then. */
  datatype Plan = Plan(order: seq<Check>, holds: Check -> bool, status: Check -> Status)

  /** The lines are an initial run of the order, and every check of it holds. */
  ghost predicate Ran(p: Plan, lines: seq<Line>) {
    && |lines| <= |p.order|
    && forall k :: 0 <= k < |lines| ==> lines[k] == Line(p.order[k], p.status(p.order[k])) && p.holds(p.order[k])
  }

  /**
    It is the longest such run: a failure names the next check, and there is none exactly when the order is
    exhausted.
  */
  ghost predicate Longest(p: Plan, r: Report) {
    && Ran(p, r.lines)
    && match r.failure
       case None => |r.lines| == |p.order|
       case Some(c) => |r.lines| < |p.order| && c == p.order[|r.lines|] && !p.holds(c)
  }

  /** The run after the first `k` checks, or at its first failure. */
  ghost predicate Segment(p: Plan, k: nat, r: Report) {
    if r.failure.None? then Ran(p, r.lines) && |r.lines| == k else Longest(p, r)
  }

  /** One check: it is reported when it holds and ends the run when it does not. */
  method Ask(p: Plan, before: Report, c: Check, holds: bool, ghost k: nat) returns (r: Report)
    requires Segment(p, k, before) && k < |p.order| && p.order[k] == c
    requires before.failure.None? ==> holds == p.holds(c)
    ensures Segment(p, k + 1, r)
  {
    r := before;
    if r.failure.None? {
      if holds {
        r := r.(lines := r.lines + [Line(c, p.status(c))]);
      } else {
        r := r.(failure := Some(c));
      }
    }
  }

  /** The `k`-th check of the plan, and what it asks. */
  ghost predicate Asks(p: Plan, k: nat, c: Check, holds: bool) {
    k < |p.order| && p.order[k] == c && p.holds(c) == holds
  }

  lemma Earlier(p: Plan, k: nat, r: Report, j: nat)
    requires Segment(p, k, r) && r.failure.None? && j < k
    ensures j < |p.order| && p.holds(p.order[j])
  {
    assert r.lines[j] == Line(p.order[j], p.status(p.order[j]));
  }

  /** All checks hold exactly when there is no failure. */
  lemma VerifiedExactlyWhenAllHold(p: Plan, r: Report)
    requires Longest(p, r)
    ensures r.failure.None? <==> forall c <- p.order :: p.holds(c)
  {
    if r.failure.None? {
      forall c | c in p.order ensures p.holds(c) {
        var k :| 0 <= k < |p.order| && p.order[k] == c;
        assert r.lines[k] == Line(p.order[k], p.status(p.order[k]));
      }
    }
  }

  // ------------------------------------------------------------ what both look at

  predicate Is0xSha256(s: string) {
    |s| == 66 && s[..2] == "0x" && IsLowerHex(s[2..])
  }

  /** The guest's bound: `^(0x)?[0-9a-f]{1,64}$`. */
  predicate IsProofNonce(s: string) {
    var digits := if "0x" <= s then s[2..] else s;
    1 <= |digits| <= 64 && IsLowerHex(digits)
  }

  /** The guest strips an optional prefix, the browser matches the expression; they accept the same nonces. */
  lemma NonceIsTheExpression(s: string)
    ensures IsProofNonce(s)
            <==> exists digits :: (s == digits || s == "0x" + digits) && 1 <= |digits| <= 64 && IsLowerHex(digits)
  {
    if IsProofNonce(s) {
      var digits := if "0x" <= s then s[2..] else s;
      assert s == digits || s == "0x" + digits;
    }
    if digits :| (s == digits || s == "0x" + digits) && 1 <= |digits| <= 64 && IsLowerHex(digits) {
      if s == digits {
        assert |s| >= 2 ==> s[1] != 'x';
      } else {
        assert s[2..] == digits;
      }
    }
  }

  const JOURNAL_KEYS: set<Text> :=
    {Plain("decision"), Plain("policyId"), Plain("proofNonce"), Plain("protocolVersion"), Plain("requestCommitment")}

  const CODEC := "bincode-v1"
  const JOURNAL_VERSION: nat := 1

  /** Of several members of one name the last one counts, in both languages. */
  function MemberValue(members: seq<Member>, key: string): Option<Json> {
    if members == [] then None
    else if members[|members| - 1].key == Plain(key) then Some(members[|members| - 1].value)
    else MemberValue(members[..|members| - 1], key)
  }

  function KeysOf(members: seq<Member>): set<Text> {
    set m <- members :: m.key
  }

  predicate StringField(doc: Option<Json>, key: string, accepts: string -> bool) {
    && doc.Some? && doc.value.Obj?
    && match MemberValue(doc.value.members, key)
       case Some(Str(Plain(s))) => accepts(s)
       case _ => false
  }

  predicate NumberField(doc: Option<Json>, key: string, accepts: string -> bool) {
    && doc.Some? && doc.value.Obj?
    && match MemberValue(doc.value.members, key)
       case Some(Num(lexeme)) => accepts(lexeme)
       case _ => false
  }

  predicate Expected(e: Option<string>, doc: Option<Json>, key: string) {
    e.Some? ==> StringField(doc, key, s => s == e.value)
  }

  predicate IsDecision(s: string) {
    s == "ALLOW" || s == "DENY"
  }

  function PolicyTest(policyId: string): string -> bool {
    (s: string) => Is0xSha256(s) && s == policyId
  }

  /** The checks of the journal's content; `isVersion` tells which number literals are the journal version. */
  predicate ContentHolds(c: Check, doc: Option<Json>, isVersion: string -> bool, policyId: string, e: Expectations) {
    match c
    case JournalParses => doc.Some? && doc.value.Obj?
    case JournalKeySet => doc.Some? && doc.value.Obj? && KeysOf(doc.value.members) == JOURNAL_KEYS
    case JournalProtocolVersion => NumberField(doc, "protocolVersion", isVersion)
    case JournalDecision => StringField(doc, "decision", IsDecision)
    case JournalRequestCommitment => StringField(doc, "requestCommitment", Is0xSha256)
    case JournalProofNonce => StringField(doc, "proofNonce", IsProofNonce)
    case PolicyId => StringField(doc, "policyId", PolicyTest(policyId))
    case ExpectCommitment => Expected(e.commitment, doc, "requestCommitment")
    case ExpectDecision => Expected(e.decision, doc, "decision")
    case ExpectProofNonce => Expected(e.proofNonce, doc, "proofNonce")
    case _ => true
  }

  predicate IsContent(c: Check) {
    c.JournalParses? || c.JournalKeySet? || c.JournalProtocolVersion? || c.JournalDecision?
    || c.JournalRequestCommitment? || c.JournalProofNonce? || c.PolicyId?
    || c.ExpectCommitment? || c.ExpectDecision? || c.ExpectProofNonce?
  }

  /** What is to be known of the journal: the same in both verifiers but for the reading of numbers. */
  datatype Content = Content(doc: Option<Json>, isVersion: string -> bool, policyId: string, expected: Expectations)

  predicate Says(j: Content, c: Check) {
    ContentHolds(c, j.doc, j.isVersion, j.policyId, j.expected)
  }

  ghost predicate AsksJournal(p: Plan, j: Content) {
    forall k | 5 <= k < 12 :: Asks(p, k, Nth(k), Says(j, Nth(k)))
  }

  ghost predicate AsksExpectations(p: Plan, j: Content) {
    var e := j.expected;
    var a := 13;
    var b := if e.commitment.Some? then a + 1 else a;
    var c := if e.decision.Some? then b + 1 else b;
    && (e.commitment.Some? ==> Asks(p, a, ExpectCommitment, Says(j, ExpectCommitment)))
    && (e.decision.Some? ==> Asks(p, b, ExpectDecision, Says(j, ExpectDecision)))
    && (e.proofNonce.Some? ==> Asks(p, c, ExpectProofNonce, Says(j, ExpectProofNonce)))
    && |p.order| == if e.proofNonce.Some? then c + 1 else c
  }

  lemma JournalAsked(p: Plan, j: Content)
    requires p.order == Order(j.expected) && forall c :: IsContent(c) ==> p.holds(c) == Says(j, c)
    ensures AsksJournal(p, j)
  {
    forall k | 5 <= k < 12 ensures Asks(p, k, Nth(k), Says(j, Nth(k))) {
      OrderAt(j.expected, k);
      assert IsContent(Nth(k));
    }
  }

  lemma ExpectationsAsked(p: Plan, j: Content)
    requires p.order == Order(j.expected) && forall c :: IsContent(c) ==> p.holds(c) == Says(j, c)
    ensures AsksExpectations(p, j)
  {
    assert IsContent(ExpectCommitment) && IsContent(ExpectDecision) && IsContent(ExpectProofNonce);
  }

  method AskContent(p: Plan, j: Content, before: Report, c: Check, ghost k: nat) returns (r: Report)
    requires Segment(p, k, before) && Asks(p, k, c, Says(j, c))
    ensures Segment(p, k + 1, r)
  {
    r := Ask(p, before, c, Says(j, c), k);
  }

  method CheckJournal(p: Plan, j: Content, before: Report) returns (r: Report)
    requires Segment(p, 5, before) && AsksJournal(p, j)
    ensures Segment(p, 11, r)
  {
    assert Nth(5) == JournalParses && Nth(6) == JournalKeySet && Nth(7) == JournalProtocolVersion;
    assert Nth(8) == JournalDecision && Nth(9) == JournalRequestCommitment && Nth(10) == JournalProofNonce;
    r := AskContent(p, j, before, JournalParses, 5);
    r := AskContent(p, j, r, JournalKeySet, 6);
    r := AskContent(p, j, r, JournalProtocolVersion, 7);
    r := AskContent(p, j, r, JournalDecision, 8);
    r := AskContent(p, j, r, JournalRequestCommitment, 9);
    r := AskContent(p, j, r, JournalProofNonce, 10);
  }

  method CheckExpectations(p: Plan, j: Content, before: Report) returns (r: Report)
    requires Segment(p, 13, before) && AsksExpectations(p, j)
    ensures Longest(p, r)
  {
    r := before;
    ghost var k := 13;
    if j.expected.commitment.Some? {
      r := AskContent(p, j, r, ExpectCommitment, k);
      k := k + 1;
    }
    if j.expected.decision.Some? {
      r := AskContent(p, j, r, ExpectDecision, k);
      k := k + 1;
    }
    if j.expected.proofNonce.Some? {
      r := AskContent(p, j, r, ExpectProofNonce, k);
      k := k + 1;
    }
  }

  // ------------------------------------------------------------ the Rust verifier

  datatype ReleaseManifest = ReleaseManifest(
    imageIdHex: string, policyId: string, rulesDigest: string, journalVersion: nat,
    receiptCodec: string, builtAt: string, risc0Version: string)

  datatype Receipt = Receipt(inner: Bytes, journal: Bytes, metadata: Bytes)

  /** Decoding, claims and seals, taken as given. */
  datatype Zkvm = Zkvm(
    decode: Bytes -> Option<Receipt>,
    claimedImage: Receipt -> Option<seq<nat>>,
    sealValid: (Receipt, seq<nat>) -> bool)

  /** What the policy directory yields, or that it is skipped on purpose. */
  datatype PolicySource = SkippedByFlag | Unreadable | Uncanonical | Derived(policyId: string, rulesDigest: string)

  /** `manifest` is absent when the file is no release manifest. */
  datatype Inputs = Inputs(manifest: Option<ReleaseManifest>, receipt: Bytes, policy: PolicySource,
                           expected: Expectations)

  predicate ManifestShape(m: ReleaseManifest) {
    && IsImageIdHex(m.imageIdHex) && Is0xSha256(m.policyId) && Is0xSha256(m.rulesDigest)
    && m.journalVersion == JOURNAL_VERSION && m.builtAt != "" && m.risc0Version != ""
  }

  function JournalDoc(strict: bool, journal: Bytes): Option<Json> {
    match Utf8Decode(journal)
    case None => None
    case Some(text) => ParseText(strict, text)
  }

  /** `Value::as_u64`: an integer literal without sign, fraction or exponent. */
  function AsU64(lexeme: string): Option<nat> {
    if lexeme != "" && (forall c <- lexeme :: IsDigit(c)) && DigitsValue(lexeme) < 0x1_0000_0000_0000_0000
    then Some(DigitsValue(lexeme)) else None
  }

  function VersionTest(m: ReleaseManifest): string -> bool {
    (lexeme: string) => AsU64(lexeme) == Some(m.journalVersion)
  }

  function Decoded(z: Zkvm, i: Inputs): Option<Receipt> {
    z.decode(i.receipt)
  }

  function RustDoc(z: Zkvm, i: Inputs): Option<Json> {
    match z.decode(i.receipt)
    case None => None
    case Some(r) => JournalDoc(true, r.journal)
  }

  /** The checks of the manifest, the receipt and the policy directory. */
  predicate ReceiptHolds(z: Zkvm, m: ReleaseManifest, receipt: Option<Receipt>, policy: PolicySource, c: Check) {
    match c
    case Manifest => ManifestShape(m)
    case ReceiptCodec => m.receiptCodec == CODEC
    case ReceiptDecodes => receipt.Some?
    case ImageIdClaimed =>
      receipt.Some? && ImageWords(m.imageIdHex).Some? && z.claimedImage(receipt.value) == ImageWords(m.imageIdHex)
    case Seal =>
      receipt.Some? && ImageWords(m.imageIdHex).Some? && z.sealValid(receipt.value, ImageWords(m.imageIdHex).value)
    case RulesDigest => policy.SkippedByFlag? || policy == Derived(m.policyId, m.rulesDigest)
    case _ => true
  }

  function ContentOf(z: Zkvm, i: Inputs, m: ReleaseManifest): Content {
    Content(RustDoc(z, i), VersionTest(m), m.policyId, i.expected)
  }

  /** What a check asks, given that the ones before it hold. */
  predicate Holds(z: Zkvm, i: Inputs, c: Check) {
    && i.manifest.Some?
    && var m := i.manifest.value;
       if IsContent(c) then Says(ContentOf(z, i, m), c) else ReceiptHolds(z, m, Decoded(z, i), i.policy, c)
  }

  /** The Rust run: a check that is skipped by flag is reported as not available. */
  function RustPlan(z: Zkvm, i: Inputs): Plan {
    Plan(Order(i.expected), (c: Check) => Holds(z, i, c),
         (c: Check) => if c.RulesDigest? && i.policy.SkippedByFlag? then NotAvailable else Passed)
  }

  ghost predicate AsksReceipt(p: Plan, z: Zkvm, m: ReleaseManifest, receipt: Option<Receipt>, policy: PolicySource) {
    forall k | 0 <= k < 5 || k == 12 :: Asks(p, k, Nth(k), ReceiptHolds(z, m, receipt, policy, Nth(k)))
  }

  lemma ReceiptAsked(p: Plan, e: Expectations, z: Zkvm, m: ReleaseManifest, receipt: Option<Receipt>,
                     policy: PolicySource)
    requires p.order == Order(e) && forall c :: !IsContent(c) ==> p.holds(c) == ReceiptHolds(z, m, receipt, policy, c)
    ensures AsksReceipt(p, z, m, receipt, policy)
  {
    forall k | 0 <= k < 5 || k == 12 ensures Asks(p, k, Nth(k), ReceiptHolds(z, m, receipt, policy, Nth(k))) {
      OrderAt(e, k);
      assert !IsContent(Nth(k));
    }
  }

  lemma RulesAsked(p: Plan, z: Zkvm, m: ReleaseManifest, receipt: Option<Receipt>, policy: PolicySource)
    requires AsksReceipt(p, z, m, receipt, policy)
    ensures Asks(p, 12, RulesDigest, policy.SkippedByFlag? || policy == Derived(m.policyId, m.rulesDigest))
  {
    assert Nth(12) == RulesDigest;
  }

  lemma PlanAsks(z: Zkvm, i: Inputs, m: ReleaseManifest)
    requires i.manifest == Some(m)
    ensures var p := RustPlan(z, i);
            && AsksReceipt(p, z, m, Decoded(z, i), i.policy)
            && AsksJournal(p, ContentOf(z, i, m)) && AsksExpectations(p, ContentOf(z, i, m))
  {
    var p, j := RustPlan(z, i), ContentOf(z, i, m);
    ReceiptAsked(p, i.expected, z, m, Decoded(z, i), i.policy);
    JournalAsked(p, j);
    ExpectationsAsked(p, j);
  }

  method Verify(z: Zkvm, i: Inputs) returns (r: Report)
    ensures Longest(RustPlan(z, i), r)
  {
    var p := RustPlan(z, i);
    OrderAt(i.expected, 0);
    r := Ask(p, Report([], None), Manifest, i.manifest.Some? && ManifestShape(i.manifest.value), 0);
    if r.failure.Some? { return; }
    Earlier(p, 1, r, 0);
    var m := i.manifest.value;
    PlanAsks(z, i, m);
    r := CheckReceipt(p, z, i, m, r);
    if r.failure.Some? { return; }
    RulesAsked(p, z, m, Decoded(z, i), i.policy);
    r := CheckContent(p, ContentOf(z, i, m), i.policy, m, r);
  }

  method CheckReceipt(p: Plan, z: Zkvm, i: Inputs, m: ReleaseManifest, before: Report) returns (r: Report)
    requires Segment(p, 1, before) && before.failure.None? && AsksReceipt(p, z, m, z.decode(i.receipt), i.policy)
    ensures Segment(p, 5, r)
  {
    var receipt := z.decode(i.receipt);
    assert Nth(1) == ReceiptCodec && Nth(2) == ReceiptDecodes && Nth(3) == ImageIdClaimed && Nth(4) == Seal;
    r := Ask(p, before, ReceiptCodec, m.receiptCodec == CODEC, 1);
    r := Ask(p, r, ReceiptDecodes, receipt.Some?, 2);
    if r.failure.Some? { return; }
    Earlier(p, 3, r, 2);
    var ok, words := ImageIdFromHex(m.imageIdHex);
    var id := if ok then Some(words[..]) else None;
    r := Ask(p, r, ImageIdClaimed, id.Some? && z.claimedImage(receipt.value) == id, 3);
    r := Ask(p, r, Seal, id.Some? && z.sealValid(receipt.value, id.value), 4);
  }

  method CheckContent(p: Plan, j: Content, policy: PolicySource, m: ReleaseManifest, before: Report) returns (r: Report)
    requires Segment(p, 5, before) && AsksJournal(p, j) && AsksExpectations(p, j)
    requires Asks(p, 12, RulesDigest, policy.SkippedByFlag? || policy == Derived(m.policyId, m.rulesDigest))
    ensures Longest(p, r)
  {
    r := CheckJournal(p, j, before);
    assert Nth(11) == PolicyId;
    r := AskContent(p, j, r, PolicyId, 11);
    r := Ask(p, r, RulesDigest, policy.SkippedByFlag? || policy == Derived(m.policyId, m.rulesDigest), 12);
    r := CheckExpectations(p, j, r);
  }
}
