/** `verifyReceipt` of packages/verify/src/verify.ts, and how it stands to the Rust verifier. */
module BrowserVerifier {
  import opened Canonical
  import opened Canonicalizers
  import opened Encoding
  import opened Framing
  import opened ImageId
  import opened Json
  import opened Preimages
  import opened Verifiers
  import opened Wrappers

  const INNER_TAG_FAKE := 3

  datatype JsManifest = JsManifest(imageIdHex: string, policyId: string, rulesDigest: string,
                                   journalVersion: Option<nat>, receiptCodec: Option<string>)

  /** JavaScript's reading of number literals: whether a literal `===` an integer. */
  type NumberIs = (string, nat) -> bool

  function VersionOf(m: JsManifest): nat {
    if m.journalVersion.Some? then m.journalVersion.value else JOURNAL_VERSION
  }

  function CodecOf(m: JsManifest): string {
    if m.receiptCodec.Some? then m.receiptCodec.value else CODEC
  }

  function TsDoc(framed: Option<Framed>): Option<Json> {
    match framed
    case None => None
    case Some(f) => Some(f.journal)
  }

  function BrowserVersion(m: JsManifest, numberIs: NumberIs): string -> bool {
    (lexeme: string) => numberIs(lexeme, VersionOf(m))
  }

  function BrowserContent(framed: Option<Framed>, m: JsManifest, numberIs: NumberIs, expected: Expectations): Content {
    Content(TsDoc(framed), BrowserVersion(m, numberIs), m.policyId, expected)
  }

  /** The checks of the manifest and the frame; the image and the rules are not looked at. */
  predicate LocalHolds(framed: Option<Framed>, m: JsManifest, c: Check) {
    match c
    case Manifest =>
      && IsImageIdHex(m.imageIdHex) && Is0xSha256(m.policyId) && Is0xSha256(m.rulesDigest)
      && VersionOf(m) == JOURNAL_VERSION
    case ReceiptCodec => CodecOf(m) == CODEC
    case ReceiptDecodes => framed.Some?
    case Seal => framed.Some? && framed.value.innerTag != INNER_TAG_FAKE
    case _ => true
  }

  predicate TsHolds(framed: Option<Framed>, m: JsManifest, numberIs: NumberIs, expected: Expectations, c: Check) {
    if IsContent(c) then Says(BrowserContent(framed, m, numberIs, expected), c) else LocalHolds(framed, m, c)
  }

  /** The browser's run: the image, the seal and the rules are reported as delegated, and do not count as passed. */
  function TsPlan(framed: Option<Framed>, m: JsManifest, numberIs: NumberIs, expected: Expectations): Plan {
    Plan(Order(expected), (c: Check) => TsHolds(framed, m, numberIs, expected, c),
         (c: Check) => if c.ImageIdClaimed? || c.Seal? || c.RulesDigest? then Delegated else Passed)
  }

  /** The one frame of a byte string, if there is one. */
  ghost function FramedOf(read: Reader, b: Bytes): Option<Framed> {
    if exists len :: Frames(read, b, len) then
      var len :| Frames(read, b, len);
      Some(FrameRead(read, b, len))
    else None
  }

  lemma FramedAt(read: Reader, b: Bytes, len: nat)
    requires RefusesNul(read) && Frames(read, b, len)
    ensures FramedOf(read, b) == Some(FrameRead(read, b, len))
  {
    OnlyFrame(read, b, len);
  }

  ghost function JournalOf(b: Bytes): Option<Framed> {
    FramedOf(ReadJournal, b)
  }

  ghost predicate AsksLocal(p: Plan, framed: Option<Framed>, m: JsManifest) {
    forall k | 0 <= k < 5 || k == 12 :: Asks(p, k, Nth(k), LocalHolds(framed, m, Nth(k)))
  }

  lemma LocalAsked(p: Plan, e: Expectations, framed: Option<Framed>, m: JsManifest)
    requires p.order == Order(e) && forall c :: !IsContent(c) ==> p.holds(c) == LocalHolds(framed, m, c)
    ensures AsksLocal(p, framed, m)
  {
    forall k | 0 <= k < 5 || k == 12 ensures Asks(p, k, Nth(k), LocalHolds(framed, m, Nth(k))) {
      OrderAt(e, k);
      assert !IsContent(Nth(k));
    }
  }

  lemma BrowserAsks(framed: Option<Framed>, m: JsManifest, numberIs: NumberIs, e: Expectations)
    ensures var p, j := TsPlan(framed, m, numberIs, e), BrowserContent(framed, m, numberIs, e);
            AsksLocal(p, framed, m) && AsksJournal(p, j) && AsksExpectations(p, j)
  {
    var p, j := TsPlan(framed, m, numberIs, e), BrowserContent(framed, m, numberIs, e);
    LocalAsked(p, e, framed, m);
    JournalAsked(p, j);
    ExpectationsAsked(p, j);
  }

  method VerifyReceipt(receipt: Bytes, m: JsManifest, numberIs: NumberIs, expected: Expectations) returns (r: Report)
    ensures Longest(TsPlan(JournalOf(receipt), m, numberIs, expected), r)
  {
    JournalsRefuseNul();
    var framed := FrameJournal(receipt);
    assert framed == JournalOf(receipt);
    r := Report([], None);
    BrowserAsks(framed, m, numberIs, expected);
    r := CheckFrame(TsPlan(framed, m, numberIs, expected), framed, m, r);
    r := CheckFramed(TsPlan(framed, m, numberIs, expected), BrowserContent(framed, m, numberIs, expected), framed, m,
                     r);
  }

  method CheckFrame(p: Plan, framed: Option<Framed>, m: JsManifest, before: Report) returns (r: Report)
    requires Segment(p, 0, before) && AsksLocal(p, framed, m)
    ensures Segment(p, 5, r)
  {
    assert Nth(0) == Manifest && Nth(1) == ReceiptCodec && Nth(2) == ReceiptDecodes && Nth(3) == ImageIdClaimed;
    assert Nth(4) == Seal;
    r := Ask(p, before, Manifest, LocalHolds(framed, m, Manifest), 0);
    r := Ask(p, r, ReceiptCodec, CodecOf(m) == CODEC, 1);
    r := Ask(p, r, ReceiptDecodes, framed.Some?, 2);
    r := Ask(p, r, ImageIdClaimed, true, 3);
    r := Ask(p, r, Seal, framed.Some? && framed.value.innerTag != INNER_TAG_FAKE, 4);
  }

  method CheckFramed(p: Plan, j: Content, framed: Option<Framed>, m: JsManifest, before: Report) returns (r: Report)
    requires Segment(p, 5, before) && AsksLocal(p, framed, m) && AsksJournal(p, j) && AsksExpectations(p, j)
    ensures Longest(p, r)
  {
    r := CheckJournal(p, j, before);
    assert Nth(11) == PolicyId && Nth(12) == RulesDigest;
    r := AskContent(p, j, r, PolicyId, 11);
    r := Ask(p, r, RulesDigest, true, 12);
    r := CheckExpectations(p, j, r);
  }

  // ------------------------------------------------------------ from the Rust verifier to the browser

  /** What the zkVM is taken to do: fixed-width bincode, all of it consumed, and no seal for a dev-mode stub. */
  ghost predicate ZkvmSound(z: Zkvm) {
    && (forall b :: z.decode(b).Some? ==> LaidOut(b, z.decode(b).value))
    && (forall r: Receipt, id :: |r.inner| >= 4 && z.sealValid(r, id) ==> ReadU32LE(r.inner, 0) != INNER_TAG_FAKE)
  }

  ghost predicate LaidOut(b: Bytes, r: Receipt) {
    |r.inner| >= 4 && |r.journal| < 0x1_0000_0000 && |r.metadata| == 32
      && b == LayOut(r.inner, r.journal, r.metadata)
  }

  /** JavaScript reads an integer literal within the safe range as that integer. */
  ghost predicate ReadsIntegers(numberIs: NumberIs) {
    forall lexeme :: AsU64(lexeme).Some? && AsU64(lexeme).value <= MAX_SAFE_INTEGER ==>
      numberIs(lexeme, AsU64(lexeme).value)
  }

  function ForBrowser(m: ReleaseManifest): JsManifest {
    JsManifest(m.imageIdHex, m.policyId, m.rulesDigest, Some(m.journalVersion), Some(m.receiptCodec))
  }

  /** Every check of the Rust verifier holds. */
  ghost predicate RustVerifies(z: Zkvm, i: Inputs) {
    forall c <- Order(i.expected) :: Holds(z, i, c)
  }

  ghost predicate BrowserVerifies(b: Bytes, m: JsManifest, numberIs: NumberIs, e: Expectations) {
    forall c <- Order(e) :: TsHolds(JournalOf(b), m, numberIs, e, c)
  }

  lemma InOrder(e: Expectations, c: Check)
    requires Always(c)
    ensures c in Order(e)
  {
    OrderAt(e, Place(c));
  }

  lemma RustFacts(z: Zkvm, i: Inputs)
    requires RustVerifies(z, i)
    ensures i.manifest.Some? && Decoded(z, i).Some? && ImageWords(i.manifest.value.imageIdHex).Some?
    ensures z.sealValid(Decoded(z, i).value, ImageWords(i.manifest.value.imageIdHex).value)
    ensures RustDoc(z, i).Some?
  {
    InOrder(i.expected, ReceiptDecodes);
    InOrder(i.expected, Seal);
    InOrder(i.expected, JournalParses);
    assert Holds(z, i, ReceiptDecodes) && Holds(z, i, Seal) && Holds(z, i, JournalParses);
  }

  lemma VersionAgrees(doc: Option<Json>, m: ReleaseManifest, numberIs: NumberIs)
    requires ReadsIntegers(numberIs) && m.journalVersion == JOURNAL_VERSION
             && NumberField(doc, "protocolVersion", VersionTest(m))
    ensures NumberField(doc, "protocolVersion", BrowserVersion(ForBrowser(m), numberIs))
  {
    var lexeme := MemberValue(doc.value.members, "protocolVersion").value.lexeme;
    assert VersionTest(m)(lexeme);
    assert AsU64(lexeme) == Some(JOURNAL_VERSION);
    assert numberIs(lexeme, AsU64(lexeme).value);
    assert VersionOf(ForBrowser(m)) == AsU64(lexeme).value;
    assert BrowserVersion(ForBrowser(m), numberIs)(lexeme) == numberIs(lexeme, VersionOf(ForBrowser(m)));
  }

  lemma ContentAgrees(c: Check, doc: Option<Json>, m: ReleaseManifest, numberIs: NumberIs, e: Expectations)
    requires IsContent(c) && ReadsIntegers(numberIs) && m.journalVersion == JOURNAL_VERSION
    requires ContentHolds(c, doc, VersionTest(m), m.policyId, e)
    ensures ContentHolds(c, doc, BrowserVersion(ForBrowser(m), numberIs), m.policyId, e)
  {
    if c.JournalProtocolVersion? {
      VersionAgrees(doc, m, numberIs);
    }
  }

  lemma FrameOfReceipt(z: Zkvm, i: Inputs, len: nat)
    requires ZkvmSound(z) && RustVerifies(z, i) && Frames(ReadJournal, i.receipt, len)
    ensures Decoded(z, i).Some? && Braced(Decoded(z, i).value.journal) && len == |Decoded(z, i).value.journal|
  {
    RustFacts(z, i);
    var r := Decoded(z, i).value;
    assert LaidOut(i.receipt, r);
    JsonBytesHaveNoNul(r.journal, Utf8Decode(r.journal).value);
    JournalsRefuseNul();
    OnlyTheJournalFrames(ReadJournal, r.inner, r.journal, r.metadata, len);
  }

  lemma InnerTagRead(r: Receipt)
    requires |r.inner| >= 4 && |r.journal| < 0x1_0000_0000 && |r.metadata| == 32
    ensures ReadU32LE(LayOut(r.inner, r.journal, r.metadata), 0) == ReadU32LE(r.inner, 0)
  {
    var b := LayOut(r.inner, r.journal, r.metadata);
    assert forall k :: 0 <= k < 4 ==> b[k] == r.inner[k];
  }

  lemma LaidOutFramed(b: Bytes, r: Receipt, text: string, doc: Json)
    requires LaidOut(b, r) && Braced(r.journal) && Utf8Decode(r.journal) == Some(text)
             && ParseText(false, text) == Some(doc)
    ensures JournalOf(b) == Some(Framed(ReadU32LE(r.inner, 0), doc))
  {
    ReadsText(r.journal, text);
    BodyFrames(ReadJournal, r.inner, r.journal, r.metadata, doc);
    JournalsRefuseNul();
    FramedAt(ReadJournal, b, |r.journal|);
    InnerTagRead(r);
  }

  lemma ReceiptFrames(z: Zkvm, i: Inputs)
    requires ZkvmSound(z) && RustVerifies(z, i) && Decoded(z, i).Some? && Braced(Decoded(z, i).value.journal)
    ensures JournalOf(i.receipt).Some? && TsDoc(JournalOf(i.receipt)) == RustDoc(z, i)
    ensures JournalOf(i.receipt).value.innerTag != INNER_TAG_FAKE
  {
    RustFacts(z, i);
    var r := Decoded(z, i).value;
    var text := Utf8Decode(r.journal).value;
    TextReadsAlike(text);
    LaidOutFramed(i.receipt, r, text, RustDoc(z, i).value);
  }

  /**
    A receipt the Rust verifier accepts passes all of the browser's own checks, against the same manifest and
    expectations, exactly when its journal starts and ends in braces and has at most 65536 bytes.
  */
  lemma BrowserAcceptsExactlyWhen(z: Zkvm, i: Inputs, numberIs: NumberIs)
    requires ZkvmSound(z) && ReadsIntegers(numberIs) && RustVerifies(z, i)
    ensures i.manifest.Some? && Decoded(z, i).Some?
    ensures BrowserVerifies(i.receipt, ForBrowser(i.manifest.value), numberIs, i.expected)
            <==> Braced(Decoded(z, i).value.journal)
  {
    RustFacts(z, i);
    var m := i.manifest.value;
    var framed := JournalOf(i.receipt);
    if BrowserVerifies(i.receipt, ForBrowser(m), numberIs, i.expected) {
      InOrder(i.expected, ReceiptDecodes);
      assert TsHolds(framed, ForBrowser(m), numberIs, i.expected, ReceiptDecodes);
      var len :| Frames(ReadJournal, i.receipt, len);
      FrameOfReceipt(z, i, len);
    }
    if Braced(Decoded(z, i).value.journal) {
      ReceiptFrames(z, i);
      forall c | c in Order(i.expected) ensures TsHolds(framed, ForBrowser(m), numberIs, i.expected, c) {
        CheckCarriesOver(z, i, numberIs, framed, c);
      }
    }
  }

  lemma CheckCarriesOver(z: Zkvm, i: Inputs, numberIs: NumberIs, framed: Option<Framed>, c: Check)
    requires RustVerifies(z, i) && i.manifest.Some? && ReadsIntegers(numberIs) && c in Order(i.expected)
    requires framed.Some? && TsDoc(framed) == RustDoc(z, i) && framed.value.innerTag != INNER_TAG_FAKE
    ensures TsHolds(framed, ForBrowser(i.manifest.value), numberIs, i.expected, c)
  {
    InOrder(i.expected, Manifest);
    assert Holds(z, i, Manifest) && Holds(z, i, c);
    if IsContent(c) {
      ContentAgrees(c, RustDoc(z, i), i.manifest.value, numberIs, i.expected);
    }
  }
}
