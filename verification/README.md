# Verification of the Supercompute prototype

Models of six components of the repository and machine-checked properties of them. Each model does what the
code does, with the same branches, limits and constants; what the code takes from elsewhere (Unicode tables,
signatures, seals, SQLite, the network, clocks) is a parameter.

* **Safety Policy v1, twice.** The sequential TypeScript normalizer, matcher and engine, and the fused, prepared
  Rust ones. The fast forms refine the simple ones on every ruleset and text (`Normalizer`, `Encoding`, `Matcher`,
  `PolicyEngine`), and what an evaluation says is stated apart from how it is computed
  (`Needles`, `PolicyLaws`).
* **Canonical JSON and what is hashed.** JavaScript strings with their lone surrogates, a JSON parser and the grammar it
  accepts, both canonicalizers, requests and the guest's reader, and the digests' preimages: round trips, fixed
  points, shortest spellings and unique decodability (`Texts`, `Json`, `JsonGrammar`, `Canonical`, `Shortest`, `Canonicalizers`,
  `Recanonical`, `CanonicalMeaning`, `Requests`, `GuestRequests`, `Preimages`).
* **Receipt framing and the two verifiers.** The backward scan, both check pipelines, and when what one accepts
  passes the other (`Framing`, `ImageId`, `Verifiers`, `BrowserVerifier`, `GuestJournal`, `Acceptance`).
* **The prove queue** with its deque, and every interleaving of enqueuers, worker and worker death (`ProveQueue`,
  `ProveRuns`, `ProveFifo`, `ProveDisorder`).
* **The enclave's gate, park and dispatch protocol** over JavaScript maps and interleaved handlers (`JsMap`,
  `PendingGates`, `GateHistory`, `NonceWindow`, `Dispatch`, `Adapters`, `EnclaveRuns`, `GateOrigins`, `ProviderCalls`,
  `ProofStates`).
* **The coordinator**: routing, accounting, revocation, request lifecycle and the projected graph (`Routing`,
  `Fairness`, `Ledger`, `Spend`, `Cap`, `Revocation`, `Projection`, `GraphSchema`, `Lifecycle`, `RequestTraces`,
  `GraphMirror`).
* **The release emitter's calendar** (`Calendar`, `Timestamps`).

`dafny verify dfyconfig.toml` checks everything.

## Where the code and its comments part

The models follow the code. Each of these is proved: an input or run where the comment fails, and the exact condition
under which it holds.

* `frameJournal` is said to reject appended bytes; bytes that form a frame are accepted
  (`Framing.AppendedJournalReplaces`, `Framing.AppendedBytesFrameExactlyWhen`).
* The prove queue is said to evict the oldest finished job first; sends that overtake each other make the deque
  rotate, and then it does not (`ProveDisorder.OldestFinishedIsNotFirst`, `ProveDisorder.FirstIsOldestExactlyWhen`,
  `ProveDisorder.OldestGoesUntilRotation`).
* `PendingGates` is said to drop the oldest first; a key parked again keeps its old place
  (`GateHistory.OldestIsNotAlwaysDropped`, `GateHistory.DropsOldestExactlyWhen`,
  `GateHistory.OldestDroppedWhileKeysAreFresh`).
* A request id that is gated again starts a second run, and then a proof's record can go back, or become verified from
  queued (`ProofStates.BackWithoutAStart`, `ProofStates.MayGoBackExactlyWhen`; `ProofStates.VerifiedFromQueued`,
  `ProofStates.MayLeapExactlyWhen`).
* A proof that ends before its request completes leaves the trust status pending for good, verified or failed
  (`Lifecycle.EarlyProofIsLost`, `Lifecycle.TrustFollowsExactlyWhen`).
* `recordUsage` and `recordAssumedUsage` carry the counts of the day before across midnight
  (`Ledger.MidnightIsCarried`, `Ledger.CounterIsLedgerExactlyWhen`).
* `Object.entries` moves array-index-like category keys to the front, the Rust engine does not
  (`PolicyEngine.IndexKeysAreReordered`, `PolicyEngine.EvaluationsAgreeExactlyWhen`).
* A provider's refusal of a key disables the credential without an event, so its graph node stays active
  (`Revocation.RefusalIsNotAnnounced`, `Revocation.NodeMirrorsExactlyWhen`).
* An answer that goes back to queued changes a proof's row without an event
  (`GraphMirror.BackToQueuedIsSilent`, `GraphMirror.ProofNodesMirrorExactlyWhen`).
* TypeScript canonicalizes 1.0 as 1, and a lone surrogate as an escape; Rust refuses both
  (`Canonicalizers.CanonicalizersDiffer`, `Canonicalizers.CanonicalizersAgree`).
* A request with a lone surrogate is accepted and hashed, and the guest refuses its bytes
  (`Requests.LoneSurrogateIsRefused`, `Requests.GuestReadsExactlyWhen`).
* A separator inserted into a text as given can hide a needle, since NFKC composes the text first
  (`Matcher.CompositionLetsSeparatorsHide`, `Matcher.MatchedAlikeExactlyWhen`).

## Assumptions

NFKC followed by lowercasing, NFC, and the general categories P and S are parameters; used of them are that NFC is
idempotent, fixes ASCII and neither makes nor removes lone surrogates, and that the six letters the leet fold produces are neither punctuation nor symbols.
Job ids do not repeat, nor do the request ids of the coordinator's rows: they come with the client's envelope, and the
table's primary key refuses repeats. Bincode with fixed-width integers lays a receipt out as inner, length,
journal, 32 bytes, and no seal verifies for a Fake receipt. `JSON.parse` reads an integer literal in the safe range
as that integer. Routing's ids have a strict total locale order, and recorded dispatch times strictly increase.
The clock that stamps parked outcomes and nonces does not go back where a result says so (`GateHistory`,
`NonceWindow`) and in all of `EnclaveRuns`, nor does the day in `Ledger` and `Cap`. Scores and thresholds are unbounded
integers: 64-bit in Rust and doubles in JavaScript, which agree with them while sums stay within 2^53. Costs are real
numbers.

## Model

| member | source | states |
|---|---|---|
| `Normalizer.ClassesAgree` | prover/policy-core/src/normalize.rs:11-80 | The two spellings of each character class accept the same characters: zero-width as a range and as a set, JavaScript `\s` and Rust's `is_whitespace` corrected for U+0085 and U+FEFF. |
| `Normalizer.Normalize` | prover/policy-core/src/normalize.rs:85-127 | The one-pass walk (strip, fold, hold back a separator, never lead or trail with one) returns what the TypeScript pipeline returns, on every text. |
| `Normalizer.WalkIsRewrites` | packages/policy/src/engine.ts:68-85 | Strip, then eight sequential replaces, then run-collapse, then trim is the fused walk, on every input. |
| `Normalizer.RewritesAreNormal` | packages/policy/src/engine.ts:68-85 | The result has no leading, trailing or doubled space, no zero-width, no leet digit and no other collapsible character. |
| `Normalizer.RewritesIdempotent` | packages/policy/src/engine.ts:68-85 | The stage after lowercasing is idempotent, and its fixed points are exactly the normal forms. |
| `Encoding.PrefixOfUnits` | prover/policy-core/src/engine.rs:119-129 | A prefix of units is a prefix of characters, for any self-synchronizing encoding (UTF-8 bytes and UTF-16 code units are two). |
| `Encoding.Utf8OrderIsCodePointOrder` | prover/policy-core/src/engine.rs:120-122 | Byte order of UTF-8 is the order of scalar values, at the first character where two strings differ. |
| `Encoding.Utf16OrderVersusCodePoints` | prover/policy-core/src/policy_id.rs:76-79 | UTF-16 key order differs from scalar-value order if and only if, where two keys first differ, U+E000..U+FFFF meets a supplementary character. |
| `Texts.KeyLessTotal` | packages/protocol/src/canonical.ts:97-98 | UTF-16 key order is a strict total order on all JavaScript strings, lone surrogates included. |
| `Texts.CodeUnitsInjective` | packages/protocol/src/canonical.ts:97-98 | A JavaScript string is determined by its code units: scalar values and lone surrogates are told apart. |
| `Matcher.SearchesAgree` | prover/policy-core/src/engine.rs:119-129 | Byte search, code-unit search and character search are one relation; so are the three prefix tests. |
| `Matcher.SeekDecides` | prover/policy-core/src/engine.rs:107-129 | Testing only the first token at or after the needle in byte order decides whether any token starts with it, for every ordered token set. |
| `Matcher.MatchersAgree` | prover/policy-core/src/engine.rs:131-175 | `match_prepared` over sorted tokens and a prepared needle answers what the TypeScript `match` answers on the raw needle, for every text and needle. |
| `Matcher.LongNeedleIsSubstringSearch` | packages/policy/src/engine.ts:105-134 | A needle with a separator-free form of at least 8 code units matches if and only if that form occurs in the squashed text: phrase, plural, token and prefix hits are subsumed. |
| `Matcher.SeparatorsDoNotHide` | packages/policy/src/engine.ts:102-134 | Inserting or deleting a zero-width or collapsible character anywhere in the folded text (after NFKC and lowercasing) does not change whether such a needle matches. |
| `Matcher.ShortWordMatchesTokenPrefixes` | packages/policy/src/engine.ts:105-128 | A single word of four to seven code units matches if and only if some token starts with it. |
| `Matcher.MatchedAlikeExactlyWhen` | packages/policy/src/engine.ts:68-134 | Two texts as given are matched alike by every such needle in normal form if and only if their folded forms have the same visible characters, or both have fewer than 8 code units of them. |
| `Matcher.CompositionLetsSeparatorsHide` | packages/policy/src/engine.ts:68-76 | So on raw texts a separator can hide a needle: NFKC composes an e and an acute but not across a zero-width character, and inserted there it does. |
| `Matcher.SpaceHidesShortWord` | packages/policy/src/engine.ts:102-134 | The length condition is needed: one space inserted anywhere into a short word hides it. |
| `Matcher.SeparatorsNeverMatterExactlyWhen` | packages/policy/src/engine.ts:102-134 | For a non-empty needle in normal form, inserting separators into folded texts never changes the answer if and only if its separator-free form has at least 8 code units. |
| `Needles.MatchesExactlyWhen` | packages/policy/src/engine.ts:92-134 | The whole matcher in terms of the text's characters, for every text and normalized needle: a needle of 8 code units or more beside its spaces is searched for in the text without spaces; otherwise a phrase must stand between spaces or ends, as it is or with an s, a word of 4 or more must start a token, and a shorter one must be a token. |
| `PolicyEngine.Evaluate` | packages/policy/src/engine.ts:136-202 | The accumulating loops (hard blocks with early return, modifiers unless suppressed, clamped scores, decision flipped by any threshold) compute the reference verdict. |
| `PolicyEngine.JsEvaluate` | packages/policy/src/engine.ts:136-202 | The TypeScript engine on a text: the reference verdict over `Object.entries` order and the TypeScript matcher. |
| `PolicyEngine.EvaluatePrepared` | prover/policy-core/src/engine.rs:192-290 | The Rust loops over prepared rules compute the reference verdict of the prepared rules. |
| `PolicyLaws.VerdictSays` | packages/policy/src/engine.ts:136-202 | That verdict, clause by clause and without the functions that compute it: the hard block of least index decides alone; otherwise each category scores its matched targets' weights, with the bonuses and, unless a suppressor matches, the matched modifiers' weights, only if a target matched, and never below zero; DENY if and only if a score reaches its threshold; ids are listed in document order. |
| `PolicyLaws.SuppressorDropsModifiers` | packages/policy/src/engine.ts:155-170 | With a suppressor matched, the evaluation is that of the same rules without modifiers. |
| `PolicyLaws.ModifierShifts` | packages/policy/src/engine.ts:155-170 | With none, taking a matched modifier out changes every category with a matched target by its weight (before zero cuts off), no other, and takes just its id out of the list. |
| `PolicyLaws.UnmatchedModifierIsIdle` | packages/policy/src/engine.ts:155-170 | A modifier of which no phrase matches changes nothing. |
| `PolicyLaws.IntentShifts` | packages/policy/src/engine.ts:150-187 | A matched intent phrase is dropping all of them and adding the bonus to every category with a matched target, and is reported. |
| `PolicyLaws.ConstructionShifts` | packages/policy/src/engine.ts:150-187 | So is a matched construction verb with its bonus. |
| `PolicyLaws.NoTargetNoScore` | packages/policy/src/engine.ts:172-193 | A category without a matched target scores zero and lists none, whatever else matches. |
| `PolicyLaws.IndexKeysAreNumbers` | packages/policy/src/engine.ts:175-175 | The category keys that `Object.entries` moves are the numbers below 2^32 - 1 as they are printed. |
| `PolicyEngine.PreparationPreservesVerdict` | prover/policy-core/src/prepared.rs:71-190 | Preparing every phrase once and evaluating is evaluating the raw rules, for every ruleset and text. |
| `PolicyEngine.EnginesAgree` | prover/policy-core/src/engine.rs:192-290 | The two engines take the same decision on every ruleset and text; with no array-index-like category key they agree in the whole evaluation, order included. |
| `PolicyEngine.KeepsOrderExactlyWhen` | packages/policy/src/engine.ts:175-175 | `Object.entries` keeps the document order if and only if array-index-like keys stand first in it, in ascending order. |
| `PolicyEngine.EvaluationsAgreeExactlyWhen` | packages/policy/src/engine.ts:142-199 | With distinct category keys the whole evaluations agree if and only if a hard block matches or array-index-like keys stand first, in ascending order. |
| `PolicyEngine.IndexKeysAreReordered` | packages/policy/src/engine.ts:175-175 | Two unequal evaluations, on every text: without hard blocks and with a category named "0" after one named "P1", the engines list them in different orders. |
| `PolicyEngine.DecisionIgnoresOrder` | packages/policy/src/engine.ts:172-199 | The decision does not depend on the order of the categories. |
| `PolicyEngine.DeniesExactlyWhen` | packages/policy/src/engine.ts:139-199 | DENY if and only if some phrase of some hard block matches or some category's clamped score reaches its threshold. |
| `Json.JsonHasNoNul` | packages/verify/src/verify.ts:172-182 | No text that `JSON.parse` or serde_json accepts holds a raw U+0000 (section 7 of RFC 8259). |
| `Json.TextReadsAlike` | packages/verify/src/verify.ts:172-182 | Every text serde_json accepts is the same document to `JSON.parse`. |
| `Json.StrictTextPlain` | prover/policy-core/src/input.rs:330-332 | And no string or key of it holds a lone surrogate, which `JSON.parse` keeps. |
| `JsonGrammar.ParsesExactlyWhen` | packages/verify/src/verify.ts:172-182 | A text parses to a document if and only if the grammar of RFC 8259 spells that document, with lone surrogates for `JSON.parse` and without for serde_json; the grammar is stated apart from the parser. |
| `JsonGrammar.NumberExactlyWhen` | prover/policy-core/src/input.rs:330-332 | What is read as a number is a sign, an integer without leading zeros, a fraction and an exponent (section 6), and all of these are. |
| `Canonical.StringRoundTrip` | packages/protocol/src/canonical.ts:93-93 | An escaped string reads back, unit by unit, and ends exactly at its quote: every JavaScript string where lone surrogates are kept, every plain one where they are refused. |
| `Canonical.PrintReadsBackExactlyWhen` | packages/protocol/src/canonical.ts:83-106 | Parsing a printed document followed by anything returns the document and that rest, in JavaScript always, in Rust if and only if it holds no lone surrogate; otherwise it fails. |
| `Canonical.TextRoundTrip` | packages/protocol/src/canonical.ts:83-106 | A printed document parses back to the document, in JavaScript always, in Rust if and only if it holds no lone surrogate. |
| `Canonicalizers.CanonicalParsesBack` | packages/protocol/src/canonical.ts:83-106 | The canonical text of any value parses to the value's document: strings NFC-composed, undefined fields dropped, keys in order, integers exact; in JavaScript always, in Rust if and only if no string printed and no key holds a lone surrogate. |
| `Canonicalizers.CanonicalValue` | prover/policy-core/src/policy_id.rs:82-164 | The appending loops of `canonical_value` append exactly the canonical text, or fail exactly where it is undefined; what that text is, `CanonicalMeaning` and `Shortest` say. |
| `Shortest.StringIsNoShorter` | packages/protocol/src/canonical.ts:93-93 | Whatever is read as a string, quote included, is at least as long as its canonical spelling, and what is as long is that spelling but for hex digits in upper case. |
| `Shortest.CanonicalIsShortest` | packages/protocol/src/canonical.ts:83-106 | So is every text of a document: the canonical one is the shortest, with lowercase hex digits. |
| `CanonicalMeaning.CanonicalExactlyWhen` | packages/protocol/src/canonical.ts:83-106 | A value is canonicalized if and only if it stands for a document (strings composed, integers of 53 bits in decimal, fields that are not undefined once each by ascending key, at every depth), to the text of the only one it stands for. |
| `CanonicalMeaning.CanonicalTextIsShortest` | packages/protocol/src/canonical.ts:83-106 | Of all JSON texts of such a document the canonical text is the shortest, up to the case of hex digits. |
| `Canonicalizers.CanonicalizersAgree` | prover/policy-core/src/policy_id.rs:82-164 | The Rust canonicalizer accepts exactly the portable values the TypeScript one accepts (integer literals only, no lone surrogate, nothing undefined) and prints the same text. |
| `Canonicalizers.CanonicalizersDiffer` | prover/policy-core/src/policy_id.rs:82-164 | Two values on which they differ: 1.0, which TypeScript prints as 1, and a lone surrogate, which it prints as an escape. |
| `Canonicalizers.OrderIsImmaterial` | packages/protocol/src/canonical.ts:97-105 | The canonical text does not depend on the order in which the fields of objects were written, at any depth. |
| `Recanonical.CanonicalIsFixed` | packages/protocol/src/canonical.ts:83-106 | Parsing canonical text and canonicalizing again returns the same text. |
| `Requests.AcceptedExactlyWhen` | packages/protocol/src/canonical.ts:35-81 | A request is accepted if and only if it has a non-empty model, messages, only the three roles, text contents, a temperature absent or finite in [0, 2] unless given in thousandths, and both integers absent or in range. |
| `Requests.AcceptedIsWhatWasGiven` | packages/protocol/src/canonical.ts:35-81 | An accepted request has the given messages in their order and roles, texts composed, a temperature within half a thousandth of the given one, and the given integers. |
| `Requests.LeftOutIsDefault` | packages/protocol/src/canonical.ts:57-76 | Leaving out the temperature is giving 1, or 1000 thousandths; leaving out max_tokens is giving 1024. |
| `Requests.AcceptedIsCanonical` | packages/protocol/src/canonical.ts:35-81 | What `toCanonicalRequest` accepts, it returns unchanged when given it again, with the temperature in thousandths or divided by 1000 as providers are sent it; it has a model, messages with the three roles, and both ranges. |
| `Requests.GuestReadsExactlyWhen` | prover/policy-core/src/input.rs:285-347 | The guest, which takes structs as objects in any field order or as arrays in declaration order, reads the canonical bytes of an accepted request as exactly that request if and only if no text of it holds a lone surrogate; otherwise it rejects them as RequestDoesNotParse. |
| `GuestRequests.GuestAcceptsExactlyWhen` | prover/policy-core/src/input.rs:285-347 | Over all bytes: the guest takes them for a request if and only if they are a strict JSON text of a document with exactly its fields (by name in any order, or all by position; 64-bit integer literals), it has messages and all roles are known; it says no messages or unknown role exactly where that is all that is wrong. |
| `Requests.LoneSurrogateIsRefused` | prover/policy-core/src/input.rs:330-332 | An accepted request it rejects: one message whose content is U+D800 alone. |
| `Requests.BytesDetermineTheRequest` | packages/protocol/src/canonical.ts:108-110 | Two accepted requests with the same canonical bytes are the same request, lone surrogates included. |
| `Preimages.CanonicalObjectsArePrefixFree` | packages/protocol/src/canonical.ts:97-105 | No canonical object is a proper prefix of another. |
| `Preimages.PolicyIdPreimageDecodes` | prover/policy-core/src/policy_id.rs:175-181 | manifest-then-rules bytes determine the canonical manifest, the document it stands for and the rules bytes, whatever bytes the rules are. |
| `Preimages.ConcatenationInjective` | packages/protocol/src/crypto.ts:56-111 | The bytes of a digest determine its kind (the four labelled families never overlap) and every part: canonical bytes and 32-byte nonce, intent, receipt. |
| `Preimages.LabelThenParts` | packages/protocol/src/crypto.ts:56-111 | Each of the four is its label in ASCII and then its parts in order, with nothing between them. |
| `Preimages.RequestCommitmentInput` | packages/protocol/src/crypto.ts:58-68 | The buffer filled part by part is label, canonical bytes, nonce; it fails exactly on a nonce that is not hex of 32 bytes. |
| `Preimages.LabelledInput` | packages/protocol/src/crypto.ts:72-111 | The buffers of the other three digests are label then material. |
| `Preimages.CommitmentInputsDetermine` | prover/policy-core/src/input.rs:173-181 | Commitment inputs are equal only for equal canonical bytes and equal nonces. |
| `Preimages.FromHex` | packages/protocol/src/crypto.ts:20-30 | Accepts exactly an optional 0x and an even number of hex digits of either case, and fills the buffer with their bytes. |
| `Preimages.HexRoundTrips` | packages/protocol/src/crypto.ts:16-30 | Hex of any bytes, bare or with 0x, reads back as the bytes. |
| `Framing.Utf8DecodesExactlyWhen` | prover/policy-core/src/input.rs:330-332 | Rust's reading of UTF-8 yields a string if and only if the bytes are that string's encoding, so ill-formed sequences are refused. |
| `Framing.TextDecodesExactlyWhen` | packages/verify/src/verify.ts:163-163 | Fatal `TextDecoder` yields a string if and only if the bytes are its encoding and it starts with no byte order mark, or are its encoding after one. |
| `Framing.JournalsRefuseNul` | packages/verify/src/verify.ts:172-182 | Bytes that decode and parse hold no NUL, which is all that framing needs of the way a body is read. |
| `Framing.FrameJournal` | packages/verify/src/verify.ts:147-190 | Returns the journal of the length that frames, and fails if and only if none does. |
| `Framing.AtMostOneFrame` | packages/verify/src/verify.ts:166-184 | For every byte string at most one length frames: a longer journal would hold the zero bytes of the shorter one's length. |
| `Framing.LaidOutFrames` | packages/verify/src/verify.ts:131-146 | In inner, length, journal, 32 bytes, with any inner bytes (copies of the journal included), exactly that journal frames. |
| `Framing.AppendedBytesFrameExactlyWhen` | packages/verify/src/verify.ts:143-146 | Against the comment that appended bytes are rejected: they are accepted if and only if they form a frame themselves, together with the last 36 bytes of the receipt. |
| `Framing.AppendedJournalReplaces` | packages/verify/src/verify.ts:143-146 | An instance: a length, a journal and 32 bytes after any bytes replace their journal. |
| `ImageId.ImageIdFromHex` | prover/verify/src/lib.rs:796-805 | Fills the eight words from 64 lowercase digits and refuses everything else. |
| `ImageId.ImageIdRoundTrips` | prover/verify/src/lib.rs:794-805 | 64 lowercase digits read as eight words of 32 bits, whose big-endian rendering gives the digits back. |
| `ImageId.WordsRoundTrip` | prover/verify/src/lib.rs:794-805 | And any eight words of 32 bits, rendered, read back as these words. |
| `Verifiers.NonceIsTheExpression` | prover/policy-core/src/input.rs:149-156 | Stripping an optional 0x and counting digits accepts exactly the strings of `^(0x)?[0-9a-f]{1,64}$`. |
| `Verifiers.Ask` | prover/verify/src/lib.rs:235-251 | One check extends the report or ends the run, keeping it the longest initial run of the order. |
| `Verifiers.Verify` | prover/verify/src/lib.rs:288-323 | The report's lines are an initial run of the fixed order (unrequested expectations absent) in which every check holds; a failure names the next check, which does not hold; skipped rules are reported as not available. |
| `Verifiers.VerifiedExactlyWhenAllHold` | prover/verify/src/lib.rs:188-191 | Verified if and only if every check of the order holds. |
| `BrowserVerifier.VerifyReceipt` | packages/verify/src/verify.ts:201-383 | The browser's report is the longest run of the same order over the framed journal, with image-id, seal and rules-digest reported as delegated and a Fake receipt failing at the seal. |
| `BrowserVerifier.BrowserAcceptsExactlyWhen` | packages/verify/src/verify.ts:201-383 | A receipt the Rust verifier accepts passes every local check of the browser if and only if its journal starts and ends in braces and has at most 65536 bytes. |
| `Acceptance.ContentHoldsExactlyWhen` | prover/verify/src/lib.rs:510-790 | Of a journal the guest prints, all checks of its content hold if and only if every expectation given equals the field it names, the policy is the manifest's, the version is right, the decision is ALLOW or DENY, and commitment, nonce and policy id have their shapes. |
| `Acceptance.RustAcceptsExactlyWhen` | prover/verify/src/lib.rs:288-323 | So the Rust verifier accepts such a receipt if and only if the manifest pins it, the seal proves it, and those hold. |
| `Acceptance.BrowserPassesExactlyWhen` | packages/verify/src/verify.ts:201-383 | And the browser's own checks pass if and only if the same hold with the manifest it is given and the receipt is no Fake. |
| `Acceptance.RustReports` | prover/verify/src/lib.rs:235-251 | Line by line the report follows the order, and only the rules digest is not available, if and only if it is skipped by flag. |
| `Acceptance.BrowserReports` | packages/verify/src/verify.ts:201-220 | The browser reports exactly the image id, the seal and the rules digest as delegated. |
| `GuestJournal.GuestPrintsTheDocument` | prover/policy-core/src/input.rs:252-262 | The guest's format string is the canonical text of the five-member document, for all field values. |
| `GuestJournal.VerifiedGuestReceiptPasses` | prover/verify/src/lib.rs:288-323 | Whenever the Rust verifier accepts a receipt with the guest's print, all local checks of the browser pass on the same manifest and expectations. |
| `ProveQueue.Jobs.Insert` | prover/host/src/queue.rs:121-125 | The table and deque after an insertion and its eviction. |
| `ProveQueue.Jobs.Evict` | prover/host/src/queue.rs:126-148 | The loop over the rotating deque visits each job once at most, drops the first finished jobs until the table fits, moves the unfinished ones it passed to the back, and terminates. |
| `ProveRuns.UpdatesHitTheirJob` | prover/host/src/queue.rs:233-279 | In every state of every interleaving the worker's updates find their job in the table (never evicted), at the stage before; they move that job one stage, set its view, and leave every other job, the ids and the deque as they were. |
| `ProveRuns.StepKeepsInv` | prover/host/src/queue.rs:191-283 | Every step of every interleaving keeps: deque and table hold the same distinct ids, at most the limit is queued, at most one is proving, what is in flight is queued, the table is within its bound. |
| `ProveRuns.StageStep` | prover/host/src/queue.rs:233-283 | A job's stage (unknown, queued, proving, finished, evicted) never skips or goes back in one step, so unfinished jobs are never evicted; finished views do not change. |
| `ProveRuns.MarkInv` | prover/host/src/queue.rs:248-249 | The worker's mark never misses its job. |
| `ProveRuns.FinishInv` | prover/host/src/queue.rs:256-279 | Nor do its results. |
| `ProveRuns.RunStages` | prover/host/src/queue.rs:191-283 | Over whole runs stages only move forward and a finished job reads the same until it is evicted. |
| `ProveRuns.ReachableStates` | prover/host/src/queue.rs:41-50 | In every reachable state the limits hold, and the proving job is exactly the one in the worker's hand. |
| `ProveFifo.InitFifo` | prover/host/src/queue.rs:171-187 | The empty queue starts in that order. |
| `ProveFifo.FifoRuns` | prover/host/src/queue.rs:113-156 | When jobs are sent in insertion order the deque is always the newest accepted jobs, a finished prefix and then exactly the jobs the worker will still do. |
| `ProveFifo.EvictsTheOldest` | prover/host/src/queue.rs:126-148 | Then eviction never rotates and removes the oldest job, which is finished. |
| `ProveFifo.StaysCollectable` | prover/host/src/queue.rs:45-50 | Then a finished receipt stays collectable, unchanged, while at most `retained - queued - 1` further jobs are accepted. |
| `ProveDisorder.EvictsOldestFinished` | prover/host/src/queue.rs:126-148 | Sent in whatever order, an insertion into a deque ordered by age evicts, if anything, a finished job older than every other finished one. |
| `ProveDisorder.FirstIsOldestExactlyWhen` | prover/host/src/queue.rs:126-148 | Whichever jobs finish, the first finished one of a deque, which the next eviction takes, is the oldest finished one: if and only if the deque is ordered by age. |
| `ProveDisorder.OldestGoesUntilRotation` | prover/host/src/queue.rs:45-49 | From the empty queue on, while every full table had a finished job in front, each insertion evicts the oldest finished job; and it leaves a deque of which that can be said again, whichever jobs finish, if and only if it too found room or a finished job in front. |
| `ProveDisorder.OrderSurvivesExactlyWhen` | prover/host/src/queue.rs:126-148 | Without that assumption, an insertion leaves the deque ordered by age if and only if nothing had to go or the job at the front was finished. |
| `ProveDisorder.OldestFinishedIsNotFirst` | prover/host/src/queue.rs:45-49 | Against the comment that the oldest finished job is evicted first: at any limits that let two jobs wait and leave one place more than may wait (32 and 64 among them) and for any ids, a run from the empty queue after which a younger finished job goes and an older finished one stays. |
| `ProveDisorder.DeadWorkerOnlyQueues` | prover/host/src/queue.rs:191-219 | After the worker died each accepted job is one more queued for good, so at most `queued` minus those waiting are accepted. |
| `JsMap.ReapEntries` | services/tee-sim/src/pending-gates.ts:106-115 | Deleting the current entry while iterating keeps exactly the entries to be kept, in order, and counts the others. |
| `JsMap.DropOldest` | services/tee-sim/src/pending-gates.ts:74-79 | Deleting first keys until one more fits leaves the last `max - 1` places. |
| `PendingGates.PendingGates.Remember` | services/tee-sim/src/pending-gates.ts:71-81 | Reap, make room, set: a key already present keeps its place. |
| `PendingGates.PendingGates.Consume` | services/tee-sim/src/pending-gates.ts:89-99 | Hit, miss or mismatch by presence, age and commitment; a hit and an expiry remove the entry, a mismatch changes nothing. |
| `GateHistory.BoundHoldsExactlyWhen` | services/tee-sim/src/pending-gates.ts:71-81 | After parking, the count is within `max` if and only if `max` is at least one. |
| `GateHistory.BoundedHistory` | services/tee-sim/src/pending-gates.ts:48-115 | Over every history of calls at most `max` outcomes are parked. |
| `GateHistory.AnswersAreTheDictionarys` | services/tee-sim/src/pending-gates.ts:89-99 | In every history, `consume` answers what a plain dictionary of the latest unconsumed values would, or misses. |
| `GateHistory.CalmAnswers` | services/tee-sim/src/pending-gates.ts:48-115 | Under a clock that does not go back and with the bound never reached, every answer is the dictionary's: reaping is invisible. |
| `GateHistory.DropsOldestExactlyWhen` | services/tee-sim/src/pending-gates.ts:74-80 | Whatever the bound, making room drops the oldest entries: if and only if the table is ordered by age. |
| `GateHistory.OldestDroppedWhileKeysAreFresh` | services/tee-sim/src/pending-gates.ts:48-115 | Over every history with a clock that does not go back and in which no key is parked again while it is there, parking drops the oldest; after it every later drop would again take the oldest if and only if its own key is fresh or nothing younger stands behind its old place. |
| `GateHistory.OldestIsNotAlwaysDropped` | services/tee-sim/src/pending-gates.ts:74-80 | Against "this drops the oldest first": with a key parked twice, the entry parked at 2 is dropped and the one parked at 1 kept. |
| `NonceWindow.NonceWindow.RememberNonce` | services/tee-sim/src/index.ts:155-173 | Accepts exactly nonces not in the window; only a full window is reaped and then cut to make room. |
| `NonceWindow.StaysOrderly` | services/tee-sim/src/index.ts:142-173 | Under a clock that does not go back the window is always within NONCE_MAX, distinct and ordered by age. |
| `NonceWindow.ReplayNeedsTimeOrTraffic` | services/tee-sim/src/index.ts:142-173 | A nonce accepted twice is older than the TTL, or at least NONCE_MAX other nonces were accepted in between. |
| `NonceWindow.RemembersUntilFull` | services/tee-sim/src/index.ts:155-173 | Until NONCE_MAX nonces were seen none is forgotten, however much time passes: all stay in the window and are refused. |
| `Dispatch.AuthorizedExactlyWhenUnaltered` | services/tee-sim/src/authorize.ts:196-267 | A candidate that carries the signed capability of an authorized one is authorized if and only if it equals it in every field but the signature: ids, provider, status and blob cannot be altered (digests collision-free on the two blobs). |
| `Dispatch.SignedCapabilityDecides` | services/tee-sim/src/authorize.ts:196-267 | A minted credential is determined by the signed capability, whatever else the coordinator claims, and is allowed for the request's model and policy. |
| `Dispatch.RunDispatch` | services/tee-sim/src/index.ts:649-733 | Usable candidates are called in order up to the first call that is not withheld, where the dispatch ends; attempts are numbered from one, exactly the unusable ones met are refused, and selection and error code are those of the last call. |
| `Dispatch.OnlyTheLastIsSent` | services/tee-sim/src/index.ts:125-139 | Under the adapters' contract a call of a dispatch sent the prompt if and only if it is the last one and succeeded or failed as neither egress_denied nor unpriced_model: at most one is sent. |
| `Dispatch.NextOnlyIfWithheld` | services/tee-sim/src/index.ts:706-708 | Every call that another follows failed as egress_denied or unpriced_model. |
| `Dispatch.GoesOnWhileWithheld` | services/tee-sim/src/index.ts:661-709 | When every call failed so, all candidates were met. |
| `Dispatch.StopsOnceSent` | services/tee-sim/src/index.ts:696-708 | Any other outcome ends the dispatch at once: the last candidate met is the one called. |
| `Dispatch.CodeSaysExactly` | services/tee-sim/src/index.ts:711-720 | No capacity if and only if no call was made; refused key, rate limit, other error and success each if and only if the last call brought it. |
| `Adapters.AdaptersTell` | services/tee-sim/src/providers.ts:202-356 | The contract itself, proved of the adapters: `fetch` was not called if and only if the outcome is egress_denied or unpriced_model, with HTTP status 0. |
| `Adapters.UnpricedIsNeverTried` | services/tee-sim/src/providers.ts:79-92 | Only models the adapter has and the price table prices are tried, so no attempt is ever unpriced_model. |
| `Adapters.AssumedSpendIsEnough` | services/tee-sim/src/providers.ts:161-178 | Spend is assumed if and only if the prompt was sent and no accountable answer came; it is the cost of one token a byte and 16 a message more, and never below what was billed within that and max_tokens. |
| `Adapters.AnswersAreClassified` | services/tee-sim/src/providers.ts:284-350 | Success, refused key, rate limit, refused redirect, timeout and malformed answer, each if and only if the answer's status and body, or an abort, says so. |
| `Dispatch.UsableWereAuthorized` | services/tee-sim/src/index.ts:662-677 | Every credential called passed final authorization for this request and its adapter takes the model. |
| `EnclaveRuns.GateStep` | services/tee-sim/src/index.ts:847-917 | Every handler segment keeps: each outcome is gating, parked once under its own request and commitment, or dispatched once; only allowed ones are parked or dispatched. |
| `EnclaveRuns.EachOutcomeDispatchedOnce` | services/tee-sim/src/index.ts:847-917 | In every interleaving no gate outcome is dispatched twice and none that was denied; two dispatches share a nonce only if the replay window had to let it in again. |
| `ProviderCalls.OneCallPerOutcome` | services/tee-sim/src/index.ts:649-917 | In every interleaving, whatever candidates are offered and however the network behaves, of all calls for one gate outcome at most one calls `fetch`; the outcome was allowed, and the credential used is what authorization gave for its request. |
| `EnclaveRuns.ExecuteNeedsTheCommitment` | services/tee-sim/src/index.ts:884-917 | `/execute` dispatches a parked outcome only for its own request and commitment and then removes it; a mismatch changes nothing. |
| `GateOrigins.ParkedWereNotDirect` | services/tee-sim/src/index.ts:847-917 | In every run, whatever is parked was gated by `/gate`, under its own request id, was allowed and is not dispatched. |
| `GateOrigins.VerdictsAreActedOn` | services/tee-sim/src/index.ts:847-917 | An allowing verdict dispatches what was gated inline and parks what was gated by `/gate`; a denying one does neither. |
| `GateOrigins.DispatchedByItsKind` | services/tee-sim/src/index.ts:847-917 | Whatever an action dispatches was gated inline and is just being allowed, or was gated by `/gate` and is being asked for by its request id and commitment. |
| `Routing.DiscoverCandidates` | services/coordinator/src/routing.ts:77-157 | The stored rows are rolled to today; the loops over them, passes and seen ids list the eligible rows of positive weight in routing order and every exclusion with its first reason. |
| `Routing.ExpansionIsFirstPass` | services/coordinator/src/routing.ts:130-144 | Weight expansion followed by removing repeats is the first pass alone, for any number of passes. |
| `Routing.CandidatesAre` | services/coordinator/src/routing.ts:77-157 | The candidates are exactly the stored rows, rolled to today, that are eligible and of positive weight, once each, strictly sorted. |
| `Routing.ReasonIsTheFirstFailure` | services/coordinator/src/routing.ts:87-124 | A row is eligible if and only if it is active, out of cooldown, allowed the model and the policy and below both limits; each condition has its own reason, given if and only if it is the first to fail. |
| `Routing.RoutingOrderIs` | services/coordinator/src/routing.ts:69-75 | A row never used stands as one used at time zero, before any used later; of rows used alike the heavier comes first, and then the lower id. |
| `Fairness.NoStarvation` | services/coordinator/src/routing.ts:65-75 | While a credential stays eligible no other is dispatched twice before it. |
| `Fairness.RoundIsPermutation` | services/coordinator/src/routing.ts:65-75 | With a fixed eligible set of n, any n consecutive dispatches are a permutation of it. |
| `Fairness.FirstCandidateIsHead` | services/coordinator/src/routing.ts:126-157 | The first candidate of discovery is the head of that schedule. |
| `Ledger.RollRestoresExactlyWhen` | services/coordinator/src/routing.ts:55-63 | After a roll that follows any history the counter is of today, and it is the ledger's rows of today if and only if it was of another day before or matched already. |
| `Ledger.Database.RecordUsage` | services/coordinator/src/routing.ts:204-232 | Row and counter, or neither for a request already booked; the counts of another day are kept. |
| `Ledger.Database.RecordAssumedUsage` | services/coordinator/src/routing.ts:234-296 | Counter then row in a transaction: a duplicate leaves counters and ledger as they were. |
| `Ledger.CounterAgainstLedger` | services/coordinator/src/routing.ts:55-63 | Over every history of registrations, discoveries and bookings with a clock that does not go back, `requests_today` is never below the ledger's rows of the usage day, and exceeds them exactly by the rows since the last reset that are of another day. |
| `Ledger.BookingKeepsExactlyWhen` | services/coordinator/src/routing.ts:223-231 | A fresh booking keeps counter and ledger equal if and only if the counter is of today or at zero. |
| `Ledger.CounterIsLedgerExactlyWhen` | services/coordinator/src/routing.ts:223-231 | Over every history they are equal if and only if no booking found a counter of another day above zero, with no roll to a new day since. |
| `Ledger.MidnightIsCarried` | services/coordinator/src/routing.ts:223-231 | A history where they differ: two bookings around midnight leave the counter at two and the day's rows at one. |
| `Spend.SpendAgainstLedger` | services/coordinator/src/routing.ts:223-296 | Over every history the day's spend is what the credential's ledger rows since the last reset cost: those of the usage day and those carried over. |
| `Spend.SpendIsLedgerExactlyWhen` | services/coordinator/src/routing.ts:223-296 | It is what the day's rows cost if no booking carried counts over, and, when every row costs something, only then. |
| `Spend.DollarLimitExcludesExactlyWhen` | services/coordinator/src/routing.ts:118-124 | Once those rows cost the daily limit the credential is excluded, and for that reason if and only if nothing else excludes it. |
| `Cap.CapHolds` | services/coordinator/src/routing.ts:111-117 | Over discoveries, bookings and failures of overlapping requests, on the counters of the ledger and with the exclusions of routing: with at most k of them open a credential's count never exceeds its limit by more than k - 1. |
| `Cap.DollarCapHolds` | services/coordinator/src/routing.ts:118-124 | With at most k overlapping requests of at most a given cost each, the spend never exceeds the dollar limit by more than these can cost. |
| `Revocation.RevocationIsTerminal` | services/coordinator/src/index.ts:397-468 | A deleted credential stays deleted and excluded, whatever its owner and late outcomes do. |
| `Revocation.RateLimitCoolsDown` | services/coordinator/src/routing.ts:159-201 | After a rate limit the credential is no candidate for 60 seconds, whatever happens to it short of a success or a status set by its owner. |
| `Revocation.CoolsDownForAMinute` | services/coordinator/src/routing.ts:159-201 | Cooldown is the reason if and only if fewer than 60 seconds have passed since the rate limit of an active credential. |
| `Revocation.NodeMirrorsExactlyWhen` | services/coordinator/src/routing.ts:175-189 | A credential's graph node shows its status if and only if no refusal of its key is unannounced: `applyAttemptOutcome` disables without an event. |
| `Revocation.NodeIsProjected` | services/coordinator/src/events.ts:206-214 | That node is the one the projection makes of the credential's announced events. |
| `Revocation.RefusalIsNotAnnounced` | services/coordinator/src/routing.ts:175-189 | A run where it does not: one refusal leaves the row disabled and the node active. |
| `Projection.Outbox.Emit` | services/coordinator/src/events.ts:72-83 | Appends one unprocessed row. |
| `Projection.Outbox.DrainOutbox` | services/coordinator/src/events.ts:468-493 | Processes the oldest unprocessed rows up to the limit; after any batching the graph is the in-order fold of the processed events. |
| `Projection.FoldClosed` | services/coordinator/src/events.ts:121-133 | Events whose references exist keep every link's ends in the graph, and nodes never go. |
| `Projection.FoldWrites` | services/coordinator/src/events.ts:89-119 | For every node and every sequence of events, its status is the last one written to it, or else the one it had. |
| `GraphSchema.FoldLinks` | services/coordinator/src/events.ts:138-466 | The links are those there were and those the events make, by kind and direction: for each of the thirteen kinds, from which node to which, and by which events. |
| `GraphSchema.FoldNodes` | services/coordinator/src/events.ts:89-466 | The nodes are those there were and those the events put there, for each of the eleven kinds; none goes. |
| `Lifecycle.VerifiedMeansVerified` | services/coordinator/src/index.ts:1237-1261 | In every interleaving of requests and watchers, CONFIDENTIAL_VERIFIED implies proof verified (both rows), request complete, secure mode. |
| `Lifecycle.TrustFollowsExactlyWhen` | services/coordinator/src/index.ts:930-951 | The trust status follows the proof of a completed secure request if and only if the request was complete when the proof ended; otherwise it stays pending for good. |
| `Lifecycle.EarlyProofIsLost` | services/coordinator/src/index.ts:930-951 | A run where it does not: the proof verifies, or fails, before the provider answers, and the completed request stays pending. |
| `RequestTraces.OutboxTellsTheRows` | services/coordinator/src/index.ts:490-1262 | In every interleaving each request's events form one story: received, attested, judged, allowed or denied, failed attempts in ascending order, then failed, or routed, called with the route's provider, completed with its credential, receipted; nothing of its proof before it is queued or after it ended. It has come as far as the request's row and watcher say. |
| `RequestTraces.StatusIsTold` | services/coordinator/src/index.ts:490-1262 | So a row is denied, failed or complete if and only if its events end so. |
| `RequestTraces.FailuresAre` | services/coordinator/src/index.ts:849-860 | Exactly the failed attempts are reported as failed, each by its number and credential. |
| `GraphMirror.LinksHaveEnds` | services/coordinator/src/events.ts:167-466 | For every run of the coordinator and however far its outbox was drained, in whatever batches, every link of the graph has both its ends. |
| `GraphMirror.NodesMirrorRows` | services/coordinator/src/events.ts:261-300 | A finished request's node shows its database status; before that it shows received or authorized. |
| `GraphMirror.ProofNodesMirrorExactlyWhen` | services/coordinator/src/index.ts:1197-1226 | In every run a proof's node shows the status of its row, unless the row is queued although an earlier answer was past queued: if and only if. |
| `GraphMirror.BackToQueuedIsSilent` | services/coordinator/src/index.ts:1197-1226 | A run after which they differ: an answer proving, then one queued again. |
| `ProofStates.RecordsMoveForward` | services/tee-sim/src/prover.ts:161-349 | When each request is started once, its record only moves forward and its end is final. |
| `ProofStates.MayGoBackExactlyWhen` | services/tee-sim/src/prover.ts:161-349 | From every reachable state, some continuation without a start of the request takes its record back if and only if a run of it is enqueuing or polling while the record is past that run, or while another run of it is live. |
| `ProofStates.BackWithoutAStart` | services/tee-sim/src/prover.ts:161-171 | A run from the start where it happens: a request started twice goes from proving back to queued by the second run's poll. |
| `ProofStates.VerifiedFromGenerated` | services/tee-sim/src/prover.ts:297-345 | When each request is started once, a record becomes verified only from generated. |
| `ProofStates.VerifiedFromQueued` | services/tee-sim/src/prover.ts:161-171 | That condition is needed: a run in which a request started twice goes from queued straight to verified. |
| `ProofStates.MayLeapExactlyWhen` | services/tee-sim/src/prover.ts:161-349 | From every reachable state, some continuation without a start of the request verifies its record from neither generated nor verified if and only if two runs of it are live, or one is verifying while the record shows neither. |
| `Calendar.Successor` | prover/host/src/release.rs:71-83 | For every integer day the date of the next day is the Gregorian successor of its date. |
| `Calendar.Epoch` | prover/host/src/release.rs:71-83 | Day 0 is 1970-01-01. |
| `Calendar.AlwaysValid` | prover/host/src/release.rs:71-83 | Month and day are always valid. |
| `Calendar.Bijection` | prover/host/src/release.rs:71-83 | Days and valid dates correspond one to one. |
| `Timestamps.StrictlyIncreasing` | prover/host/src/release.rs:55-69 | Up to the year 9999 later times have later texts, in the order of scalar values. |
| `Timestamps.FieldsGiveSeconds` | prover/host/src/release.rs:55-69 | Up to the year 9999 the six fields of the text are a valid date and time of day, and give back the seconds. |
| `Timestamps.PaddedReadsBack` | prover/host/src/release.rs:55-69 | A number wider than its field is not cut: every number reads back from its digits. |

## Left out

- Cryptography (HPKE, Ed25519, SHA-256, STARK proving and sealing): statements are about what is hashed, signed or sealed.
- Unicode tables and the skew between Node's and Rust's versions of them: both sides share one table here.
- The policy engines on texts with lone surrogates: Rust's strings hold none, and the guest refuses such requests before it evaluates them.
- HTTP, SQLite itself, server-sent events, subprocesses, timers, logging and redaction: state and steps remain.
- ParseText: models no nesting limit (serde_json stops at 128 levels), and no overflow of number literals beyond a double.
- ToTemperature: multiplies `temperature` exactly, as a real number, before `Math.round`; the product of doubles may fall on the other side of a half. Which requests are accepted does not depend on it.
- ValueOf: reads documents without repeated keys; canonical documents have none.
- Exclude: adds and compares costs as real numbers, where the source adds dollars as floating-point numbers.
- RunDispatch: an adapter that throws outside its own handler is not modelled.
- Complete: the wire formats of the two providers, and the text and digests of an answer; whether its body is accountable is given.
- Authorize: `AuthorizedRequest.fromGuestJournal` is not modelled beyond the verdict and commitment of the step that resolves a gate.
- Resolve: the prompt's plaintext, the decision receipt and the insights a gate produces are not part of the state.
- Accept: the frame's bytes and their lifetime are not modelled; ids are given.
- Project: labels, metadata and the notifications of viewers are not modelled, nor events whose payload lacks a field.
- CapHolds: follows one credential at a time.
- CivilFromDays: days are unbounded integers; the source's 64-bit sum overflows within 719468 days of the largest.
- StrictlyIncreasing: years past 9999 and their order as text.
- Receipts' claims, `verify_journal_only` and `decodeJournal`: the same checks on fewer inputs.
- Base64, signatures over canonical values, attestation, the pricing table's rows, closed-enum lookups and intent field checks: only easy or finite facts.
- The mock provider, the web pages, build scripts, toolchain pins, benchmarks and the differential and privacy scripts.
