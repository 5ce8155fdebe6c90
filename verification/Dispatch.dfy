/** Final authorization of each candidate (services/tee-sim/src/authorize.ts), and `runDispatch` (index.ts there). */
module Dispatch {
  import opened Wrappers

  datatype Capability = Capability(
    credentialId: string, contributorId: string, provider: string,
    allowedModels: seq<string>, allowedPolicyIds: seq<string>, blobDigest: string)

  datatype Candidate = Candidate(
    credentialId: string, contributorId: string, provider: string, status: string,
    encryptedBlob: string, capability: Capability, capabilitySignature: string)

  /** What an AuthorizedRequest holds that routing depends on. */
  datatype Allowed = Allowed(model: string, policyId: string)

  datatype Credential = Credential(credentialId: string, contributorId: string, provider: string, secret: string,
                                   capability: Capability)

  datatype Reason =
    | NotEnabled | ProviderMismatch | ModelNotAllowed | PolicyNotAllowed
    | CapabilitySignatureInvalid | CapabilityIdMismatch | BlobDigestMismatch | BlobDecryptFailed

  /** Signatures, digests and decryption, taken as given. */
  datatype Enclave = Enclave(
    verifies: (Capability, string) -> bool,
    sha256Hex: string -> string,
    decryptBlob: string -> Option<string>)

  // ------------------------------------------------------------ final authorization

  function Authorize(e: Enclave, c: Candidate, request: Allowed): Result<Credential, Reason> {
    if c.status != "ACTIVE" then Err(NotEnabled)
    else if !e.verifies(c.capability, c.capabilitySignature) then Err(CapabilitySignatureInvalid)
    else if c.capability.credentialId != c.credentialId || c.capability.contributorId != c.contributorId
      then Err(CapabilityIdMismatch)
    else if c.capability.blobDigest != "0x" + e.sha256Hex(c.encryptedBlob) then Err(BlobDigestMismatch)
    else if c.capability.provider != c.provider then Err(ProviderMismatch)
    else if request.model !in c.capability.allowedModels then Err(ModelNotAllowed)
    else if request.policyId !in c.capability.allowedPolicyIds then Err(PolicyNotAllowed)
    else
      match e.decryptBlob(c.encryptedBlob)
      case None => Err(BlobDecryptFailed)
      case Some(secret) => Ok(Credential(c.credentialId, c.capability.contributorId, c.provider, secret, c.capability))
  }

  /** What is required of a candidate, with the reason its failure is reported as, in the order of the checks. */
  function Checks(e: Enclave, c: Candidate, request: Allowed): (r: seq<(bool, Reason)>)
    ensures |r| == 8
  {
    [(c.status == "ACTIVE", NotEnabled),
     (e.verifies(c.capability, c.capabilitySignature), CapabilitySignatureInvalid),
     (c.capability.credentialId == c.credentialId && c.capability.contributorId == c.contributorId,
      CapabilityIdMismatch),
     (c.capability.blobDigest == "0x" + e.sha256Hex(c.encryptedBlob), BlobDigestMismatch),
     (c.capability.provider == c.provider, ProviderMismatch),
     (request.model in c.capability.allowedModels, ModelNotAllowed),
     (request.policyId in c.capability.allowedPolicyIds, PolicyNotAllowed),
     (e.decryptBlob(c.encryptedBlob).Some?, BlobDecryptFailed)]
  }

  /** Each check has its own reason, and the one reported is that of the first check to fail. */
  lemma ReasonIsTheFirstFailure(e: Enclave, c: Candidate, request: Allowed, k: nat)
    requires k < 8
    ensures var checks := Checks(e, c, request);
            && (forall i :: 0 <= i < k ==> checks[i].1 != checks[k].1)
            && (Authorize(e, c, request) == Err(checks[k].1)
              <==> !checks[k].0 && forall i :: 0 <= i < k ==> checks[i].0)
            && (Authorize(e, c, request).Ok? <==> forall i :: 0 <= i < 8 ==> checks[i].0)
  {
    var checks := Checks(e, c, request);
    assert k == 0 || k == 1 || k == 2 || k == 3 || k == 4 || k == 5 || k == 6 || k == 7;
    assert (forall i :: 0 <= i < 8 ==> checks[i].0) <==>
      checks[0].0 && checks[1].0 && checks[2].0 && checks[3].0 && checks[4].0 && checks[5].0 && checks[6].0
        && checks[7].0;
  }

  /**
    Of the candidates that carry one signed capability only the one it was signed for passes: whatever else is
    changed in an authorized candidate, its ids, provider, status or blob, it is refused (digests being
    collision-free on the two blobs).
  */
  lemma AuthorizedExactlyWhenUnaltered(e: Enclave, c: Candidate, d: Candidate, request: Allowed)
    requires Authorize(e, c, request).Ok? && d.capability == c.capability
             && e.verifies(d.capability, d.capabilitySignature)
    requires e.sha256Hex(c.encryptedBlob) == e.sha256Hex(d.encryptedBlob) ==> c.encryptedBlob == d.encryptedBlob
    ensures Authorize(e, d, request).Ok? <==> d == c.(capabilitySignature := d.capabilitySignature)
  {
    var x, y := "0x" + e.sha256Hex(c.encryptedBlob), "0x" + e.sha256Hex(d.encryptedBlob);
    assert x[2..] == e.sha256Hex(c.encryptedBlob) && y[2..] == e.sha256Hex(d.encryptedBlob);
  }

  /**
    A credential is minted only from what the enclave signed: whatever else two candidates claim, if both pass
    under one signed capability they yield the same credential (digests being collision-free on the two blobs),
    and it is allowed for the request's model and policy.
  */
  lemma SignedCapabilityDecides(e: Enclave, c: Candidate, d: Candidate, request: Allowed)
    requires Authorize(e, c, request).Ok? && Authorize(e, d, request).Ok? && c.capability == d.capability
    requires e.sha256Hex(c.encryptedBlob) == e.sha256Hex(d.encryptedBlob) ==> c.encryptedBlob == d.encryptedBlob
    ensures Authorize(e, c, request) == Authorize(e, d, request)
    ensures var k := Authorize(e, c, request).value;
            && e.verifies(k.capability, c.capabilitySignature)
            && k.credentialId == k.capability.credentialId && k.contributorId == k.capability.contributorId
              && k.provider == k.capability.provider
            && request.model in k.capability.allowedModels && request.policyId in k.capability.allowedPolicyIds
  {
    var x, y := "0x" + e.sha256Hex(c.encryptedBlob), "0x" + e.sha256Hex(d.encryptedBlob);
    assert x[2..] == e.sha256Hex(c.encryptedBlob) && y[2..] == e.sha256Hex(d.encryptedBlob);
  }

  // ------------------------------------------------------------ the dispatch loop

  datatype Classification = EgressDenied | UnpricedModel | RedirectRefused | AuthFailed | RateLimited
    | Other(name: string)

  datatype Outcome =
    | Success(httpStatus: nat, latencyMs: nat)
    | Failure(httpStatus: nat, latencyMs: nat, classification: Classification, outcomeUnknown: bool,
              assumedSpend: Option<nat>)

  /** Nothing left the enclave: the only failures another candidate may follow. */
  predicate PreDispatch(o: Outcome) {
    o.Failure? && (o.classification.EgressDenied? || o.classification.UnpricedModel?)
  }

  datatype Attempt = Attempt(credentialId: string, contributorId: string, attemptNumber: nat, outcome: Outcome)

  datatype Refusal = Refusal(credentialId: string, reason: Reason)

  datatype Code = NoCapacity | ProviderAuthFailed | ProviderRateLimited | ProviderError

  datatype Report = Report(attempts: seq<Attempt>, refusals: seq<Refusal>, selected: Option<Attempt>,
                           code: Option<Code>)

  /**
    The providers: which models each supports, what the n-th call of this dispatch brings, and whether it sent the
    prompt upstream.
  */
  datatype Providers = Providers(
    supports: (string, string) -> bool,
    complete: (nat, Credential) -> Outcome,
    sent: (nat, Credential) -> bool)

  /** A failure that says the prompt was not sent. */
  ghost predicate Withheld(o: Outcome) {
    o.Failure? && o.classification in {EgressDenied, UnpricedModel}
  }

  /** The contract of the adapters: an outcome tells whether the prompt was sent. */
  ghost predicate Tells(p: Providers) {
    forall n, k :: p.sent(n, k) <==> !Withheld(p.complete(n, k))
  }

  /** Authorized, and its provider's adapter takes the model. */
  function Usable(e: Enclave, p: Providers, c: Candidate, request: Allowed): Result<Credential, Reason> {
    match Authorize(e, c, request)
    case Err(reason) => Err(reason)
    case Ok(credential) => if p.supports(c.provider, request.model) then Ok(credential) else Err(ModelNotAllowed)
  }

  function UsableOf(e: Enclave, p: Providers, candidates: seq<Candidate>, request: Allowed): seq<Credential> {
    if candidates == [] then []
    else
      var rest := UsableOf(e, p, candidates[..|candidates| - 1], request);
      match Usable(e, p, candidates[|candidates| - 1], request)
      case Ok(credential) => rest + [credential]
      case Err(_) => rest
  }

  function RefusedOf(e: Enclave, p: Providers, candidates: seq<Candidate>, request: Allowed): seq<Refusal> {
    if candidates == [] then []
    else
      var rest, c := RefusedOf(e, p, candidates[..|candidates| - 1], request), candidates[|candidates| - 1];
      match Usable(e, p, c, request)
      case Ok(_) => rest
      case Err(reason) => rest + [Refusal(c.credentialId, reason)]
  }

  function AttemptOf(p: Providers, credentials: seq<Credential>, i: nat): Attempt
    requires i < |credentials|
  {
    Attempt(credentials[i].credentialId, credentials[i].contributorId, i + 1, p.complete(i + 1, credentials[i]))
  }

  /** Numbered from one, and whatever is not the last call was withheld. */
  ghost predicate SingleDispatch(attempts: seq<Attempt>) {
    forall i :: 0 <= i < |attempts| ==>
      attempts[i].attemptNumber == i + 1 && (i + 1 < |attempts| ==> Withheld(attempts[i].outcome))
  }

  /** The last attempt, if it succeeded. */
  function Succeeded(attempts: seq<Attempt>): Option<Attempt> {
    if attempts != [] && attempts[|attempts| - 1].outcome.Success? then Some(attempts[|attempts| - 1]) else None
  }

  function LastOutcome(attempts: seq<Attempt>): Option<Outcome> {
    if attempts == [] then None else Some(attempts[|attempts| - 1].outcome)
  }

  function CodeOf(lastFailure: Option<Outcome>): Code {
    match lastFailure
    case None => NoCapacity
    case Some(Failure(_, _, AuthFailed, _, _)) => ProviderAuthFailed
    case Some(Failure(_, _, RateLimited, _, _)) => ProviderRateLimited
    case _ => ProviderError
  }

  /** The first `n` candidates were met: the usable ones were called in order, the others refused. */
  ghost predicate Met(e: Enclave, p: Providers, candidates: seq<Candidate>, n: nat, request: Allowed,
                      attempts: seq<Attempt>, refusals: seq<Refusal>) {
    && n <= |candidates|
    && refusals == RefusedOf(e, p, candidates[..n], request)
    && var used := UsableOf(e, p, candidates[..n], request);
       |attempts| == |used| && forall i :: 0 <= i < |used| ==> attempts[i] == AttemptOf(p, used, i)
  }

  /**
    Where the dispatch ended: after all candidates if every call was withheld, and otherwise with the candidate whose
    call was not.
  */
  ghost predicate Ended(e: Enclave, p: Providers, candidates: seq<Candidate>, n: nat, request: Allowed,
                        attempts: seq<Attempt>) {
    if AllWithheld(attempts) then n == |candidates|
    else 0 < n <= |candidates| && Usable(e, p, candidates[n - 1], request).Ok?
  }

  ghost predicate AllWithheld(attempts: seq<Attempt>) {
    forall i :: 0 <= i < |attempts| ==> Withheld(attempts[i].outcome)
  }

  lemma MeetRefused(e: Enclave, p: Providers, candidates: seq<Candidate>, n: nat, request: Allowed,
                    attempts: seq<Attempt>, refusals: seq<Refusal>, reason: Reason)
    requires Met(e, p, candidates, n, request, attempts, refusals) && n < |candidates|
             && Usable(e, p, candidates[n], request) == Err(reason)
    ensures Met(e, p, candidates, n + 1, request, attempts, refusals + [Refusal(candidates[n].credentialId, reason)])
  {
    assert candidates[..n + 1][..n] == candidates[..n];
  }

  lemma MeetCalled(e: Enclave, p: Providers, candidates: seq<Candidate>, n: nat, request: Allowed,
                   attempts: seq<Attempt>, refusals: seq<Refusal>, k: Credential, a: Attempt)
    requires Met(e, p, candidates, n, request, attempts, refusals) && n < |candidates|
             && Usable(e, p, candidates[n], request) == Ok(k)
    requires a
             == Attempt(candidates[n].credentialId, candidates[n].contributorId, |attempts| + 1,
                        p.complete(|attempts| + 1, k))
    ensures Met(e, p, candidates, n + 1, request, attempts + [a], refusals)
  {
    assert candidates[..n + 1][..n] == candidates[..n];
  }

  lemma CalledOnce(attempts: seq<Attempt>, a: Attempt)
    requires SingleDispatch(attempts) && AllWithheld(attempts) && a.attemptNumber == |attempts| + 1
    ensures SingleDispatch(attempts + [a]) && (AllWithheld(attempts + [a]) <==> Withheld(a.outcome))
  {
    assert (attempts + [a])[|attempts|] == a;
  }

  /** What a dispatch reports, in terms of the candidates it was given. */
  ghost predicate IsReport(e: Enclave, p: Providers, candidates: seq<Candidate>, request: Allowed, r: Report) {
    && SingleDispatch(r.attempts)
    && (exists n: nat ::
          && Met(e, p, candidates, n, request, r.attempts, r.refusals)
          && Ended(e, p, candidates, n, request, r.attempts))
    && r.selected == Succeeded(r.attempts)
    && r.code == if r.selected.Some? then None else Some(CodeOf(LastOutcome(r.attempts)))
  }

  /**
    The usable candidates are called in order, up to the first call that is not withheld, and exactly the unusable
    ones met before it are reported as refused.
  */
  method RunDispatch(e: Enclave, p: Providers, candidates: seq<Candidate>, request: Allowed) returns (r: Report)
    ensures IsReport(e, p, candidates, request, r)
  {
    var attempts: seq<Attempt>, refusals: seq<Refusal> := [], [];
    var success: Option<Attempt>, lastFailure: Option<Outcome> := None, None;
    var attemptNumber, n := 0, 0;
    while n < |candidates|
      invariant success == None == Succeeded(attempts) && attemptNumber == |attempts|
      invariant Met(e, p, candidates, n, request, attempts, refusals)
      invariant SingleDispatch(attempts) && AllWithheld(attempts)
      invariant lastFailure == LastOutcome(attempts)
    {
      var candidate := candidates[n];
      var usable := Usable(e, p, candidate, request);
      if usable.Err? {
        MeetRefused(e, p, candidates, n, request, attempts, refusals, usable.error);
        refusals := refusals + [Refusal(candidate.credentialId, usable.error)];
        n := n + 1;
        continue;
      }
      attemptNumber := attemptNumber + 1;
      var outcome := p.complete(attemptNumber, usable.value);
      var attempt := Attempt(candidate.credentialId, candidate.contributorId, attemptNumber, outcome);
      MeetCalled(e, p, candidates, n, request, attempts, refusals, usable.value, attempt);
      CalledOnce(attempts, attempt);
      attempts := attempts + [attempt];
      n := n + 1;
      assert LastOutcome(attempts) == Some(outcome) && Succeeded(attempts) == if outcome.Success? then Some(attempt)
             else None;
      if outcome.Success? {
        success := Some(attempt);
        break;
      }
      lastFailure := Some(outcome);
      if !PreDispatch(outcome) { break; }
    }
    assert Met(e, p, candidates, n, request, attempts, refusals) && Ended(e, p, candidates, n, request, attempts);
    r := Report(attempts, refusals, success, if success.Some? then None else Some(CodeOf(lastFailure)));
  }

  /** Every credential that was called passed authorization for this request. */
  lemma {:induction false} UsableWereAuthorized(e: Enclave, p: Providers, candidates: seq<Candidate>, request: Allowed,
                                                k: Credential)
    requires k in UsableOf(e, p, candidates, request)
    ensures exists c <- candidates :: Authorize(e, c, request) == Ok(k) && p.supports(c.provider, request.model)
  {
    var last := candidates[|candidates| - 1];
    if Usable(e, p, last, request) == Ok(k) {
      assert last in candidates;
    } else {
      UsableWereAuthorized(e, p, candidates[..|candidates| - 1], request, k);
      var c :| c in candidates[..|candidates| - 1] && Authorize(e, c, request) == Ok(k)
        && p.supports(c.provider, request.model);
      assert c in candidates;
    }
  }

  lemma {:induction false} UsablePrefix(e: Enclave, p: Providers, candidates: seq<Candidate>, n: nat, request: Allowed)
    requires n <= |candidates|
    ensures UsableOf(e, p, candidates[..n], request) <= UsableOf(e, p, candidates, request)
  {
    if n == |candidates| {
      assert candidates[..n] == candidates;
    } else {
      var init := candidates[..|candidates| - 1];
      UsablePrefix(e, p, init, n, request);
      assert init[..n] == candidates[..n];
    }
  }

  /** The credentials a dispatch called: the first of the usable ones, in order. */
  ghost function Called(e: Enclave, p: Providers, candidates: seq<Candidate>, request: Allowed,
                        r: Report): (called: seq<Credential>)
    requires IsReport(e, p, candidates, request, r)
    ensures |called| == |r.attempts|
  {
    CalledAre(e, p, candidates, request, r);
    UsableOf(e, p, candidates, request)[..|r.attempts|]
  }

  lemma CalledAre(e: Enclave, p: Providers, candidates: seq<Candidate>, request: Allowed, r: Report)
    requires IsReport(e, p, candidates, request, r)
    ensures var used := UsableOf(e, p, candidates, request);
            && |r.attempts| <= |used|
            && forall i :: 0 <= i < |r.attempts| ==> r.attempts[i] == AttemptOf(p, used, i)
  {
    var n: nat :| Met(e, p, candidates, n, request, r.attempts, r.refusals);
    UsablePrefix(e, p, candidates, n, request);
    var some, all := UsableOf(e, p, candidates[..n], request), UsableOf(e, p, candidates, request);
    forall i | 0 <= i < |r.attempts| ensures r.attempts[i] == AttemptOf(p, all, i) {
      assert some[i] == all[i] && r.attempts[i] == AttemptOf(p, some, i);
    }
  }

  /** The `i`-th call of the dispatch sent the prompt upstream. */
  ghost predicate SentBy(e: Enclave, p: Providers, candidates: seq<Candidate>, request: Allowed, r: Report, i: nat) {
    && IsReport(e, p, candidates, request, r) && i < |r.attempts|
    && p.sent(i + 1, Called(e, p, candidates, request, r)[i])
  }

  /**
    A dispatch sends the prompt at most once, in its last call, and reports that call's failure as anything but a
    withheld one: the last call sent it if and only if it succeeded or failed otherwise.
  */
  lemma OnlyTheLastIsSent(e: Enclave, p: Providers, candidates: seq<Candidate>, request: Allowed, r: Report, i: nat)
    requires Tells(p) && IsReport(e, p, candidates, request, r) && i < |r.attempts|
    ensures SentBy(e, p, candidates, request, r, i)
       <==> i == |r.attempts| - 1
            && (r.attempts[i].outcome.Success?
              || r.attempts[i].outcome.classification !in {EgressDenied, UnpricedModel})
  {
    CalledAre(e, p, candidates, request, r);
    assert r.attempts[i] == AttemptOf(p, UsableOf(e, p, candidates, request), i);
  }

  /** Another candidate follows a call only if that failed before anything was sent. */
  lemma NextOnlyIfWithheld(e: Enclave, p: Providers, candidates: seq<Candidate>, request: Allowed, r: Report, i: nat)
    requires IsReport(e, p, candidates, request, r) && i + 1 < |r.attempts|
    ensures r.attempts[i].outcome.Failure? && r.attempts[i].outcome.classification in {EgressDenied, UnpricedModel}
  {}

  /** All candidates are met if every call failed before anything was sent. */
  lemma GoesOnWhileWithheld(e: Enclave, p: Providers, candidates: seq<Candidate>, request: Allowed, r: Report)
    requires IsReport(e, p, candidates, request, r)
    requires r.attempts != [] ==>
               var o := r.attempts[|r.attempts| - 1].outcome;
               o.Failure? && o.classification in {EgressDenied, UnpricedModel}
    ensures |r.attempts| + |r.refusals| == |candidates|
  {
    var n: nat :| Met(e, p, candidates, n, request, r.attempts, r.refusals)
                  && Ended(e, p, candidates, n, request, r.attempts);
    LastDecides(r.attempts);
    assert candidates[..n] == candidates;
    MetAdds(e, p, candidates, request);
  }

  lemma LastDecides(attempts: seq<Attempt>)
    requires SingleDispatch(attempts)
    ensures AllWithheld(attempts) <==> attempts == [] || Withheld(attempts[|attempts| - 1].outcome)
  {}

  /** Any other outcome ends the dispatch: no candidate is met after the one whose call brought it. */
  lemma StopsOnceSent(e: Enclave, p: Providers, candidates: seq<Candidate>, request: Allowed, r: Report)
    requires IsReport(e, p, candidates, request, r) && r.attempts != []
    requires var o := r.attempts[|r.attempts| - 1].outcome;
             o.Success? || o.classification !in {EgressDenied, UnpricedModel}
    ensures var met := |r.attempts| + |r.refusals|;
            && 0 < met <= |candidates| && Usable(e, p, candidates[met - 1], request).Ok?
            && candidates[met - 1].credentialId == r.attempts[|r.attempts| - 1].credentialId
  {
    var n: nat :| Met(e, p, candidates, n, request, r.attempts, r.refusals)
                  && Ended(e, p, candidates, n, request, r.attempts);
    LastDecides(r.attempts);
    MetAdds(e, p, candidates[..n], request);
    LastUsed(e, p, candidates, n, request, r.attempts, r.refusals);
  }

  lemma LastUsed(e: Enclave, p: Providers, candidates: seq<Candidate>, n: nat, request: Allowed,
                 attempts: seq<Attempt>, refusals: seq<Refusal>)
    requires Met(e, p, candidates, n, request, attempts, refusals) && attempts != []
    requires n > 0 && Usable(e, p, candidates[n - 1], request).Ok?
    ensures attempts[|attempts| - 1].credentialId == candidates[n - 1].credentialId
  {
    assert candidates[..n][n - 1] == candidates[n - 1];
    var used := UsableOf(e, p, candidates[..n], request);
    assert attempts[|used| - 1] == AttemptOf(p, used, |used| - 1);
  }

  lemma {:induction false} MetAdds(e: Enclave, p: Providers, candidates: seq<Candidate>, request: Allowed)
    ensures |UsableOf(e, p, candidates, request)| + |RefusedOf(e, p, candidates, request)| == |candidates|
  {
    if candidates != [] { MetAdds(e, p, candidates[..|candidates| - 1], request); }
  }

  /** What the caller is told, from the last call alone. */
  lemma CodeSaysExactly(e: Enclave, p: Providers, candidates: seq<Candidate>, request: Allowed, r: Report)
    requires IsReport(e, p, candidates, request, r)
    ensures r.code == Some(NoCapacity) <==> r.attempts == []
    ensures r.attempts != [] ==>
              var o := r.attempts[|r.attempts| - 1].outcome;
              && (r.code == None <==> o.Success?)
              && (r.code == Some(ProviderAuthFailed) <==> o.Failure? && o.classification == AuthFailed)
              && (r.code == Some(ProviderRateLimited) <==> o.Failure? && o.classification == RateLimited)
              && (r.code == Some(ProviderError) <==> o.Failure? && o.classification !in {AuthFailed, RateLimited})
              && r.selected == if o.Success? then Some(r.attempts[|r.attempts| - 1]) else None
  {}

  /** Whatever was called was authorized for the request. */
  lemma CalledWereAuthorized(e: Enclave, p: Providers, candidates: seq<Candidate>, request: Allowed, r: Report, i: nat)
    requires IsReport(e, p, candidates, request, r) && i < |r.attempts|
    ensures exists c <- candidates ::
              && Authorize(e, c, request) == Ok(Called(e, p, candidates, request, r)[i])
              && p.supports(c.provider, request.model)
              && r.attempts[i].credentialId == c.credentialId
  {
    CalledAre(e, p, candidates, request, r);
    var used := UsableOf(e, p, candidates, request);
    assert r.attempts[i] == AttemptOf(p, used, i) && used[i] in used;
    UsableWereAuthorized(e, p, candidates, request, used[i]);
  }
}
