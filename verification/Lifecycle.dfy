/** Requests and their proof watchers (services/coordinator/src/index.ts) over interleaved handlers. */
module Lifecycle {
  import opened Projection
  import opened Wrappers

  datatype Status = Received | Denied | Failed | Complete

  datatype Trust = NoTrust | Simulated | Compatibility | ProofPending | ConfidentialVerified | ConfidentialProofFailed

  datatype ProofStatus = NotRequired | Queued | Proving | Generated | Verified | ProofFailing

  /** Where the request's handler stands: the awaits of `runSecureRequest`. */
  datatype Phase =
    | Gating
    | Attesting(allow: bool, proofStarted: bool)
    | Dispatching
    | Finished

  /** The watcher, with the status of the request when it ended. */
  datatype Watch = NotStarted | Polling(last: ProofStatus) | Ended(at: Status)

  /** `proof` is `requests.proof_status`; `row` is the status in `proofs`, if there is a row. */
  datatype Req = Req(secure: bool, status: Status, trust: Trust, proof: ProofStatus, row: Option<ProofStatus>,
                     phase: Phase, watch: Watch)

  datatype State = State(contributors: set<Id>, credentials: map<Id, Id>, requests: map<Id, Req>, outbox: seq<Event>)

  const Init := State({}, map[], map[], [])

  /** What the enclave answers when asked for a proof. */
  datatype Answer =
    | Transient
    | Unavailable                      // or past the ceiling
    | Midway(status: ProofStatus)      // queued, proving or generated
    | Broken                           // the proof failed
    | Done(verified: bool)

  datatype Tried = Tried(credential: Id, ok: bool)

  datatype Action =
    | Contribute(contributor: Id)
    | AddCredential(credential: Id, contributor: Id, provider: Id, models: seq<Id>)
    | ChangeCredential(credential: Id, status: Option<string>)
    | Receive(r: Id, secure: bool, model: Option<Id>)
    | GateFails(r: Id)
    | GateReturns(r: Id, allow: bool, proofStarted: bool)
    | Attested(r: Id, build: Option<Id>, nitro: bool, policy: Id, capacity: bool)
    | DispatchFails(r: Id)
    | DispatchReturns(r: Id, attempts: seq<Tried>, selected: Option<Id>)
    | Poll(r: Id, answer: Answer)

  predicate InPhase(s: State, r: Id, phase: Phase) {
    r in s.requests && s.requests[r].phase == phase
  }

  predicate Watched(s: State, r: Id) {
    r in s.requests && s.requests[r].watch.Polling?
  }

  /** Request ids are primary keys; the enclave only names credentials it was offered. */
  predicate Enabled(s: State, a: Action) {
    match a
    case AddCredential(_, contributor, _, _) => contributor in s.contributors
    case ChangeCredential(c, _) => c in s.credentials
    case Receive(r, _, _) => r !in s.requests
    case GateFails(r) => InPhase(s, r, Gating)
    case GateReturns(r, _, _) => InPhase(s, r, Gating)
    case Attested(r, _, _, _, _) => r in s.requests && s.requests[r].phase.Attesting?
    case DispatchFails(r) => InPhase(s, r, Dispatching)
    case DispatchReturns(r, attempts, selected) =>
      && InPhase(s, r, Dispatching) && (forall t <- attempts :: t.credential in s.credentials)
      && (selected.Some? ==> selected.value in s.credentials)
    case Poll(r, answer) =>
      Watched(s, r) && (answer.Midway? ==> answer.status.Queued? || answer.status.Proving? || answer.status.Generated?)
    case _ => true
  }

  // ------------------------------------------------------------ rows

  function StartProof(q: Req, started: bool): Req {
    if started then q.(proof := Queued, row := Some(Queued), watch := Polling(Queued)) else q
  }

  function MarkFailed(q: Req): Req {
    q.(proof := ProofFailing, row := Some(ProofFailing),
       trust := if q.secure then ConfidentialProofFailed else q.trust, watch := Ended(q.status))
  }

  function Polled(q: Req, answer: Answer): Req {
    match answer
    case Transient => q
    case Unavailable => MarkFailed(q)
    case Broken => MarkFailed(q)
    case Midway(status) => q.(proof := status, row := Some(status), watch := Polling(status))
    case Done(verified) =>
      var end := if verified then Verified else Generated;
      q.(proof := end, row := Some(end),
         trust := if verified && q.secure && q.status == Complete then ConfidentialVerified else q.trust,
         watch := Ended(q.status))
  }

  function NextRow(q: Req, a: Action): Req {
    match a
    case GateFails(_) => q.(status := Failed, phase := Finished)
    case GateReturns(_, allow, started) => q.(phase := Attesting(allow, started))
    case Attested(_, _, _, _, capacity) =>
      if !q.phase.Attesting? then q
      else
        var p := StartProof(q, q.phase.proofStarted);
        if !q.phase.allow
          then p.(status := Denied, trust := if q.secure then Simulated else Compatibility, phase := Finished)
        else if !capacity then p.(status := Failed, phase := Finished)
        else p.(phase := Dispatching)
    case DispatchFails(_) => q.(status := Failed, phase := Finished)
    case DispatchReturns(_, _, selected) =>
      if selected.None? then q.(status := Failed, phase := Finished)
      else q.(status := Complete, trust := if q.secure then ProofPending else Compatibility, phase := Finished)
    case Poll(_, answer) => Polled(q, answer)
    case _ => q
  }

  // ------------------------------------------------------------ events

  function Failures(r: Id, attempts: seq<Tried>): seq<Event> {
    if attempts == [] then []
    else
      var rest, t := Failures(r, attempts[..|attempts| - 1]), attempts[|attempts| - 1];
      if t.ok then rest else rest + [ProviderFailed(r, |attempts|, t.credential)]
  }

  function PollEvents(r: Id, last: ProofStatus, answer: Answer): seq<Event> {
    match answer
    case Transient => []
    case Unavailable => [ProofFailed(r)]
    case Broken => [ProofFailed(r)]
    case Midway(status) =>
      if status == last then [] else if status.Proving? then [ProofStarted(r)]
        else if status.Generated? then [ProofGenerated(r)] else []
    case Done(verified) => [ProofCompleted(r, verified)]
  }

  function AttestationEvents(r: Id, build: Option<Id>, nitro: bool, policy: Id, proofStarted: bool): seq<Event> {
    (if build.Some? then [TeeVerified(r, build.value, nitro)] else [])
    + [PolicyStarted(r, policy)]
    + (if proofStarted then [ProofQueued(r)] else [])
  }

  function VerdictEvents(r: Id, allow: bool, capacity: bool): seq<Event> {
    if !allow then [PolicyDenied(r)] else if !capacity then [PolicyAllowed(r), RequestFailed(r)] else [PolicyAllowed(r)]
  }

  function SelectedEvents(r: Id, c: Id, provider: Id, n: nat): seq<Event> {
    [RouteSelected(r, c, provider), ProviderStarted(r, provider), ProviderCompleted(r, n, c), ReceiptCreated(r)]
  }

  function Emitted(s: State, a: Action): seq<Event>
    requires Enabled(s, a)
  {
    match a
    case Contribute(c) => [ContributorCreated(c)]
    case AddCredential(c, contributor, provider, models) => [CredentialCreated(c, contributor, provider, models)]
    case ChangeCredential(c, status) => [CredentialUpdated(c, status)]
    case Receive(r, _, model) => [RequestReceived(r, model)]
    case GateFails(r) => [RequestFailed(r)]
    case GateReturns(_, _, _) => []
    case Attested(r, build, nitro, policy, capacity) =>
      AttestationEvents(r, build, nitro, policy, s.requests[r].phase.proofStarted)
        + VerdictEvents(r, s.requests[r].phase.allow, capacity)
    case DispatchFails(r) => [RequestFailed(r)]
    case DispatchReturns(r, attempts, selected) =>
      Failures(r, attempts)
      + (if selected.None? then [RequestFailed(r)]
         else SelectedEvents(r, selected.value, s.credentials[selected.value], |attempts|))
    case Poll(r, answer) => PollEvents(r, s.requests[r].watch.last, answer)
  }

  function RequestOf(a: Action): Option<Id> {
    match a
    case Receive(r, _, _) => Some(r)
    case GateFails(r) => Some(r)
    case GateReturns(r, _, _) => Some(r)
    case Attested(r, _, _, _, _) => Some(r)
    case DispatchFails(r) => Some(r)
    case DispatchReturns(r, _, _) => Some(r)
    case Poll(r, _) => Some(r)
    case _ => None
  }

  function Requests(s: State, a: Action): map<Id, Req>
    requires Enabled(s, a)
  {
    match RequestOf(a)
    case None => s.requests
    case Some(r) =>
      if a.Receive? then s.requests[r := Req(a.secure, Received, NoTrust, NotRequired, None, Gating, NotStarted)]
      else if r in s.requests then s.requests[r := NextRow(s.requests[r], a)]
      else s.requests
  }

  function Apply(s: State, a: Action): State
    requires Enabled(s, a)
  {
    State(
      if a.Contribute? then s.contributors + {a.contributor} else s.contributors,
      if a.AddCredential? then s.credentials[a.credential := a.provider] else s.credentials,
      Requests(s, a),
      s.outbox + Emitted(s, a))
  }

  ghost predicate Runs(s: State, actions: seq<Action>)
    decreases |actions|
  {
    actions != [] ==> Enabled(s, actions[0]) && Runs(Apply(s, actions[0]), actions[1..])
  }

  ghost function After(s: State, actions: seq<Action>): State
    requires Runs(s, actions)
    decreases |actions|
  {
    if actions == [] then s else After(Apply(s, actions[0]), actions[1..])
  }

  // ------------------------------------------------------------ trust

  /** What a request's row says of its proof, in every reachable state. */
  ghost predicate RowInv(q: Req) {
    && (q.phase.Finished? <==> !q.status.Received?)
    && (q.phase.Gating? || q.phase.Attesting? ==> q.watch.NotStarted?)
    && (q.watch.NotStarted? ==> q.proof.NotRequired? && q.row.None?)
    && (!q.watch.NotStarted? ==> q.row == Some(q.proof))
    && (q.watch.Polling? ==> q.proof == q.watch.last && (q.proof.Queued? || q.proof.Proving? || q.proof.Generated?))
    && (q.watch.Ended? ==> q.proof.Verified? || q.proof.Generated? || q.proof.ProofFailing?)
    && (q.watch.Ended? && !q.watch.at.Received? ==> q.watch.at == q.status)
    && TrustTells(q)
  }

  /** The trust status of a completed secure request, by when its proof ended. */
  ghost predicate TrustTells(q: Req) {
    && (q.trust.ConfidentialVerified? ==> q.secure && q.status.Complete? && q.proof.Verified?)
    && (q.secure && q.status.Complete? ==>
          q.trust == (if !q.watch.Ended? || q.watch.at.Received? || q.proof.Generated? then ProofPending
                      else if q.proof.Verified? then ConfidentialVerified else ConfidentialProofFailed))
  }

  lemma RowStep(s: State, r: Id, a: Action)
    requires r in s.requests && RowInv(s.requests[r]) && Enabled(s, a) && RequestOf(a) == Some(r) && !a.Receive?
    ensures RowInv(NextRow(s.requests[r], a))
  {}

  ghost predicate AllRows(s: State) {
    forall r <- s.requests :: RowInv(s.requests[r])
  }

  lemma RowsStep(s: State, a: Action)
    requires AllRows(s) && Enabled(s, a)
    ensures AllRows(Apply(s, a))
  {
    if RequestOf(a).Some? && !a.Receive? { RowStep(s, RequestOf(a).value, a); }
  }

  lemma {:induction false} RowsRun(s: State, actions: seq<Action>)
    requires AllRows(s) && Runs(s, actions)
    ensures AllRows(After(s, actions))
    decreases |actions|
  {
    if actions != [] {
      RowsStep(s, actions[0]);
      RowsRun(Apply(s, actions[0]), actions[1..]);
    }
  }

  /** In every interleaving, a confidential-verified request is secure and complete, and its proof verified. */
  lemma VerifiedMeansVerified(actions: seq<Action>, r: Id)
    requires Runs(Init, actions) && r in After(Init, actions).requests
             && After(Init, actions).requests[r].trust.ConfidentialVerified?
    ensures var q := After(Init, actions).requests[r];
            q.secure && q.status.Complete? && q.proof.Verified? && q.row == Some(Verified)
  {
    RowsRun(Init, actions);
  }

  /**
    The converse holds exactly when the watcher found the request complete: a proof that ends while the request
    is still being dispatched leaves the trust status pending for good, verified or failed.
  */
  lemma TrustFollowsExactlyWhen(actions: seq<Action>, r: Id)
    requires Runs(Init, actions) && r in After(Init, actions).requests
    requires var q := After(Init, actions).requests[r];
             q.secure && q.status.Complete? && q.watch.Ended? && (q.proof.Verified? || q.proof.ProofFailing?)
    ensures var q := After(Init, actions).requests[r];
            && (q.trust == (if q.proof.Verified? then ConfidentialVerified else ConfidentialProofFailed)
              <==> q.watch.at.Complete?)
            && (!q.watch.at.Complete? ==> q.watch.at.Received? && q.trust.ProofPending?)
  {
    RowsRun(Init, actions);
    var q := After(Init, actions).requests[r];
    assert RowInv(q);
  }

  // ------------------------------------------------------------ a proof that ends too early

  lemma {:induction false} ExtendFrom(s: State, actions: seq<Action>, a: Action)
    requires Runs(s, actions) && Enabled(After(s, actions), a)
    ensures Runs(s, actions + [a]) && After(s, actions + [a]) == Apply(After(s, actions), a)
    decreases |actions|
  {
    if actions == [] {
      assert [] + [a] == [a] && [a][1..] == [];
      assert Runs(Apply(s, a), []) && After(Apply(s, a), []) == Apply(s, a);
    } else {
      assert (actions + [a])[0] == actions[0] && (actions + [a])[1..] == actions[1..] + [a];
      ExtendFrom(Apply(s, actions[0]), actions[1..], a);
    }
  }

  /** A secure request on its way to its provider, with its proof queued. */
  lemma OnItsWay(r: Id, c: Id) returns (actions: seq<Action>)
    ensures Runs(Init, actions) && c in After(Init, actions).credentials && r in After(Init, actions).requests
    ensures After(Init, actions).requests[r]
            == Req(true, Received, NoTrust, Queued, Some(Queued), Dispatching, Polling(Queued))
  {
    actions := [];
    ExtendFrom(Init, actions, Contribute("owner"));
    actions := actions + [Contribute("owner")];
    ExtendFrom(Init, actions, AddCredential(c, "owner", "provider", []));
    actions := actions + [AddCredential(c, "owner", "provider", [])];
    ExtendFrom(Init, actions, Receive(r, true, None));
    actions := actions + [Receive(r, true, None)];
    ExtendFrom(Init, actions, GateReturns(r, true, true));
    actions := actions + [GateReturns(r, true, true)];
    ExtendFrom(Init, actions, Attested(r, None, false, "policy", true));
    actions := actions + [Attested(r, None, false, "policy", true)];
  }

  /**
    The proof verifies, or fails, before the provider has answered: the request completes, and its trust status
    stays pending.
  */
  lemma EarlyProofIsLost(r: Id, c: Id, verified: bool) returns (actions: seq<Action>)
    ensures Runs(Init, actions) && r in After(Init, actions).requests
    ensures var q := After(Init, actions).requests[r];
            && q.secure && q.status.Complete? && q.watch.Ended? && q.trust.ProofPending?
            && q.proof == (if verified then Verified else ProofFailing)
  {
    actions := OnItsWay(r, c);
    var poll := Poll(r, if verified then Done(true) else Broken);
    ExtendFrom(Init, actions, poll);
    actions := actions + [poll];
    var returned := DispatchReturns(r, [Tried(c, true)], Some(c));
    ExtendFrom(Init, actions, returned);
    actions := actions + [returned];
  }
}
