/** In every interleaving the outbox tells each request's story in the one order there is. */
module RequestTraces {
  import opened Lifecycle
  import opened Projection
  import opened Wrappers

  /** The request an event is about. */
  function About(e: Event): Option<Id> {
    match e
    case ContributorCreated(_) => None
    case CredentialCreated(_, _, _, _) => None
    case CredentialUpdated(_, _) => None
    case _ => Some(e.request)
  }

  /** How far a request's events have come; `failed` is the number of the last failed attempt. */
  datatype Told =
    | Nothing | Heard | Seen | Weighed | Allowed(failed: nat) | Routed(credential: Id, provider: Id, failed: nat)
    | Calling(credential: Id, failed: nat) | Answered | Closed | Refused | Broke

  /** How far its proof's events have come, and what they ended with. */
  datatype ProofTold = NoProof | Running | Over(status: ProofStatus)

  datatype Story = Story(request: Told, proof: ProofTold)

  /** What may be told next of a proof. */
  function NextOfProof(p: ProofTold, e: Event): Option<ProofTold> {
    if e.ProofQueued? then (if p.NoProof? then Some(Running) else None)
    else if !p.Running? then None
    else
      match e
      case ProofCompleted(_, verified) => Some(Over(if verified then Verified else Generated))
      case ProofFailed(_) => Some(Over(ProofFailing))
      case _ => Some(Running)
  }

  /** What may be told next of a request. */
  function NextOfRequest(t: Told, e: Event): Option<Told> {
    match e
    case RequestReceived(_, _) => if t.Nothing? then Some(Heard) else None
    case TeeVerified(_, _, _) => if t.Heard? then Some(Seen) else None
    case PolicyStarted(_, _) => if t.Heard? || t.Seen? then Some(Weighed) else None
    case PolicyAllowed(_) => if t.Weighed? then Some(Allowed(0)) else None
    case PolicyDenied(_) => if t.Weighed? then Some(Refused) else None
    case RequestFailed(_) => if t.Heard? || t.Allowed? then Some(Broke) else None
    case ProviderFailed(_, n, _) => if t.Allowed? && t.failed < n then Some(Allowed(n)) else None
    case RouteSelected(_, c, provider) => if t.Allowed? then Some(Routed(c, provider, t.failed)) else None
    case ProviderStarted(_, provider) =>
      if t.Routed? && t.provider == provider then Some(Calling(t.credential, t.failed)) else None
    case ProviderCompleted(_, n, c) =>
      if t.Calling? && t.credential == c && t.failed <= n then Some(Answered) else None
    case ReceiptCreated(_) => if t.Answered? then Some(Closed) else None
    case _ => None
  }

  predicate OfProof(e: Event) {
    e.ProofQueued? || e.ProofStarted? || e.ProofGenerated? || e.ProofCompleted? || e.ProofFailed?
  }

  function Next(s: Story, e: Event): Option<Story> {
    if OfProof(e) then
      match NextOfProof(s.proof, e)
      case None => None
      case Some(p) => Some(s.(proof := p))
    else
      match NextOfRequest(s.request, e)
      case None => None
      case Some(t) => Some(s.(request := t))
  }

  /** The story as these events go on with it, if they do. */
  function Tell(s: Story, events: seq<Event>, r: Id): Option<Story>
    decreases |events|
  {
    if events == [] then Some(s)
    else
      match (if About(events[0]) == Some(r) then Next(s, events[0]) else Some(s))
      case None => None
      case Some(t) => Tell(t, events[1..], r)
  }

  lemma {:induction false} TellOn(s: Story, a: seq<Event>, b: seq<Event>, r: Id)
    ensures Tell(s, a + b, r) == match Tell(s, a, r) case None => None case Some(t) => Tell(t, b, r)
    decreases |a|
  {
    if a == [] {
      assert a + b == b;
    } else {
      assert (a + b)[0] == a[0] && (a + b)[1..] == a[1..] + b;
      var next := if About(a[0]) == Some(r) then Next(s, a[0]) else Some(s);
      if next.Some? { TellOn(next.value, a[1..], b, r); }
    }
  }

  /** How far a request's row says it has come. */
  function StoryOf(s: State, r: Id): Story {
    if r !in s.requests then Story(Nothing, NoProof) else RowStory(s.requests[r])
  }

  function RowStory(q: Req): Story {
    Story(
      match q.phase {
        case Gating => Heard
        case Attesting(_, _) => Heard
        case Dispatching => Allowed(0)
        case Finished => if q.status.Denied? then Refused else if q.status.Failed? then Broke else Closed
      },
      match q.watch {
        case NotStarted => NoProof
        case Polling(_) => Running
        case Ended(_) => Over(q.proof)
      })
  }

  // ------------------------------------------------------------ one segment

  lemma {:induction false} OthersTellNothing(s: Story, events: seq<Event>, r: Id)
    requires forall e <- events :: About(e) != Some(r)
    ensures Tell(s, events, r) == Some(s)
  {
    if events != [] {
      assert events[0] in events && forall e <- events[1..] :: e in events;
      OthersTellNothing(s, events[1..], r);
    }
  }

  lemma {:induction false} FailuresAbout(r: Id, attempts: seq<Tried>)
    ensures forall e <- Failures(r, attempts) :: About(e) == Some(r)
  {
    if attempts != [] { FailuresAbout(r, attempts[..|attempts| - 1]); }
  }

  /** A handler's events are about its own request. */
  lemma EmittedAbout(s: State, a: Action)
    requires Enabled(s, a)
    ensures forall e <- Emitted(s, a) :: About(e) == RequestOf(a)
  {
    if a.DispatchReturns? { FailuresAbout(a.r, a.attempts); }
  }

  /** Exactly the failed attempts are reported as failed, each by its number and its credential. */
  lemma {:induction false} FailuresAre(r: Id, attempts: seq<Tried>, e: Event)
    ensures e in Failures(r, attempts)
       <==> exists i :: 0 <= i < |attempts| && !attempts[i].ok && e == ProviderFailed(r, i + 1, attempts[i].credential)
  {
    if attempts != [] {
      var init := attempts[..|attempts| - 1];
      FailuresAre(r, init, e);
      assert forall i :: 0 <= i < |init| ==> init[i] == attempts[i];
    }
  }

  lemma {:induction false} FailuresTell(s: Story, r: Id, attempts: seq<Tried>)
    requires s.request == Allowed(0)
    ensures var t := Tell(s, Failures(r, attempts), r);
            t.Some? && t.value.proof == s.proof && t.value.request.Allowed? && t.value.request.failed <= |attempts|
  {
    if attempts != [] {
      var init, last := attempts[..|attempts| - 1], attempts[|attempts| - 1];
      FailuresTell(s, r, init);
      var e := ProviderFailed(r, |attempts|, last.credential);
      TellOn(s, Failures(r, init), [e], r);
      OneTells(Tell(s, Failures(r, init), r).value, e, r);
    }
  }

  lemma OneTells(s: Story, e: Event, r: Id)
    requires About(e) == Some(r)
    ensures Tell(s, [e], r) == Next(s, e)
  {
    assert [e][1..] == [];
  }

  lemma NextTells(s: Story, e: Event, rest: seq<Event>, r: Id)
    requires About(e) == Some(r) && Next(s, e).Some?
    ensures Tell(s, [e] + rest, r) == Tell(Next(s, e).value, rest, r)
  {
    OneTells(s, e, r);
    TellOn(s, [e], rest, r);
  }

  lemma SelectedTells(s: Story, r: Id, c: Id, provider: Id, n: nat)
    requires s.request.Allowed? && s.request.failed <= n
    ensures Tell(s, SelectedEvents(r, c, provider, n), r) == Some(s.(request := Closed))
  {
    var (e1, e2, e3, e4) :=
      (RouteSelected(r, c, provider), ProviderStarted(r, provider), ProviderCompleted(r, n, c), ReceiptCreated(r));
    var f := s.request.failed;
    NextTells(s, e1, [e2, e3, e4], r);
    NextTells(s.(request := Routed(c, provider, f)), e2, [e3, e4], r);
    NextTells(s.(request := Calling(c, f)), e3, [e4], r);
    OneTells(s.(request := Answered), e4, r);
    assert [e1, e2, e3, e4] == [e1] + [e2, e3, e4] && [e2, e3, e4] == [e2] + [e3, e4] && [e3, e4] == [e3] + [e4];
  }

  lemma AttestationTells(s: Story, r: Id, build: Option<Id>, nitro: bool, policy: Id, started: bool)
    requires s == Story(Heard, NoProof)
    ensures Tell(s, AttestationEvents(r, build, nitro, policy, started), r)
         == Some(Story(Weighed, if started then Running else NoProof))
  {
    var tee := if build.Some? then [TeeVerified(r, build.value, nitro)] else [];
    var policyEvents := [PolicyStarted(r, policy)];
    var proof := if started then [ProofQueued(r)] else [];
    TellOn(s, tee + policyEvents, proof, r);
    TellOn(s, tee, policyEvents, r);
    var s1 := if build.Some? then Story(Seen, NoProof) else s;
    if build.Some? { OneTells(s, TeeVerified(r, build.value, nitro), r); }
    OneTells(s1, PolicyStarted(r, policy), r);
    if started { OneTells(Story(Weighed, NoProof), ProofQueued(r), r); }
  }

  lemma VerdictTells(s: Story, r: Id, allow: bool, capacity: bool)
    requires s.request.Weighed?
    ensures Tell(s, VerdictEvents(r, allow, capacity), r)
         == Some(s.(request := if !allow then Refused else if !capacity then Broke else Allowed(0)))
  {
    OneTells(s, PolicyDenied(r), r);
    OneTells(s, PolicyAllowed(r), r);
    OneTells(s.(request := Allowed(0)), RequestFailed(r), r);
    TellOn(s, [PolicyAllowed(r)], [RequestFailed(r)], r);
    assert [PolicyAllowed(r)] + [RequestFailed(r)] == [PolicyAllowed(r), RequestFailed(r)];
  }

  lemma AttestedTells(s: State, a: Action)
    requires AllRows(s) && Enabled(s, a) && a.Attested?
    ensures Tell(StoryOf(s, a.r), Emitted(s, a), a.r) == Some(StoryOf(Apply(s, a), a.r))
  {
    var q, r := s.requests[a.r], a.r;
    assert RowInv(q);
    AttestationTells(StoryOf(s, r), r, a.build, a.nitro, a.policy, q.phase.proofStarted);
    var mid := Story(Weighed, if q.phase.proofStarted then Running else NoProof);
    VerdictTells(mid, r, q.phase.allow, a.capacity);
    TellOn(StoryOf(s, r), AttestationEvents(r, a.build, a.nitro, a.policy, q.phase.proofStarted),
           VerdictEvents(r, q.phase.allow, a.capacity), r);
  }

  lemma ReturnedTells(s: State, a: Action)
    requires Enabled(s, a) && a.DispatchReturns?
    ensures Tell(StoryOf(s, a.r), Emitted(s, a), a.r) == Some(StoryOf(Apply(s, a), a.r))
  {
    var r, story := a.r, StoryOf(s, a.r);
    FailuresTell(story, r, a.attempts);
    var mid := Tell(story, Failures(r, a.attempts), r).value;
    if a.selected.None? {
      OneTells(mid, RequestFailed(r), r);
      TellOn(story, Failures(r, a.attempts), [RequestFailed(r)], r);
    } else {
      var provider := s.credentials[a.selected.value];
      SelectedTells(mid, r, a.selected.value, provider, |a.attempts|);
      TellOn(story, Failures(r, a.attempts), SelectedEvents(r, a.selected.value, provider, |a.attempts|), r);
    }
  }

  lemma PollTells(s: State, a: Action)
    requires AllRows(s) && Enabled(s, a) && a.Poll?
    ensures Tell(StoryOf(s, a.r), Emitted(s, a), a.r) == Some(StoryOf(Apply(s, a), a.r))
  {
    var q, r := s.requests[a.r], a.r;
    assert RowInv(q);
    var events := PollEvents(r, q.watch.last, a.answer);
    if events != [] { OneTells(StoryOf(s, r), events[0], r); }
  }

  lemma OwnTells(s: State, a: Action)
    requires AllRows(s) && Enabled(s, a) && RequestOf(a).Some?
    ensures Tell(StoryOf(s, RequestOf(a).value), Emitted(s, a), RequestOf(a).value)
         == Some(StoryOf(Apply(s, a), RequestOf(a).value))
  {
    match a
    case Attested(_, _, _, _, _) => AttestedTells(s, a);
    case DispatchReturns(_, _, _) => ReturnedTells(s, a);
    case Poll(_, _) => PollTells(s, a);
    case Receive(r, _, model) => OneTells(StoryOf(s, r), RequestReceived(r, model), r);
    case GateFails(r) => OneTells(StoryOf(s, r), RequestFailed(r), r);
    case DispatchFails(r) => OneTells(StoryOf(s, r), RequestFailed(r), r);
    case GateReturns(r, _, _) =>
  }

  lemma StepTells(s: State, a: Action, r: Id)
    requires AllRows(s) && Enabled(s, a)
    ensures Tell(StoryOf(s, r), Emitted(s, a), r) == Some(StoryOf(Apply(s, a), r))
  {
    if RequestOf(a) == Some(r) {
      OwnTells(s, a);
    } else {
      EmittedAbout(s, a);
      OthersTellNothing(StoryOf(s, r), Emitted(s, a), r);
    }
  }

  // ------------------------------------------------------------ runs

  lemma {:induction false} RunTells(s: State, actions: seq<Action>, r: Id)
    requires AllRows(s) && Runs(s, actions) && Tell(Story(Nothing, NoProof), s.outbox, r) == Some(StoryOf(s, r))
    ensures var t := After(s, actions); Tell(Story(Nothing, NoProof), t.outbox, r) == Some(StoryOf(t, r))
    decreases |actions|
  {
    if actions != [] {
      var a := actions[0];
      TellOn(Story(Nothing, NoProof), s.outbox, Emitted(s, a), r);
      StepTells(s, a, r);
      RowsStep(s, a);
      RunTells(Apply(s, a), actions[1..], r);
    }
  }

  /**
    In every interleaving, the events of each request are in the order of its story, failed attempts in ascending order,
    the provider called and the credential used those of the route, and nothing of a proof before it is queued or after
    it ended; and the story has come as far as the request's row says.
  */
  lemma OutboxTellsTheRows(actions: seq<Action>, r: Id)
    requires Runs(Init, actions)
    ensures var s := After(Init, actions); Tell(Story(Nothing, NoProof), s.outbox, r) == Some(StoryOf(s, r))
  {
    RunTells(Init, actions, r);
  }

  /** So a request is denied, failed or complete in the end if and only if its events say so. */
  lemma StatusIsTold(actions: seq<Action>, r: Id)
    requires Runs(Init, actions) && r in After(Init, actions).requests
    ensures var s := After(Init, actions);
            match Tell(Story(Nothing, NoProof), s.outbox, r) {
              case None => false
              case Some(Story(told, _)) =>
                && (s.requests[r].status.Denied? <==> told.Refused?)
                && (s.requests[r].status.Failed? <==> told.Broke?)
                && (s.requests[r].status.Complete? <==> told.Closed?)
            }
  {
    OutboxTellsTheRows(actions, r);
    RowsRun(Init, actions);
    assert RowInv(After(Init, actions).requests[r]);
  }
}
