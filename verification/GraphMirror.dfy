/** The projected graph mirrors the database: links have their ends, and node statuses are the rows'. */
module GraphMirror {
  import opened Lifecycle
  import opened Projection
  import opened Wrappers

  /** The graph once everything emitted so far is drained. */
  function GraphOf(s: State): Graph {
    Fold(EMPTY, s.outbox)
  }

  function StatusText(status: Status): string {
    match status
    case Received => "RECEIVED"
    case Denied => "DENIED"
    case Failed => "FAILED"
    case Complete => "COMPLETE"
  }

  /** The status a request's node shows; it is the row's except between the verdict and the end of the dispatch. */
  function NodeText(q: Req): string {
    if q.phase.Dispatching? then "AUTHORIZED" else StatusText(q.status)
  }

  function ProofText(status: ProofStatus): string {
    match status
    case NotRequired => "NOT_REQUIRED"
    case Queued => "QUEUED"
    case Proving => "PROVING"
    case Generated => "GENERATED"
    case Verified => "VERIFIED"
    case ProofFailing => "FAILED"
  }

  // ------------------------------------------------------------ links

  ghost predicate Known(s: State, g: Graph) {
    && (forall c <- s.contributors :: Contributor(c) in g.nodes)
    && (forall c <- s.credentials :: Credential(c) in g.nodes && Provider(s.credentials[c]) in g.nodes)
    && (forall r <- s.requests :: Request(r) in g.nodes)
  }

  ghost predicate AllReady(g: Graph, events: seq<Event>) {
    forall i :: 0 <= i < |events| ==> Ready(g.nodes.Keys, events[i])
  }

  lemma {:induction false} FailuresReady(g: Graph, r: Id, attempts: seq<Tried>)
    requires Request(r) in g.nodes && forall t <- attempts :: Credential(t.credential) in g.nodes
    ensures AllReady(g, Failures(r, attempts))
  {
    if attempts != [] {
      var init, t := attempts[..|attempts| - 1], attempts[|attempts| - 1];
      assert t in attempts && forall x <- init :: x in attempts;
      FailuresReady(g, r, init);
    }
  }

  /** A segment only refers to what earlier events made. */
  lemma EmittedReady(s: State, a: Action, g: Graph)
    requires Known(s, g) && Enabled(s, a) && !a.Receive?
    ensures AllReady(g, Emitted(s, a))
  {
    if a.DispatchReturns? {
      FailuresReady(g, a.r, a.attempts);
    }
  }

  lemma FoldOne(g: Graph, e: Event)
    ensures Fold(g, [e]) == Project(g, e)
  {
    assert [e][..0] == [] && Fold(g, []) == g;
  }

  lemma NewlyKnown(s: State, a: Action, g: Graph)
    requires Known(s, g) && Closed(g) && Enabled(s, a) && (a.Contribute? || a.AddCredential? || a.Receive?)
    ensures var g' := Fold(g, Emitted(s, a)); Closed(g') && Known(Apply(s, a), g')
  {
    var e := Emitted(s, a)[0];
    FoldOne(g, e);
    ProjectClosed(g, e);
    if a.AddCredential? {
      var g1 := UpsertNode(UpsertNode(g, Credential(e.credential), Some("ACTIVE")), Provider(e.provider), None);
      var g2 := UpsertLink(g1, Contributor(e.contributor), Credential(e.credential), "CONTRIBUTED");
      ServesClosed(UpsertLink(g2, Credential(e.credential), Provider(e.provider), "CONNECTS_TO"), e.provider, e.models);
    }
  }

  lemma StepClosed(s: State, a: Action, g: Graph)
    requires Known(s, g) && Closed(g) && Enabled(s, a)
    ensures var g' := Fold(g, Emitted(s, a)); Closed(g') && Known(Apply(s, a), g')
  {
    if a.Contribute? || a.AddCredential? || a.Receive? {
      NewlyKnown(s, a, g);
    } else {
      EmittedReady(s, a, g);
      FoldClosed(g, Emitted(s, a));
    }
  }

  /** Each prefix of a segment's events keeps the graph closed: drains happen between any two of them. */
  lemma PrefixClosed(s: State, a: Action, g: Graph, n: nat)
    requires Known(s, g) && Closed(g) && Enabled(s, a) && n <= |Emitted(s, a)|
    ensures Closed(Fold(g, Emitted(s, a)[..n]))
  {
    if a.Contribute? || a.AddCredential? || a.Receive? {
      NewlyKnown(s, a, g);
      assert n == 0 || Emitted(s, a)[..n] == Emitted(s, a);
    } else {
      EmittedReady(s, a, g);
      FoldClosed(g, Emitted(s, a)[..n]);
    }
  }

  /** The graph of every prefix of the outbox has its links' ends. */
  ghost predicate PrefixesClosed(outbox: seq<Event>) {
    forall n :: 0 <= n <= |outbox| ==> Closed(Fold(EMPTY, outbox[..n]))
  }

  lemma StepPrefixesClosed(s: State, a: Action)
    requires Known(s, GraphOf(s)) && PrefixesClosed(s.outbox) && Enabled(s, a)
    ensures PrefixesClosed(s.outbox + Emitted(s, a))
  {
    var all := s.outbox + Emitted(s, a);
    assert s.outbox[..|s.outbox|] == s.outbox;
    forall n | 0 <= n <= |all| ensures Closed(Fold(EMPTY, all[..n])) {
      if n <= |s.outbox| {
        assert all[..n] == s.outbox[..n];
      } else {
        var m := n - |s.outbox|;
        assert all[..n] == s.outbox + Emitted(s, a)[..m];
        FoldAppend(EMPTY, s.outbox, Emitted(s, a)[..m]);
        PrefixClosed(s, a, GraphOf(s), m);
      }
    }
  }

  lemma {:induction false} RunClosed(s: State, actions: seq<Action>)
    requires Known(s, GraphOf(s)) && PrefixesClosed(s.outbox) && Runs(s, actions)
    ensures Known(After(s, actions), GraphOf(After(s, actions))) && PrefixesClosed(After(s, actions).outbox)
    decreases |actions|
  {
    if actions != [] {
      assert s.outbox[..|s.outbox|] == s.outbox;
      StepClosed(s, actions[0], GraphOf(s));
      StepPrefixesClosed(s, actions[0]);
      FoldAppend(EMPTY, s.outbox, Emitted(s, actions[0]));
      RunClosed(Apply(s, actions[0]), actions[1..]);
    }
  }

  lemma StartsClosed()
    ensures Known(Init, GraphOf(Init)) && PrefixesClosed(Init.outbox)
  {
    assert Init.outbox[..0] == [] && Fold(EMPTY, []) == EMPTY;
  }

  /** Whatever interleaves, and however far the outbox is drained, every link of the graph has its ends. */
  lemma LinksHaveEnds(actions: seq<Action>, o: Outbox)
    requires Runs(Init, actions) && o.Valid() && EventsOf(o.rows) == After(Init, actions).outbox
    ensures Closed(o.graph)
  {
    StartsClosed();
    RunClosed(Init, actions);
  }

  // ------------------------------------------------------------ statuses

  lemma {:induction false} LastWriteAppend(a: seq<Event>, b: seq<Event>, id: NodeId)
    ensures LastWrite(a + b, id) == if LastWrite(b, id).Some? then LastWrite(b, id) else LastWrite(a, id)
  {
    if b == [] {
      assert a + b == a;
    } else {
      LastWriteAppend(a, b[..|b| - 1], id);
      assert (a + b)[..|a + b| - 1] == a + b[..|b| - 1] && (a + b)[|a + b| - 1] == b[|b| - 1];
    }
  }

  lemma LastWriteOne(e: Event, id: NodeId)
    ensures LastWrite([e], id) == Writes(e, id)
  {
    assert [e][..0] == [];
  }

  lemma LastWriteTwo(e: Event, f: Event, id: NodeId)
    ensures LastWrite([e, f], id) == if Writes(f, id).Some? then Writes(f, id) else Writes(e, id)
  {
    assert [e, f][..1] == [e];
    LastWriteOne(e, id);
  }

  lemma {:induction false} FailuresWriteNothing(r: Id, attempts: seq<Tried>, id: NodeId)
    requires id.Request? || id.Proof?
    ensures LastWrite(Failures(r, attempts), id) == None
  {
    if attempts != [] {
      FailuresWriteNothing(r, attempts[..|attempts| - 1], id);
      var rest, t := Failures(r, attempts[..|attempts| - 1]), attempts[|attempts| - 1];
      if !t.ok {
        LastWriteAppend(rest, [ProviderFailed(r, |attempts|, t.credential)], id);
        LastWriteOne(ProviderFailed(r, |attempts|, t.credential), id);
      }
    }
  }

  function Or(later: Option<string>, earlier: Option<string>): Option<string> {
    if later.Some? then later else earlier
  }

  lemma LastWriteJoin(a: seq<Event>, b: seq<Event>, c: seq<Event>, id: NodeId)
    ensures LastWrite(a + b + c, id) == Or(LastWrite(c, id), Or(LastWrite(b, id), LastWrite(a, id)))
  {
    LastWriteAppend(a + b, c, id);
    LastWriteAppend(a, b, id);
  }

  /** An optional event. */
  lemma LastWriteMaybe(given: bool, e: Event, id: NodeId)
    ensures LastWrite(if given then [e] else [], id) == if given then Writes(e, id) else None
  {
    if given { LastWriteOne(e, id); }
  }

  lemma AttestationWrites(r: Id, build: Option<Id>, nitro: bool, policy: Id, proofStarted: bool, id: NodeId)
    requires id.Request? || id.Proof?
    ensures LastWrite(AttestationEvents(r, build, nitro, policy, proofStarted), id)
         == if id == Proof(r) && proofStarted then Some("QUEUED") else None
  {
    var b := if build.Some? then build.value else "";
    LastWriteMaybe(build.Some?, TeeVerified(r, b, nitro), id);
    LastWriteOne(PolicyStarted(r, policy), id);
    LastWriteMaybe(proofStarted, ProofQueued(r), id);
    LastWriteJoin(if build.Some? then [TeeVerified(r, b, nitro)] else [], [PolicyStarted(r, policy)],
                  if proofStarted then [ProofQueued(r)] else [], id);
  }

  lemma VerdictWrites(r: Id, allow: bool, capacity: bool, id: NodeId)
    ensures LastWrite(VerdictEvents(r, allow, capacity), id)
         == if id == Request(r) then Some(if !allow then "DENIED" else if !capacity then "FAILED" else "AUTHORIZED")
           else None
  {
    if !allow {
      LastWriteOne(PolicyDenied(r), id);
    } else if !capacity {
      LastWriteTwo(PolicyAllowed(r), RequestFailed(r), id);
    } else {
      LastWriteOne(PolicyAllowed(r), id);
    }
  }

  /** A request's segment after attestation. */
  lemma AttestedWrites(s: State, a: Action, id: NodeId)
    requires Enabled(s, a) && a.Attested? && (id.Request? || id.Proof?)
    ensures LastWrite(Emitted(s, a), id)
         == if id == Request(a.r) then Some(NodeText(NextRow(s.requests[a.r], a)))
            else if id == Proof(a.r) && s.requests[a.r].phase.proofStarted then Some("QUEUED") else None
  {
    var phase := s.requests[a.r].phase;
    AttestationWrites(a.r, a.build, a.nitro, a.policy, phase.proofStarted, id);
    VerdictWrites(a.r, phase.allow, a.capacity, id);
    LastWriteAppend(AttestationEvents(a.r, a.build, a.nitro, a.policy, phase.proofStarted),
                    VerdictEvents(a.r, phase.allow, a.capacity), id);
  }

  lemma SelectedWrites(r: Id, c: Id, provider: Id, n: nat, id: NodeId)
    requires id.Request? || id.Proof?
    ensures LastWrite(SelectedEvents(r, c, provider, n), id) == if id == Request(r) then Some("COMPLETE") else None
  {
    var e1, e2, e3, e4 := RouteSelected(r, c, provider), ProviderStarted(r, provider), ProviderCompleted(r, n, c),
      ReceiptCreated(r);
    assert SelectedEvents(r, c, provider, n) == [e1, e2] + [e3, e4];
    LastWriteAppend([e1, e2], [e3, e4], id);
    LastWriteTwo(e1, e2, id);
    LastWriteTwo(e3, e4, id);
  }

  /** What ends a dispatch decides; the failures before it write nothing to these nodes. */
  lemma EndWrites(r: Id, attempts: seq<Tried>, end: seq<Event>, id: NodeId)
    requires id.Request? || id.Proof?
    ensures LastWrite(Failures(r, attempts) + end, id) == LastWrite(end, id)
  {
    FailuresWriteNothing(r, attempts, id);
    LastWriteAppend(Failures(r, attempts), end, id);
  }

  lemma FailedDispatchWrites(r: Id, attempts: seq<Tried>, id: NodeId)
    requires id.Request? || id.Proof?
    ensures LastWrite(Failures(r, attempts) + [RequestFailed(r)], id) == if id == Request(r) then Some("FAILED")
            else None
  {
    EndWrites(r, attempts, [RequestFailed(r)], id);
    LastWriteOne(RequestFailed(r), id);
  }

  lemma SelectedDispatchWrites(r: Id, attempts: seq<Tried>, c: Id, provider: Id, id: NodeId)
    requires id.Request? || id.Proof?
    ensures LastWrite(Failures(r, attempts) + SelectedEvents(r, c, provider, |attempts|), id)
         == if id == Request(r) then Some("COMPLETE") else None
  {
    EndWrites(r, attempts, SelectedEvents(r, c, provider, |attempts|), id);
    SelectedWrites(r, c, provider, |attempts|, id);
  }

  lemma DispatchWrites(s: State, a: Action, id: NodeId)
    requires Enabled(s, a) && a.DispatchReturns? && (id.Request? || id.Proof?)
    ensures LastWrite(Emitted(s, a), id) == if id == Request(a.r)
            then Some(if a.selected.Some? then "COMPLETE" else "FAILED") else None
  {
    if a.selected.None? {
      FailedDispatchWrites(a.r, a.attempts, id);
    } else {
      SelectedDispatchWrites(a.r, a.attempts, a.selected.value, s.credentials[a.selected.value], id);
    }
  }

  lemma SingleWrites(s: State, a: Action, r: Id)
    requires Enabled(s, a) && !a.Attested? && !a.DispatchReturns? && !a.GateReturns? && !a.Poll?
    ensures LastWrite(Emitted(s, a), Request(r))
         == if RequestOf(a) == Some(r) then Some(if a.Receive? then "RECEIVED" else "FAILED") else None
  {
    match a
    case Contribute(c) => LastWriteOne(ContributorCreated(c), Request(r));
    case AddCredential(c, owner, provider, models) =>
      LastWriteOne(CredentialCreated(c, owner, provider, models), Request(r));
    case ChangeCredential(c, status) => LastWriteOne(CredentialUpdated(c, status), Request(r));
    case Receive(x, _, model) => LastWriteOne(RequestReceived(x, model), Request(r));
    case GateFails(x) => LastWriteOne(RequestFailed(x), Request(r));
    case DispatchFails(x) => LastWriteOne(RequestFailed(x), Request(r));
  }

  /** What the node of a request shows after a step of its own. */
  function StepText(s: State, a: Action, r: Id): Option<string>
    requires Enabled(s, a)
  {
    if RequestOf(a) != Some(r) || a.Poll? || a.GateReturns? || r !in Apply(s, a).requests then None
    else Some(NodeText(Apply(s, a).requests[r]))
  }

  lemma AttestedStep(s: State, a: Action, r: Id)
    requires Enabled(s, a) && a.Attested?
    ensures LastWrite(Emitted(s, a), Request(r)) == StepText(s, a, r)
  {
    AttestedWrites(s, a, Request(r));
  }

  lemma DispatchStep(s: State, a: Action, r: Id)
    requires AllRows(s) && Enabled(s, a) && a.DispatchReturns?
    ensures LastWrite(Emitted(s, a), Request(r)) == StepText(s, a, r)
  {
    DispatchWrites(s, a, Request(r));
  }

  lemma PollStep(s: State, a: Action, r: Id)
    requires Enabled(s, a) && a.Poll?
    ensures LastWrite(Emitted(s, a), Request(r)) == None
  {
    PollWrites(a.r, s.requests[a.r].watch.last, a.answer, Request(r));
  }

  lemma SingleStep(s: State, a: Action, r: Id)
    requires AllRows(s) && Enabled(s, a) && !a.Attested? && !a.DispatchReturns? && !a.GateReturns? && !a.Poll?
    ensures LastWrite(Emitted(s, a), Request(r)) == StepText(s, a, r)
  {
    SingleWrites(s, a, r);
  }

  /** What a step writes to the node of any request. */
  lemma StepWrites(s: State, a: Action, r: Id)
    requires AllRows(s) && Enabled(s, a)
    ensures LastWrite(Emitted(s, a), Request(r)) == StepText(s, a, r)
  {
    if a.Attested? {
      AttestedStep(s, a, r);
    } else if a.DispatchReturns? {
      DispatchStep(s, a, r);
    } else if a.Poll? {
      PollStep(s, a, r);
    } else if !a.GateReturns? {
      SingleStep(s, a, r);
    }
  }

  /** What a watcher's answer writes to the proof's node. */
  function PollText(last: ProofStatus, answer: Answer): Option<string> {
    match answer
    case Transient => None
    case Unavailable => Some("FAILED")
    case Broken => Some("FAILED")
    case Midway(status) =>
      if status == last || !(status.Proving? || status.Generated?) then None else Some(ProofText(status))
    case Done(verified) => Some(if verified then "VERIFIED" else "GENERATED")
  }

  lemma PollWrites(x: Id, last: ProofStatus, answer: Answer, id: NodeId)
    ensures LastWrite(PollEvents(x, last, answer), id) == if id == Proof(x) then PollText(last, answer) else None
  {
    if PollEvents(x, last, answer) != [] { LastWriteOne(PollEvents(x, last, answer)[0], id); }
  }

  ghost predicate Mirrors(s: State, g: Graph) {
    forall r <- s.requests :: StatusOf(g, Request(r)) == Some(NodeText(s.requests[r]))
  }

  lemma StepMirrors(s: State, a: Action, g: Graph)
    requires Mirrors(s, g) && AllRows(s) && Enabled(s, a)
    ensures Mirrors(Apply(s, a), Fold(g, Emitted(s, a)))
  {
    var s' := Apply(s, a);
    forall r | r in s'.requests ensures StatusOf(Fold(g, Emitted(s, a)), Request(r)) == Some(NodeText(s'.requests[r])) {
      FoldWrites(g, Emitted(s, a), Request(r));
      StepWrites(s, a, r);
    }
  }

  lemma {:induction false} RunMirrors(s: State, actions: seq<Action>)
    requires Mirrors(s, GraphOf(s)) && AllRows(s) && Runs(s, actions)
    ensures Mirrors(After(s, actions), GraphOf(After(s, actions)))
    decreases |actions|
  {
    if actions != [] {
      StepMirrors(s, actions[0], GraphOf(s));
      RowsStep(s, actions[0]);
      FoldAppend(EMPTY, s.outbox, Emitted(s, actions[0]));
      RunMirrors(Apply(s, actions[0]), actions[1..]);
    }
  }

  /** A finished request's node shows its database status; before that it shows received or authorized. */
  lemma NodesMirrorRows(actions: seq<Action>, r: Id)
    requires Runs(Init, actions) && r in After(Init, actions).requests
    ensures var s := After(Init, actions);
            && StatusOf(GraphOf(s), Request(r)) == Some(NodeText(s.requests[r]))
            && (s.requests[r].phase.Finished? ==>
              StatusOf(GraphOf(s), Request(r)) == Some(StatusText(s.requests[r].status)))
  {
    RunMirrors(Init, actions);
  }

  // ------------------------------------------------------------ proofs

  /** Requests whose watcher got an answer past queued. */
  function Advance(advanced: set<Id>, a: Action): set<Id> {
    if PastQueued(a) then advanced + {a.r} else advanced
  }

  function Advanced(advanced: set<Id>, actions: seq<Action>): set<Id>
    decreases |actions|
  {
    if actions == [] then advanced else Advanced(Advance(advanced, actions[0]), actions[1..])
  }

  /** What a proof's node shows, by its row: the last status but a later queued. */
  ghost predicate ProofNode(q: Req, advanced: bool, shown: Option<string>) {
    && (advanced ==> q.row.Some?)
    && (q.watch.Polling? && !q.proof.Queued? ==> advanced)
    && (q.row.Some? ==>
          if q.row.value.Queued? && advanced then shown == Some("PROVING") || shown == Some("GENERATED")
          else shown == Some(ProofText(q.row.value)))
  }

  ghost predicate MirrorsProofs(s: State, advanced: set<Id>, g: Graph) {
    && advanced <= s.requests.Keys
    && forall r <- s.requests :: ProofNode(s.requests[r], r in advanced, StatusOf(g, Proof(r)))
  }

  /** What the step of a request writes to its proof's node. */
  function ProofWritten(q: Req, a: Action): Option<string> {
    match a
    case Attested(_, _, _, _, _) => if q.phase.Attesting? && q.phase.proofStarted then Some("QUEUED") else None
    case Poll(_, answer) => if q.watch.Polling? then PollText(q.watch.last, answer) else None
    case _ => None
  }

  lemma ProofWrites(s: State, a: Action, r: Id)
    requires AllRows(s) && Enabled(s, a) && r in Apply(s, a).requests
    ensures LastWrite(Emitted(s, a), Proof(r))
         == if RequestOf(a) == Some(r) && r in s.requests then ProofWritten(s.requests[r], a) else None
  {
    match a
    case Attested(_, _, _, _, _) => AttestedWrites(s, a, Proof(r));
    case DispatchReturns(_, _, _) => DispatchWrites(s, a, Proof(r));
    case GateReturns(_, _, _) =>
    case Poll(x, answer) => PollWrites(x, s.requests[x].watch.last, answer, Proof(r));
    case _ => LastWriteOne(Emitted(s, a)[0], Proof(r));
  }

  predicate PastQueued(a: Action) {
    a.Poll? && a.answer.Midway? && !a.answer.status.Queued?
  }

  lemma PollMirrorsProof(q: Req, a: Action, advanced: bool, shown: Option<string>)
    requires RowInv(q) && ProofNode(q, advanced, shown) && a.Poll? && q.watch.Polling?
    requires a.answer.Midway? ==> a.answer.status.Queued? || a.answer.status.Proving? || a.answer.status.Generated?
    ensures ProofNode(NextRow(q, a), advanced || PastQueued(a),
                      if ProofWritten(q, a).Some? then ProofWritten(q, a) else shown)
  {
    match a.answer
    case Midway(status) => if status == q.watch.last { assert NextRow(q, a).row == q.row; }
    case _ =>
  }

  lemma RowMirrorsProof(q: Req, a: Action, advanced: bool, shown: Option<string>)
    requires RowInv(q) && ProofNode(q, advanced, shown) && !a.Poll? && (a.Attested? ==> q.phase.Attesting?)
    ensures ProofNode(NextRow(q, a), advanced, if ProofWritten(q, a).Some? then ProofWritten(q, a) else shown)
  {}

  lemma StepMirrorsProof(s: State, a: Action, advanced: set<Id>, g: Graph, r: Id)
    requires MirrorsProofs(s, advanced, g) && AllRows(s) && Enabled(s, a) && r in Apply(s, a).requests
    ensures ProofNode(Apply(s, a).requests[r], r in Advance(advanced, a), StatusOf(Fold(g, Emitted(s, a)), Proof(r)))
  {
    FoldWrites(g, Emitted(s, a), Proof(r));
    ProofWrites(s, a, r);
    if RequestOf(a) == Some(r) && r in s.requests {
      if a.Poll? {
        PollMirrorsProof(s.requests[r], a, r in advanced, StatusOf(g, Proof(r)));
      } else {
        RowMirrorsProof(s.requests[r], a, r in advanced, StatusOf(g, Proof(r)));
      }
    }
  }

  lemma {:induction false} RunMirrorsProofs(s: State, advanced: set<Id>, actions: seq<Action>)
    requires MirrorsProofs(s, advanced, GraphOf(s)) && AllRows(s) && Runs(s, actions)
    ensures MirrorsProofs(After(s, actions), Advanced(advanced, actions), GraphOf(After(s, actions)))
    decreases |actions|
  {
    if actions != [] {
      var s1 := Apply(s, actions[0]);
      FoldAppend(EMPTY, s.outbox, Emitted(s, actions[0]));
      forall r | r in s1.requests
        ensures ProofNode(s1.requests[r], r in Advance(advanced, actions[0]), StatusOf(GraphOf(s1), Proof(r)))
      {
        StepMirrorsProof(s, actions[0], advanced, GraphOf(s), r);
      }
      RowsStep(s, actions[0]);
      RunMirrorsProofs(s1, Advance(advanced, actions[0]), actions[1..]);
    }
  }

  /**
    A proof's node shows the status of its row, unless the row is queued although an earlier answer was past queued:
    going back to queued is the one answer that changes the row without an event.
  */
  lemma ProofNodesMirrorExactlyWhen(actions: seq<Action>, r: Id)
    requires Runs(Init, actions) && r in After(Init, actions).requests && After(Init, actions).requests[r].row.Some?
    ensures var s := After(Init, actions);
            StatusOf(GraphOf(s), Proof(r)) == Some(ProofText(s.requests[r].row.value))
            <==> !(s.requests[r].row == Some(Queued) && r in Advanced({}, actions))
  {
    RunMirrorsProofs(Init, {}, actions);
  }

  lemma {:induction false} AdvancedSnoc(advanced: set<Id>, actions: seq<Action>, a: Action)
    ensures Advanced(advanced, actions + [a]) == Advance(Advanced(advanced, actions), a)
    decreases |actions|
  {
    if actions == [] {
      assert [] + [a] == [a] && [a][1..] == [];
    } else {
      assert (actions + [a])[0] == actions[0] && (actions + [a])[1..] == actions[1..] + [a];
      AdvancedSnoc(Advance(advanced, actions[0]), actions[1..], a);
    }
  }

  /** A run after which they differ: one answer says proving, the next one queued again. */
  lemma BackToQueuedIsSilent(r: Id, c: Id) returns (actions: seq<Action>)
    ensures Runs(Init, actions) && r in After(Init, actions).requests
    ensures var s := After(Init, actions);
            s.requests[r].row == Some(Queued) && StatusOf(GraphOf(s), Proof(r)) != Some(ProofText(Queued))
  {
    actions := OnItsWay(r, c);
    var proving, queued := Poll(r, Midway(Proving)), Poll(r, Midway(Queued));
    ExtendFrom(Init, actions, proving);
    AdvancedSnoc({}, actions, proving);
    actions := actions + [proving];
    ExtendFrom(Init, actions, queued);
    AdvancedSnoc({}, actions, queued);
    actions := actions + [queued];
    ProofNodesMirrorExactlyWhen(actions, r);
  }
}
