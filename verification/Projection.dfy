/**
  The graph projected from the outbox (services/coordinator/src/events.ts): node statuses and links. Labels,
  metadata and the notifications of viewers are left out.
*/
module Projection {
  import opened Wrappers

  type Id = string

  datatype NodeId =
    | Contributor(id: Id) | Credential(id: Id) | Provider(id: Id) | Model(id: Id) | Request(id: Id)
    | Tee(id: Id) | Policy(id: Id) | Proof(id: Id) | Attempt(id: Id, n: nat) | Response(id: Id) | Receipt(id: Id)

  datatype Link = Link(source: NodeId, kind: string, target: NodeId)

  datatype Graph = Graph(nodes: map<NodeId, Option<string>>, links: set<Link>)

  const EMPTY := Graph(map[], {})

  datatype Event =
    | ContributorCreated(contributor: Id)
    | CredentialCreated(credential: Id, contributor: Id, provider: Id, models: seq<Id>)
    | CredentialUpdated(credential: Id, status: Option<string>)
    | RequestReceived(request: Id, model: Option<Id>)
    | TeeVerified(request: Id, build: Id, nitro: bool)
    | PolicyStarted(request: Id, policy: Id)
    | PolicyAllowed(request: Id)
    | PolicyDenied(request: Id)
    | RequestFailed(request: Id)
    | ProofQueued(request: Id)
    | ProofStarted(request: Id)
    | ProofGenerated(request: Id)
    | ProofCompleted(request: Id, verified: bool)
    | ProofFailed(request: Id)
    | RouteSelected(request: Id, credential: Id, provider: Id)
    | ProviderStarted(request: Id, provider: Id)
    | ProviderFailed(request: Id, attempt: nat, credential: Id)
    | ProviderCompleted(request: Id, attempt: nat, credential: Id)
    | ReceiptCreated(request: Id)

  /** `upsertNode`: without a status the node keeps the one it has. */
  function UpsertNode(g: Graph, id: NodeId, status: Option<string>): Graph {
    var kept := if status.Some? then status else if id in g.nodes then g.nodes[id] else None;
    g.(nodes := g.nodes[id := kept])
  }

  /** `upsertLink`: a link is identified by its ends and its kind. */
  function UpsertLink(g: Graph, source: NodeId, target: NodeId, kind: string): Graph {
    g.(links := g.links + {Link(source, kind, target)})
  }

  function Serves(g: Graph, provider: Id, models: seq<Id>): Graph
    decreases models
  {
    if models == [] then g
    else
      var m := UpsertNode(g, Model(models[0]), None);
      Serves(UpsertLink(m, Provider(provider), Model(models[0]), "SERVES"), provider, models[1..])
  }

  function Project(g: Graph, e: Event): Graph {
    match e
    case ContributorCreated(c) => UpsertNode(g, Contributor(c), Some("ACTIVE"))
    case CredentialCreated(c, contributor, provider, models) =>
      var g1 := UpsertNode(UpsertNode(g, Credential(c), Some("ACTIVE")), Provider(provider), None);
      var g2 := UpsertLink(g1, Contributor(contributor), Credential(c), "CONTRIBUTED");
      Serves(UpsertLink(g2, Credential(c), Provider(provider), "CONNECTS_TO"), provider, models)
    case CredentialUpdated(c, status) => UpsertNode(g, Credential(c), status)
    case RequestReceived(r, model) =>
      var g1 := UpsertNode(g, Request(r), Some("RECEIVED"));
      if model.None? then g1
      else UpsertLink(UpsertNode(g1, Model(model.value), None), Request(r), Model(model.value), "REQUESTED_MODEL")
    case TeeVerified(r, build, nitro) =>
      UpsertLink(UpsertNode(g, Tee(build), Some(if nitro then "NITRO_VERIFIED" else "SIMULATED")), Request(r),
                 Tee(build), "EXECUTED_IN")
    case PolicyStarted(r, policy) =>
      UpsertLink(UpsertNode(g, Policy(policy), Some("ACTIVE")), Request(r), Policy(policy), "EVALUATED_UNDER")
    case PolicyAllowed(r) => UpsertNode(g, Request(r), Some("AUTHORIZED"))
    case PolicyDenied(r) => UpsertNode(g, Request(r), Some("DENIED"))
    case RequestFailed(r) => UpsertNode(g, Request(r), Some("FAILED"))
    case ProofQueued(r) => UpsertLink(UpsertNode(g, Proof(r), Some("QUEUED")), Request(r), Proof(r), "HAS_PROOF")
    case ProofStarted(r) => UpsertLink(UpsertNode(g, Proof(r), Some("PROVING")), Request(r), Proof(r), "HAS_PROOF")
    case ProofGenerated(r) => UpsertNode(g, Proof(r), Some("GENERATED"))
    case ProofCompleted(r, verified) => UpsertNode(g, Proof(r), Some(if verified then "VERIFIED" else "GENERATED"))
    case ProofFailed(r) => UpsertNode(g, Proof(r), Some("FAILED"))
    case RouteSelected(r, c, provider) =>
      var g1 := UpsertLink(UpsertLink(g, Request(r), Credential(c), "ROUTED_THROUGH"), Credential(c),
                           Provider(provider), "CONNECTS_TO");
      UpsertNode(g1, Request(r), Some("ROUTING"))
    case ProviderStarted(r, provider) =>
      UpsertLink(UpsertNode(g, Request(r), Some("PROVIDER_RUNNING")), Request(r), Provider(provider), "CALLED")
    case ProviderFailed(r, n, c) =>
      var g1 := UpsertLink(UpsertNode(g, Attempt(r, n), Some("FAILED")), Request(r), Attempt(r, n), "HAS_ATTEMPT");
      UpsertLink(g1, Attempt(r, n), Credential(c), "USED")
    case ProviderCompleted(r, n, c) =>
      var g1 := UpsertLink(UpsertNode(g, Attempt(r, n), Some("SUCCESS")), Request(r), Attempt(r, n), "HAS_ATTEMPT");
      var g2 := UpsertLink(g1, Attempt(r, n), Credential(c), "USED");
      var g3 := UpsertLink(UpsertNode(g2, Response(r), Some("COMPLETE")), Request(r), Response(r), "PRODUCED");
      UpsertNode(g3, Request(r), Some("COMPLETE"))
    case ReceiptCreated(r) =>
      UpsertLink(UpsertNode(g, Receipt(r), Some("SIGNED")), Request(r), Receipt(r), "HAS_RECEIPT")
  }

  /** The graph of a whole outbox. */
  function Fold(g: Graph, events: seq<Event>): Graph {
    if events == [] then g else Project(Fold(g, events[..|events| - 1]), events[|events| - 1])
  }

  lemma {:induction false} FoldAppend(g: Graph, a: seq<Event>, b: seq<Event>)
    ensures Fold(g, a + b) == Fold(Fold(g, a), b)
  {
    if b == [] {
      assert a + b == a;
    } else {
      FoldAppend(g, a, b[..|b| - 1]);
      assert (a + b)[..|a + b| - 1] == a + b[..|b| - 1] && (a + b)[|a + b| - 1] == b[|b| - 1];
    }
  }

  // ------------------------------------------------------------ draining

  datatype Row = Row(event: Event, processed: bool)

  function EventsOf(rows: seq<Row>): (events: seq<Event>)
    ensures |events| == |rows|
  {
    seq(|rows|, i requires 0 <= i < |rows| => rows[i].event)
  }

  class Outbox {
    var rows: seq<Row>
    var graph: Graph
    ghost var drained: nat

    /** Rows are processed in order, and the graph is the fold of the processed ones. */
    ghost predicate Valid()
      reads this
    {
      && drained <= |rows|
      && (forall i :: 0 <= i < |rows| ==> rows[i].processed == (i < drained))
      && graph == Fold(EMPTY, EventsOf(rows)[..drained])
    }

    constructor ()
      ensures Valid() && rows == [] && drained == 0
    {
      rows, graph, drained := [], EMPTY, 0;
    }

    method Emit(e: Event)
      requires Valid()
      modifies this
      ensures Valid() && drained == old(drained) && EventsOf(rows) == EventsOf(old(rows)) + [e]
    {
      rows := rows + [Row(e, false)];
      assert EventsOf(rows) == EventsOf(old(rows)) + [e];
      assert EventsOf(rows)[..drained] == EventsOf(old(rows))[..drained];
    }

    /** Up to `limit` unprocessed rows, oldest first. */
    method DrainOutbox(limit: nat) returns (processed: nat)
      requires Valid()
      modifies this
      ensures Valid() && EventsOf(rows) == EventsOf(old(rows))
      ensures processed == (if |rows| - old(drained) < limit then |rows| - old(drained) else limit)
              && drained == old(drained) + processed
    {
      processed := 0;
      ghost var events := EventsOf(rows);
      var i := 0;
      while i < |rows| && processed < limit
        invariant Valid() && EventsOf(rows) == events && i <= |rows| && processed <= limit
        invariant drained == old(drained) + processed && |rows| == |old(rows)|
        invariant i <= drained && (processed > 0 ==> i == drained)
        decreases |rows| - i
      {
        if !rows[i].processed {
          assert i == drained;
          graph := Project(graph, rows[i].event);
          rows := rows[i := rows[i].(processed := true)];
          assert EventsOf(rows) == events;
          assert events[..drained + 1][..drained] == events[..drained];
          drained := drained + 1;
          processed := processed + 1;
        }
        i := i + 1;
      }
    }
  }

  // ------------------------------------------------------------ closed graphs

  /** Every link's ends are nodes. */
  ghost predicate Closed(g: Graph) {
    forall l <- g.links :: l.source in g.nodes && l.target in g.nodes
  }

  /** What an event refers to without making it. */
  predicate Ready(nodes: set<NodeId>, e: Event) {
    match e
    case CredentialCreated(_, contributor, _, _) => Contributor(contributor) in nodes
    case TeeVerified(r, _, _) => Request(r) in nodes
    case PolicyStarted(r, _) => Request(r) in nodes
    case ProofQueued(r) => Request(r) in nodes
    case ProofStarted(r) => Request(r) in nodes
    case RouteSelected(r, c, provider) => Request(r) in nodes && Credential(c) in nodes && Provider(provider) in nodes
    case ProviderStarted(_, provider) => Provider(provider) in nodes
    case ProviderFailed(r, _, c) => Request(r) in nodes && Credential(c) in nodes
    case ProviderCompleted(r, _, c) => Request(r) in nodes && Credential(c) in nodes
    case ReceiptCreated(r) => Request(r) in nodes
    case _ => true
  }

  lemma {:induction false} ServesClosed(g: Graph, provider: Id, models: seq<Id>)
    requires Closed(g) && Provider(provider) in g.nodes
    ensures Closed(Serves(g, provider, models)) && g.nodes.Keys <= Serves(g, provider, models).nodes.Keys
    decreases models
  {
    if models != [] {
      var m := UpsertNode(g, Model(models[0]), None);
      ServesClosed(UpsertLink(m, Provider(provider), Model(models[0]), "SERVES"), provider, models[1..]);
    }
  }

  /** Projecting an event whose references exist keeps the graph closed, and nodes never go. */
  lemma ProjectClosed(g: Graph, e: Event)
    requires Closed(g) && Ready(g.nodes.Keys, e)
    ensures Closed(Project(g, e)) && g.nodes.Keys <= Project(g, e).nodes.Keys
  {
    if e.CredentialCreated? {
      var g1 := UpsertNode(UpsertNode(g, Credential(e.credential), Some("ACTIVE")), Provider(e.provider), None);
      var g2 := UpsertLink(g1, Contributor(e.contributor), Credential(e.credential), "CONTRIBUTED");
      ServesClosed(UpsertLink(g2, Credential(e.credential), Provider(e.provider), "CONNECTS_TO"), e.provider, e.models);
    }
  }

  lemma ReadyGrows(nodes: set<NodeId>, more: set<NodeId>, e: Event)
    requires Ready(nodes, e) && nodes <= more
    ensures Ready(more, e)
  {}

  /** Events whose references all exist to begin with. */
  lemma {:induction false} FoldClosed(g: Graph, events: seq<Event>)
    requires Closed(g) && forall i :: 0 <= i < |events| ==> Ready(g.nodes.Keys, events[i])
    ensures Closed(Fold(g, events)) && g.nodes.Keys <= Fold(g, events).nodes.Keys
  {
    if events != [] {
      var before := Fold(g, events[..|events| - 1]);
      FoldClosed(g, events[..|events| - 1]);
      ReadyGrows(g.nodes.Keys, before.nodes.Keys, events[|events| - 1]);
      ProjectClosed(before, events[|events| - 1]);
    }
  }

  // ------------------------------------------------------------ what events write

  /** The status an event gives a node; other nodes, and nodes upserted without a status, keep what they have. */
  function Writes(e: Event, id: NodeId): Option<string> {
    match e
    case ContributorCreated(c) => if id == Contributor(c) then Some("ACTIVE") else None
    case CredentialCreated(c, _, _, _) => if id == Credential(c) then Some("ACTIVE") else None
    case CredentialUpdated(c, status) => if id == Credential(c) then status else None
    case RequestReceived(r, _) => if id == Request(r) then Some("RECEIVED") else None
    case TeeVerified(_, build, nitro) => if id == Tee(build) then Some(if nitro then "NITRO_VERIFIED" else "SIMULATED")
      else None
    case PolicyStarted(_, policy) => if id == Policy(policy) then Some("ACTIVE") else None
    case PolicyAllowed(r) => if id == Request(r) then Some("AUTHORIZED") else None
    case PolicyDenied(r) => if id == Request(r) then Some("DENIED") else None
    case RequestFailed(r) => if id == Request(r) then Some("FAILED") else None
    case RouteSelected(r, _, _) => if id == Request(r) then Some("ROUTING") else None
    case ProviderStarted(r, _) => if id == Request(r) then Some("PROVIDER_RUNNING") else None
    case ProviderFailed(r, n, _) => if id == Attempt(r, n) then Some("FAILED") else None
    case ProviderCompleted(r, n, _) =>
      if id == Request(r) || id == Response(r) then Some("COMPLETE") else if id == Attempt(r, n) then Some("SUCCESS")
        else None
    case ReceiptCreated(r) => if id == Receipt(r) then Some("SIGNED") else None
    case ProofQueued(r) => if id == Proof(r) then Some("QUEUED") else None
    case ProofStarted(r) => if id == Proof(r) then Some("PROVING") else None
    case ProofGenerated(r) => if id == Proof(r) then Some("GENERATED") else None
    case ProofCompleted(r, verified) => if id == Proof(r) then Some(if verified then "VERIFIED" else "GENERATED")
      else None
    case ProofFailed(r) => if id == Proof(r) then Some("FAILED") else None
  }

  function LastWrite(events: seq<Event>, id: NodeId): Option<string> {
    if events == [] then None
    else if Writes(events[|events| - 1], id).Some? then Writes(events[|events| - 1], id)
    else LastWrite(events[..|events| - 1], id)
  }

  /** A node's status; a node without one, like a node that does not exist, has none. */
  function StatusOf(g: Graph, id: NodeId): Option<string> {
    if id in g.nodes then g.nodes[id] else None
  }

  lemma UpsertWrites(g: Graph, id: NodeId, status: Option<string>, x: NodeId)
    ensures StatusOf(UpsertNode(g, id, status), x) == if x == id && status.Some? then status else StatusOf(g, x)
  {}

  lemma {:induction false} ServesWritesNothing(g: Graph, provider: Id, models: seq<Id>, id: NodeId)
    ensures StatusOf(Serves(g, provider, models), id) == StatusOf(g, id)
    decreases models
  {
    if models != [] {
      var m := UpsertNode(g, Model(models[0]), None);
      UpsertWrites(g, Model(models[0]), None, id);
      ServesWritesNothing(UpsertLink(m, Provider(provider), Model(models[0]), "SERVES"), provider, models[1..], id);
    }
  }

  lemma CreatedWrites(g: Graph, c: Id, contributor: Id, provider: Id, models: seq<Id>, id: NodeId)
    ensures StatusOf(Project(g, CredentialCreated(c, contributor, provider, models)), id)
         == if id == Credential(c) then Some("ACTIVE") else StatusOf(g, id)
  {
    var g1 := UpsertNode(UpsertNode(g, Credential(c), Some("ACTIVE")), Provider(provider), None);
    var g2 := UpsertLink(g1, Contributor(contributor), Credential(c), "CONTRIBUTED");
    ServesWritesNothing(UpsertLink(g2, Credential(c), Provider(provider), "CONNECTS_TO"), provider, models, id);
  }

  lemma ProjectWrites(g: Graph, e: Event, id: NodeId)
    ensures StatusOf(Project(g, e), id) == if Writes(e, id).Some? then Writes(e, id) else StatusOf(g, id)
  {
    if e.CredentialCreated? { CreatedWrites(g, e.credential, e.contributor, e.provider, e.models, id); }
  }

  /** Every node's status is what was last written to it, or what it was. */
  lemma {:induction false} FoldWrites(g: Graph, events: seq<Event>, id: NodeId)
    ensures StatusOf(Fold(g, events), id) == if LastWrite(events, id).Some? then LastWrite(events, id)
            else StatusOf(g, id)
  {
    if events != [] {
      FoldWrites(g, events[..|events| - 1], id);
      ProjectWrites(Fold(g, events[..|events| - 1]), events[|events| - 1], id);
    }
  }
}
