/** What links and nodes the projected graph has: for each kind of them, the events that make them. */
module GraphSchema {
  import opened Projection
  import opened Wrappers

  // ------------------------------------------------------------ links

  /** The event makes this link; by kind of link, from where to where. */
  ghost predicate Makes(e: Event, l: Link) {
    || (l.kind == "CONTRIBUTED" && e.CredentialCreated?
        && l.source == Contributor(e.contributor) && l.target == Credential(e.credential))
    || (l.kind == "CONNECTS_TO" && (e.CredentialCreated? || e.RouteSelected?)
        && l.source == Credential(e.credential) && l.target == Provider(e.provider))
    || (l.kind == "SERVES" && e.CredentialCreated?
        && l.source == Provider(e.provider) && l.target.Model? && l.target.id in e.models)
    || (l.source.Request? && MakesOfRequest(e, l))
    || (l.kind == "USED" && (e.ProviderFailed? || e.ProviderCompleted?)
        && l.source == Attempt(e.request, e.attempt) && l.target == Credential(e.credential))
  }

  /** The links of a request all start from it. */
  ghost predicate MakesOfRequest(e: Event, l: Link)
    requires l.source.Request?
  {
    var r := l.source.id;
    || (l.kind == "REQUESTED_MODEL" && e.RequestReceived? && e.request == r
        && e.model.Some? && l.target == Model(e.model.value))
    || (l.kind == "EXECUTED_IN" && e.TeeVerified? && e.request == r && l.target == Tee(e.build))
    || (l.kind == "EVALUATED_UNDER" && e.PolicyStarted? && e.request == r && l.target == Policy(e.policy))
    || (l.kind == "HAS_PROOF" && (e.ProofQueued? || e.ProofStarted?) && e.request == r && l.target == Proof(r))
    || (l.kind == "ROUTED_THROUGH" && e.RouteSelected? && e.request == r && l.target == Credential(e.credential))
    || (l.kind == "CALLED" && e.ProviderStarted? && e.request == r && l.target == Provider(e.provider))
    || (l.kind == "HAS_ATTEMPT" && (e.ProviderFailed? || e.ProviderCompleted?) && e.request == r
        && l.target == Attempt(r, e.attempt))
    || (l.kind == "PRODUCED" && e.ProviderCompleted? && e.request == r && l.target == Response(r))
    || (l.kind == "HAS_RECEIPT" && e.ReceiptCreated? && e.request == r && l.target == Receipt(r))
  }

  lemma {:induction false} ServesLinks(g: Graph, provider: Id, models: seq<Id>, l: Link)
    ensures l in Serves(g, provider, models).links
       <==> l in g.links
            || (l.kind == "SERVES" && l.source == Provider(provider) && l.target.Model? && l.target.id in models)
    decreases models
  {
    if models != [] {
      var m := UpsertNode(g, Model(models[0]), None);
      var linked := UpsertLink(m, Provider(provider), Model(models[0]), "SERVES");
      ServesLinks(linked, provider, models[1..], l);
      assert models == [models[0]] + models[1..];
      if l in linked.links && l !in g.links { assert l == Link(Provider(provider), "SERVES", Model(models[0])); }
    }
  }

  lemma CreatedLinks(g: Graph, e: Event, l: Link)
    requires e.CredentialCreated?
    ensures l in Project(g, e).links <==> l in g.links || Makes(e, l)
  {
    var g1 := UpsertNode(UpsertNode(g, Credential(e.credential), Some("ACTIVE")), Provider(e.provider), None);
    var g2 := UpsertLink(g1, Contributor(e.contributor), Credential(e.credential), "CONTRIBUTED");
    var g3 := UpsertLink(g2, Credential(e.credential), Provider(e.provider), "CONNECTS_TO");
    ServesLinks(g3, e.provider, e.models, l);
    assert l == Link(l.source, l.kind, l.target);
  }

  lemma ProjectLinks(g: Graph, e: Event, l: Link)
    ensures l in Project(g, e).links <==> l in g.links || Makes(e, l)
  {
    assert l == Link(l.source, l.kind, l.target);
    if e.CredentialCreated? { CreatedLinks(g, e, l); }
  }

  /** The links are those there were and those the events make, each in its direction and of its kind. */
  lemma {:induction false} FoldLinks(g: Graph, events: seq<Event>, l: Link)
    ensures l in Fold(g, events).links <==> l in g.links || exists i :: 0 <= i < |events| && Makes(events[i], l)
  {
    if events != [] {
      var init, last := events[..|events| - 1], events[|events| - 1];
      FoldLinks(g, init, l);
      ProjectLinks(Fold(g, init), last, l);
      assert forall i :: 0 <= i < |init| ==> init[i] == events[i];
    }
  }

  // ------------------------------------------------------------ nodes

  /** The event puts this node there, if it is not there already. */
  ghost predicate Puts(e: Event, id: NodeId) {
    match id
    case Contributor(c) => e.ContributorCreated? && e.contributor == c
    case Credential(c) => (e.CredentialCreated? || e.CredentialUpdated?) && e.credential == c
    case Provider(p) => e.CredentialCreated? && e.provider == p
    case Model(m) => (e.CredentialCreated? && m in e.models) || (e.RequestReceived? && e.model == Some(m))
    case Tee(build) => e.TeeVerified? && e.build == build
    case Policy(p) => e.PolicyStarted? && e.policy == p
    case Attempt(r, n) => (e.ProviderFailed? || e.ProviderCompleted?) && e.request == r && e.attempt == n
    case Response(r) => e.ProviderCompleted? && e.request == r
    case Receipt(r) => e.ReceiptCreated? && e.request == r
    case Proof(r) =>
      (e.ProofQueued? || e.ProofStarted? || e.ProofGenerated? || e.ProofCompleted? || e.ProofFailed?) && e.request == r
    case Request(r) =>
      (e.RequestReceived? || e.PolicyAllowed? || e.PolicyDenied? || e.RequestFailed? || e.RouteSelected?
       || e.ProviderStarted? || e.ProviderCompleted?) && e.request == r
  }

  lemma {:induction false} ServesNodes(g: Graph, provider: Id, models: seq<Id>, id: NodeId)
    ensures id in Serves(g, provider, models).nodes <==> id in g.nodes || (id.Model? && id.id in models)
    decreases models
  {
    if models != [] {
      var m := UpsertNode(g, Model(models[0]), None);
      ServesNodes(UpsertLink(m, Provider(provider), Model(models[0]), "SERVES"), provider, models[1..], id);
      assert models == [models[0]] + models[1..];
    }
  }

  lemma CreatedNodes(g: Graph, e: Event, id: NodeId)
    requires e.CredentialCreated?
    ensures id in Project(g, e).nodes <==> id in g.nodes || Puts(e, id)
  {
    var g1 := UpsertNode(UpsertNode(g, Credential(e.credential), Some("ACTIVE")), Provider(e.provider), None);
    var g2 := UpsertLink(g1, Contributor(e.contributor), Credential(e.credential), "CONTRIBUTED");
    var g3 := UpsertLink(g2, Credential(e.credential), Provider(e.provider), "CONNECTS_TO");
    ServesNodes(g3, e.provider, e.models, id);
  }

  lemma ProjectNodes(g: Graph, e: Event, id: NodeId)
    ensures id in Project(g, e).nodes <==> id in g.nodes || Puts(e, id)
  {
    if e.CredentialCreated? { CreatedNodes(g, e, id); }
  }

  /** The nodes are those there were and those the events put there; none ever goes. */
  lemma {:induction false} FoldNodes(g: Graph, events: seq<Event>, id: NodeId)
    ensures id in Fold(g, events).nodes <==> id in g.nodes || exists i :: 0 <= i < |events| && Puts(events[i], id)
  {
    if events != [] {
      var init, last := events[..|events| - 1], events[|events| - 1];
      FoldNodes(g, init, id);
      ProjectNodes(Fold(g, init), last, id);
      assert forall i :: 0 <= i < |init| ==> init[i] == events[i];
    }
  }
}
