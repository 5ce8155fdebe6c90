/** How gate outcomes reach dispatch: those gated inline at once, those gated by `/gate` through a later `/execute`. */
module GateOrigins {
  import opened EnclaveRuns
  import opened JsMap
  import opened Wrappers
  import P = PendingGates

  /** The request whose nonce this action has accepted. */
  function Opening(s: State, a: Action): seq<Gating> {
    if a.Open? && !Has(s.window, a.nonce) then [Gating(a.requestId, a.direct)] else []
  }

  /** The requests of all accepted nonces, in order: token `t` is the `t`-th. */
  ghost function Opened(l: Limits, s: State, actions: seq<Action>): seq<Gating>
    requires Runs(l, s, actions)
    decreases |actions|
  {
    if actions == [] then [] else Opening(s, actions[0]) + Opened(l, Apply(l, s, actions[0]), actions[1..])
  }

  ghost predicate ParkedFrom(requests: seq<Gating>, e: Entry<P.Parked<Token>>) {
    e.value.value < |requests| && requests[e.value.value] == Gating(e.key, false)
  }

  ghost predicate Origins(s: State, requests: seq<Gating>) {
    && GateInv(s)
    && |requests| == |s.accepted|
    && (forall t <- s.gating :: t < |requests| && s.gating[t] == requests[t])
    && (forall t <- s.verdicts :: t < |requests| && s.verdicts[t].requestId == requests[t].requestId)
    && (forall e <- s.gates :: ParkedFrom(requests, e))
  }

  lemma OpenOrigins(l: Limits, s: State, a: Action, requests: seq<Gating>)
    requires Origins(s, requests) && a.Open?
    ensures Origins(Apply(l, s, a), requests + Opening(s, a))
  {
    GateStep(l, s, a);
    forall e | e in Apply(l, s, a).gates ensures ParkedFrom(requests + Opening(s, a), e) {
      assert ParkedFrom(requests, e);
    }
  }

  lemma ResolveOrigins(l: Limits, s: State, a: Action, requests: seq<Gating>)
    requires Origins(s, requests) && a.Resolve? && Enabled(s, a)
    ensures Origins(Apply(l, s, a), requests)
  {
    GateStep(l, s, a);
    var s', g := Apply(l, s, a), s.gating[a.token];
    var p := P.Parked(a.token, a.commitment, s.now);
    forall e | e in s'.gates ensures ParkedFrom(requests, e) {
      if e !in s.gates {
        RememberedMembers(s.gates, l.gates, g.requestId, p, e);
      }
    }
  }

  lemma TakeOrigins(l: Limits, s: State, a: Action, requests: seq<Gating>)
    requires Origins(s, requests) && Enabled(s, a) && (a.Execute? || a.Sweep?)
    ensures Origins(Apply(l, s, a), requests)
  {
    GateStep(l, s, a);
    forall e | e in Apply(l, s, a).gates ensures ParkedFrom(requests, e) {
      if a.Execute? {
        DeleteMembers(s.gates, a.requestId, e);
      } else {
        KeepMembers(s.gates, P.Fresh(l.gates.ttl, s.now), e);
      }
    }
  }

  lemma StepOrigins(l: Limits, s: State, a: Action, requests: seq<Gating>)
    requires Origins(s, requests) && Enabled(s, a)
    ensures Origins(Apply(l, s, a), requests + Opening(s, a))
  {
    assert !a.Open? ==> requests + Opening(s, a) == requests;
    match a
    case Open(_, _, _) => OpenOrigins(l, s, a, requests);
    case Resolve(_, _, _) => ResolveOrigins(l, s, a, requests);
    case Execute(_, _) => TakeOrigins(l, s, a, requests);
    case Sweep => TakeOrigins(l, s, a, requests);
    case _ => GateStep(l, s, a);
  }

  lemma {:induction false} RunOrigins(l: Limits, s: State, actions: seq<Action>, requests: seq<Gating>)
    requires Runs(l, s, actions) && Origins(s, requests)
    ensures Origins(After(l, s, actions), requests + Opened(l, s, actions))
    decreases |actions|
  {
    if actions == [] {
      assert requests + [] == requests;
    } else {
      var a := actions[0];
      StepOrigins(l, s, a, requests);
      RunOrigins(l, Apply(l, s, a), actions[1..], requests + Opening(s, a));
      assert requests + Opening(s, a) + Opened(l, Apply(l, s, a), actions[1..])
             == requests + (Opening(s, a) + Opened(l, Apply(l, s, a), actions[1..]));
    }
  }

  lemma OriginsOf(l: Limits, now: int, actions: seq<Action>)
    requires Runs(l, Init(now), actions)
    ensures Origins(After(l, Init(now), actions), Opened(l, Init(now), actions))
  {
    RunOrigins(l, Init(now), actions, []);
    assert [] + Opened(l, Init(now), actions) == Opened(l, Init(now), actions);
  }

  /** Whatever is parked was gated by `/gate`, under its own request, and is not dispatched yet. */
  lemma ParkedWereNotDirect(l: Limits, now: int, actions: seq<Action>, e: Entry<P.Parked<Token>>)
    requires Runs(l, Init(now), actions) && e in After(l, Init(now), actions).gates
    ensures var s, requests, t := After(l, Init(now), actions), Opened(l, Init(now), actions), e.value.value;
            && t < |requests| && requests[t] == Gating(e.key, false)
            && t in s.verdicts && s.verdicts[t] == Verdict(e.key, e.value.commitment, true) && t !in s.dispatched
  {
    OriginsOf(l, now, actions);
    var s, requests := After(l, Init(now), actions), Opened(l, Init(now), actions);
    assert ParkedFrom(requests, e) && ParkedWell(s, e);
  }

  /** The guest's verdict on a gated request, and what becomes of it. */
  lemma VerdictsAreActedOn(l: Limits, now: int, actions: seq<Action>, t: Token, commitment: string, allow: bool)
    requires Runs(l, Init(now), actions) && t in After(l, Init(now), actions).gating
    ensures t < |Opened(l, Init(now), actions)|
    ensures var s, g := After(l, Init(now), actions), Opened(l, Init(now), actions)[t];
            var s' := Apply(l, s, Resolve(t, commitment, allow));
            && t !in s.verdicts && s'.verdicts == s.verdicts[t := Verdict(g.requestId, commitment, allow)]
            && s'.dispatched == (if allow && g.direct then s.dispatched + [t] else s.dispatched)
            && (if allow && !g.direct then Get(s'.gates, g.requestId) == Some(P.Parked(t, commitment, s.now))
                else s'.gates == s.gates)
  {
    OriginsOf(l, now, actions);
    var s, g := After(l, Init(now), actions), Opened(l, Init(now), actions)[t];
    var p := P.Parked(t, commitment, s.now);
    SetGets(P.Survivors(s.gates, l.gates.ttl, l.gates.max, s.now), g.requestId, p, g.requestId);
  }

  /**
    What the next action dispatches, if anything: an outcome gated inline only as its own verdict allows it, and one
    gated by `/gate` only as `/execute` names its request and commitment.
  */
  lemma DispatchedByItsKind(l: Limits, now: int, actions: seq<Action>, a: Action)
    requires Runs(l, Init(now), actions) && Enabled(After(l, Init(now), actions), a)
    requires Apply(l, After(l, Init(now), actions), a).dispatched != After(l, Init(now), actions).dispatched
    ensures var s, requests := After(l, Init(now), actions), Opened(l, Init(now), actions);
            var s' := Apply(l, s, a);
            exists t: Token :: && s'.dispatched == s.dispatched + [t] && t < |requests| && t !in s.dispatched
                               && (if requests[t].direct then a.Resolve? && a.token == t && a.allow
                                   else t in s.verdicts && s.verdicts[t].allow
                                        && a == Execute(requests[t].requestId, s.verdicts[t].commitment))
  {
    OriginsOf(l, now, actions);
    var s := After(l, Init(now), actions);
    if a.Execute? {
      var e := HitEntry(s, l, a.requestId, a.commitment);
      assert ParkedFrom(Opened(l, Init(now), actions), e) && ParkedWell(s, e);
      assert Apply(l, s, a).dispatched == s.dispatched + [e.value.value];
    } else {
      assert Apply(l, s, a).dispatched == s.dispatched + [a.token];
    }
  }
}
