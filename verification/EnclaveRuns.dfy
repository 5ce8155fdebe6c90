/** Gate, park and dispatch (services/tee-sim/src/index.ts) over interleaved handlers. */
module EnclaveRuns {
  import opened JsMap
  import opened Wrappers
  import N = NonceWindow
  import P = PendingGates
  import H = GateHistory

  /** The how-manieth accepted nonce a gate outcome stems from. */
  type Token = nat

  datatype Verdict = Verdict(requestId: string, commitment: string, allow: bool)

  /** A request between the acceptance of its nonce and its verdict; `direct` when `/execute` gates it inline. */
  datatype Gating = Gating(requestId: string, direct: bool)

  datatype State = State(
    now: int,
    window: N.Window,
    accepted: seq<N.Call>,
    gating: map<Token, Gating>,
    verdicts: map<Token, Verdict>,
    gates: H.Table<Token>,
    dispatched: seq<Token>)

  function Init(now: int): State {
    State(now, [], [], map[], map[], [], [])
  }

  datatype Limits = Limits(nonces: N.Limits, gates: H.Limits)

  /** A handler runs without interruption between two awaits, and each such segment is one step. */
  datatype Action =
    | Tick(to: int)
    | Open(requestId: string, nonce: string, direct: bool)       // decrypted; the nonce is remembered or refused
    | Resolve(token: Token, commitment: string, allow: bool)     // the guest's verdict is back
    | Abort(token: Token)                                        // prover unavailable, commitment mismatch, ...
    | Execute(requestId: string, commitment: string)             // `/execute` asks for a parked outcome
    | Sweep

  predicate Enabled(s: State, a: Action) {
    match a
    case Tick(to) => s.now <= to
    case Resolve(token, _, _) => token in s.gating
    case Abort(token) => token in s.gating
    case _ => true
  }

  function Apply(l: Limits, s: State, a: Action): State
    requires Enabled(s, a)
  {
    match a
    case Tick(to) => s.(now := to)
    case Open(requestId, nonce, direct) =>
      if Has(s.window, nonce) then s
      else
        s.(window := N.Admitted(l.nonces, s.window, nonce, s.now),
           gating := s.gating[|s.accepted| := Gating(requestId, direct)],
           accepted := s.accepted + [N.Call(nonce, s.now)])
    case Resolve(token, commitment, allow) =>
      var g := s.gating[token];
      var resolved := s.(gating := s.gating - {token},
                         verdicts := s.verdicts[token := Verdict(g.requestId, commitment, allow)]);
      if !allow then resolved
      else if g.direct then resolved.(dispatched := s.dispatched + [token])
      else resolved.(gates :=
        P.Remembered(s.gates, l.gates.ttl, l.gates.max, g.requestId, P.Parked(token, commitment, s.now)))
    case Abort(token) => s.(gating := s.gating - {token})
    case Execute(requestId, commitment) =>
      var left := s.(gates := P.Consumed(s.gates, l.gates.ttl, requestId, commitment, s.now));
      var answer := P.Answer(s.gates, l.gates.ttl, requestId, commitment, s.now);
      if answer.Hit? then left.(dispatched := s.dispatched + [answer.value]) else left
    case Sweep => s.(gates := Keep(s.gates, P.Fresh(l.gates.ttl, s.now)))
  }

  // ------------------------------------------------------------ gate outcomes

  ghost predicate ParkedWell(s: State, e: Entry<P.Parked<Token>>) {
    var token := e.value.value;
    && token in s.verdicts && s.verdicts[token] == Verdict(e.key, e.value.commitment, true)
    && token !in s.dispatched
  }

  ghost predicate GateInv(s: State) {
    && DistinctKeys(s.gates)
    && (forall e <- s.gates :: ParkedWell(s, e))
    && (forall t <- s.gating :: t < |s.accepted| && t !in s.verdicts)
    && (forall t <- s.verdicts :: t < |s.accepted|)
    && (forall i, j :: 0 <= i < j < |s.dispatched| ==> s.dispatched[i] != s.dispatched[j])
    && (forall t <- s.dispatched :: t in s.verdicts && s.verdicts[t].allow)
  }

  /** What is parked after a call was parked before it, except what the call itself parks. */
  lemma RememberedMembers(m: H.Table<Token>, l: H.Limits, key: string, p: P.Parked<Token>, e: Entry<P.Parked<Token>>)
    requires DistinctKeys(m)
    ensures DistinctKeys(P.Remembered(m, l.ttl, l.max, key, p))
    ensures e in P.Remembered(m, l.ttl, l.max, key, p) ==> e == Entry(key, p) || e in m
  {
    var s := P.Survivors(m, l.ttl, l.max, p.at);
    H.SurvivorsFacts(m, l.ttl, l.max, p.at);
    SetKeepsDistinct(s, key, p);
    if e in Set(s, key, p) {
      SetMembers(s, key, p, e);
      if e in s {
        assert e in Keep(m, P.Fresh(l.ttl, p.at));
        KeepMembers(m, P.Fresh(l.ttl, p.at), e);
      }
    }
  }

  lemma {:induction false} SetMembers<V>(m: seq<Entry<V>>, key: string, value: V, e: Entry<V>)
    requires e in Set(m, key, value)
    ensures e == Entry(key, value) || e in m
  {
    if m != [] && m[0].key != key && e != m[0] {
      SetMembers(m[1..], key, value, e);
    }
  }

  /** A hit's entry. */
  lemma HitEntry(s: State, l: Limits, requestId: string, commitment: string) returns (e: Entry<P.Parked<Token>>)
    requires P.Answer(s.gates, l.gates.ttl, requestId, commitment, s.now).Hit?
    ensures e in s.gates && e.key == requestId && e.value.commitment == commitment
    ensures s.now - e.value.at <= l.gates.ttl
    ensures P.Answer(s.gates, l.gates.ttl, requestId, commitment, s.now) == P.Hit(e.value.value)
  {
    GetHas(s.gates, requestId);
    e := Entry(requestId, Get(s.gates, requestId).value);
  }

  lemma ExecuteInv(l: Limits, s: State, requestId: string, commitment: string)
    requires GateInv(s)
    ensures GateInv(Apply(l, s, Execute(requestId, commitment)))
  {
    var s' := Apply(l, s, Execute(requestId, commitment));
    DeleteKeepsDistinct(s.gates, requestId);
    if P.Answer(s.gates, l.gates.ttl, requestId, commitment, s.now).Hit? {
      var hit := HitEntry(s, l, requestId, commitment);
      assert ParkedWell(s, hit);
      forall e | e in s'.gates ensures ParkedWell(s', e) {
        DeleteMembers(s.gates, requestId, e);
        assert ParkedWell(s, e);
      }
    } else if !P.Answer(s.gates, l.gates.ttl, requestId, commitment, s.now).Mismatch? {
      forall e | e in s'.gates ensures ParkedWell(s', e) {
        DeleteMembers(s.gates, requestId, e);
        assert ParkedWell(s, e);
      }
    }
  }

  lemma ResolveInv(l: Limits, s: State, token: Token, commitment: string, allow: bool)
    requires GateInv(s) && token in s.gating
    ensures GateInv(Apply(l, s, Resolve(token, commitment, allow)))
  {
    var s', g := Apply(l, s, Resolve(token, commitment, allow)), s.gating[token];
    var p := P.Parked(token, commitment, s.now);
    RememberedMembers(s.gates, l.gates, g.requestId, p, Entry(g.requestId, p));
    forall e | e in s'.gates ensures ParkedWell(s', e) {
      RememberedMembers(s.gates, l.gates, g.requestId, p, e);
      if e in s.gates { assert ParkedWell(s, e); }
    }
  }

  lemma SweepInv(l: Limits, s: State)
    requires GateInv(s)
    ensures GateInv(Apply(l, s, Sweep))
  {
    var s' := Apply(l, s, Sweep);
    KeepKeepsDistinct(s.gates, P.Fresh(l.gates.ttl, s.now));
    forall e | e in s'.gates ensures ParkedWell(s', e) {
      KeepMembers(s.gates, P.Fresh(l.gates.ttl, s.now), e);
      assert ParkedWell(s, e);
    }
  }

  lemma GateStep(l: Limits, s: State, a: Action)
    requires GateInv(s) && Enabled(s, a)
    ensures GateInv(Apply(l, s, a))
  {
    match a
    case Execute(requestId, commitment) => ExecuteInv(l, s, requestId, commitment);
    case Resolve(token, commitment, allow) => ResolveInv(l, s, token, commitment, allow);
    case Sweep => SweepInv(l, s);
    case _ => assert forall e <- s.gates :: ParkedWell(s, e) ==> ParkedWell(Apply(l, s, a), e);
  }

  // ------------------------------------------------------------ nonces

  function Others(log: seq<N.Call>, nonce: string): nat {
    if log == [] then 0 else (if log[|log| - 1].nonce != nonce then 1 else 0) + Others(log[..|log| - 1], nonce)
  }

  ghost predicate NonceInv(l: Limits, s: State) {
    && DistinctKeys(s.window)
    && (forall a :: 0 <= a < |s.accepted| ==> GuardedSince(l, s, a))
    && (forall a, b :: 0 <= a < b < |s.accepted| && s.accepted[a].nonce == s.accepted[b].nonce ==>
      Replayable(l, s.accepted, a, b))
  }

  ghost predicate GuardedSince(l: Limits, s: State, a: nat)
    requires a < |s.accepted|
  {
    N.Guarded(l.nonces, s.window, Entry(s.accepted[a].nonce, s.accepted[a].now), s.now,
              Others(s.accepted[a + 1..], s.accepted[a].nonce))
  }

  /** The earlier acceptance is older than the TTL, or a windowful of other nonces was accepted in between. */
  ghost predicate Replayable(l: Limits, accepted: seq<N.Call>, a: nat, b: nat)
    requires a < b < |accepted|
  {
    accepted[b].now - accepted[a].now > l.nonces.ttl || Others(accepted[a + 1..b], accepted[a].nonce) >= l.nonces.max
  }

  lemma OpenGuards(l: Limits, s: State, requestId: string, nonce: string, direct: bool)
    requires NonceInv(l, s) && !Has(s.window, nonce)
    ensures NonceInv(l, Apply(l, s, Open(requestId, nonce, direct)))
  {
    var s', c := Apply(l, s, Open(requestId, nonce, direct)), N.Call(nonce, s.now);
    N.AdmittedDistinct(l.nonces, s.window, nonce, s.now);
    forall a | 0 <= a < |s'.accepted| ensures GuardedSince(l, s', a) {
      if a < |s.accepted| {
        var e := Entry(s.accepted[a].nonce, s.accepted[a].now);
        assert GuardedSince(l, s, a);
        N.GuardStep(l.nonces, s.window, e, s.now, Others(s.accepted[a + 1..], e.key), c);
        assert s'.accepted[a + 1..][..|s.accepted| - a - 1] == s.accepted[a + 1..];
      } else {
        assert s'.window[|s'.window| - 1] == Entry(nonce, s.now);
      }
    }
    forall a, b | 0 <= a < b < |s'.accepted| && s'.accepted[a].nonce == s'.accepted[b].nonce
      ensures Replayable(l, s'.accepted, a, b) {
      assert s'.accepted[a + 1..b] == s.accepted[a + 1..b];
      if b == |s.accepted| {
        assert GuardedSince(l, s, a);
        assert s.accepted[a + 1..b] == s.accepted[a + 1..];
      } else {
        assert Replayable(l, s.accepted, a, b);
      }
    }
  }

  lemma NonceStep(l: Limits, s: State, a: Action)
    requires NonceInv(l, s) && Enabled(s, a)
    ensures NonceInv(l, Apply(l, s, a))
  {
    var s' := Apply(l, s, a);
    if a.Open? && !Has(s.window, a.nonce) {
      OpenGuards(l, s, a.requestId, a.nonce, a.direct);
    } else {
      assert s'.window == s.window && s'.accepted == s.accepted && s.now <= s'.now;
      forall i | 0 <= i < |s.accepted| ensures GuardedSince(l, s', i) { assert GuardedSince(l, s, i); }
    }
  }

  // ------------------------------------------------------------ runs

  ghost predicate Runs(l: Limits, s: State, actions: seq<Action>)
    decreases |actions|
  {
    actions == [] || (Enabled(s, actions[0]) && Runs(l, Apply(l, s, actions[0]), actions[1..]))
  }

  ghost function After(l: Limits, s: State, actions: seq<Action>): State
    requires Runs(l, s, actions)
    decreases |actions|
  {
    if actions == [] then s else After(l, Apply(l, s, actions[0]), actions[1..])
  }

  lemma {:induction false} RunKeepsInv(l: Limits, s: State, actions: seq<Action>)
    requires GateInv(s) && NonceInv(l, s) && Runs(l, s, actions)
    ensures GateInv(After(l, s, actions)) && NonceInv(l, After(l, s, actions))
    decreases |actions|
  {
    if actions != [] {
      GateStep(l, s, actions[0]);
      NonceStep(l, s, actions[0]);
      RunKeepsInv(l, Apply(l, s, actions[0]), actions[1..]);
    }
  }

  /**
    However handlers interleave, no gate outcome is dispatched twice, none that was denied is dispatched, and
    two dispatches share a nonce only if the replay window had to let it in again.
  */
  lemma EachOutcomeDispatchedOnce(l: Limits, now: int, actions: seq<Action>, i: nat, j: nat)
    requires Runs(l, Init(now), actions)
    requires i < j < |After(l, Init(now), actions).dispatched|
    ensures var s := After(l, Init(now), actions);
            var t, u := s.dispatched[i], s.dispatched[j];
            && t != u && t < |s.accepted| && u < |s.accepted|
            && t in s.verdicts && u in s.verdicts && s.verdicts[t].allow && s.verdicts[u].allow
            && (s.accepted[t].nonce == s.accepted[u].nonce ==>
                  Replayable(l, s.accepted, if t < u then t else u, if t < u then u else t))
  {
    RunKeepsInv(l, Init(now), actions);
    var s := After(l, Init(now), actions);
    assert s.dispatched[i] in s.dispatched && s.dispatched[j] in s.dispatched;
  }

  /**
    A parked outcome is dispatched only for its own request and commitment, within its TTL; a mismatch changes
    nothing.
  */
  lemma ExecuteNeedsTheCommitment(l: Limits, s: State, requestId: string, commitment: string)
    requires GateInv(s)
    ensures var s', answer := Apply(l, s, Execute(requestId, commitment)),
            P.Answer(s.gates, l.gates.ttl, requestId, commitment, s.now);
            match answer
            case Hit(token) =>
              && s'.dispatched == s.dispatched + [token] && token !in s.dispatched
              && token in s.verdicts && s.verdicts[token] == Verdict(requestId, commitment, true)
              && Get(s'.gates, requestId) == None
            case Mismatch => s' == s
            case Miss => s'.dispatched == s.dispatched
  {
    if P.Answer(s.gates, l.gates.ttl, requestId, commitment, s.now).Hit? {
      var e := HitEntry(s, l, requestId, commitment);
      assert ParkedWell(s, e);
      DeleteGets(s.gates, requestId, requestId);
    }
  }
}
