/** What an accepted nonce can bring about: gate, park and dispatch together. */
module ProviderCalls {
  import opened EnclaveRuns
  import opened Wrappers
  import A = Adapters
  import D = Dispatch

  /** One dispatch: what the coordinator offered for it, how the network behaved, and what was reported. */
  datatype Work = Work(candidates: seq<D.Candidate>, network: A.Network, report: D.Report)

  /** The requests of the gate outcomes: what each asks for, and the policy it was allowed under. */
  datatype Requests = Requests(asked: Token -> A.Request, policyId: Token -> string)

  function AllowedOf(q: Requests, t: Token): D.Allowed {
    D.Allowed(q.asked(t).model, q.policyId(t))
  }

  /** Each dispatched outcome's work, in the order of the dispatches. */
  ghost predicate Worked(e: D.Enclave, q: Requests, s: State, work: seq<Work>) {
    && |work| == |s.dispatched|
    && forall i :: 0 <= i < |work| ==> Reported(e, q, s.dispatched[i], work[i])
  }

  ghost predicate Reported(e: D.Enclave, q: Requests, t: Token, w: Work) {
    D.IsReport(e, A.Registry(w.network, q.asked(t)), w.candidates, AllowedOf(q, t), w.report)
  }

  /** In the `k`-th call of this dispatch the adapter called `fetch`. */
  ghost predicate Fetched(e: D.Enclave, q: Requests, t: Token, w: Work, k: nat) {
    && Reported(e, q, t, w) && k < |w.report.attempts|
    && A.Complete(w.network, q.asked(t), k + 1, CalledIn(e, q, t, w)[k]).fetched
  }

  ghost function CalledIn(e: D.Enclave, q: Requests, t: Token, w: Work): (r: seq<D.Credential>)
    requires Reported(e, q, t, w)
    ensures |r| == |w.report.attempts|
  {
    D.CalledAre(e, A.Registry(w.network, q.asked(t)), w.candidates, AllowedOf(q, t), w.report);
    D.Called(e, A.Registry(w.network, q.asked(t)), w.candidates, AllowedOf(q, t), w.report)
  }

  lemma FetchedIsLast(e: D.Enclave, q: Requests, t: Token, w: Work, k: nat)
    requires Fetched(e, q, t, w, k)
    ensures k == |w.report.attempts| - 1
    ensures exists c <- w.candidates ::
              && D.Authorize(e, c, AllowedOf(q, t)) == Ok(CalledIn(e, q, t, w)[k])
              && w.report.attempts[k].credentialId == c.credentialId
  {
    var p := A.Registry(w.network, q.asked(t));
    A.AdaptersTell(w.network, q.asked(t));
    D.OnlyTheLastIsSent(e, p, w.candidates, AllowedOf(q, t), w.report, k);
    D.CalledWereAuthorized(e, p, w.candidates, AllowedOf(q, t), w.report, k);
  }

  /**
    However handlers interleave, whatever is offered and however the network behaves, of all the calls for one gate
    outcome at most one sends the prompt, so an accepted nonce leads to at most one; the outcome was allowed, and the
    credential the prompt was sent with is what authorization gave for its request.
  */
  lemma OneCallPerOutcome(l: Limits, now: int, actions: seq<Action>, e: D.Enclave, q: Requests, work: seq<Work>,
                          i: nat, k: nat, j: nat, m: nat)
    requires Runs(l, Init(now), actions) && Worked(e, q, After(l, Init(now), actions), work)
    requires i < |work| && j < |work|
    requires var s := After(l, Init(now), actions);
             && s.dispatched[i] == s.dispatched[j]
             && Fetched(e, q, s.dispatched[i], work[i], k) && Fetched(e, q, s.dispatched[j], work[j], m)
    ensures i == j && k == m
    ensures var s := After(l, Init(now), actions);
            var t := s.dispatched[i];
            && t < |s.accepted| && t in s.verdicts && s.verdicts[t].allow
            && exists c <- work[i].candidates ::
                 && D.Authorize(e, c, AllowedOf(q, t)) == Ok(CalledIn(e, q, t, work[i])[k])
                 && work[i].report.attempts[k].credentialId == c.credentialId
  {
    var s := After(l, Init(now), actions);
    RunKeepsInv(l, Init(now), actions);
    assert s.dispatched[i] in s.dispatched;
    FetchedIsLast(e, q, s.dispatched[i], work[i], k);
    FetchedIsLast(e, q, s.dispatched[j], work[j], m);
  }
}
