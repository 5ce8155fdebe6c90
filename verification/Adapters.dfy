/** The provider adapters of services/tee-sim/src/providers.ts, which take the same branches. */
module Adapters {
  import opened Dispatch
  import opened Wrappers

  /** What `fetch` and reading its body bring. */
  datatype Reply =
    | Threw(aborted: bool)                           // transport failure, or the timeout's abort
    | Answered(status: nat, body: Body)

  /** The body of an answer: not JSON or not accountable, or an answer with its token counts. */
  datatype Body = Malformed | Answer(content: string, inputTokens: nat, outputTokens: nat)

  datatype Price = Price(inMicroUsdPerMTok: nat, outMicroUsdPerMTok: nat)

  /** Wire formats, latencies and the rows of the price table, taken as given. */
  datatype Network = Network(
    models: string -> seq<string>,                   // the models of each provider's adapter
    price: string -> Option<Price>,                  // the pinned table
    egressAllowed: string -> bool,                   // of each provider's URL
    reply: (nat, Credential) -> Reply,
    latencyMs: (nat, Credential) -> nat)

  /** The parts of an authorized request that a call depends on, `promptBytes` in UTF-8 over all messages. */
  datatype Request = Request(model: string, messages: nat, promptBytes: nat, maxTokens: nat)

  function SupportsModel(w: Network, provider: string, model: string): bool {
    model in w.models(provider) && w.price(model).Some?
  }

  function CeilPerMillion(n: nat): nat {
    (n + 999_999) / 1_000_000
  }

  function EstimateCost(p: Price, inTok: nat, outTok: nat): nat {
    CeilPerMillion(inTok * p.inMicroUsdPerMTok + outTok * p.outMicroUsdPerMTok)
  }

  function EstimateWorstCase(p: Price, request: Request): nat {
    var promptTokBound := request.promptBytes + 16 * request.messages + 16;
    CeilPerMillion(promptTokBound * p.inMicroUsdPerMTok + request.maxTokens * p.outMicroUsdPerMTok)
  }

  function UnknownOutcome(p: Price, request: Request, latencyMs: nat, classification: Classification): Outcome {
    Failure(0, latencyMs, classification, true, Some(EstimateWorstCase(p, request)))
  }

  /** A call's outcome, and whether `fetch` was called. */
  datatype Call = Call(outcome: Outcome, fetched: bool)

  function Complete(w: Network, request: Request, n: nat, k: Credential): Call {
    var latency := w.latencyMs(n, k);
    match w.price(request.model)
    case None => Call(Failure(0, latency, UnpricedModel, false, None), false)
    case Some(price) =>
      if !w.egressAllowed(k.provider) then Call(Failure(0, latency, EgressDenied, false, None), false)
      else Call(Received(price, request, latency, w.reply(n, k)), true)
  }

  /** What is made of what `fetch` brings. */
  function Received(p: Price, request: Request, latency: nat, reply: Reply): Outcome {
    match reply
    case Threw(aborted) => UnknownOutcome(p, request, latency, Other(if aborted then "timeout" else "server_error"))
    case Answered(status, body) =>
      if 300 <= status < 400 then Failure(status, latency, RedirectRefused, false, None)
      else if !(200 <= status < 300) then
        Failure(status, latency,
                if status == 401 || status == 403 then AuthFailed
                else if status == 429 then RateLimited
                else Other("server_error"), false, None)
      else
        match body
        case Malformed => UnknownOutcome(p, request, latency, Other("malformed_response"))
        case Answer(_, _, _) => Success(status, latency)
  }

  /** The adapters as the dispatch loop sees them. */
  function Registry(w: Network, request: Request): Providers {
    Providers((provider, model) => SupportsModel(w, provider, model),
              (n: nat, k) => Complete(w, request, n, k).outcome,
              (n: nat, k) => Complete(w, request, n, k).fetched)
  }

  /** The classifications that mean nothing was sent are given exactly when nothing was, and with HTTP status 0. */
  lemma AdaptersTell(w: Network, request: Request)
    ensures Tells(Registry(w, request))
    ensures forall n, k :: !Registry(w, request).sent(n, k) ==> Registry(w, request).complete(n, k).httpStatus == 0
  {
    forall n, k ensures Complete(w, request, n, k).fetched <==> !Withheld(Complete(w, request, n, k).outcome) {
      if w.price(request.model).Some? { var o := Received(w.price(request.model).value, request, 0, w.reply(n, k)); }
    }
  }

  lemma PricedIsNotRefused(w: Network, request: Request, provider: string, n: nat, k: Credential)
    requires Registry(w, request).supports(provider, request.model)
    ensures w.price(request.model).Some? && request.model in w.models(provider)
    ensures var o := Registry(w, request).complete(n, k); o.Failure? ==> o.classification != UnpricedModel
  {}

  /** Only models that an adapter has and that have a price are tried, so an unpriced one never becomes an attempt. */
  lemma UnpricedIsNeverTried(e: Enclave, w: Network, request: Request, policyId: string, candidates: seq<Candidate>,
                             r: Report, i: nat)
    requires IsReport(e, Registry(w, request), candidates, Allowed(request.model, policyId), r) && i < |r.attempts|
    ensures w.price(request.model).Some?
    ensures exists c <- candidates ::
              c.credentialId == r.attempts[i].credentialId && request.model in w.models(c.provider)
    ensures r.attempts[i].outcome.Failure? ==> r.attempts[i].outcome.classification != UnpricedModel
  {
    var p, allowed := Registry(w, request), Allowed(request.model, policyId);
    var c, k := Supported(e, p, candidates, allowed, r, i);
    PricedIsNotRefused(w, request, c.provider, i + 1, k);
  }

  /** The candidate and the credential of a call. */
  lemma Supported(e: Enclave, p: Providers, candidates: seq<Candidate>, allowed: Allowed, r: Report,
                  i: nat) returns (c: Candidate, k: Credential)
    requires IsReport(e, p, candidates, allowed, r) && i < |r.attempts|
    ensures c in candidates && c.credentialId == r.attempts[i].credentialId && p.supports(c.provider, allowed.model)
    ensures r.attempts[i].outcome == p.complete(i + 1, k)
  {
    CalledWereAuthorized(e, p, candidates, allowed, r, i);
    var used := Called(e, p, candidates, allowed, r);
    c :| c in candidates && p.supports(c.provider, allowed.model) && Authorize(e, c, allowed) == Ok(used[i])
         && r.attempts[i].credentialId == c.credentialId;
    CalledAre(e, p, candidates, allowed, r);
    assert r.attempts[i] == AttemptOf(p, UsableOf(e, p, candidates, allowed), i);
    k := used[i];
  }

  lemma ProductGrows(a: nat, b: nat, c: nat)
    requires a <= b
    ensures a * c <= b * c
  {}

  lemma CeilGrows(a: nat, b: nat)
    requires a <= b
    ensures CeilPerMillion(a) <= CeilPerMillion(b)
  {}

  /** A cost is the exact one, in micro-dollars, rounded up. */
  lemma CostIsRoundedUp(p: Price, inTok: nat, outTok: nat)
    ensures var exact, cost := inTok * p.inMicroUsdPerMTok
            + outTok * p.outMicroUsdPerMTok, EstimateCost(p, inTok, outTok);
            1000000 * cost - 1000000 < exact <= 1000000 * cost
  {}

  lemma WorstCaseIsEnough(p: Price, request: Request, inTok: nat, outTok: nat)
    requires inTok <= request.promptBytes + 16 * request.messages + 16 && outTok <= request.maxTokens
    ensures EstimateCost(p, inTok, outTok) <= EstimateWorstCase(p, request)
  {
    var promptTokBound := request.promptBytes + 16 * request.messages + 16;
    ProductGrows(inTok, promptTokBound, p.inMicroUsdPerMTok);
    ProductGrows(outTok, request.maxTokens, p.outMicroUsdPerMTok);
    CeilGrows(inTok * p.inMicroUsdPerMTok + outTok * p.outMicroUsdPerMTok,
              promptTokBound * p.inMicroUsdPerMTok + request.maxTokens * p.outMicroUsdPerMTok);
  }

  /**
    Spend is assumed exactly when the prompt was sent and no accountable answer to it is known, and never too little:
    whatever tokens the provider counted, up to one for each byte of the prompt and the framing, and as many as were
    asked for.
  */
  lemma AssumedSpendIsEnough(w: Network, request: Request, n: nat, k: Credential)
    ensures var call, reply := Complete(w, request, n, k), w.reply(n, k);
            && (call.outcome.Failure? && call.outcome.assumedSpend.Some?
                <==> call.fetched && (reply.Threw? || (200 <= reply.status < 300 && reply.body.Malformed?)))
            && (call.outcome.Failure? ==> (call.outcome.outcomeUnknown <==> call.outcome.assumedSpend.Some?))
            && (call.outcome.Failure? && call.outcome.outcomeUnknown ==>
                  && call.outcome.httpStatus == 0 && w.price(request.model).Some?
                  && call.outcome.assumedSpend
                     == Some(EstimateCost(w.price(request.model).value,
                                          request.promptBytes + 16 * request.messages + 16, request.maxTokens)))
    ensures forall inTok: nat, outTok: nat ::
              var o := Complete(w, request, n, k).outcome;
              && o.Failure? && o.assumedSpend.Some?
              && inTok <= request.promptBytes + 16 * request.messages + 16 && outTok <= request.maxTokens ==>
                w.price(request.model).Some?
                && EstimateCost(w.price(request.model).value, inTok, outTok) <= o.assumedSpend.value
  {
    var o := Complete(w, request, n, k).outcome;
    if o.Failure? && o.assumedSpend.Some? {
      forall inTok: nat, outTok: nat |
        inTok <= request.promptBytes + 16 * request.messages + 16 && outTok <= request.maxTokens
        ensures EstimateCost(w.price(request.model).value, inTok, outTok) <= o.assumedSpend.value {
        WorstCaseIsEnough(w.price(request.model).value, request, inTok, outTok);
      }
    }
  }

  /** What is made of an answer, by its status and body, and of a `fetch` that threw. */
  lemma AnswersAreClassified(w: Network, request: Request, n: nat, k: Credential)
    requires Complete(w, request, n, k).fetched
    ensures var o, reply := Complete(w, request, n, k).outcome, w.reply(n, k);
            && (o.Success? <==> reply.Answered? && 200 <= reply.status <= 299 && reply.body.Answer?)
            && (o.Success? || !o.outcomeUnknown ==> reply.Answered? && o.httpStatus == reply.status)
            && (o.Failure? ==>
                  var status := if reply.Answered? then reply.status else 0;
                  && (o.classification == AuthFailed <==> status in {401, 403})
                  && (o.classification == RateLimited <==> status == 429)
                  && (o.classification == RedirectRefused <==> 300 <= status <= 399)
                  && (o.classification == Other("timeout") <==> reply == Threw(true))
                  && (o.classification == Other("malformed_response")
                      <==> reply.Answered? && 200 <= status <= 299 && reply.body.Malformed?))
  {
    assert "timeout"[0] != "server_error"[0] && "timeout"[0] != "malformed_response"[0];
    assert "server_error"[0] != "malformed_response"[0];
  }
}
