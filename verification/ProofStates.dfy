/**
  The enclave's proof states (services/tee-sim/src/prover.ts): background runs that poll the prove queue's job,
  verify its receipt and overwrite the request's record. Nobody awaits a run, and each of its segments between
  two awaits is one step here; what the record shows is compared with where the request's run stands.
*/
module ProofStates {

  type Id = string

  datatype Status = Queued | Proving | Generated | Verified | Failed

  /** How far a proof is; the two ends are equally far. */
  function Rank(s: Status): nat {
    match s
    case Queued => 0
    case Proving => 1
    case Generated => 2
    case _ => 3
  }

  /** Where a run stands between its awaits. */
  datatype Phase =
    | Enqueuing                 // re-executed, the job is being enqueued
    | Polling(seen: Status)     // the last state of the job it saw
    | Verifying                 // the receipt is with the reference verifier
    | Over

  datatype Run = Run(request: Id, phase: Phase)

  /** `records` is the map of the class; `runs` are the promises nobody awaits, in the order they were started. */
  datatype State = State(records: map<Id, Status>, runs: seq<Run>)

  const Init := State(map[], [])

  datatype Action =
    | Start(request: Id)
    | Accepted(run: nat)               // the daemon took the job
    | Observe(run: nat, seen: Status)  // one poll: queued, proving or generated
    | Verdict(run: nat, ok: bool)      // the reference verifier's exit
    | Fail(run: nat)                   // disagreement, unavailable, ceiling, dev mode, failure, missing receipt, throw

  /** Jobs only move forward in the prove queue, so polls of one job do. */
  predicate Enabled(s: State, a: Action) {
    match a
    case Start(_) => true
    case Accepted(i) => i < |s.runs| && s.runs[i].phase.Enqueuing?
    case Observe(i, seen) => i < |s.runs| && s.runs[i].phase.Polling? && Rank(s.runs[i].phase.seen) <= Rank(seen) < 3
    case Verdict(i, _) => i < |s.runs| && s.runs[i].phase.Verifying?
    case Fail(i) => i < |s.runs| && !s.runs[i].phase.Over?
  }

  /** `setState`: the record is overwritten, and the run goes on. */
  function Set(s: State, i: nat, status: Status, phase: Phase): State
    requires i < |s.runs|
  {
    State(s.records[s.runs[i].request := status], s.runs[i := s.runs[i].(phase := phase)])
  }

  function Apply(s: State, a: Action): State
    requires Enabled(s, a)
  {
    match a
    case Start(r) => State(s.records[r := Queued], s.runs + [Run(r, Enqueuing)])
    case Accepted(i) => s.(runs := s.runs[i := s.runs[i].(phase := Polling(Queued))])
    case Observe(i, seen) => Set(s, i, seen, if seen.Generated? then Verifying else Polling(seen))
    case Verdict(i, ok) => Set(s, i, if ok then Verified else Failed, Over)
    case Fail(i) => Set(s, i, Failed, Over)
  }

  /** What the record shows is what its one run last wrote. */
  ghost predicate Shows(status: Status, phase: Phase) {
    match phase
    case Enqueuing => status.Queued?
    case Polling(seen) => status == seen && Rank(seen) < 2
    case Verifying => status.Generated?
    case Over => Rank(status) == 3
  }

  /** Every request has one run, and its record shows it. */
  ghost predicate Inv(s: State) {
    && (forall i :: 0 <= i < |s.runs| ==>
      s.runs[i].request in s.records && Shows(s.records[s.runs[i].request], s.runs[i].phase))
    && (forall i, j :: 0 <= i < j < |s.runs| ==> s.runs[i].request != s.runs[j].request)
  }

  /** One step of a run of a request that was not started before: the record moves forward, and an end is final. */
  lemma Forward(s: State, a: Action, r: Id)
    requires Inv(s) && Enabled(s, a) && r in s.records && (a.Start? ==> a.request !in s.records)
    ensures var s' := Apply(s, a);
            && r in s'.records && Rank(s.records[r]) <= Rank(s'.records[r])
            && (Rank(s.records[r]) == 3 ==> s'.records[r] == s.records[r])
  {}

  lemma StepKeeps(s: State, a: Action)
    requires Inv(s) && Enabled(s, a) && (a.Start? ==> a.request !in s.records)
    ensures Inv(Apply(s, a))
  {}

  /**
    Whatever was started how often, a record becomes verified only by the reference verifier's acceptance in a run
    of its request.
  */
  lemma VerifiedNeedsTheVerifier(s: State, a: Action, r: Id)
    requires Enabled(s, a) && !Shown(s, r, Verified) && Shown(Apply(s, a), r, Verified)
    ensures a.Verdict? && a.ok && s.runs[a.run] == Run(r, Verifying)
  {}

  /** And from generated, when each request is started once. */
  lemma VerifiedFromGenerated(s: State, a: Action, r: Id)
    requires Inv(s) && Enabled(s, a) && !Shown(s, r, Verified) && Shown(Apply(s, a), r, Verified)
    ensures Shown(s, r, Generated)
  {
    VerifiedNeedsTheVerifier(s, a, r);
    assert s.runs[a.run].request in s.records;
  }

  predicate Shown(s: State, r: Id, status: Status) {
    r in s.records && s.records[r] == status
  }

  ghost predicate Runs(s: State, actions: seq<Action>)
    decreases |actions|
  {
    actions != [] ==> Enabled(s, actions[0]) && Runs(Apply(s, actions[0]), actions[1..])
  }

  ghost function After(s: State, actions: seq<Action>): State
    requires Runs(s, actions)
    decreases |actions|
  {
    if actions == [] then s else After(Apply(s, actions[0]), actions[1..])
  }

  /** No request of `started`, nor one twice, is started. */
  ghost predicate StartsOnce(started: set<Id>, actions: seq<Action>)
    decreases |actions|
  {
    actions != [] ==>
      && (actions[0].Start? ==> actions[0].request !in started)
      && StartsOnce(if actions[0].Start? then started + {actions[0].request} else started, actions[1..])
  }

  /** When every request is started once, whoever reads its record again finds it as far or farther, and ends final. */
  lemma {:induction false} RecordsMoveForward(s: State, actions: seq<Action>, r: Id)
    requires Inv(s) && Runs(s, actions) && StartsOnce(s.records.Keys, actions) && r in s.records
    ensures var s' := After(s, actions);
            && Inv(s') && r in s'.records && Rank(s.records[r]) <= Rank(s'.records[r])
            && (Rank(s.records[r]) == 3 ==> s'.records[r] == s.records[r])
    decreases |actions|
  {
    if actions != [] {
      var s1 := Apply(s, actions[0]);
      Forward(s, actions[0], r);
      StepKeeps(s, actions[0]);
      assert s1.records.Keys == if actions[0].Start? then s.records.Keys + {actions[0].request} else s.records.Keys;
      RecordsMoveForward(s1, actions[1..], r);
    }
  }

  // ------------------------------------------------------------ requests started more than once

  /** In every reachable state: a started request has a record, and a polling run saw its job queued or proving. */
  ghost predicate Consistent(s: State) {
    forall i :: 0 <= i < |s.runs| ==>
      && s.runs[i].request in s.records
      && (s.runs[i].phase.Polling? ==> Rank(s.runs[i].phase.seen) < 2)
  }

  lemma {:induction false} StaysConsistent(s: State, actions: seq<Action>)
    requires Consistent(s) && Runs(s, actions)
    ensures Consistent(After(s, actions))
    decreases |actions|
  {
    if actions != [] {
      StaysConsistent(Apply(s, actions[0]), actions[1..]);
    }
  }

  /** A run of `r` that will still write. */
  predicate Live(s: State, i: int, r: Id) {
    0 <= i < |s.runs| && s.runs[i].request == r && !s.runs[i].phase.Over?
  }

  /** A run of `r` that may still show its job as queued or proving. */
  predicate Waiting(s: State, i: int, r: Id) {
    Live(s, i, r) && !s.runs[i].phase.Verifying?
  }

  /** The least a waiting run may write next. */
  function Least(p: Phase): Status {
    if p.Polling? then p.seen else Queued
  }

  /** Some run of `r` waits while the record is past it, or while another run of `r` is live. */
  ghost predicate Contested(s: State, r: Id)
    requires r in s.records
  {
    exists i ::
      Waiting(s, i, r) && (Rank(Least(s.runs[i].phase)) < Rank(s.records[r]) || exists j :: j != i && Live(s, j, r))
  }

  /** Along the run, some step takes the record of `r` back, and no step starts `r`. */
  ghost predicate GoesBack(s: State, actions: seq<Action>, r: Id)
    requires Runs(s, actions) && r in s.records
    decreases |actions|
  {
    actions != [] && actions[0] != Start(r) && r in Apply(s, actions[0]).records
    && (Rank(Apply(s, actions[0]).records[r]) < Rank(s.records[r]) || GoesBack(Apply(s, actions[0]), actions[1..], r))
  }

  ghost predicate MayGoBack(s: State, r: Id)
    requires r in s.records
  {
    exists actions :: Runs(s, actions) && GoesBack(s, actions, r)
  }

  lemma OneMore(s: State, a: Action, r: Id)
    requires Enabled(s, a) && a != Start(r) && r in s.records && r in Apply(s, a).records
    requires Rank(Apply(s, a).records[r]) < Rank(s.records[r]) || MayGoBack(Apply(s, a), r)
    ensures MayGoBack(s, r)
  {
    var s1 := Apply(s, a);
    var rest: seq<Action> := [];
    if !(Rank(s1.records[r]) < Rank(s.records[r])) {
      rest :| Runs(s1, rest) && GoesBack(s1, rest, r);
    }
    assert ([a] + rest)[0] == a && ([a] + rest)[1..] == rest;
    assert Runs(s, [a] + rest) && GoesBack(s, [a] + rest, r);
  }

  /** A waiting run that the record is past shows its job again. */
  lemma BehindGoesBack(s: State, i: nat, r: Id)
    requires Consistent(s) && r in s.records && Waiting(s, i, r) && Rank(Least(s.runs[i].phase)) < Rank(s.records[r])
    ensures MayGoBack(s, r)
  {
    if s.runs[i].phase.Enqueuing? {
      var s1 := Apply(s, Accepted(i));
      OneMore(s1, Observe(i, Queued), r);
      OneMore(s, Accepted(i), r);
    } else {
      OneMore(s, Observe(i, s.runs[i].phase.seen), r);
    }
  }

  lemma ContestedGoesBack(s: State, r: Id)
    requires Consistent(s) && r in s.records && Contested(s, r)
    ensures MayGoBack(s, r)
  {
    var i :| Waiting(s, i, r)
      && (Rank(Least(s.runs[i].phase)) < Rank(s.records[r]) || exists j :: j != i && Live(s, j, r));
    if Rank(Least(s.runs[i].phase)) < Rank(s.records[r]) {
      BehindGoesBack(s, i, r);
    } else {
      var j :| j != i && Live(s, j, r);
      BehindGoesBack(Apply(s, Fail(j)), i, r);
      OneMore(s, Fail(j), r);
    }
  }

  /** While nothing contests a record, no step but a start of its request takes it back or makes it contested. */
  lemma UncontestedStep(s: State, a: Action, r: Id)
    requires Consistent(s) && r in s.records && !Contested(s, r) && Enabled(s, a) && a != Start(r)
    ensures var s' := Apply(s, a); r in s'.records && Rank(s.records[r]) <= Rank(s'.records[r]) && !Contested(s', r)
  {
    var s' := Apply(s, a);
    if a.Start? { assert s'.runs[|s.runs|].request != r; }
    assert forall i :: Waiting(s', i, r) ==> Waiting(s, i, r);
    assert forall j :: Live(s', j, r) ==> Live(s, j, r);
    if !a.Start? && s.runs[a.run].request == r {
      assert Live(s, a.run, r);
      assert forall i :: Waiting(s, i, r) ==> i == a.run;
    }
  }

  lemma {:induction false} UncontestedNeverGoesBack(s: State, actions: seq<Action>, r: Id)
    requires Consistent(s) && r in s.records && !Contested(s, r) && Runs(s, actions)
    ensures !GoesBack(s, actions, r)
    decreases |actions|
  {
    if actions != [] && actions[0] != Start(r) {
      UncontestedStep(s, actions[0], r);
      StaysConsistent(s, [actions[0]]);
      UncontestedNeverGoesBack(Apply(s, actions[0]), actions[1..], r);
    }
  }

  /**
    From every reachable state, some continuation that does not start `r` again takes the record of `r` back if and
    only if a run of `r` is enqueuing or polling while the record is past it or another run of `r` is live.
  */
  lemma MayGoBackExactlyWhen(actions: seq<Action>, r: Id)
    requires Runs(Init, actions) && r in After(Init, actions).records
    ensures MayGoBack(After(Init, actions), r) <==> Contested(After(Init, actions), r)
  {
    var s := After(Init, actions);
    StaysConsistent(Init, actions);
    if Contested(s, r) { ContestedGoesBack(s, r); }
    if more :| Runs(s, more) && GoesBack(s, more, r) {
      if !Contested(s, r) { UncontestedNeverGoesBack(s, more, r); }
    }
  }

  // ------------------------------------------------------------ two runs of one request

  lemma Extend(actions: seq<Action>, s: State, a: Action)
    requires Runs(Init, actions) && After(Init, actions) == s && Enabled(s, a)
    ensures Runs(Init, actions + [a]) && After(Init, actions + [a]) == Apply(s, a)
  {
    ExtendFrom(Init, actions, a);
  }

  lemma {:induction false} ExtendFrom(s: State, actions: seq<Action>, a: Action)
    requires Runs(s, actions) && Enabled(After(s, actions), a)
    ensures Runs(s, actions + [a]) && After(s, actions + [a]) == Apply(After(s, actions), a)
    decreases |actions|
  {
    if actions == [] {
      assert [] + [a] == [a] && [a][1..] == [];
      assert Runs(Apply(s, a), []) && After(Apply(s, a), []) == Apply(s, a);
    } else {
      assert (actions + [a])[0] == actions[0] && (actions + [a])[1..] == actions[1..] + [a];
      ExtendFrom(Apply(s, actions[0]), actions[1..], a);
    }
  }

  /** One request, two runs that both poll: the second start is accepted, and nothing tells the runs apart. */
  lemma StartedTwice(r: Id) returns (actions: seq<Action>)
    ensures Runs(Init, actions)
    ensures After(Init, actions) == State(map[r := Queued], [Run(r, Polling(Queued)), Run(r, Polling(Queued))])
  {
    actions := [];
    var s := Init;
    Extend(actions, s, Start(r));
    actions, s := actions + [Start(r)], Apply(s, Start(r));
    assert s == State(map[r := Queued], [Run(r, Enqueuing)]);
    Extend(actions, s, Start(r));
    actions, s := actions + [Start(r)], Apply(s, Start(r));
    assert s == State(map[r := Queued], [Run(r, Enqueuing), Run(r, Enqueuing)]);
    Extend(actions, s, Accepted(0));
    actions, s := actions + [Accepted(0)], Apply(s, Accepted(0));
    Extend(actions, s, Accepted(1));
    actions, s := actions + [Accepted(1)], Apply(s, Accepted(1));
  }

  /** The second run's poll takes the record from proving back to queued, with no start. */
  lemma BackWithoutAStart(r: Id) returns (actions: seq<Action>)
    ensures Runs(Init, actions) && Shown(After(Init, actions), r, Proving)
    ensures Enabled(After(Init, actions), Observe(1, Queued))
            && Shown(Apply(After(Init, actions), Observe(1, Queued)), r, Queued)
  {
    actions := StartedTwice(r);
    var s := After(Init, actions);
    Extend(actions, s, Observe(0, Proving));
    actions := actions + [Observe(0, Proving)];
  }

  /** And a record can become verified straight from queued. */
  lemma VerifiedFromQueued(r: Id) returns (actions: seq<Action>)
    ensures Runs(Init, actions) && Shown(After(Init, actions), r, Queued)
    ensures Enabled(After(Init, actions), Verdict(0, true))
            && Shown(Apply(After(Init, actions), Verdict(0, true)), r, Verified)
  {
    actions := StartedTwice(r);
    var s := After(Init, actions);
    Extend(actions, s, Observe(0, Generated));
    actions, s := actions + [Observe(0, Generated)], Apply(s, Observe(0, Generated));
    Extend(actions, s, Observe(1, Queued));
    actions := actions + [Observe(1, Queued)];
  }

  // ------------------------------------------------------------ verified from what is not generated

  /** A step that shows the record verified, neither generated nor verified before it. */
  predicate Leaps(s: State, a: Action, r: Id)
    requires Enabled(s, a)
  {
    Shown(Apply(s, a), r, Verified) && !Shown(s, r, Verified) && !Shown(s, r, Generated)
  }

  /** Along the run, some step leaps, and no step starts `r`. */
  ghost predicate RunLeaps(s: State, actions: seq<Action>, r: Id)
    requires Runs(s, actions)
    decreases |actions|
  {
    && actions != [] && actions[0] != Start(r)
    && (Leaps(s, actions[0], r) || RunLeaps(Apply(s, actions[0]), actions[1..], r))
  }

  ghost predicate MayLeap(s: State, r: Id) {
    exists actions :: Runs(s, actions) && RunLeaps(s, actions, r)
  }

  /** Two runs of `r` are live, or one is verifying while the record shows neither generated nor verified. */
  ghost predicate Clashing(s: State, r: Id) {
    || (exists i, j :: i != j && Live(s, i, r) && Live(s, j, r))
    || (exists i :: Live(s, i, r) && s.runs[i].phase.Verifying? && !Shown(s, r, Generated) && !Shown(s, r, Verified))
  }

  lemma LeapsAfter(s: State, a: Action, r: Id)
    requires Enabled(s, a) && a != Start(r) && (Leaps(s, a, r) || MayLeap(Apply(s, a), r))
    ensures MayLeap(s, r)
  {
    var rest: seq<Action> := [];
    if !Leaps(s, a, r) {
      rest :| Runs(Apply(s, a), rest) && RunLeaps(Apply(s, a), rest, r);
    }
    assert ([a] + rest)[0] == a && ([a] + rest)[1..] == rest;
    assert Runs(s, [a] + rest) && RunLeaps(s, [a] + rest, r);
  }

  /** With its receipt at the verifier, a run leaps once the other has failed. */
  lemma VerifyingLeaps(s: State, i: nat, j: nat, r: Id)
    requires i != j && Live(s, i, r) && Live(s, j, r) && s.runs[i].phase.Verifying?
    ensures MayLeap(s, r)
  {
    var s1 := Apply(s, Fail(j));
    LeapsAfter(s1, Verdict(i, true), r);
    LeapsAfter(s, Fail(j), r);
  }

  /** Before that, it gets there. */
  lemma TwoRunsLeap(s: State, i: nat, j: nat, r: Id)
    requires Consistent(s) && i != j && Live(s, i, r) && Live(s, j, r)
    ensures MayLeap(s, r)
  {
    match s.runs[i].phase
    case Verifying => VerifyingLeaps(s, i, j, r);
    case Polling(_) =>
      VerifyingLeaps(Apply(s, Observe(i, Generated)), i, j, r);
      LeapsAfter(s, Observe(i, Generated), r);
    case Enqueuing =>
      var s1 := Apply(s, Accepted(i));
      VerifyingLeaps(Apply(s1, Observe(i, Generated)), i, j, r);
      LeapsAfter(s1, Observe(i, Generated), r);
      LeapsAfter(s, Accepted(i), r);
  }

  lemma ClashingLeaps(s: State, r: Id)
    requires Consistent(s) && Clashing(s, r)
    ensures MayLeap(s, r)
  {
    if i, j :| i != j && Live(s, i, r) && Live(s, j, r) {
      TwoRunsLeap(s, i, j, r);
    } else {
      var i :| Live(s, i, r) && s.runs[i].phase.Verifying? && !Shown(s, r, Generated) && !Shown(s, r, Verified);
      LeapsAfter(s, Verdict(i, true), r);
    }
  }

  /** Where nothing clashes, no step but a start of the request leaps or makes anything clash. */
  lemma NoClashStep(s: State, a: Action, r: Id)
    requires Consistent(s) && !Clashing(s, r) && Enabled(s, a) && a != Start(r)
    ensures !Leaps(s, a, r) && !Clashing(Apply(s, a), r)
  {
    var s' := Apply(s, a);
    if a.Start? { assert s'.runs[|s.runs|].request != r; }
    assert forall i :: Live(s', i, r) ==> Live(s, i, r);
    if !a.Start? && s.runs[a.run].request == r {
      assert Live(s, a.run, r);
      assert forall i :: Live(s', i, r) ==> i == a.run;
    }
  }

  lemma {:induction false} NoClashNeverLeaps(s: State, actions: seq<Action>, r: Id)
    requires Consistent(s) && !Clashing(s, r) && Runs(s, actions)
    ensures !RunLeaps(s, actions, r)
    decreases |actions|
  {
    if actions != [] && actions[0] != Start(r) {
      NoClashStep(s, actions[0], r);
      StaysConsistent(s, [actions[0]]);
      NoClashNeverLeaps(Apply(s, actions[0]), actions[1..], r);
    }
  }

  /**
    From every reachable state, some continuation that does not start `r` again verifies its record from neither
    generated nor verified if and only if two runs of `r` are live, or one is verifying while the record shows neither.
  */
  lemma MayLeapExactlyWhen(actions: seq<Action>, r: Id)
    requires Runs(Init, actions)
    ensures MayLeap(After(Init, actions), r) <==> Clashing(After(Init, actions), r)
  {
    var s := After(Init, actions);
    StaysConsistent(Init, actions);
    if Clashing(s, r) { ClashingLeaps(s, r); }
    if more :| Runs(s, more) && RunLeaps(s, more, r) {
      if !Clashing(s, r) { NoClashNeverLeaps(s, more, r); }
    }
  }
}
