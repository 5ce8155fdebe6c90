/**
  The prove queue where its order is lost: jobs that are sent in another order than they were inserted, and a
  worker that has died.
*/
module ProveDisorder {
  import opened ProveQueue
  import opened ProveRuns
  import opened Wrappers

  // ------------------------------------------------------------ rotation

  /** When a job was accepted. */
  function Age(issued: seq<Id>, id: Id): (n: nat)
    requires id in issued
    ensures n < |issued| && issued[n] == id
  {
    if issued[0] == id then 0 else 1 + Age(issued[1..], id)
  }

  /** Older jobs stand before younger ones. */
  ghost predicate ByAge(issued: seq<Id>, order: seq<Id>) {
    && (forall i :: 0 <= i < |order| ==> order[i] in issued)
    && (forall i, j :: 0 <= i < j < |order| ==> Age(issued, order[i]) < Age(issued, order[j]))
  }

  lemma {:induction false} AgeOfAppended(issued: seq<Id>, x: Id, id: Id)
    requires x in issued || x == id
    ensures x in issued + [id]
    ensures x in issued ==> Age(issued + [id], x) == Age(issued, x)
    ensures x !in issued ==> Age(issued + [id], x) == |issued|
  {
    if issued != [] {
      assert (issued + [id])[0] == issued[0] && (issued + [id])[1..] == issued[1..] + [id];
      assert issued == [issued[0]] + issued[1..];
      if issued[0] != x { AgeOfAppended(issued[1..], x, id); }
    }
  }

  lemma AppendByAge(issued: seq<Id>, order: seq<Id>, id: Id)
    requires ByAge(issued, order) && id !in issued
    ensures ByAge(issued + [id], order + [id])
  {
    forall i | 0 <= i < |order|
      ensures order[i] in issued + [id] && Age(issued + [id], order[i]) == Age(issued, order[i]) {
      AgeOfAppended(issued, order[i], id);
    }
    AgeOfAppended(issued, id, id);
  }

  lemma TailByAge(issued: seq<Id>, order: seq<Id>)
    requires ByAge(issued, order) && order != []
    ensures ByAge(issued, order[1..])
  {}

  /** A younger job in front of an older one. */
  lemma Rotated(issued: seq<Id>, a: seq<Id>, id: Id, b: seq<Id>)
    requires id !in issued && b != [] && b[0] in issued
    ensures !ByAge(issued + [id], a + [id] + b)
  {
    var order := a + [id] + b;
    assert order[|a|] == id && order[|a| + 1] == b[0];
    AgeOfAppended(issued, id, id);
    AgeOfAppended(issued, b[0], id);
  }

  /**
    An accepted job leaves the deque ordered by age exactly when nothing had to be evicted or the job at the
    front was finished: otherwise the unfinished jobs at the front are moved behind younger ones.
  */
  lemma OrderSurvivesExactlyWhen(l: Limits, s: State, id: Id)
    requires Sound(l) && Inv(l, s) && HasRoom(l, s) && id !in s.issued && ByAge(s.issued, s.jobs.order)
    ensures var s' := Apply(l, s, Enqueue(id));
            ByAge(s'.issued, s'.jobs.order) <==> |s.jobs.order| < l.retained || Droppable(s.jobs.table, s.jobs.order[0])
  {
    InsertResult(l, s, id);
    var s', o, k := Apply(l, s, Enqueue(id)), s.jobs.order, FirstFinished(s.jobs.table, s.jobs.order);
    assert s'.issued == s.issued + [id];
    if |o| == l.retained {
      assert s'.jobs.order == o[k + 1..] + [id] + o[..k];
      RotationByAge(s.issued, o, id, k);
      assert k == 0 <==> Droppable(s.jobs.table, o[0]);
    } else {
      AppendByAge(s.issued, s.jobs.order, id);
    }
  }

  lemma RotationByAge(issued: seq<Id>, o: seq<Id>, id: Id, k: nat)
    requires ByAge(issued, o) && id !in issued && k < |o|
    ensures ByAge(issued + [id], o[k + 1..] + [id] + o[..k]) <==> k == 0
  {
    if k == 0 {
      AppendByAge(issued, o, id);
      TailByAge(issued + [id], o + [id]);
      assert o[1..] + [id] + o[..0] == (o + [id])[1..];
    } else {
      Rotated(issued, o[k + 1..], id, o[..k]);
    }
  }

  // ------------------------------------------------------------ what is evicted

  /** If a job of this deque is finished, the first finished one is older than every other finished one. */
  ghost predicate FirstIsOldest(issued: seq<Id>, jobs: JobTable)
    requires forall i :: 0 <= i < |jobs.order| ==> jobs.order[i] in issued
  {
    var k := FirstFinished(jobs.table, jobs.order);
    forall j :: 0 <= j < |jobs.order| && j != k && Droppable(jobs.table, jobs.order[j]) ==>
      k < |jobs.order| && Age(issued, jobs.order[k]) < Age(issued, jobs.order[j])
  }

  /** Between two states: what is gone was finished, and older than every other finished job. */
  ghost predicate OldestFinishedGone(s: State, s': State) {
    forall v :: v in s.jobs.table && v !in s'.jobs.table ==>
      && Droppable(s.jobs.table, v) && v in s.issued
      && forall x :: x in s.jobs.table && x != v && Droppable(s.jobs.table, x) ==>
        x in s.issued && Age(s.issued, v) < Age(s.issued, x)
  }

  lemma FirstInOrderIsOldest(issued: seq<Id>, jobs: JobTable, k: nat, x: Id)
    requires ByAge(issued, jobs.order) && k == FirstFinished(jobs.table, jobs.order) < |jobs.order|
    requires x in jobs.order && x != jobs.order[k] && Droppable(jobs.table, x)
    ensures x in issued && jobs.order[k] in issued && Age(issued, jobs.order[k]) < Age(issued, x)
  {
    var j :| 0 <= j < |jobs.order| && jobs.order[j] == x;
    assert k < j;
  }

  /** What an insertion evicts, if anything, is the first finished job. */
  lemma FirstFinishedGoes(l: Limits, s: State, id: Id, v: Id)
    requires Sound(l) && Inv(l, s) && HasRoom(l, s) && id !in s.issued
    requires v in s.jobs.table && v !in Apply(l, s, Enqueue(id)).jobs.table
    ensures var k := FirstFinished(s.jobs.table, s.jobs.order); k < |s.jobs.order| && v == s.jobs.order[k]
  {
    InsertResult(l, s, id);
  }

  /** In a deque ordered by age, the evicted job is the oldest finished one. */
  lemma EvictsOldestFinished(l: Limits, s: State, id: Id)
    requires Sound(l) && Inv(l, s) && HasRoom(l, s) && id !in s.issued && ByAge(s.issued, s.jobs.order)
    ensures OldestFinishedGone(s, Apply(l, s, Enqueue(id)))
  {
    var t, k := s.jobs.table, FirstFinished(s.jobs.table, s.jobs.order);
    forall v | v in t && v !in Apply(l, s, Enqueue(id)).jobs.table
      ensures Droppable(t, v) && v in s.issued
      ensures forall x :: x in t && x != v && Droppable(t, x) ==> x in s.issued && Age(s.issued, v) < Age(s.issued, x)
    {
      FirstFinishedGoes(l, s, id, v);
      assert v in s.jobs.order;
      forall x | x in t && x != v && Droppable(t, x) ensures x in s.issued && Age(s.issued, v) < Age(s.issued, x) {
        FirstInOrderIsOldest(s.issued, s.jobs, k, x);
      }
    }
  }

  /** Two jobs of a deque finished, the others not. */
  function TwoFinished(order: seq<Id>, x: Id, y: Id): map<Id, JobView> {
    map id | id in order :: if id == x || id == y then DONE else JUST_QUEUED
  }

  /**
    Whichever of a deque's jobs finish, the first finished is the oldest finished: if and only if the deque is
    ordered by age.
  */
  lemma FirstIsOldestExactlyWhen(issued: seq<Id>, order: seq<Id>)
    requires Distinct(order) && forall i :: 0 <= i < |order| ==> order[i] in issued
    ensures (forall table: map<Id, JobView> :: FirstIsOldest(issued, JobTable(table, order))) <==> ByAge(issued, order)
  {
    if forall table: map<Id, JobView> :: FirstIsOldest(issued, JobTable(table, order)) {
      forall i, j | 0 <= i < j < |order| ensures Age(issued, order[i]) < Age(issued, order[j]) {
        var table := TwoFinished(order, order[i], order[j]);
        assert forall k :: 0 <= k < i ==> !Droppable(table, order[k]);
        assert Droppable(table, order[i]) && Droppable(table, order[j]);
        assert FirstFinished(table, order) == i;
        assert FirstIsOldest(issued, JobTable(table, order));
      }
    }
  }

  /** Over a run whose acceptances all find room or a finished job at the front, the deque stays ordered by age. */
  ghost predicate NeverRotates(l: Limits, s: State, actions: seq<Action>)
    requires Runs(l, s, actions)
    decreases |actions|
  {
    actions != [] ==>
      && (actions[0].Enqueue? && HasRoom(l, s) && |s.jobs.order| == l.retained ==>
            s.jobs.order != [] && Droppable(s.jobs.table, s.jobs.order[0]))
      && NeverRotates(l, Apply(l, s, actions[0]), actions[1..])
  }

  lemma StepStaysByAge(l: Limits, s: State, a: Action)
    requires Sound(l) && Inv(l, s) && ByAge(s.issued, s.jobs.order) && Enabled(s, a)
    requires a.Enqueue? && HasRoom(l, s) && |s.jobs.order| == l.retained ==>
               s.jobs.order != [] && Droppable(s.jobs.table, s.jobs.order[0])
    ensures ByAge(Apply(l, s, a).issued, Apply(l, s, a).jobs.order)
  {
    if a.Enqueue? && HasRoom(l, s) {
      OrderSurvivesExactlyWhen(l, s, a.id);
    } else {
      assert Apply(l, s, a).issued == s.issued && Apply(l, s, a).jobs.order == s.jobs.order;
    }
  }

  lemma {:induction false} ByAgeUntilRotation(l: Limits, s: State, actions: seq<Action>)
    requires Sound(l) && Inv(l, s) && ByAge(s.issued, s.jobs.order) && Runs(l, s, actions)
             && NeverRotates(l, s, actions)
    ensures Inv(l, After(l, s, actions)) && ByAge(After(l, s, actions).issued, After(l, s, actions).jobs.order)
    decreases |actions|
  {
    if actions != [] {
      var a := actions[0];
      StepKeepsInv(l, s, a);
      StepStaysByAge(l, s, a);
      ByAgeUntilRotation(l, Apply(l, s, a), actions[1..]);
    }
  }

  /**
    From the empty queue on, as long as no acceptance rotates the deque, the next one evicts the oldest finished job;
    and after the first that does, jobs can finish so that the next eviction takes a younger one.
  */
  lemma OldestGoesUntilRotation(l: Limits, actions: seq<Action>, id: Id)
    requires Sound(l) && Runs(l, Init, actions) && NeverRotates(l, Init, actions)
    requires var s := After(l, Init, actions); id !in s.issued && HasRoom(l, s)
    ensures var s := After(l, Init, actions);
            var s' := Apply(l, s, Enqueue(id));
            && OldestFinishedGone(s, s')
            && (forall i :: 0 <= i < |s'.jobs.order| ==> s'.jobs.order[i] in s'.issued)
            && ((forall table: map<Id, JobView> :: FirstIsOldest(s'.issued, JobTable(table, s'.jobs.order)))
                <==> |s.jobs.order| < l.retained || Droppable(s.jobs.table, s.jobs.order[0]))
  {
    InitInv(l);
    ByAgeUntilRotation(l, Init, actions);
    var s := After(l, Init, actions);
    var s' := Apply(l, s, Enqueue(id));
    EvictsOldestFinished(l, s, id);
    OrderSurvivesExactlyWhen(l, s, id);
    StepKeepsInv(l, s, Enqueue(id));
    assert forall i :: 0 <= i < |s'.jobs.order| ==> s'.jobs.order[i] in s'.jobs.order;
    FirstIsOldestExactlyWhen(s'.issued, s'.jobs.order);
  }

  // --------------------------------------------------- a run in which the oldest finished job is not the first to go

  const DONE := JobView(Generated, Some("receipt"), Some(0), None)

  lemma {:induction false} RunsAppend(l: Limits, s: State, a: seq<Action>, b: seq<Action>)
    requires Runs(l, s, a) && Runs(l, After(l, s, a), b)
    ensures Runs(l, s, a + b) && After(l, s, a + b) == After(l, After(l, s, a), b)
    decreases |a|
  {
    if a == [] {
      assert a + b == b;
    } else {
      assert (a + b)[0] == a[0] && (a + b)[1..] == a[1..] + b;
      RunsAppend(l, Apply(l, s, a[0]), a[1..], b);
    }
  }

  lemma OneStep(l: Limits, s: State, a: Action)
    requires Enabled(s, a)
    ensures Runs(l, s, [a]) && After(l, s, [a]) == Apply(l, s, a)
  {
    assert Runs(l, Apply(l, s, a), []) && After(l, Apply(l, s, a), []) == Apply(l, s, a);
    assert [a][1..] == [];
  }

  lemma Extend(l: Limits, s: State, run: seq<Action>, a: Action)
    requires Runs(l, s, run) && Enabled(After(l, s, run), a)
    ensures Runs(l, s, run + [a]) && After(l, s, run + [a]) == Apply(l, After(l, s, run), a)
  {
    OneStep(l, After(l, s, run), a);
    RunsAppend(l, s, run, [a]);
  }

  /** One job goes from its enqueuer through an idle worker. */
  lemma PassThrough(l: Limits, s: State, run: seq<Action>, i: nat) returns (longer: seq<Action>)
    requires Runs(l, s, run)
    requires var now := After(l, s, run);
             now.worker.Idle? && now.channel == [] && i < |now.sending| && now.sending[i] in now.jobs.table
    ensures Runs(l, s, longer)
    ensures var now := After(l, s, run);
            After(l, s, longer)
              == now.(jobs := now.jobs.(table := now.jobs.table[now.sending[i] := DONE]),
                      sending := now.sending[..i] + now.sending[i + 1..])
  {
    var now := After(l, s, run);
    var id := now.sending[i];
    Extend(l, s, run, Send(i));
    var run1 := run + [Send(i)];
    assert After(l, s, run1).channel == [id];
    Extend(l, s, run1, Recv);
    var run2 := run1 + [Recv];
    Extend(l, s, run2, Mark);
    var run3 := run2 + [Mark];
    Extend(l, s, run3, Finish(DONE));
    longer := run3 + [Finish(DONE)];
    assert now.jobs.table[id := JobView(Proving, None, None, None)][id := DONE] == now.jobs.table[id := DONE];
  }

  /** Accepting a job while the table has room for it. */
  lemma Accept(l: Limits, s: State, run: seq<Action>, id: Id) returns (longer: seq<Action>)
    requires Runs(l, s, run)
    requires var now := After(l, s, run); id !in now.issued && HasRoom(l, now) && |now.jobs.order| < l.retained
    ensures Runs(l, s, longer)
    ensures var now := After(l, s, run);
            After(l, s, longer) == now.(jobs := JobTable(now.jobs.table[id := JUST_QUEUED], now.jobs.order + [id]),
                                        sending := now.sending + [id], issued := now.issued + [id])
  {
    var now := After(l, s, run);
    Extend(l, s, run, Enqueue(id));
    longer := run + [Enqueue(id)];
    EvictsNone(l.retained, JobTable(now.jobs.table[id := JUST_QUEUED], now.jobs.order + [id]));
  }

  lemma FewQueued(table: map<Id, JobView>, ids: set<Id>)
    requires forall id :: id in table && table[id].status == Queued ==> id in ids
    ensures |QueuedIds(table)| <= |ids|
  {
    assert QueuedIds(table) <= ids;
    Cardinality(QueuedIds(table), ids);
  }

  /** The first of the jobs was accepted and is not sent yet; those after it were accepted, sent and proved. */
  function Overtaken(ids: seq<Id>, k: nat): State
    requires 0 < k <= |ids|
  {
    var table := map id | id in ids[..k] :: if id == ids[0] then JUST_QUEUED else DONE;
    State(JobTable(table, ids[..k]), [ids[0]], [], Idle, ids[..k])
  }

  lemma OneMoreOvertakes(ids: seq<Id>, k: nat)
    requires Distinct(ids) && 0 < k < |ids|
    ensures var now, next := Overtaken(ids, k), Overtaken(ids, k + 1);
            && ids[k] !in now.issued && next.issued == now.issued + [ids[k]]
              && next.jobs.order == now.jobs.order + [ids[k]]
            && next.jobs.table == now.jobs.table[ids[k] := JUST_QUEUED][ids[k] := DONE]
  {
    assert ids[..k + 1] == ids[..k] + [ids[k]];
  }

  /** While a job is not sent, another one is accepted and proved. */
  lemma AcceptAndProve(l: Limits, run: seq<Action>, now: State, slow: Id, id: Id) returns (longer: seq<Action>)
    requires l.queued >= 2 && Runs(l, Init, run) && After(l, Init, run) == now
    requires now.worker.Idle? && now.channel == [] && now.sending == [slow] && id !in now.issued
             && |now.jobs.order| < l.retained
    requires forall x :: x in now.jobs.table && now.jobs.table[x].status == Queued ==> x == slow
    ensures Runs(l, Init, longer)
    ensures After(l, Init, longer)
         == State(JobTable(now.jobs.table[id := JUST_QUEUED][id := DONE], now.jobs.order + [id]), [slow], [], Idle,
                  now.issued + [id])
  {
    FewQueued(now.jobs.table, {slow});
    longer := Accept(l, Init, run, id);
    assert now.sending + [id] == [slow, id];
    longer := PassThrough(l, Init, longer, 1);
    assert [slow, id][..1] + [slow, id][2..] == [slow];
  }

  /** The first job is accepted first and its enqueuer is slow to send it. */
  lemma {:induction false} Overtake(l: Limits, ids: seq<Id>, k: nat) returns (run: seq<Action>)
    requires Sound(l) && l.queued >= 2 && Distinct(ids) && 0 < k <= l.retained && k <= |ids|
    ensures Runs(l, Init, run) && After(l, Init, run) == Overtaken(ids, k)
  {
    if k == 1 {
      FewQueued(map[], {});
      run := Accept(l, Init, [], ids[0]);
      assert map[][ids[0] := JUST_QUEUED] == Overtaken(ids, 1).jobs.table && ids[..1] == [ids[0]];
    } else {
      run := Overtake(l, ids, k - 1);
      OneMoreOvertakes(ids, k - 1);
      run := AcceptAndProve(l, run, Overtaken(ids, k - 1), ids[0], ids[k - 1]);
    }
  }

  /** The table once the second job was pushed out, and the deque rotated. */
  function Rotation(ids: seq<Id>, r: nat): State
    requires 3 <= r < |ids|
  {
    var full := Overtaken(ids, r);
    State(JobTable(full.jobs.table[ids[r] := JUST_QUEUED] - {ids[1]}, ids[2..r] + [ids[r]] + [ids[0]]),
          [ids[0], ids[r]], [], Idle, ids[..r + 1])
  }

  lemma SecondIsFirstFinished(ids: seq<Id>, r: nat)
    requires Distinct(ids) && 3 <= r <= |ids|
    ensures FirstFinished(Overtaken(ids, r).jobs.table, ids[..r]) == 1
  {
    var t, o := Overtaken(ids, r).jobs.table, ids[..r];
    assert o[0] in t && o[1] in t && o[0] != o[1] && o[1..][0] == o[1];
    assert !Droppable(t, o[0]) && Droppable(t, o[1]);
  }

  lemma RotatedOrder(ids: seq<Id>, r: nat)
    requires 3 <= r < |ids|
    ensures ids[..r][2..] == ids[2..r] && ids[..r][..1] == [ids[0]] && ids[..r + 1] == ids[..r] + [ids[r]]
  {}

  /** The next job pushes the second out, and the first goes to the back. */
  lemma PushedOut(l: Limits, ids: seq<Id>)
    requires Sound(l) && l.queued >= 2 && Distinct(ids) && l.retained < |ids|
    requires Inv(l, Overtaken(ids, l.retained))
    ensures var full := Overtaken(ids, l.retained);
            Enabled(full, Enqueue(ids[l.retained]))
              && Apply(l, full, Enqueue(ids[l.retained])) == Rotation(ids, l.retained)
  {
    var r, full := l.retained, Overtaken(ids, l.retained);
    FewQueued(full.jobs.table, {ids[0]});
    SecondIsFirstFinished(ids, r);
    assert ids[r] !in ids[..r];
    InsertResult(l, full, ids[r]);
    RotatedOrder(ids, r);
  }

  /** There the first job is proved. */
  function Late(ids: seq<Id>, r: nat): State
    requires 3 <= r < |ids|
  {
    var s := Rotation(ids, r);
    s.(jobs := s.jobs.(table := s.jobs.table[ids[0] := DONE]), sending := [ids[r]])
  }

  lemma ThenRotated(l: Limits, ids: seq<Id>) returns (run: seq<Action>)
    requires Sound(l) && l.queued >= 2 && Distinct(ids) && l.retained < |ids|
    ensures Runs(l, Init, run) && After(l, Init, run) == Late(ids, l.retained)
  {
    var r := l.retained;
    run := Overtake(l, ids, r);
    InitInv(l);
    RunKeepsInv(l, Init, run);
    PushedOut(l, ids);
    Extend(l, Init, run, Enqueue(ids[r]));
    run := run + [Enqueue(ids[r])];
    assert ids[0] in ids[..r] && ids[0] != ids[1];
    run := PassThrough(l, Init, run, 0);
    assert [ids[0], ids[r]][..0] + [ids[0], ids[r]][1..] == [ids[r]];
  }

  /** First and third are finished, the third stands in front, and only the last waits. */
  ghost predicate IsLate(s: State, ids: seq<Id>, r: nat)
    requires 3 <= r < |ids|
  {
    && s.issued == ids[..r + 1] && |s.jobs.order| == r && s.jobs.order[0] == ids[2]
    && ids[0] in s.jobs.table && s.jobs.table[ids[0]] == DONE && ids[2] in s.jobs.table && s.jobs.table[ids[2]] == DONE
    && (forall id :: id in s.jobs.table && s.jobs.table[id].status == Queued ==> id == ids[r])
  }

  lemma LateIsLate(ids: seq<Id>, r: nat)
    requires Distinct(ids) && 3 <= r < |ids|
    ensures IsLate(Late(ids, r), ids, r)
  {
    assert ids[0] in ids[..r] && ids[2] in ids[..r] && ids[r] !in ids[..r];
  }

  /** Where a full deque's first job is finished, the next job evicts it, and no other. */
  lemma FrontGoes(l: Limits, s: State, id: Id, other: Id)
    requires Sound(l) && Inv(l, s) && HasRoom(l, s) && id !in s.issued && |s.jobs.order| == l.retained > 0
    requires Droppable(s.jobs.table, s.jobs.order[0]) && other in s.jobs.table && other != s.jobs.order[0]
    ensures var t := Apply(l, s, Enqueue(id)).jobs.table;
            s.jobs.order[0] !in t && other in t && t[other] == s.jobs.table[other]
  {
    InsertResult(l, s, id);
    assert FirstFinished(s.jobs.table, s.jobs.order) == 0;
    assert s.jobs.order[0] in s.jobs.order && other in s.jobs.order;
  }

  /** The next job evicts the third and keeps the older first. */
  lemma YoungerGoesFirst(l: Limits, ids: seq<Id>, s: State)
    requires Sound(l) && l.queued >= 2 && Distinct(ids) && |ids| == l.retained + 2 && Inv(l, s)
    requires IsLate(s, ids, l.retained)
    ensures var id := ids[l.retained + 1];
            && Enabled(s, Enqueue(id)) && HasRoom(l, s)
            && var t := Apply(l, s, Enqueue(id)).jobs.table; ids[2] !in t && ids[0] in t && t[ids[0]] == DONE
  {
    var r := l.retained;
    FewQueued(s.jobs.table, {ids[r]});
    assert ids[r + 1] !in ids[..r + 1];
    FrontGoes(l, s, ids[r + 1], ids[0]);
  }

  lemma {:induction false} AgeByPlace(issued: seq<Id>, i: nat)
    requires Distinct(issued) && i < |issued|
    ensures issued[i] in issued && Age(issued, issued[i]) == i
  {
    if i > 0 {
      assert issued[1..][i - 1] == issued[i] && issued[0] != issued[i];
      AgeByPlace(issued[1..], i - 1);
    }
  }

  /**
    "The oldest finished job is evicted first" (lines 45-49) does not hold when sends overtake each other: at any
    limits that let two jobs wait, 32 and 64 among them, and whatever the ids,
      a run from the empty queue after which the
    next job evicts the third and keeps the first, which is finished too, and is older.
  */
  lemma OldestFinishedIsNotFirst(l: Limits, ids: seq<Id>) returns (run: seq<Action>)
    requires Sound(l) && l.queued >= 2 && Distinct(ids) && |ids| == l.retained + 2
    ensures Runs(l, Init, run)
    ensures var s, next := After(l, Init, run), Enqueue(ids[l.retained + 1]);
            && Enabled(s, next) && ids[0] in s.issued && ids[2] in s.issued
              && Age(s.issued, ids[0]) < Age(s.issued, ids[2])
            && Stage(s, ids[0]) == Stage(s, ids[2]) == 3
            && Stage(Apply(l, s, next), ids[0]) == 3 && Stage(Apply(l, s, next), ids[2]) == 4
  {
    run := ThenRotated(l, ids);
    InitInv(l);
    RunKeepsInv(l, Init, run);
    LateIsLate(ids, l.retained);
    OlderIsKept(l, ids, After(l, Init, run));
  }

  lemma OlderIsKept(l: Limits, ids: seq<Id>, s: State)
    requires Sound(l) && l.queued >= 2 && Distinct(ids) && |ids| == l.retained + 2 && Inv(l, s)
    requires IsLate(s, ids, l.retained)
    ensures var next := Enqueue(ids[l.retained + 1]);
            && Enabled(s, next) && ids[0] in s.issued && ids[2] in s.issued
              && Age(s.issued, ids[0]) < Age(s.issued, ids[2])
            && Stage(s, ids[0]) == Stage(s, ids[2]) == 3
            && Stage(Apply(l, s, next), ids[0]) == 3 && Stage(Apply(l, s, next), ids[2]) == 4
  {
    var r := l.retained;
    YoungerGoesFirst(l, ids, s);
    AgeByPlace(ids[..r + 1], 0);
    AgeByPlace(ids[..r + 1], 2);
  }

  // ------------------------------------------------------------ a dead worker

  /** Without a worker nothing finishes: every accepted job is one more that waits for good. */
  lemma {:induction false} DeadWorkerOnlyQueues(l: Limits, s: State, run: seq<Action>)
    requires Sound(l) && Inv(l, s) && s.worker.Dead? && Runs(l, s, run)
    ensures var end := After(l, s, run);
            && end.worker == s.worker
            && |end.issued| - |s.issued| == |QueuedIds(end.jobs.table)| - |QueuedIds(s.jobs.table)|
            && |end.issued| - |s.issued| <= l.queued - |QueuedIds(s.jobs.table)|
    decreases |run|
  {
    RunKeepsInv(l, s, run);
    if run != [] {
      var s1 := Apply(l, s, run[0]);
      StepKeepsInv(l, s, run[0]);
      DeadStep(l, s, run[0]);
      DeadWorkerOnlyQueues(l, s1, run[1..]);
    }
  }

  lemma DeadStep(l: Limits, s: State, a: Action)
    requires Sound(l) && Inv(l, s) && s.worker.Dead? && Enabled(s, a)
    ensures var s' := Apply(l, s, a);
            s'.worker == s.worker && |s'.issued| - |s.issued| == |QueuedIds(s'.jobs.table)| - |QueuedIds(s.jobs.table)|
  {
    if a.Enqueue? && HasRoom(l, s) {
      EnqueueStatuses(l, s, a.id);
      assert a.id !in QueuedIds(s.jobs.table);
    }
  }
}
