/**
  Every interleaving of the prove queue's enqueuers, its worker and the worker's death. An enqueuer inserts
  under the table's lock and sends after releasing it, so sends may happen in another order than insertions.
*/
module ProveRuns {
  import opened ProveQueue
  import opened Wrappers

  datatype Worker =
    | Idle
    | Received(id: Id)             // taken from the channel, not yet marked
    | Busy(id: Id)                 // marked as proving
    | Dead(held: Option<Id>)       // panicked, possibly while proving

  /** `sending`: inserted and not yet sent, in insertion order; `issued`: every id ever accepted, oldest first. */
  datatype State = State(jobs: JobTable, sending: seq<Id>, channel: seq<Id>, worker: Worker, issued: seq<Id>)

  const Init := State(JobTable(map[], []), [], [], Idle, [])

  datatype Action =
    | Enqueue(id: Id)
    | Send(i: nat)
    | Recv
    | Mark
    | Finish(view: JobView)
    | Die

  /** Job ids are 16 random bytes: an id is taken not to be drawn again. */
  predicate Enabled(s: State, a: Action) {
    match a
    case Enqueue(id) => id !in s.issued
    case Send(i) => i < |s.sending|
    case Recv => s.worker.Idle? && s.channel != []
    case Mark => s.worker.Received?
    case Finish(view) => s.worker.Busy? && view.status.IsTerminal()
    case Die => !s.worker.Dead?
  }

  /** Whether `/prove` accepts a job now. */
  predicate HasRoom(l: Limits, s: State) {
    |QueuedIds(s.jobs.table)| < l.queued
  }

  function Held(w: Worker): Option<Id> {
    match w
    case Busy(id) => Some(id)
    case Dead(held) => held
    case _ => None
  }

  function Apply(l: Limits, s: State, a: Action): State
    requires Enabled(s, a)
  {
    match a
    case Enqueue(id) =>
      if !HasRoom(l, s) then s
      else s.(jobs := Inserted(l.retained, s.jobs, id, JUST_QUEUED), sending := s.sending + [id],
              issued := s.issued + [id])
    case Send(i) =>
      var rest := s.sending[..i] + s.sending[i + 1..];
      if s.worker.Dead? then s.(sending := rest)
      else s.(sending := rest, channel := s.channel + [s.sending[i]])
    case Recv => s.(channel := s.channel[1..], worker := Received(s.channel[0]))
    case Mark =>
      s.(jobs := Updated(s.jobs, s.worker.id, JobView(Proving, None, None, None)), worker := Busy(s.worker.id))
    case Finish(view) => s.(jobs := Updated(s.jobs, s.worker.id, view), worker := Idle)
    case Die => s.(channel := [], worker := Dead(Held(s.worker)))
  }

  // ------------------------------------------------------------ what every step keeps

  ghost predicate Sound(l: Limits) {
    l.queued + 1 <= l.retained
  }

  ghost predicate SameIds(jobs: JobTable) {
    Distinct(jobs.order) && forall id :: id in jobs.order <==> id in jobs.table
  }

  predicate HasStatus(s: State, id: Id, status: JobStatus) {
    id in s.jobs.table && s.jobs.table[id].status == status
  }

  /** The jobs that are still on their way to the worker. */
  function Waiting(s: State): multiset<Id> {
    multiset(s.sending) + multiset(s.channel) + if s.worker.Received? then multiset{s.worker.id} else multiset{}
  }

  ghost predicate WaitingAreQueued(s: State) {
    && (forall id :: Waiting(s)[id] <= 1)
    && (forall id :: id in Waiting(s) ==> HasStatus(s, id, Queued))
    && (!s.worker.Dead? ==> forall id :: HasStatus(s, id, Queued) ==> id in Waiting(s))
  }

  ghost predicate HeldIsProving(s: State) {
    forall id :: HasStatus(s, id, Proving) <==> Held(s.worker) == Some(id)
  }

  ghost predicate Inv(l: Limits, s: State) {
    && SameIds(s.jobs)
    && |s.jobs.order| <= l.retained
    && (forall id <- s.jobs.order :: id in s.issued)
    && |QueuedIds(s.jobs.table)| <= l.queued
    && WaitingAreQueued(s)
    && HeldIsProving(s)
  }

  lemma InitInv(l: Limits)
    ensures Inv(l, Init)
  {
    assert QueuedIds(Init.jobs.table) == {};
  }

  // ------------------------------------------------------------ one eviction

  function FirstFinished(table: map<Id, JobView>, ids: seq<Id>): (k: nat)
    ensures k <= |ids|
    ensures forall i :: 0 <= i < k ==> !Droppable(table, ids[i])
    ensures k < |ids| ==> Droppable(table, ids[k])
  {
    if ids == [] || Droppable(table, ids[0]) then 0 else 1 + FirstFinished(table, ids[1..])
  }

  lemma {:induction false} VisitsFirst(table: map<Id, JobView>, ids: seq<Id>)
    requires FirstFinished(table, ids) < |ids|
    ensures Visits(table, ids, 1) == FirstFinished(table, ids) + 1
  {
    if !Droppable(table, ids[0]) {
      VisitsFirst(table, ids[1..]);
    } else {
      assert Visits(table, ids[1..], 0) == 0;
    }
  }

  lemma {:induction false} AllUnfinished(table: map<Id, JobView>, ids: seq<Id>)
    requires forall i :: 0 <= i < |ids| ==> !Droppable(table, ids[i])
    ensures Unfinished(table, ids) == ids
  {
    if ids != [] {
      AllUnfinished(table, ids[1..]);
      assert ids == [ids[0]] + ids[1..];
    }
  }

  /** With one job too many, the first finished one goes and the unfinished ones before it go to the back. */
  lemma EvictsOne(max: nat, jobs: JobTable)
    requires SameIds(jobs) && |jobs.order| == max + 1 && FirstFinished(jobs.table, jobs.order) < |jobs.order|
    ensures var k := FirstFinished(jobs.table, jobs.order);
            Evicted(max, jobs) == JobTable(jobs.table - {jobs.order[k]}, jobs.order[k + 1..] + jobs.order[..k])
  {
    var k := FirstFinished(jobs.table, jobs.order);
    VisitsFirst(jobs.table, jobs.order);
    UnfinishedSnoc(jobs.table, jobs.order, k);
    AllUnfinished(jobs.table, jobs.order[..k]);
    NotVisited(jobs.order, k);
    assert Evicted(max, jobs).table == jobs.table - {jobs.order[k]} by {
      forall id | id in jobs.table
        ensures (id in jobs.order[..k + 1] ==> !Droppable(jobs.table, id)) <==> id != jobs.order[k]
      {
        if id in jobs.order[..k] {
          var i :| 0 <= i < k && jobs.order[i] == id;
        }
      }
    }
  }

  lemma EvictsNone(max: nat, jobs: JobTable)
    requires |jobs.order| <= max
    ensures Evicted(max, jobs) == jobs
  {
    assert Scanned(jobs, 0) == jobs;
  }

  lemma {:induction false} DistinctCount(ids: seq<Id>, s: set<Id>)
    requires Distinct(ids) && forall id <- ids :: id in s
    ensures |ids| <= |s|
  {
    if ids != [] {
      DistinctCount(ids[1..], s - {ids[0]});
    }
  }

  function ProvingIds(table: map<Id, JobView>): set<Id> {
    set id | id in table && table[id].status == Proving
  }

  /** A full table holds a finished job. */
  lemma SomethingIsFinished(l: Limits, s: State)
    requires Sound(l) && Inv(l, s) && HasRoom(l, s) && |s.jobs.order| == l.retained
    ensures FirstFinished(s.jobs.table, s.jobs.order) < l.retained
  {
    if FirstFinished(s.jobs.table, s.jobs.order) == l.retained {
      var queued, proving := QueuedIds(s.jobs.table), ProvingIds(s.jobs.table);
      forall id | id in s.jobs.order ensures id in queued + proving {
        var i :| 0 <= i < |s.jobs.order| && s.jobs.order[i] == id;
        assert !Droppable(s.jobs.table, id);
      }
      DistinctCount(s.jobs.order, queued + proving);
      var held := if Held(s.worker).Some? then {Held(s.worker).value} else {};
      assert proving <= held by {
        forall id | id in proving ensures id in held { assert HasStatus(s, id, Proving); }
      }
      Cardinality(proving, held);
    }
  }

  lemma Cardinality(a: set<Id>, b: set<Id>)
    requires a <= b
    ensures |a| <= |b|
  {
    assert b == a + (b - a);
  }

  lemma {:induction false} FirstFinishedAppend(table: map<Id, JobView>, table': map<Id, JobView>, ids: seq<Id>,
                                               more: seq<Id>)
    requires FirstFinished(table, ids) < |ids|
    requires forall id <- ids :: id in table && id in table' && table[id] == table'[id]
    ensures FirstFinished(table', ids + more) == FirstFinished(table, ids)
  {
    assert (ids + more)[0] == ids[0] && (ids + more)[1..] == ids[1..] + more;
    if !Droppable(table, ids[0]) {
      FirstFinishedAppend(table, table', ids[1..], more);
    }
  }

  lemma RotationOfGrown(o: seq<Id>, id: Id, k: nat)
    requires k < |o|
    ensures (o + [id])[k] == o[k] && (o + [id])[k + 1..] + (o + [id])[..k] == o[k + 1..] + [id] + o[..k]
  {}

  /** Inserting into a full table. */
  lemma InsertIntoFull(jobs: JobTable, id: Id, k: nat)
    requires SameIds(jobs) && id !in jobs.table && k == FirstFinished(jobs.table, jobs.order) < |jobs.order|
    ensures Inserted(|jobs.order|, jobs, id, JUST_QUEUED)
         == JobTable(jobs.table[id := JUST_QUEUED] - {jobs.order[k]}, jobs.order[k + 1..] + [id] + jobs.order[..k])
  {
    var grown := JobTable(jobs.table[id := JUST_QUEUED], jobs.order + [id]);
    GrownSameIds(jobs, id);
    FirstFinishedAppend(jobs.table, grown.table, jobs.order, [id]);
    EvictsOne(|jobs.order|, grown);
    RotationOfGrown(jobs.order, id, k);
  }

  lemma GrownSameIds(jobs: JobTable, id: Id)
    requires SameIds(jobs) && id !in jobs.table
    ensures SameIds(JobTable(jobs.table[id := JUST_QUEUED], jobs.order + [id]))
  {}

  /** What inserting a job makes of the table. */
  lemma InsertResult(l: Limits, s: State, id: Id)
    requires Sound(l) && Inv(l, s) && HasRoom(l, s) && id !in s.issued
    ensures var t, o := s.jobs.table[id := JUST_QUEUED], s.jobs.order;
            var k := FirstFinished(s.jobs.table, o);
            && (|o| == l.retained ==> k < |o|)
            && Inserted(l.retained, s.jobs, id, JUST_QUEUED)
            == if |o| < l.retained then JobTable(t, o + [id]) else JobTable(t - {o[k]}, o[k + 1..] + [id] + o[..k])
  {
    if |s.jobs.order| < l.retained {
      EvictsNone(l.retained, JobTable(s.jobs.table[id := JUST_QUEUED], s.jobs.order + [id]));
    } else {
      SomethingIsFinished(l, s);
      InsertIntoFull(s.jobs, id, FirstFinished(s.jobs.table, s.jobs.order));
    }
  }

  lemma RotationKeepsIds(o: seq<Id>, k: nat, id: Id)
    requires Distinct(o) && k < |o| && id !in o
    ensures Distinct(o[k + 1..] + [id] + o[..k])
    ensures forall x :: x in o[k + 1..] + [id] + o[..k] <==> (x in o && x != o[k]) || x == id
  {
    assert o == o[..k] + [o[k]] + o[k + 1..];
  }

  /** What holds of a table after a job was inserted: it is there, and at most one finished job is not any more. */
  ghost predicate Grown(before: JobTable, jobs: JobTable, id: Id) {
    && SameIds(jobs)
    && (forall x :: x in jobs.table ==> x == id || x in before.table)
    && (id in jobs.table && jobs.table[id] == JUST_QUEUED)
    && (forall x :: x in jobs.table && x != id ==> jobs.table[x] == before.table[x])
    && (forall x :: x in before.table && !before.table[x].status.IsTerminal() ==> x in jobs.table)
  }

  lemma GrownByRotation(jobs: JobTable, id: Id, k: nat)
    requires SameIds(jobs) && id !in jobs.table && k < |jobs.order| && Droppable(jobs.table, jobs.order[k])
    ensures Grown(jobs,
                  JobTable(jobs.table[id := JUST_QUEUED] - {jobs.order[k]},
                           jobs.order[k + 1..] + [id] + jobs.order[..k]), id)
  {
    RotationKeepsIds(jobs.order, k, id);
    assert jobs.order[k] in jobs.order;
  }

  lemma EnqueueTable(l: Limits, s: State, id: Id)
    requires Sound(l) && Inv(l, s) && HasRoom(l, s) && id !in s.issued
    ensures var jobs := Apply(l, s, Enqueue(id)).jobs;
            Grown(s.jobs, jobs, id) && |jobs.order| <= l.retained
  {
    InsertResult(l, s, id);
    InsertedGrows(s.jobs, l.retained, id, Inserted(l.retained, s.jobs, id, JUST_QUEUED));
  }

  lemma InsertedGrows(jobs: JobTable, max: nat, id: Id, after: JobTable)
    requires SameIds(jobs) && |jobs.order| <= max && id !in jobs.table
    requires var t, o, k := jobs.table[id := JUST_QUEUED], jobs.order, FirstFinished(jobs.table, jobs.order);
             && (|o| == max ==> k < |o|)
             && after == if |o| < max then JobTable(t, o + [id]) else JobTable(t - {o[k]}, o[k + 1..] + [id] + o[..k])
    ensures Grown(jobs, after, id) && |after.order| <= max
  {
    if |jobs.order| == max {
      GrownByRotation(jobs, id, FirstFinished(jobs.table, jobs.order));
    } else {
      GrownSameIds(jobs, id);
    }
  }

  lemma AddOne(w: multiset<Id>, id: Id)
    requires (forall x :: w[x] <= 1) && id !in w
    ensures forall x :: (w + multiset{id})[x] <= 1
    ensures forall x :: x in w + multiset{id} <==> x in w || x == id
  {}

  lemma RemoveOne(w: multiset<Id>, w': multiset<Id>, id: Id)
    requires (forall x :: w[x] <= 1) && w == w' + multiset{id}
    ensures forall x :: w'[x] <= 1
    ensures forall x :: x in w' <==> x in w && x != id
  {
    forall x ensures w'[x] <= 1 && (x in w' <==> x in w && x != id) {
      assert w[x] == w'[x] + if x == id then 1 else 0;
    }
  }

  lemma EnqueueStatuses(l: Limits, s: State, id: Id)
    requires Sound(l) && Inv(l, s) && HasRoom(l, s) && id !in s.issued
    ensures var s' := Apply(l, s, Enqueue(id));
            && (forall x :: HasStatus(s', x, Queued) <==> HasStatus(s, x, Queued) || x == id)
            && (forall x :: HasStatus(s', x, Proving) <==> HasStatus(s, x, Proving))
            && QueuedIds(s'.jobs.table) == QueuedIds(s.jobs.table) + {id}
            && !HasStatus(s, id, Queued)
  {
    EnqueueTable(l, s, id);
    assert id !in s.jobs.table;
  }

  lemma EnqueueInv(l: Limits, s: State, id: Id)
    requires Sound(l) && Inv(l, s) && id !in s.issued
    ensures Inv(l, Apply(l, s, Enqueue(id)))
  {
    if HasRoom(l, s) {
      EnqueueTable(l, s, id);
      EnqueueStatuses(l, s, id);
      var s' := Apply(l, s, Enqueue(id));
      assert Waiting(s') == Waiting(s) + multiset{id};
      AddOne(Waiting(s), id);
    }
  }

  lemma SendInv(l: Limits, s: State, i: nat)
    requires Inv(l, s) && i < |s.sending|
    ensures Inv(l, Apply(l, s, Send(i)))
  {
    var s' := Apply(l, s, Send(i));
    assert s.sending == s.sending[..i] + [s.sending[i]] + s.sending[i + 1..];
    if s.worker.Dead? {
      assert forall id :: Waiting(s')[id] <= Waiting(s)[id];
    } else {
      assert Waiting(s') == Waiting(s);
    }
    assert forall id, st :: HasStatus(s', id, st) == HasStatus(s, id, st);
  }

  lemma RecvInv(l: Limits, s: State)
    requires Inv(l, s) && Enabled(s, Recv)
    ensures Inv(l, Apply(l, s, Recv))
  {
    var s' := Apply(l, s, Recv);
    assert s.channel == [s.channel[0]] + s.channel[1..];
    assert Waiting(s') == Waiting(s);
    assert forall id, st :: HasStatus(s', id, st) == HasStatus(s, id, st);
  }

  lemma MarkStatuses(l: Limits, s: State)
    requires Inv(l, s) && s.worker.Received?
    ensures var s', id := Apply(l, s, Mark), s.worker.id;
            && HasStatus(s, id, Queued)
            && (forall x :: HasStatus(s', x, Queued) <==> HasStatus(s, x, Queued) && x != id)
            && (forall x :: HasStatus(s', x, Proving) <==> x == id)
            && QueuedIds(s'.jobs.table) == QueuedIds(s.jobs.table) - {id}
  {
    assert s.worker.id in Waiting(s) && HasStatus(s, s.worker.id, Queued);
    forall x ensures HasStatus(Apply(l, s, Mark), x, Proving) <==> x == s.worker.id {
      assert !HasStatus(s, x, Proving);
    }
  }

  lemma MarkInv(l: Limits, s: State)
    requires Inv(l, s) && s.worker.Received?
    ensures s.worker.id in s.jobs.table && Inv(l, Apply(l, s, Mark))
  {
    MarkStatuses(l, s);
    var s' := Apply(l, s, Mark);
    assert Waiting(s) == Waiting(s') + multiset{s.worker.id};
    RemoveOne(Waiting(s), Waiting(s'), s.worker.id);
  }

  lemma FinishStatuses(l: Limits, s: State, view: JobView)
    requires Inv(l, s) && Enabled(s, Finish(view))
    ensures var s', id := Apply(l, s, Finish(view)), s.worker.id;
            && HasStatus(s, id, Proving)
            && (forall x :: HasStatus(s', x, Queued) <==> HasStatus(s, x, Queued))
            && (forall x :: !HasStatus(s', x, Proving))
            && QueuedIds(s'.jobs.table) == QueuedIds(s.jobs.table)
  {
    assert HasStatus(s, s.worker.id, Proving);
    forall x ensures !HasStatus(Apply(l, s, Finish(view)), x, Proving) {
      assert HasStatus(s, x, Proving) ==> x == s.worker.id;
    }
  }

  lemma FinishInv(l: Limits, s: State, view: JobView)
    requires Inv(l, s) && Enabled(s, Finish(view))
    ensures s.worker.id in s.jobs.table && Inv(l, Apply(l, s, Finish(view)))
  {
    FinishStatuses(l, s, view);
    assert Waiting(s) == Waiting(Apply(l, s, Finish(view)));
  }

  lemma DieInv(l: Limits, s: State)
    requires Inv(l, s) && Enabled(s, Die)
    ensures Inv(l, Apply(l, s, Die))
  {
    var s' := Apply(l, s, Die);
    assert forall id :: Waiting(s')[id] <= Waiting(s)[id];
    assert forall id, st :: HasStatus(s', id, st) == HasStatus(s, id, st);
  }

  /** Table and deque agree, the limits hold, every waiting job is queued, and at most one job is being proved. */
  lemma StepKeepsInv(l: Limits, s: State, a: Action)
    requires Sound(l) && Inv(l, s) && Enabled(s, a)
    ensures Inv(l, Apply(l, s, a))
  {
    match a
    case Enqueue(id) => EnqueueInv(l, s, id);
    case Send(i) => SendInv(l, s, i);
    case Recv => RecvInv(l, s);
    case Mark => MarkInv(l, s);
    case Finish(view) => FinishInv(l, s, view);
    case Die => DieInv(l, s);
  }

  // ------------------------------------------------------------ the life of a job

  /** 0 unknown, 1 queued, 2 proving, 3 finished, 4 finished and evicted. */
  function Stage(s: State, id: Id): nat {
    if id in s.jobs.table then
      match s.jobs.table[id].status
      case Queued => 1
      case Proving => 2
      case _ => 3
    else if id in s.issued then 4 else 0
  }

  /** No step skips a stage or goes back, and a finished job's view never changes while it can be collected. */
  lemma StageStep(l: Limits, s: State, a: Action, id: Id)
    requires Sound(l) && Inv(l, s) && Enabled(s, a)
    ensures var s' := Apply(l, s, a);
            && Stage(s, id) <= Stage(s', id) <= Stage(s, id) + 1
            && (Stage(s, id) == Stage(s', id) == 3 ==> s'.jobs.table[id] == s.jobs.table[id])
  {
    match a
    case Enqueue(x) => if HasRoom(l, s) { EnqueueStage(l, s, x, id); }
    case Mark => MarkStatuses(l, s);
    case Finish(view) => FinishStatuses(l, s, view);
    case _ =>
  }

  lemma EnqueueStage(l: Limits, s: State, x: Id, id: Id)
    requires Sound(l) && Inv(l, s) && HasRoom(l, s) && x !in s.issued
    ensures var s' := Apply(l, s, Enqueue(x));
            && Stage(s, id) <= Stage(s', id) <= Stage(s, id) + 1
            && (Stage(s, id) == Stage(s', id) == 3 ==> s'.jobs.table[id] == s.jobs.table[id])
  {
    EnqueueTable(l, s, x);
    assert id in s.jobs.table ==> id in s.issued && id != x;
  }

  /**
    The worker never writes to a job that was evicted: its updates find their job at the stage before, and move it
    alone.
  */
  lemma UpdatesHitTheirJob(l: Limits, s: State, a: Action, id: Id)
    requires Sound(l) && Inv(l, s) && Enabled(s, a) && (a.Mark? || a.Finish?)
    ensures var s' := Apply(l, s, a);
            && s.worker.id in s'.jobs.table && s'.jobs.table.Keys == s.jobs.table.Keys && s'.jobs.order == s.jobs.order
            && Stage(s, s.worker.id) == (if a.Mark? then 1 else 2)
            && Stage(s', id) == Stage(s, id) + (if id == s.worker.id then 1 else 0)
            && (id in s.jobs.table && id != s.worker.id ==> s'.jobs.table[id] == s.jobs.table[id])
            && (a.Finish? ==> s'.jobs.table[s.worker.id] == a.view)
  {
    if a.Mark? { MarkStatuses(l, s); } else { FinishStatuses(l, s, a.view); }
  }

  // ------------------------------------------------------------ runs

  /** Every action is enabled when it is taken. */
  ghost predicate Runs(l: Limits, s: State, actions: seq<Action>)
    decreases |actions|
  {
    actions == [] || (Enabled(s, actions[0]) && Runs(l, Apply(l, s, actions[0]), actions[1..]))
  }

  ghost function After(l: Limits, s: State, actions: seq<Action>): State
    requires Runs(l, s, actions)
    decreases |actions|
  {
    if actions == [] then s else After(l, Apply(l, s, actions[0]), actions[1..])
  }

  lemma {:induction false} RunKeepsInv(l: Limits, s: State, actions: seq<Action>)
    requires Sound(l) && Inv(l, s) && Runs(l, s, actions)
    ensures Inv(l, After(l, s, actions))
    decreases |actions|
  {
    if actions != [] {
      StepKeepsInv(l, s, actions[0]);
      RunKeepsInv(l, Apply(l, s, actions[0]), actions[1..]);
    }
  }

  /** Over any run a job only moves forward, and what was finished reads the same until it is evicted. */
  lemma {:induction false} RunStages(l: Limits, s: State, actions: seq<Action>, id: Id)
    requires Sound(l) && Inv(l, s) && Runs(l, s, actions)
    ensures var s' := After(l, s, actions);
            && Stage(s, id) <= Stage(s', id)
            && (Stage(s, id) == Stage(s', id) == 3 ==> s'.jobs.table[id] == s.jobs.table[id])
    decreases |actions|
  {
    if actions != [] {
      StepKeepsInv(l, s, actions[0]);
      StageStep(l, s, actions[0], id);
      RunStages(l, Apply(l, s, actions[0]), actions[1..], id);
    }
  }

  /** In every reachable state: at most `queued` jobs wait, at most one is proved, at most `retained` are kept. */
  lemma ReachableStates(l: Limits, actions: seq<Action>)
    requires Sound(l) && Runs(l, Init, actions)
    ensures var s := After(l, Init, actions);
            && SameIds(s.jobs) && |s.jobs.table| == |s.jobs.order| <= l.retained
            && |QueuedIds(s.jobs.table)| <= l.queued && |ProvingIds(s.jobs.table)| <= 1
            && (s.worker.Received? ==> HasStatus(s, s.worker.id, Queued))
            && (s.worker.Busy? ==> ProvingIds(s.jobs.table) == {s.worker.id})
  {
    InitInv(l);
    RunKeepsInv(l, Init, actions);
    var s := After(l, Init, actions);
    var held := if Held(s.worker).Some? then {Held(s.worker).value} else {};
    assert ProvingIds(s.jobs.table) == held by {
      forall id ensures id in ProvingIds(s.jobs.table) <==> HasStatus(s, id, Proving) {}
    }
    OrderCount(s.jobs.order, s.jobs.table.Keys);
    assert s.worker.Received? ==> s.worker.id in Waiting(s);
  }

  lemma {:induction false} OrderCount(ids: seq<Id>, s: set<Id>)
    requires Distinct(ids) && forall id :: id in ids <==> id in s
    ensures |ids| == |s|
  {
    if ids == [] {
      assert s == {};
    } else {
      assert ids == [ids[0]] + ids[1..];
      OrderCount(ids[1..], s - {ids[0]});
    }
  }
}
