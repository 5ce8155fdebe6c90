/**
  The prove queue when jobs reach the channel in the order they were inserted, what is lost when they do not,
  and what is left of it once the worker has died.
*/
module ProveFifo {
  import opened ProveQueue
  import opened ProveRuns
  import opened Wrappers

  predicate InSendOrder(a: Action) {
    a.Send? ==> a.i == 0
  }

  /** The unfinished jobs of a living worker, the one in hand first. */
  function Live(s: State): seq<Id> {
    (if s.worker.Received? || s.worker.Busy? then [s.worker.id] else []) + s.channel + s.sending
  }

  function Newest(ids: seq<Id>, n: nat): seq<Id> {
    if |ids| <= n then ids else ids[|ids| - n..]
  }

  /** Exactly the first `k` jobs are finished. */
  ghost predicate FinishedBefore(jobs: JobTable, k: nat) {
    && k <= |jobs.order|
    && forall i :: 0 <= i < |jobs.order| ==> (Droppable(jobs.table, jobs.order[i]) <==> i < k)
  }

  /** The deque holds the newest accepted jobs, `k` finished ones and after them what the worker will still do. */
  ghost predicate Aligned(l: Limits, s: State, k: nat) {
    && s.jobs.order == Newest(s.issued, l.retained)
    && FinishedBefore(s.jobs, k)
    && (!s.worker.Dead? ==> s.jobs.order[k..] == Live(s))
  }

  ghost predicate FifoInv(l: Limits, s: State) {
    Inv(l, s) && exists k :: Aligned(l, s, k)
  }

  /** A full deque's first job is finished. */
  lemma FullStartsFinished(l: Limits, s: State, k: nat)
    requires Sound(l) && Inv(l, s) && FinishedBefore(s.jobs, k) && HasRoom(l, s) && |s.jobs.order| == l.retained
    ensures FirstFinished(s.jobs.table, s.jobs.order) == 0 < k
  {
    SomethingIsFinished(l, s);
  }

  lemma InsertAligned(l: Limits, s: State, k: nat, id: Id)
    requires Sound(l) && Inv(l, s) && Aligned(l, s, k) && HasRoom(l, s) && id !in s.issued
    ensures var jobs, o, t := Apply(l, s, Enqueue(id)).jobs, s.jobs.order, s.jobs.table[id := JUST_QUEUED];
            if |o| < l.retained then jobs == JobTable(t, o + [id])
            else
              && 0 < k && o[0] in s.jobs.table && s.jobs.table[o[0]].status.IsTerminal()
              && jobs == JobTable(t - {o[0]}, o[1..] + [id])
  {
    InsertResult(l, s, id);
    if |s.jobs.order| == l.retained {
      FullStartsFinished(l, s, k);
      assert s.jobs.order[0] in s.jobs.order;
      assert s.jobs.order[1..] + [id] + s.jobs.order[..0] == s.jobs.order[1..] + [id];
    }
  }

  /** Eviction never rotates: what goes is the job at the front, the oldest of all, and it is finished. */
  lemma EvictsTheOldest(l: Limits, s: State, id: Id)
    requires Sound(l) && FifoInv(l, s) && HasRoom(l, s) && id !in s.issued
    ensures var jobs, o, t := Apply(l, s, Enqueue(id)).jobs, s.jobs.order, s.jobs.table[id := JUST_QUEUED];
            if |o| < l.retained then jobs == JobTable(t, o + [id])
            else
              && o[0] in s.jobs.table && s.jobs.table[o[0]].status.IsTerminal()
              && jobs == JobTable(t - {o[0]}, o[1..] + [id])
  {
    var k :| Aligned(l, s, k);
    InsertAligned(l, s, k, id);
  }

  lemma NewestSnoc(ids: seq<Id>, n: nat, id: Id)
    requires n > 0
    ensures Newest(ids + [id], n) == (if |ids| < n then ids else Newest(ids, n)[1..]) + [id]
  {}

  /** Adding an unfinished job at the back keeps the split. */
  lemma SplitSnoc(jobs: JobTable, k: nat, id: Id)
    requires FinishedBefore(jobs, k) && SameIds(jobs) && id !in jobs.table
    ensures FinishedBefore(JobTable(jobs.table[id := JUST_QUEUED], jobs.order + [id]), k)
    ensures (jobs.order + [id])[k..] == jobs.order[k..] + [id]
  {
    assert forall i :: 0 <= i < |jobs.order| ==> jobs.order[i] in jobs.order;
  }

  /** So does dropping the finished job at the front. */
  lemma SplitTail(jobs: JobTable, k: nat)
    requires FinishedBefore(jobs, k) && SameIds(jobs) && 0 < k
    ensures FinishedBefore(JobTable(jobs.table - {jobs.order[0]}, jobs.order[1..]), k - 1)
    ensures jobs.order[1..][k - 1..] == jobs.order[k..]
  {}

  /** The table after an insertion: the job is added and, if there is one too many, the first one goes. */
  function Pushed(jobs: JobTable, id: Id, full: bool): JobTable
    requires full ==> jobs.order != []
  {
    if full then JobTable(jobs.table[id := JUST_QUEUED] - {jobs.order[0]}, jobs.order[1..] + [id])
    else JobTable(jobs.table[id := JUST_QUEUED], jobs.order + [id])
  }

  lemma PushedSplit(jobs: JobTable, k: nat, id: Id, full: bool)
    requires FinishedBefore(jobs, k) && SameIds(jobs) && id !in jobs.table && (full ==> 0 < k)
    ensures var k' := if full then k - 1 else k;
            FinishedBefore(Pushed(jobs, id, full), k') && Pushed(jobs, id, full).order[k'..] == jobs.order[k..] + [id]
  {
    SplitSnoc(jobs, k, id);
    if full {
      var grown := JobTable(jobs.table[id := JUST_QUEUED], jobs.order + [id]);
      GrownSameIds(jobs, id);
      SplitTail(grown, k);
      assert grown.order[1..] == jobs.order[1..] + [id] && grown.order[0] == jobs.order[0];
      assert JobTable(grown.table - {grown.order[0]}, grown.order[1..]) == Pushed(jobs, id, full);
    }
  }

  lemma EnqueueFifo(l: Limits, s: State, k: nat, id: Id) returns (k': nat)
    requires Sound(l) && Inv(l, s) && Aligned(l, s, k) && HasRoom(l, s) && id !in s.issued
    ensures Aligned(l, Apply(l, s, Enqueue(id)), k')
  {
    InsertAligned(l, s, k, id);
    var full := |s.jobs.order| == l.retained;
    assert id !in s.jobs.table;
    k' := if full then k - 1 else k;
    EnqueueAligned(l, s, k, id, Apply(l, s, Enqueue(id)));
  }

  lemma EnqueueAligned(l: Limits, s: State, k: nat, id: Id, s': State)
    requires Sound(l) && SameIds(s.jobs) && Aligned(l, s, k) && id !in s.jobs.table
    requires var full := |s.jobs.order| == l.retained; (full ==> 0 < k) && s'.jobs == Pushed(s.jobs, id, full)
    requires s'.issued == s.issued + [id] && s'.sending == s.sending + [id] && s'.channel == s.channel
             && s'.worker == s.worker
    ensures Aligned(l, s', if |s.jobs.order| == l.retained then k - 1 else k)
  {
    PushedSplit(s.jobs, k, id, |s.jobs.order| == l.retained);
    NewestSnoc(s.issued, l.retained, id);
    Regrouped(s, id);
  }

  lemma Regrouped(s: State, id: Id)
    ensures Live(s.(sending := s.sending + [id])) == Live(s) + [id]
  {}

  /** Finishing the first unfinished job moves the split by one. */
  lemma SplitAdvances(jobs: JobTable, k: nat, view: JobView)
    requires FinishedBefore(jobs, k) && k < |jobs.order| && SameIds(jobs) && view.status.IsTerminal()
    ensures FinishedBefore(Updated(jobs, jobs.order[k], view), k + 1)
  {
    assert forall i :: 0 <= i < |jobs.order| && i != k ==> jobs.order[i] != jobs.order[k];
    assert jobs.order[k] in jobs.order;
  }

  lemma InHand(s: State, k: nat)
    requires s.worker.Busy? && k <= |s.jobs.order| && s.jobs.order[k..] == Live(s)
    ensures k < |s.jobs.order| && s.jobs.order[k] == s.worker.id
    ensures s.jobs.order[k + 1..] == s.channel + s.sending
  {
    assert Live(s) == [s.worker.id] + (s.channel + s.sending);
    assert s.jobs.order[k..][0] == s.jobs.order[k] && s.jobs.order[k..][1..] == s.jobs.order[k + 1..];
  }

  lemma FinishLive(l: Limits, s: State, view: JobView)
    requires Enabled(s, Finish(view))
    ensures Live(Apply(l, s, Finish(view))) == s.channel + s.sending
  {
    assert [] + s.channel == s.channel;
  }

  lemma FinishFifo(l: Limits, s: State, k: nat, view: JobView)
    requires SameIds(s.jobs) && Aligned(l, s, k) && Enabled(s, Finish(view))
    ensures k < |s.jobs.order| && s.jobs.order[k] == s.worker.id && s.jobs.order[k + 1..] == s.channel + s.sending
    ensures Aligned(l, Apply(l, s, Finish(view)), k + 1)
  {
    InHand(s, k);
    SplitAdvances(s.jobs, k, view);
    FinishLive(l, s, view);
    FinishAligned(l, s, k, Apply(l, s, Finish(view)));
  }

  lemma FinishAligned(l: Limits, s: State, k: nat, s': State)
    requires s.jobs.order == Newest(s.issued, l.retained)
    requires s'.issued == s.issued && s'.jobs.order == s.jobs.order && FinishedBefore(s'.jobs, k + 1)
    requires s'.jobs.order[k + 1..] == Live(s')
    ensures Aligned(l, s', k + 1)
  {}

  /** Marking a queued job leaves the split where it is. */
  lemma SplitStays(jobs: JobTable, k: nat, id: Id, view: JobView)
    requires FinishedBefore(jobs, k) && id in jobs.table && !Droppable(jobs.table, id) && !view.status.IsTerminal()
    ensures FinishedBefore(Updated(jobs, id, view), k)
  {}

  lemma FifoStep(l: Limits, s: State, k: nat, a: Action) returns (k': nat)
    requires Sound(l) && Inv(l, s) && Aligned(l, s, k) && Enabled(s, a) && InSendOrder(a)
    ensures Aligned(l, Apply(l, s, a), k')
  {
    k' := k;
    match a
    case Enqueue(id) => if HasRoom(l, s) { k' := EnqueueFifo(l, s, k, id); }
    case Send(_) =>
      SentInOrder(l, s);
    case Recv =>
      ReceivedInOrder(l, s);
    case Mark =>
      MarkStatuses(l, s);
      MarkFifo(l, s, k);
    case Finish(view) =>
      FinishFifo(l, s, k, view);
      k' := k + 1;
    case Die =>
  }

  lemma SentInOrder(l: Limits, s: State)
    requires s.sending != []
    ensures !s.worker.Dead? ==> Live(Apply(l, s, Send(0))) == Live(s)
  {
    assert s.sending == [s.sending[0]] + s.sending[1..];
    assert s.sending[..0] + s.sending[1..] == s.sending[1..];
  }

  lemma ReceivedInOrder(l: Limits, s: State)
    requires Enabled(s, Recv)
    ensures Live(Apply(l, s, Recv)) == Live(s)
  {
    assert s.channel == [s.channel[0]] + s.channel[1..];
  }

  lemma MarkFifo(l: Limits, s: State, k: nat)
    requires s.worker.Received? && HasStatus(s, s.worker.id, Queued) && Aligned(l, s, k)
    ensures Aligned(l, Apply(l, s, Mark), k)
  {
    SplitStays(s.jobs, k, s.worker.id, JobView(Proving, None, None, None));
    assert Live(Apply(l, s, Mark)) == Live(s);
  }

  lemma FifoInvStep(l: Limits, s: State, a: Action)
    requires Sound(l) && FifoInv(l, s) && Enabled(s, a) && InSendOrder(a)
    ensures FifoInv(l, Apply(l, s, a)) && s.issued <= Apply(l, s, a).issued
  {
    var k :| Aligned(l, s, k);
    var k' := FifoStep(l, s, k, a);
    StepKeepsInv(l, s, a);
  }

  /** Sent in order, the deque always holds the newest accepted jobs, the finished before the unfinished. */
  lemma {:induction false} FifoRuns(l: Limits, s: State, actions: seq<Action>)
    requires Sound(l) && FifoInv(l, s) && Runs(l, s, actions)
             && forall i :: 0 <= i < |actions| ==> InSendOrder(actions[i])
    ensures FifoInv(l, After(l, s, actions)) && s.issued <= After(l, s, actions).issued
    decreases |actions|
  {
    if actions != [] {
      FifoInvStep(l, s, actions[0]);
      FifoRuns(l, Apply(l, s, actions[0]), actions[1..]);
    }
  }

  lemma InitFifo(l: Limits)
    ensures FifoInv(l, Init)
  {
    InitInv(l);
    assert Aligned(l, Init, 0);
  }

  /** At most the queued jobs were accepted after the one that just finished. */
  lemma YoungerThanFinished(l: Limits, s: State, k: nat)
    requires Inv(l, s) && k < |s.jobs.order| && s.jobs.order[k + 1..] == s.channel + s.sending
    ensures |s.jobs.order| - 1 - k <= l.queued
  {
    var younger := s.jobs.order[k + 1..];
    forall id | id in younger ensures id in QueuedIds(s.jobs.table) {
      assert id in Waiting(s) && HasStatus(s, id, Queued);
    }
    assert Distinct(younger);
    DistinctCount(younger, QueuedIds(s.jobs.table));
  }

  lemma NewestPosition(l: Limits, s: State, k: nat)
    requires s.jobs.order == Newest(s.issued, l.retained) && k < |s.jobs.order|
    ensures s.issued[|s.issued| - |s.jobs.order| + k] == s.jobs.order[k]
  {}

  lemma NewestAreKept(l: Limits, s: State, n: nat)
    requires SameIds(s.jobs) && s.jobs.order == Newest(s.issued, l.retained)
    requires |s.issued| - l.retained <= n < |s.issued|
    ensures s.issued[n] in s.jobs.table
  {
    InNewest(s.issued, l.retained, n);
  }

  lemma FifoFacts(l: Limits, s: State)
    requires FifoInv(l, s)
    ensures SameIds(s.jobs) && s.jobs.order == Newest(s.issued, l.retained)
  {}

  /** A job accepted as the `n`-th is kept until `retained` further jobs were accepted. */
  lemma KeptWhileNew(l: Limits, s: State, n: nat, actions: seq<Action>)
    requires Sound(l) && FifoInv(l, s) && n < |s.issued|
    requires Runs(l, s, actions) && forall i :: 0 <= i < |actions| ==> InSendOrder(actions[i])
    requires |After(l, s, actions).issued| - l.retained <= n
    ensures s.issued[n] in After(l, s, actions).jobs.table
  {
    var end := After(l, s, actions);
    FifoRuns(l, s, actions);
    FifoFacts(l, end);
    NewestAreKept(l, end, n);
  }

  lemma KeptUnchanged(l: Limits, s: State, n: nat, actions: seq<Action>)
    requires Sound(l) && FifoInv(l, s) && n < |s.issued| && s.issued[n] in s.jobs.table
    requires s.jobs.table[s.issued[n]].status.IsTerminal()
    requires Runs(l, s, actions) && forall i :: 0 <= i < |actions| ==> InSendOrder(actions[i])
    requires |After(l, s, actions).issued| - l.retained <= n
    ensures var end := After(l, s, actions);
            s.issued[n] in end.jobs.table && end.jobs.table[s.issued[n]] == s.jobs.table[s.issued[n]]
  {
    KeptWhileNew(l, s, n, actions);
    RunStages(l, s, actions, s.issued[n]);
  }

  lemma FinishedView(l: Limits, s: State, view: JobView)
    requires Inv(l, s) && Enabled(s, Finish(view))
    ensures var done := Apply(l, s, Finish(view));
            done.issued == s.issued && s.worker.id in done.jobs.table && done.jobs.table[s.worker.id] == view
  {
    FinishStatuses(l, s, view);
  }

  /** The job that finishes, and how far it is from the youngest. */
  lemma FinishedPosition(l: Limits, s: State, view: JobView) returns (n: nat)
    requires Sound(l) && FifoInv(l, s) && Enabled(s, Finish(view))
    ensures n < |s.issued| && s.issued[n] == s.worker.id && |s.issued| - 1 - n <= l.queued
  {
    var k :| Aligned(l, s, k);
    InHand(s, k);
    YoungerThanFinished(l, s, k);
    NewestPosition(l, s, k);
    n := |s.issued| - |s.jobs.order| + k;
  }

  /** A job that finishes can be collected until at least `retained - queued - 1` more jobs were accepted. */
  lemma StaysCollectable(l: Limits, s: State, view: JobView, actions: seq<Action>)
    requires Sound(l) && FifoInv(l, s) && Enabled(s, Finish(view))
    requires Runs(l, Apply(l, s, Finish(view)), actions) && forall i :: 0 <= i < |actions| ==> InSendOrder(actions[i])
    requires |After(l, Apply(l, s, Finish(view)), actions).issued| - |s.issued| <= l.retained - l.queued - 1
    ensures var end := After(l, Apply(l, s, Finish(view)), actions);
            s.worker.id in end.jobs.table && end.jobs.table[s.worker.id] == view
  {
    var n := FinishedPosition(l, s, view);
    FifoInvStep(l, s, Finish(view));
    FinishedView(l, s, view);
    KeptUnchanged(l, Apply(l, s, Finish(view)), n, actions);
  }

  lemma InNewest(ids: seq<Id>, n: nat, i: nat)
    requires |ids| - n <= i < |ids|
    ensures ids[i] in Newest(ids, n)
  {
    if |ids| > n { assert ids[i] == ids[|ids| - n..][i - (|ids| - n)]; }
  }
}
