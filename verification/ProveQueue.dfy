/**
  The prove queue of prover/host/src/queue.rs: a table of jobs and a deque of their ids under one lock, a
  channel that jobs are sent on after the lock was released, and one worker that may die.
*/
module ProveQueue {
  import opened Wrappers

  type Id = string

  datatype JobStatus = Queued | Proving | Generated | Failed {
    predicate IsTerminal() { Generated? || Failed? }
  }

  datatype JobView = JobView(status: JobStatus, receiptB64: Option<string>, proveWallMs: Option<nat>,
                             error: Option<string>)

  const JUST_QUEUED := JobView(Queued, None, None, None)

  /** MAX_QUEUED and MAX_JOBS_RETAINED. */
  datatype Limits = Limits(queued: nat, retained: nat)

  datatype JobTable = JobTable(table: map<Id, JobView>, order: seq<Id>)

  predicate Distinct(ids: seq<Id>) {
    forall i, j :: 0 <= i < j < |ids| ==> ids[i] != ids[j]
  }

  // ------------------------------------------------------------ eviction

  /** What `evict` drops when it meets it: a finished job. */
  predicate Droppable(table: map<Id, JobView>, id: Id) {
    id in table ==> table[id].status.IsTerminal()
  }

  function Unfinished(table: map<Id, JobView>, ids: seq<Id>): seq<Id> {
    if ids == [] then []
    else if Droppable(table, ids[0]) then Unfinished(table, ids[1..])
    else [ids[0]] + Unfinished(table, ids[1..])
  }

  /** How far from the front finished jobs must be dropped for `excess` of them to go. */
  function Visits(table: map<Id, JobView>, ids: seq<Id>, excess: int): (n: nat)
    ensures n <= |ids|
  {
    if excess <= 0 || ids == [] then 0
    else 1 + Visits(table, ids[1..], if Droppable(table, ids[0]) then excess - 1 else excess)
  }

  /** After the first `k` were looked at: the finished ones are gone, the unfinished ones stand last. */
  function Scanned(jobs: JobTable, k: nat): (r: JobTable)
    requires k <= |jobs.order|
  {
    JobTable(map id | id in jobs.table && (id in jobs.order[..k] ==> !Droppable(jobs.table, id)) :: jobs.table[id],
             jobs.order[k..] + Unfinished(jobs.table, jobs.order[..k]))
  }

  function Evicted(max: nat, jobs: JobTable): JobTable {
    Scanned(jobs, Visits(jobs.table, jobs.order, |jobs.order| - max))
  }

  function Inserted(max: nat, jobs: JobTable, id: Id, view: JobView): JobTable {
    Evicted(max, JobTable(jobs.table[id := view], jobs.order + [id]))
  }

  function QueuedIds(table: map<Id, JobView>): set<Id> {
    set id | id in table && table[id].status == Queued
  }

  class Jobs {
    var table: map<Id, JobView>
    var order: seq<Id>

    constructor ()
      ensures Contents() == JobTable(map[], [])
    {
      table, order := map[], [];
    }

    ghost function Contents(): JobTable
      reads this
    {
      JobTable(table, order)
    }

    method Insert(max: nat, id: Id, view: JobView)
      requires Distinct(order) && id !in order
      modifies this
      ensures Contents() == Inserted(max, old(Contents()), id, view)
    {
      table := table[id := view];
      order := order + [id];
      Evict(max);
    }

    method Evict(max: nat)
      requires Distinct(order)
      modifies this
      ensures Contents() == Evicted(max, old(Contents()))
    {
      ghost var i, jobs := 0, Contents();
      ScanStart(max, jobs);
      var scanned := 0;
      while |order| > max && scanned < |order|
        invariant Scanning(max, jobs, i, Contents(), scanned)
        decreases |jobs.order| - i
      {
        ScanStep(max, jobs, i, Contents(), scanned);
        var id := order[0];
        order := order[1..];
        if id in table && table[id].status.IsTerminal() {
          table := table - {id};
        } else if id in table {
          order := order + [id];
          scanned := scanned + 1;
        }
        i := i + 1;
      }
      ScanEnd(max, jobs, i, Contents(), scanned);
    }

    function QueuedCount(): (n: nat)
      reads this
      ensures n == |QueuedIds(table)|
    {
      |set id | id in table && table[id].status == Queued|
    }

    /** What `enqueue` does under the lock: refuse the job, or insert it as queued. */
    method Accept(l: Limits, id: Id) returns (ok: bool)
      requires Distinct(order) && id !in order
      modifies this
      ensures ok <==> |QueuedIds(old(table))| < l.queued
      ensures Contents() == if ok then Inserted(l.retained, old(Contents()), id, JUST_QUEUED) else old(Contents())
    {
      ok := QueuedCount() < l.queued;
      if ok { Insert(l.retained, id, JUST_QUEUED); }
    }

    /** `update`: nothing happens when the job is not in the table. */
    method Update(id: Id, view: JobView)
      modifies this`table
      ensures Contents() == Updated(old(Contents()), id, view)
    {
      if id in table { table := table[id := view]; }
    }
  }

  function Updated(jobs: JobTable, id: Id, view: JobView): JobTable {
    if id in jobs.table then jobs.(table := jobs.table[id := view]) else jobs
  }

  lemma NotVisited(ids: seq<Id>, i: nat)
    requires Distinct(ids) && i < |ids|
    ensures ids[i] !in ids[..i]
    ensures forall id :: id in ids[..i + 1] <==> id in ids[..i] || id == ids[i]
  {
    assert ids[..i + 1] == ids[..i] + [ids[i]];
  }

  lemma {:induction false} UnfinishedAppend(table: map<Id, JobView>, a: seq<Id>, b: seq<Id>)
    ensures Unfinished(table, a + b) == Unfinished(table, a) + Unfinished(table, b)
  {
    if a == [] {
      assert a + b == b;
    } else {
      UnfinishedAppend(table, a[1..], b);
      assert (a + b)[0] == a[0] && (a + b)[1..] == a[1..] + b;
      var rest, more := Unfinished(table, a[1..]), Unfinished(table, b);
      assert [a[0]] + (rest + more) == [a[0]] + rest + more;
    }
  }

  lemma UnfinishedSnoc(table: map<Id, JobView>, ids: seq<Id>, i: nat)
    requires i < |ids|
    ensures Unfinished(table, ids[..i + 1]) == Unfinished(table, ids[..i]) + if Droppable(table, ids[i]) then []
            else [ids[i]]
  {
    assert ids[..i + 1] == ids[..i] + [ids[i]];
    UnfinishedAppend(table, ids[..i], [ids[i]]);
  }

  /** The loop of `evict` after `i` turns. */
  ghost predicate Scanning(max: nat, jobs: JobTable, i: nat, now: JobTable, scanned: nat) {
    && i <= |jobs.order| && Distinct(jobs.order)
    && now == Scanned(jobs, i) && scanned == |Unfinished(jobs.table, jobs.order[..i])|
    && i + Visits(jobs.table, jobs.order[i..], |now.order| - max) == Visits(jobs.table, jobs.order, |jobs.order| - max)
  }

  lemma ScanStart(max: nat, jobs: JobTable)
    requires Distinct(jobs.order)
    ensures Scanning(max, jobs, 0, jobs, 0)
  {
    assert jobs.order[0..] == jobs.order;
    assert Scanned(jobs, 0) == jobs;
  }

  /** The next turn's state: the first id is dropped or goes to the back. */
  function Turned(now: JobTable): JobTable
    requires now.order != []
  {
    if Droppable(now.table, now.order[0]) then JobTable(now.table - {now.order[0]}, now.order[1..])
    else JobTable(now.table, now.order[1..] + [now.order[0]])
  }

  lemma ScannedStep(jobs: JobTable, i: nat)
    requires Distinct(jobs.order) && i < |jobs.order|
    ensures Scanned(jobs, i).order != [] && Scanned(jobs, i).order[0] == jobs.order[i]
    ensures Droppable(Scanned(jobs, i).table, jobs.order[i]) == Droppable(jobs.table, jobs.order[i])
    ensures Scanned(jobs, i + 1) == Turned(Scanned(jobs, i))
  {
    UnfinishedSnoc(jobs.table, jobs.order, i);
    NotVisited(jobs.order, i);
    assert jobs.order[i..] == [jobs.order[i]] + jobs.order[i + 1..];
    var now, next, id := Scanned(jobs, i), Scanned(jobs, i + 1), jobs.order[i];
    assert now.order[1..] == jobs.order[i + 1..] + Unfinished(jobs.table, jobs.order[..i]);
    if Droppable(jobs.table, id) {
      assert next.table == now.table - {id};
    } else {
      assert next.table == now.table;
      assert next.order == now.order[1..] + [id];
    }
  }

  lemma ScanStep(max: nat, jobs: JobTable, i: nat, now: JobTable, scanned: nat)
    requires Scanning(max, jobs, i, now, scanned) && |now.order| > max && scanned < |now.order|
    ensures i < |jobs.order|
    ensures Scanning(max, jobs, i + 1, Turned(now), if Droppable(now.table, now.order[0]) then scanned else scanned + 1)
  {
    ScannedStep(jobs, i);
    UnfinishedSnoc(jobs.table, jobs.order, i);
    assert jobs.order[i..][0] == jobs.order[i] && jobs.order[i..][1..] == jobs.order[i + 1..];
  }

  lemma ScanEnd(max: nat, jobs: JobTable, i: nat, now: JobTable, scanned: nat)
    requires Scanning(max, jobs, i, now, scanned) && !(|now.order| > max && scanned < |now.order|)
    ensures now == Evicted(max, jobs)
  {}
}
