/** The worker as it runs: the statements of `requeue_stale`, `claim_jobs`, `_execute_job` and one `tick`, on
    a table of rows. Each is shown to be the protocol step it stands for. */
module JobWorker {
  import opened Options
  import opened Sums
  import opened JobQueue
  import opened JobClaims

  /** A claimed job as the worker holds it. */
  datatype Job = Job(id: int, attempts: int, maxAttempts: int)

  datatype Outcome = NoHandler | Returns | Throws(error: string)

  /** How one claimed job will go, and when its statements run. */
  datatype Fate = Fate(outcome: Outcome, beginAt: int, settleAt: int)

  /** The protocol steps of one execution. */
  function Steps(e: int, fate: Fate): seq<Step> {
    match fate.outcome
    case NoHandler => []
    case Returns => [Begin(e, fate.beginAt), Complete(e, fate.settleAt)]
    case Throws(error) => [Begin(e, fate.beginAt), Fail(e, fate.settleAt, error)]
  }

  lemma RunOne(q: Queue, step: Step)
    ensures Run(q, [step]) == JobQueue.Next(q, step)
  {
  }

  lemma {:induction false} RunConcat(q: Queue, a: seq<Step>, b: seq<Step>)
    ensures Run(q, a + b) == Run(Run(q, a), b)
    decreases |b|
  {
    if b == [] {
      assert a + b == a;
    } else {
      assert (a + b)[..|a + b| - 1] == a + b[..|b| - 1];
      RunConcat(q, a, b[..|b| - 1]);
    }
  }

  /** The next row of a batch is still as the SELECT found it. */
  lemma MarkNext(q: Queue, ids: seq<int>, i: nat, worker: int, now: int)
    requires i < |ids| && Distinct(ids) && forall j :: j in ids ==> JobRow(q.rows, j) && Due(q.rows[j], now)
    ensures var part := ClaimAll(q, ids[..i], worker, now);
            && JobRow(part.rows, ids[i]) && JobRow(q.rows, ids[i])
            && part.rows[ids[i]] == q.rows[ids[i]] && Due(q.rows[ids[i]], now)
            && ClaimAll(q, ids[..i + 1], worker, now) == ClaimOne(part, ids[i], worker, now)
  {
    assert ids[..i + 1][..i] == ids[..i] && ids[i] in ids && ids[i] !in ids[..i];
    assert forall j :: j in ids[..i] ==> j in ids;
    ClaimAllEffect(q, ids[..i], worker, now);
  }

  class Worker {
    var rows: seq<Row>
    /** Executions handed out so far, by any worker. */
    ghost var execs: seq<Exec>

    ghost function View(): Queue
      reads this
    {
      Queue(rows, execs)
    }

    method EnqueueJob(priority: int, maxAttempts: int, delay: int, now: int) returns (id: int)
      modifies this
      ensures View() == JobQueue.Next(old(View()), Enqueue(priority, maxAttempts, delay, now)) && id == |old(rows)|
    {
      id := |rows|;
      rows := rows + [NewRow(priority, maxAttempts, delay, now)];
    }

    method RequeueStale(now: int) returns (count: nat)
      modifies this`rows
      ensures View() == JobQueue.Next(old(View()), Stale(now))
      ensures count == Sum(old(rows), (r: Row) => if IsStale(r, now) then 1 else 0)
    {
      count := 0;
      var i := 0;
      ghost var before := rows;
      while i < |rows|
        invariant 0 <= i <= |rows| == |before|
        invariant forall j :: 0 <= j < |rows| ==> rows[j] == if j < i then RequeueRow(before[j], now) else before[j]
        invariant count == Sum(before[..i], (r: Row) => if IsStale(r, now) then 1 else 0)
      {
        var r := rows[i];
        if r.status == Running && r.startedAt.Some? && r.startedAt.value < now - STALE_SECONDS {
          var dead := r.attempts + 1 >= r.maxAttempts;
          rows := rows[i := r.(status := if dead then Dead else Pending, attempts := r.attempts + 1, nextRun := now,
                               lockedBy := None, lockedAt := None,
                               error := if dead then Some(STALE_ERROR) else r.error,
                               completedAt := if dead then Some(now) else r.completedAt)];
          count := count + 1;
        }
        assert before[..i + 1] == before[..i] + [before[i]];
        SumAppend(before[..i], before[i], (r: Row) => if IsStale(r, now) then 1 else 0);
        i := i + 1;
      }
      assert before[..i] == before;
      assert rows == RequeueAll(before, now);
    }

    /** The best eligible row outside `batch`, if any. */
    method PickNext(batch: seq<int>, now: int) returns (best: Option<int>)
      ensures best.Some? ==> Eligible(rows, {}, best.value, now) && best.value !in batch
      ensures forall d :: Eligible(rows, {}, d, now) && d !in batch ==>
                best.Some? && !Before(rows[d], rows[best.value]) && NotAfter(rows[best.value], rows[d])
    {
      best := None;
      var i := 0;
      while i < |rows|
        invariant 0 <= i <= |rows|
        invariant best.Some? ==> Eligible(rows, {}, best.value, now) && best.value !in batch
        invariant forall d :: 0 <= d < i && Eligible(rows, {}, d, now) && d !in batch ==>
                    best.Some? && !Before(rows[d], rows[best.value])
      {
        if rows[i].status == Pending && rows[i].nextRun <= now && i !in batch {
          if best.None? || Before(rows[i], rows[best.value]) {
            best := Some(i);
          }
        }
        i := i + 1;
      }
    }

    method SelectDue(size: nat, now: int) returns (batch: seq<int>)
      ensures IsBatch(rows, {}, batch, size, now)
      ensures forall i, k :: 0 <= i < k < |batch| ==> JobRow(rows, batch[i]) && JobRow(rows, batch[k]) && NotAfter(rows[batch[i]], rows[batch[k]])
    {
      batch := [];
      var more := true;
      while more && |batch| < size
        invariant |batch| <= size && Distinct(batch)
        invariant forall j :: j in batch ==> Eligible(rows, {}, j, now)
        invariant forall i, k :: 0 <= i < k < |batch| && JobRow(rows, batch[i]) && JobRow(rows, batch[k]) ==>
                    !Before(rows[batch[k]], rows[batch[i]])
        invariant forall d, j :: j in batch && d !in batch && Eligible(rows, {}, d, now) ==> !Before(rows[d], rows[j])
        invariant !more ==> forall d :: Eligible(rows, {}, d, now) ==> d in batch
        decreases more, size - |batch|
      {
        var best := PickNext(batch, now);
        if best.Some? {
          assert forall i :: 0 <= i < |batch| ==> batch[i] in batch;
          batch := batch + [best.value];
        } else {
          more := false;
        }
      }
      BatchOrder(rows, batch, size, now);
    }

    /** The UPDATE of a claim. */
    method MarkRunning(ids: seq<int>, worker: int, now: int)
      requires Distinct(ids) && forall j :: j in ids ==> JobRow(rows, j) && Due(rows[j], now)
      modifies this
      ensures View() == ClaimAll(old(View()), ids, worker, now)
    {
      ghost var before := View();
      for i := 0 to |ids|
        invariant View() == ClaimAll(before, ids[..i], worker, now)
      {
        MarkNext(before, ids, i, worker, now);
        var r := rows[ids[i]];
        execs := execs + [Exec(ids[i], r.attempts, r.maxAttempts, Claimed)];
        rows := rows[ids[i] := r.(status := Running, lockedBy := Some(worker), lockedAt := Some(now), startedAt := Some(now))];
      }
      assert ids[..|ids|] == ids;
    }

    method ClaimJobs(size: nat, worker: int, now: int) returns (jobs: seq<Job>)
      modifies this
      ensures IsBatch(old(rows), {}, Ids(jobs), size, now)
      ensures View() == JobQueue.Next(old(View()), Claim(Ids(jobs), worker, now))
      ensures |execs| == |old(execs)| + |jobs| && |rows| == |old(rows)|
      ensures forall i :: 0 <= i < |jobs| ==>
                JobRow(rows, jobs[i].id) &&
                execs[|old(execs)| + i] == Exec(jobs[i].id, jobs[i].attempts, jobs[i].maxAttempts, Claimed)
    {
      var ids := SelectDue(size, now);
      assert forall i :: 0 <= i < |ids| ==> ids[i] in ids;
      jobs := CopyJobs(rows, ids);
      assert Ids(jobs) == ids;
      ClaimAllEffect(View(), ids, worker, now);
      MarkRunning(ids, worker, now);
    }

    /** One execution, its statements uninterrupted; `e` is its place among the executions. */
    method ExecuteJob(job: Job, fate: Fate, ghost e: int)
      requires 0 <= e < |execs| && execs[e] == Exec(job.id, job.attempts, job.maxAttempts, Claimed) && JobRow(rows, job.id)
      modifies this
      ensures View() == Run(old(View()), Steps(e, fate))
      ensures |execs| == |old(execs)| && |rows| == |old(rows)|
      ensures forall d :: 0 <= d < |execs| && d != e ==> execs[d] == old(execs)[d]
    {
      if fate.outcome.NoHandler? {
        return;
      }
      ghost var before := View();
      if rows[job.id].status == Pending {
        rows := rows[job.id := rows[job.id].(status := Running, startedAt := Some(fate.beginAt))];
      }
      execs := execs[e := execs[e].(phase := Begun)];
      RunOne(before, Begin(e, fate.beginAt));
      assert View() == Run(before, [Begin(e, fate.beginAt)]) by {
        assert before.rows[job.id := before.rows[job.id]] == before.rows;
      }
      ghost var begun := View();
      if rows[job.id].status == Running {
        if fate.outcome.Returns? {
          rows := rows[job.id := rows[job.id].(status := Completed, completedAt := Some(fate.settleAt))];
        } else if job.attempts + 1 >= job.maxAttempts {
          rows := rows[job.id := rows[job.id].(status := Dead, completedAt := Some(fate.settleAt), error := Some(fate.outcome.error))];
        } else {
          rows := rows[job.id := rows[job.id].(status := Pending, attempts := rows[job.id].attempts + 1,
                                              nextRun := fate.settleAt + 60 * (rows[job.id].attempts + 1))];
        }
      }
      execs := execs[e := execs[e].(phase := Settled)];
      assert begun.rows[job.id := begun.rows[job.id]] == begun.rows;
      ghost var last := if fate.outcome.Returns? then Complete(e, fate.settleAt) else Fail(e, fate.settleAt, fate.outcome.error);
      assert View() == JobQueue.Next(begun, last);
      assert Steps(e, fate)[..1] == [Begin(e, fate.beginAt)];
    }

    /** One poll cycle is a run of the protocol: stale requeue, claim of a due prefix, then every claimed job. */
    method Tick(size: nat, worker: int, requeueAt: int, claimAt: int, fates: int -> Fate)
      returns (executed: nat, ghost trace: seq<Step>)
      modifies this
      ensures View() == Run(old(View()), trace)
      ensures |trace| >= 2 && trace[0] == Stale(requeueAt) && trace[1].Claim?
      ensures executed == |trace[1].batch| <= size
      ensures IsBatch(RequeueAll(old(rows), requeueAt), {}, trace[1].batch, size, claimAt)
    {
      ghost var q0 := View();
      var _ := RequeueStale(requeueAt);
      ghost var q1 := View();
      ghost var base := |execs|;
      var jobs := ClaimJobs(size, worker, claimAt);
      ghost var claim := Claim(Ids(jobs), worker, claimAt);
      trace := [Stale(requeueAt), claim];
      RunOne(q0, Stale(requeueAt));
      RunOne(q1, claim);
      RunConcat(q0, [Stale(requeueAt)], [claim]);
      assert trace == [Stale(requeueAt)] + [claim];
      var i := 0;
      while i < |jobs|
        invariant 0 <= i <= |jobs| && |execs| == base + |jobs| && |rows| == |q0.rows|
        invariant View() == Run(q0, trace)
        invariant |trace| >= 2 && trace[0] == Stale(requeueAt) && trace[1] == claim
        invariant forall k :: i <= k < |jobs| ==>
                    execs[base + k] == Exec(jobs[k].id, jobs[k].attempts, jobs[k].maxAttempts, Claimed) && JobRow(rows, jobs[k].id)
      {
        ghost var q := View();
        ghost var steps := Steps(base + i, fates(jobs[i].id));
        ExecuteJob(jobs[i], fates(jobs[i].id), base + i);
        RunConcat(q0, trace, steps);
        trace := trace + steps;
        i := i + 1;
      }
      executed := |jobs|;
    }
  }

  function Ids(jobs: seq<Job>): seq<int> {
    seq(|jobs|, i requires 0 <= i < |jobs| => jobs[i].id)
  }

  function CopyJobs(rows: seq<Row>, ids: seq<int>): seq<Job>
    requires forall i :: 0 <= i < |ids| ==> JobRow(rows, ids[i])
  {
    seq(|ids|, i requires 0 <= i < |ids| => CopyJob(rows, ids[i]))
  }

  function CopyJob(rows: seq<Row>, j: int): Job
    requires JobRow(rows, j)
  {
    Job(j, rows[j].attempts, rows[j].maxAttempts)
  }
}
