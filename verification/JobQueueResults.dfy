/** Settled rows stay settled, every claim beyond the nominal limit is owed to a stale requeue, and the general
    bound is reached. */
module JobQueueResults {
  import opened Options
  import opened JobQueue
  import opened JobQueueBounds

  const START := Queue([], [])

  // ---- completed and dead rows ----

  predicate Final(r: Row) {
    r.status == Completed || r.status == Dead
  }

  lemma {:induction false} ClaimAllLeaves(q: Queue, batch: seq<int>, worker: int, now: int, j: int)
    requires JobRow(q.rows, j) && Final(q.rows[j])
    ensures JobRow(ClaimAll(q, batch, worker, now).rows, j) && ClaimAll(q, batch, worker, now).rows[j] == q.rows[j]
  {
    if batch != [] {
      ClaimAllLeaves(q, batch[..|batch| - 1], worker, now, j);
    }
  }

  /** Once completed or dead, a row never changes again. */
  lemma {:induction false} FinalRowsStay(q: Queue, steps: seq<Step>, j: int)
    requires JobRow(q.rows, j) && Final(q.rows[j])
    ensures JobRow(Run(q, steps).rows, j) && Run(q, steps).rows[j] == q.rows[j]
  {
    if steps != [] {
      var n := |steps| - 1;
      FinalRowsStay(q, steps[..n], j);
      if steps[n].Claim? {
        ClaimAllLeaves(Run(q, steps[..n]), steps[n].batch, steps[n].worker, steps[n].now, j);
      }
    }
  }

  // ---- what a stale requeue costs ----

  /** The step puts the stale row of `j` back to pending. */
  predicate Requeues(q: Queue, step: Step, j: int) {
    step.Stale? && JobRow(q.rows, j) && IsStale(q.rows[j], step.now) && RequeueRow(q.rows[j], step.now).status == Pending
  }

  function RequeueCount(steps: seq<Step>, j: int): nat {
    if steps == [] then 0
    else
      var n := |steps| - 1;
      RequeueCount(steps[..n], j) + if Requeues(Run(START, steps[..n]), steps[n], j) then 1 else 0
  }

  /** The attempts of a row come from settled retries and from `requeued` stale requeues, and so do its claims. */
  ghost predicate Charged(r: Row, claims: int, spent: int, requeued: int) {
    && r.attempts <= spent + requeued + (if r.status == Dead then 1 else 0)
    && claims <= spent + requeued + 1
  }

  ghost predicate JobCharged(q: Queue, j: int, requeued: int) {
    if JobRow(q.rows, j) then Charged(q.rows[j], |Snapshots(q.execs, j)|, Spent(q.execs, j), requeued)
    else requeued == 0
  }

  lemma ClaimCharged(q: Queue, i: int, worker: int, now: int, j: int, requeued: int)
    requires Valid(q) && JobCharged(q, j, requeued)
    ensures JobCharged(ClaimOne(q, i, worker, now), j, requeued)
  {
    if JobRow(q.rows, i) && Due(q.rows[i], now) && JobRow(q.rows, j) {
      ExecsAppend(q.execs, Exec(i, q.rows[i].attempts, q.rows[i].maxAttempts, Claimed), j);
      if i == j {
        assert JobOk(q, j);
        BelowBound(Snapshots(q.execs, j), q.rows[j].attempts);
      }
    }
  }

  lemma {:induction false} ClaimsCharged(q: Queue, batch: seq<int>, worker: int, now: int, j: int, requeued: int)
    requires Valid(q) && JobCharged(q, j, requeued)
    ensures JobCharged(ClaimAll(q, batch, worker, now), j, requeued)
  {
    if batch != [] {
      ClaimsCharged(q, batch[..|batch| - 1], worker, now, j, requeued);
      ClaimAllKeeps(q, batch[..|batch| - 1], worker, now);
      ClaimCharged(ClaimAll(q, batch[..|batch| - 1], worker, now), batch[|batch| - 1], worker, now, j, requeued);
    }
  }

  lemma SettleCharged(q: Queue, e: int, phase: Phase, row: Row, j: int, requeued: int)
    requires Valid(q) && JobCharged(q, j, requeued) && 0 <= e < |q.execs| && q.execs[e].phase != Settled
    requires var r := q.rows[q.execs[e].job];
             if row.attempts == r.attempts then r.status == Dead ==> row.status == Dead
             else row.attempts == r.attempts + 1 && r.status == Running && phase == Settled
                  && q.execs[e].snapshot + 1 < q.execs[e].limit
    ensures JobCharged(Settle(q, e, phase, row), j, requeued)
  {
    PhaseKeepsSnapshots(q.execs, e, phase, j);
    PhaseSpends(q.execs, e, phase, j);
  }

  lemma StepCharged(q: Queue, step: Step, j: int, requeued: int)
    requires Valid(q) && JobCharged(q, j, requeued)
    ensures JobCharged(Next(q, step), j, requeued + if Requeues(q, step, j) then 1 else 0)
  {
    match step
    case Enqueue(_, _, _, _) =>
      if j == |q.rows| {
        NoClaims(q.execs, j);
      }
    case Stale(now) =>
    case Claim(batch, worker, now) => ClaimsCharged(q, batch, worker, now, j, requeued);
    case Begin(e, now) =>
      if InPhase(q, e, Claimed) {
        SettleCharged(q, e, Begun, BeginRow(q.rows[q.execs[e].job], now), j, requeued);
      }
    case Complete(e, now) =>
      if InPhase(q, e, Begun) {
        SettleCharged(q, e, Settled, CompleteRow(q.rows[q.execs[e].job], now), j, requeued);
      }
    case Fail(e, now, error) =>
      if InPhase(q, e, Begun) {
        SettleCharged(q, e, Settled, FailRow(q.rows[q.execs[e].job], q.execs[e], now, error), j, requeued);
      }
  }

  lemma {:induction false} RunCharged(steps: seq<Step>, j: int)
    ensures Valid(Run(START, steps)) && JobCharged(Run(START, steps), j, RequeueCount(steps, j))
  {
    RunKeeps(START, steps);
    if steps != [] {
      var n := |steps| - 1;
      RunCharged(steps[..n], j);
      StepCharged(Run(START, steps[..n]), steps[n], j, RequeueCount(steps[..n], j));
    }
  }

  /** Over every interleaving a job is claimed at most max(max_attempts, 1) times, plus once for every stale
      requeue that put it back. */
  lemma ClaimsByRequeues(steps: seq<Step>, j: int)
    requires JobRow(Run(START, steps).rows, j)
    ensures var q := Run(START, steps);
            var m := q.rows[j].maxAttempts;
            |Snapshots(q.execs, j)| <= (if m >= 1 then m else 1) + RequeueCount(steps, j)
  {
    var q := Run(START, steps);
    RunCharged(steps, j);
    assert JobOk(q, j);
    AttemptsBound(q, j);
  }

  lemma {:induction false} ClaimAllAttempts(q: Queue, batch: seq<int>, worker: int, now: int, j: int)
    ensures var after := ClaimAll(q, batch, worker, now);
            && |after.rows| == |q.rows|
            && (JobRow(q.rows, j) ==> after.rows[j].attempts == q.rows[j].attempts
                                      && after.rows[j].maxAttempts == q.rows[j].maxAttempts)
  {
    if batch != [] {
      ClaimAllAttempts(q, batch[..|batch| - 1], worker, now, j);
    }
  }

  /** A job is put back to pending fewer than max_attempts times. */
  lemma {:induction false} RequeuesBounded(steps: seq<Step>, j: int)
    ensures var q := Run(START, steps);
            if JobRow(q.rows, j) then RequeueCount(steps, j) <= q.rows[j].attempts && RequeueCount(steps, j) <= Retries(q.rows[j])
            else RequeueCount(steps, j) == 0
  {
    if steps != [] {
      var n := |steps| - 1;
      RequeuesBounded(steps[..n], j);
      if steps[n].Claim? {
        ClaimAllAttempts(Run(START, steps[..n]), steps[n].batch, steps[n].worker, steps[n].now, j);
      }
    }
  }

  /** The nominal limit: a job that no requeue found stale is claimed at most max(max_attempts, 1) times,
      however often stale requeues were run. */
  lemma NominalLimit(steps: seq<Step>, j: int)
    requires JobRow(Run(START, steps).rows, j)
    requires forall n :: 0 <= n < |steps| && steps[n].Stale? && JobRow(Run(START, steps[..n]).rows, j) ==>
               !IsStale(Run(START, steps[..n]).rows[j], steps[n].now)
    ensures var q := Run(START, steps);
            |Snapshots(q.execs, j)| <= if q.rows[j].maxAttempts >= 1 then q.rows[j].maxAttempts else 1
  {
    ClaimsByRequeues(steps, j);
    NeverStale(steps, j);
  }

  lemma {:induction false} NeverStale(steps: seq<Step>, j: int)
    requires forall n :: 0 <= n < |steps| && steps[n].Stale? && JobRow(Run(START, steps[..n]).rows, j) ==>
               !IsStale(Run(START, steps[..n]).rows[j], steps[n].now)
    ensures RequeueCount(steps, j) == 0
  {
    if steps != [] {
      var front := steps[..|steps| - 1];
      assert forall n :: 0 <= n < |front| ==> front[..n] == steps[..n] && front[n] == steps[n];
      NeverStale(front, j);
    }
  }

  predicate InHand(q: Queue, e: int, j: int) {
    0 <= e < |q.execs| && q.execs[e].job == j && q.execs[e].phase != Settled
  }

  /** One worker at a time on `j`: it runs the row and its snapshot is current. */
  ghost predicate OneHand(q: Queue, j: int) {
    && (forall e :: InHand(q, e, j) ==>
          JobRow(q.rows, j) && q.rows[j].status == Running && q.execs[e].snapshot == q.rows[j].attempts)
    && (forall e, d :: InHand(q, e, j) && InHand(q, d, j) ==> e == d)
    && (JobRow(q.rows, j) ==> 0 <= q.rows[j].attempts <= Retries(q.rows[j]))
  }

  lemma ClaimOneHand(q: Queue, i: int, worker: int, now: int, j: int)
    requires OneHand(q, j)
    ensures OneHand(ClaimOne(q, i, worker, now), j)
  {
    assert forall e :: InHand(ClaimOne(q, i, worker, now), e, j) && e < |q.execs| ==> InHand(q, e, j);
  }

  lemma {:induction false} ClaimAllHand(q: Queue, batch: seq<int>, worker: int, now: int, j: int)
    requires OneHand(q, j)
    ensures OneHand(ClaimAll(q, batch, worker, now), j)
  {
    if batch != [] {
      ClaimAllHand(q, batch[..|batch| - 1], worker, now, j);
      ClaimOneHand(ClaimAll(q, batch[..|batch| - 1], worker, now), batch[|batch| - 1], worker, now, j);
    }
  }

  lemma StepHand(q: Queue, step: Step, j: int)
    requires Valid(q) && OneHand(q, j) && (step.Stale? && JobRow(q.rows, j) ==> !IsStale(q.rows[j], step.now))
    ensures OneHand(Next(q, step), j)
  {
    var q' := Next(q, step);
    if step.Claim? {
      ClaimAllHand(q, step.batch, step.worker, step.now, j);
    } else {
      assert forall d :: InHand(q', d, j) ==> InHand(q, d, j);
      if !step.Enqueue? && !step.Stale? && 0 <= step.e < |q.execs| && q.execs[step.e].phase != Settled && q.execs[step.e].job == j {
        assert InHand(q, step.e, j) && JobOk(q, j);
      }
    }
  }

  /** Such a job is in at most one worker's hands at a time, with a current snapshot, and its attempts stay below
      the limit. */
  lemma {:induction false} OneHandAtATime(steps: seq<Step>, j: int)
    requires forall n :: 0 <= n < |steps| && steps[n].Stale? && JobRow(Run(START, steps[..n]).rows, j) ==>
               !IsStale(Run(START, steps[..n]).rows[j], steps[n].now)
    ensures OneHand(Run(START, steps), j)
  {
    if steps != [] {
      var front := steps[..|steps| - 1];
      assert forall n :: 0 <= n < |front| ==> front[..n] == steps[..n] && front[n] == steps[n];
      OneHandAtATime(front, j);
      RunKeeps(START, front);
      StepHand(Run(START, front), steps[|front|], j);
    }
  }

  // ---- the columns a statement writes ----

  /** A requeue touches exactly the jobs that have run for more than ten minutes: one more attempt, and pending at
      once, or dead when that was the last one. */
  lemma StaleExactly(q: Queue, now: int, j: int)
    requires 0 <= j < |q.rows|
    ensures var r, r' := q.rows[j], Next(q, Stale(now)).rows[j];
            var stale := r.status == Running && r.startedAt.Some? && now - r.startedAt.value > 10 * 60;
            && (!stale ==> r' == r)
            && (stale ==> r'.attempts == r.attempts + 1 && r'.nextRun == now && r'.lockedBy == None && r'.lockedAt == None)
            && (stale && r.attempts + 1 < r.maxAttempts ==> r'.status == Pending && r'.error == r.error)
            && (stale && r.attempts + 1 >= r.maxAttempts ==> r'.status == Dead && r'.completedAt == Some(now) && r'.error != None)
  {
  }

  /** A new job is pending, untried, and due now or after its delay. */
  lemma EnqueueExactly(q: Queue, priority: int, maxAttempts: int, delay: int, now: int)
    ensures var q' := Next(q, Enqueue(priority, maxAttempts, delay, now));
            && |q'.rows| == |q.rows| + 1 && q'.rows[..|q.rows|] == q.rows && q'.execs == q.execs
            && var r := q'.rows[|q.rows|];
               r.status == Pending && r.attempts == 0 && r.maxAttempts == maxAttempts && r.priority == priority
               && r.createdAt == now && (delay > 0 ==> r.nextRun == now + delay) && (delay <= 0 ==> r.nextRun == now)
  {
  }

  /** A begin starts the row's clock if the row is pending, as it is once a requeue put it back. */
  lemma BeginExactly(q: Queue, e: int, now: int)
    requires 0 <= e < |q.execs| && q.execs[e].phase == Claimed && 0 <= q.execs[e].job < |q.rows|
    ensures var j := q.execs[e].job;
            var q' := Next(q, Begin(e, now));
            && |q'.rows| == |q.rows| && |q'.execs| == |q.execs| && q'.execs[e].phase == Begun
            && (forall i :: 0 <= i < |q.rows| && i != j ==> q'.rows[i] == q.rows[i])
            && var r, r' := q.rows[j], q'.rows[j];
               (r.status != Pending ==> r' == r)
               && (r.status == Pending ==> r'.status == Running && r'.startedAt == Some(now) && r'.attempts == r.attempts)
  {
  }

  /** A failure of a running job: dead when the attempt the worker claimed was the last one, otherwise pending
      again, one minute later for every attempt made. Any other row stays as it is. */
  lemma FailExactly(q: Queue, e: int, now: int, error: string)
    requires 0 <= e < |q.execs| && q.execs[e].phase == Begun && 0 <= q.execs[e].job < |q.rows|
    ensures var j := q.execs[e].job;
            var q' := Next(q, Fail(e, now, error));
            && |q'.rows| == |q.rows| && |q'.execs| == |q.execs| && q'.execs[e].phase == Settled
            && (forall i :: 0 <= i < |q.rows| && i != j ==> q'.rows[i] == q.rows[i])
            && var r, r' := q.rows[j], q'.rows[j];
               (r.status != Running ==> r' == r)
               && (r.status == Running && q.execs[e].snapshot + 1 >= q.execs[e].limit ==>
                     r'.status == Dead && r'.attempts == r.attempts && r'.completedAt == Some(now) && r'.error == Some(error))
               && (r.status == Running && q.execs[e].snapshot + 1 < q.execs[e].limit ==>
                     r'.status == Pending && r'.attempts == r.attempts + 1 && r'.nextRun == now + 60 * r'.attempts)
  {
  }

  /** A success completes a job that is running, and only that. */
  lemma CompleteExactly(q: Queue, e: int, now: int)
    requires 0 <= e < |q.execs| && q.execs[e].phase == Begun && 0 <= q.execs[e].job < |q.rows|
    ensures var j := q.execs[e].job;
            var q' := Next(q, Complete(e, now));
            && |q'.rows| == |q.rows| && |q'.execs| == |q.execs| && q'.execs[e].phase == Settled
            && (forall i :: 0 <= i < |q.rows| && i != j ==> q'.rows[i] == q.rows[i])
            && var r, r' := q.rows[j], q'.rows[j];
               (r.status != Running ==> r' == r)
               && (r.status == Running ==> r'.status == Completed && r'.completedAt == Some(now) && r'.attempts == r.attempts)
  {
  }

  /** Nothing moves a pending job before its time but a worker that claimed it earlier and begins only now. */
  lemma PendingWaits(q: Queue, step: Step, j: int)
    requires 0 <= j < |q.rows| && q.rows[j].status == Pending
    ensures j < |Next(q, step).rows|
    ensures Next(q, step).rows[j] != q.rows[j] ==>
              (step.Claim? && j in step.batch && q.rows[j].nextRun <= step.now && Next(q, step).rows[j].status == Running)
              || (step.Begin? && 0 <= step.e < |q.execs| && q.execs[step.e].job == j)
  {
    if step.Claim? {
      ClaimedOnlyDue(q, step.batch, step.worker, step.now, j);
    }
  }

  lemma {:induction false} ClaimedOnlyDue(q: Queue, batch: seq<int>, worker: int, now: int, j: int)
    requires 0 <= j < |q.rows| && q.rows[j].status == Pending
    ensures var after := ClaimAll(q, batch, worker, now);
            && |after.rows| == |q.rows|
            && (after.rows[j] == q.rows[j]
                || (j in batch && q.rows[j].nextRun <= now && after.rows[j] == ClaimRow(q.rows[j], worker, now)))
  {
    if batch != [] {
      ClaimedOnlyDue(q, batch[..|batch| - 1], worker, now, j);
    }
  }

  // ---- the bounds are reached ----

  /** `steps` put job 0 back `requeued` times and leave it pending with `k` attempts and `k` claims; the first
      `requeued` of them are still in the hands of workers that begun it. */
  ghost predicate Stranded(steps: seq<Step>, m: int, k: int, requeued: int) {
    var q := Run(START, steps);
    && 0 <= requeued <= k && RequeueCount(steps, 0) == requeued
    && |q.rows| == 1 && q.rows[0].maxAttempts == m
    && q.rows[0].status == Pending && q.rows[0].attempts == k
    && |q.execs| == k
    && (forall e :: 0 <= e < k ==> q.execs[e].job == 0)
    && forall e :: 0 <= e < requeued ==> q.execs[e] == Exec(0, e, m, Begun)
  }

  /** The row runs for the (m + i)-th time, after the first i of `requeued` late workers failed it. */
  ghost predicate Reopened(steps: seq<Step>, m: int, i: int, requeued: int) {
    var q := Run(START, steps);
    && 0 <= i <= requeued < m && RequeueCount(steps, 0) == requeued
    && |q.rows| == 1 && q.rows[0].maxAttempts == m
    && q.rows[0].status == Running && q.rows[0].startedAt.Some? && q.rows[0].attempts == m - 1 + i
    && |q.execs| == m + i
    && (forall e :: 0 <= e < |q.execs| ==> q.execs[e].job == 0)
    && forall e :: i <= e < requeued ==> q.execs[e] == Exec(0, e, m, Begun)
  }

  lemma RunMore(steps: seq<Step>, step: Step)
    ensures Run(START, steps + [step]) == Next(Run(START, steps), step)
    ensures RequeueCount(steps + [step], 0) == RequeueCount(steps, 0) + if Requeues(Run(START, steps), step, 0) then 1 else 0
  {
    assert (steps + [step])[..|steps|] == steps;
  }

  /** The steps up to a claim of job 0 that a worker has begun. */
  lemma ClaimAndBegin(steps: seq<Step>) returns (more: seq<Step>)
    requires var q := Run(START, steps); |q.rows| == 1 && q.rows[0].status == Pending
    ensures RequeueCount(more, 0) == RequeueCount(steps, 0)
    ensures var q, q' := Run(START, steps), Run(START, more);
            var r := q.rows[0];
            q' == Queue([ClaimRow(r, 0, r.nextRun)], q.execs + [Exec(0, r.attempts, r.maxAttempts, Begun)])
  {
    var q := Run(START, steps);
    var now := q.rows[0].nextRun;
    ClaimFirst(q, 0);
    RunMore(steps, Claim([0], 0, now));
    more := steps + [Claim([0], 0, now)];
    RunMore(more, Begin(|q.execs|, now));
    more := more + [Begin(|q.execs|, now)];
  }

  lemma ClaimFirst(q: Queue, worker: int)
    requires |q.rows| == 1 && q.rows[0].status == Pending
    ensures Next(q, Claim([0], worker, q.rows[0].nextRun)) == ClaimOne(q, 0, worker, q.rows[0].nextRun)
  {
    assert [0][..0] == [];
    assert ClaimAll(q, [0][..0], worker, q.rows[0].nextRun) == q;
  }

  /** `requeued` workers stop after begin and are requeued as stale, the others fail in time. */
  lemma {:induction false} Strand(m: int, k: int, requeued: int) returns (steps: seq<Step>)
    requires 0 <= requeued <= k <= m - 1
    ensures Stranded(steps, m, k, requeued)
    decreases k
  {
    if k == 0 {
      RunMore([], Enqueue(0, m, 0, 0));
      steps := [] + [Enqueue(0, m, 0, 0)];
    } else {
      var before := Strand(m, k - 1, if requeued < k then requeued else requeued - 1);
      steps := ClaimAndBegin(before);
      var now := Run(START, before).rows[0].nextRun;
      var last := if requeued < k then Fail(k - 1, now, "") else Stale(now + STALE_SECONDS + 1);
      RunMore(steps, last);
      steps := steps + [last];
    }
  }

  lemma {:induction false} Reopen(m: int, i: int, requeued: int) returns (steps: seq<Step>)
    requires 0 <= i <= requeued <= m - 1
    ensures Reopened(steps, m, i, requeued)
    decreases i
  {
    if i == 0 {
      steps := Strand(m, m - 1, requeued);
    } else {
      steps := Reopen(m, i - 1, requeued);
      RunMore(steps, Fail(i - 1, 0, ""));
      steps := steps + [Fail(i - 1, 0, "")];
    }
    steps := ClaimAndBegin(steps);
  }

  lemma {:induction false} AllClaims(execs: seq<Exec>)
    requires forall e :: 0 <= e < |execs| ==> execs[e].job == 0
    ensures |Snapshots(execs, 0)| == |execs|
  {
    if execs != [] {
      AllClaims(execs[..|execs| - 1]);
    }
  }

  /** ClaimsByRequeues is exact: for every max_attempts m >= 1 and every r < m some run puts a job back r times
      and claims it m + r times. */
  lemma EveryBoundIsReached(m: int, requeued: int) returns (steps: seq<Step>)
    requires m >= 1 && 0 <= requeued <= m - 1
    ensures var q := Run(START, steps);
            && JobRow(q.rows, 0) && q.rows[0].maxAttempts == m
            && RequeueCount(steps, 0) == requeued && |Snapshots(q.execs, 0)| == m + requeued
  {
    steps := Reopen(m, requeued, requeued);
    AllClaims(Run(START, steps).execs);
  }

  /** ClaimsBounded is exact: for every max_attempts m >= 1 some run claims a job 2m - 1 times and leaves it
      with 2m - 1 attempts. */
  lemma BoundIsReached(m: int) returns (steps: seq<Step>)
    requires m >= 1
    ensures var q := Run(START, steps);
            && JobRow(q.rows, 0) && q.rows[0].maxAttempts == m
            && |Snapshots(q.execs, 0)| == 2 * m - 1 && q.rows[0].attempts == 2 * m - 1
  {
    steps := Reopen(m, m - 1, m - 1);
    var q := Run(START, steps);
    AllClaims(q.execs);
    var late := q.rows[0].startedAt.value + STALE_SECONDS + 1;
    RunMore(steps, Stale(late));
    steps := steps + [Stale(late)];
  }
}
