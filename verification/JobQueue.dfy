/** The job queue: claim, begin, complete, fail and stale-requeue, by any number of workers. The settling
    statements look only at the row's status, never at who locked it, so a worker whose job was requeued
    as stale can still settle the row while another worker runs it. Times are in seconds. */
module JobQueue {
  import opened Options

  const STALE_SECONDS := 600
  const STALE_ERROR := "stale: running exceeded 10 minutes"

  datatype Status = Pending | Running | Completed | Dead

  datatype Row = Row(status: Status, attempts: int, maxAttempts: int, priority: int, createdAt: int, nextRun: int,
                     startedAt: Option<int>, lockedBy: Option<int>, lockedAt: Option<int>,
                     completedAt: Option<int>, error: Option<string>)

  /** A claimed job in a worker's hands: `snapshot` and `limit` are attempts and max_attempts as the claim
      read them. A worker that stops anywhere simply takes no further step. */
  datatype Phase = Claimed | Begun | Settled

  datatype Exec = Exec(job: int, snapshot: int, limit: int, phase: Phase)

  datatype Queue = Queue(rows: seq<Row>, execs: seq<Exec>)

  // ---- the statements, row by row ----

  function NewRow(priority: int, maxAttempts: int, delay: int, now: int): Row {
    Row(Pending, 0, maxAttempts, priority, now, if delay > 0 then now + delay else now, None, None, None, None, None)
  }

  predicate IsStale(r: Row, now: int) {
    r.status == Running && r.startedAt.Some? && r.startedAt.value < now - STALE_SECONDS
  }

  function RequeueRow(r: Row, now: int): Row {
    if !IsStale(r, now) then r
    else
      var dead := r.attempts + 1 >= r.maxAttempts;
      r.(status := if dead then Dead else Pending, attempts := r.attempts + 1, nextRun := now,
         lockedBy := None, lockedAt := None,
         error := if dead then Some(STALE_ERROR) else r.error,
         completedAt := if dead then Some(now) else r.completedAt)
  }

  predicate Due(r: Row, now: int) {
    r.status == Pending && r.nextRun <= now
  }

  function ClaimRow(r: Row, worker: int, now: int): Row {
    r.(status := Running, lockedBy := Some(worker), lockedAt := Some(now), startedAt := Some(now))
  }

  function BeginRow(r: Row, now: int): Row {
    if r.status == Pending then r.(status := Running, startedAt := Some(now)) else r
  }

  function CompleteRow(r: Row, now: int): Row {
    if r.status == Running then r.(status := Completed, completedAt := Some(now)) else r
  }

  function FailRow(r: Row, e: Exec, now: int, error: string): Row {
    if r.status != Running then r
    else if e.snapshot + 1 >= e.limit then r.(status := Dead, completedAt := Some(now), error := Some(error))
    else r.(status := Pending, attempts := r.attempts + 1, nextRun := now + 60 * (r.attempts + 1))
  }

  // ---- the protocol ----

  datatype Step =
    | Enqueue(priority: int, maxAttempts: int, delay: int, now: int)
    | Stale(now: int)
    | Claim(batch: seq<int>, worker: int, now: int)
    | Begin(e: int, now: int)
    | Complete(e: int, now: int)
    | Fail(e: int, now: int, error: string)

  predicate JobRow(rows: seq<Row>, j: int) {
    0 <= j < |rows|
  }

  predicate InPhase(q: Queue, e: int, phase: Phase) {
    0 <= e < |q.execs| && q.execs[e].phase == phase && JobRow(q.rows, q.execs[e].job)
  }

  function ClaimOne(q: Queue, j: int, worker: int, now: int): Queue {
    if JobRow(q.rows, j) && Due(q.rows[j], now)
    then Queue(q.rows[j := ClaimRow(q.rows[j], worker, now)],
               q.execs + [Exec(j, q.rows[j].attempts, q.rows[j].maxAttempts, Claimed)])
    else q
  }

  function ClaimAll(q: Queue, batch: seq<int>, worker: int, now: int): Queue {
    if batch == [] then q
    else ClaimOne(ClaimAll(q, batch[..|batch| - 1], worker, now), batch[|batch| - 1], worker, now)
  }

  function Settle(q: Queue, e: int, phase: Phase, row: Row): Queue
    requires 0 <= e < |q.execs| && JobRow(q.rows, q.execs[e].job)
  {
    Queue(q.rows[q.execs[e].job := row], q.execs[e := q.execs[e].(phase := phase)])
  }

  function RequeueAll(rows: seq<Row>, now: int): (r: seq<Row>)
    ensures |r| == |rows|
    ensures forall j :: 0 <= j < |rows| ==> r[j] == RequeueRow(rows[j], now)
  {
    seq(|rows|, j requires 0 <= j < |rows| => RequeueRow(rows[j], now))
  }

  function Next(q: Queue, step: Step): Queue {
    match step
    case Enqueue(priority, maxAttempts, delay, now) => q.(rows := q.rows + [NewRow(priority, maxAttempts, delay, now)])
    case Stale(now) => q.(rows := RequeueAll(q.rows, now))
    case Claim(batch, worker, now) => ClaimAll(q, batch, worker, now)
    case Begin(e, now) =>
      if InPhase(q, e, Claimed) then Settle(q, e, Begun, BeginRow(q.rows[q.execs[e].job], now)) else q
    case Complete(e, now) =>
      if InPhase(q, e, Begun) then Settle(q, e, Settled, CompleteRow(q.rows[q.execs[e].job], now)) else q
    case Fail(e, now, error) =>
      if InPhase(q, e, Begun) then Settle(q, e, Settled, FailRow(q.rows[q.execs[e].job], q.execs[e], now, error)) else q
  }

  function Run(q: Queue, steps: seq<Step>): Queue {
    if steps == [] then q else Next(Run(q, steps[..|steps| - 1]), steps[|steps| - 1])
  }
}

/** How often a job can be claimed, over every interleaving. */
module JobQueueBounds {
  import opened Sums
  import opened JobQueue

  /** Snapshots of the claims of job `j`, oldest first: their number is the number of claims. */
  function Snapshots(execs: seq<Exec>, j: int): seq<int> {
    if execs == [] then []
    else
      var last := execs[|execs| - 1];
      Snapshots(execs[..|execs| - 1], j) + if last.job == j then [last.snapshot] else []
  }

  /** Claims of `j` that have settled although their snapshot still allowed a retry. */
  function Spent(execs: seq<Exec>, j: int): int {
    Sum(execs, (e: Exec) => if e.job == j && e.phase == Settled && e.snapshot + 1 < e.limit then 1 else 0)
  }

  function Below(snapshots: seq<int>, bound: int): int {
    Sum(snapshots, (s: int) => if s < bound then 1 else 0)
  }

  predicate Increasing(s: seq<int>) {
    forall i, k :: 0 <= i < k < |s| ==> s[i] < s[k]
  }

  /** max_attempts - 1, or 0 for a limit below one. */
  function Retries(r: Row): int {
    if r.maxAttempts >= 1 then r.maxAttempts - 1 else 0
  }

  /** A row against the snapshots of its claims and the retries they spent. */
  ghost predicate Accounted(r: Row, snapshots: seq<int>, spent: int) {
    && Increasing(snapshots)
    && (forall x :: x in snapshots ==> 0 <= x <= r.attempts && (r.status == Pending ==> x < r.attempts))
    && 0 <= r.attempts <= Retries(r) + spent + (if r.status == Dead then 1 else 0)
    && |snapshots| <= 2 * Retries(r) + 1
  }

  ghost predicate JobOk(q: Queue, j: int)
    requires JobRow(q.rows, j)
  {
    && Accounted(q.rows[j], Snapshots(q.execs, j), Spent(q.execs, j))
    && (forall e :: 0 <= e < |q.execs| && q.execs[e].job == j ==> q.execs[e].limit == q.rows[j].maxAttempts)
  }

  ghost predicate Valid(q: Queue) {
    && (forall j :: JobRow(q.rows, j) ==> JobOk(q, j))
    && (forall e :: 0 <= e < |q.execs| ==> JobRow(q.rows, q.execs[e].job))
  }

  /** Distinct naturals below a bound are no more than the bound. */
  lemma {:induction false} BelowBound(s: seq<int>, bound: int)
    requires Increasing(s) && forall x :: x in s ==> x >= 0
    ensures Below(s, bound) <= if bound >= 0 then bound else 0
    ensures (forall x :: x in s ==> x < bound) ==> Below(s, bound) == |s|
    decreases |s|
  {
    if s != [] {
      var n := |s| - 1;
      assert forall x :: x in s[..n] ==> x in s && x < s[n];
      assert s[n] in s;
      BelowBound(s[..n], bound);
      BelowBound(s[..n], s[n]);
    }
  }

  /** Each settled retry used up a different snapshot below the limit, so there are at most Retries of them. */
  lemma {:induction false} SpentBound(execs: seq<Exec>, j: int, limit: int)
    requires forall e :: 0 <= e < |execs| && execs[e].job == j ==> execs[e].limit == limit
    ensures Spent(execs, j) <= Below(Snapshots(execs, j), limit - 1)
  {
    if execs != [] {
      var n := |execs| - 1;
      SpentBound(execs[..n], j, limit);
      if execs[n].job == j {
        SumAppend(Snapshots(execs[..n], j), execs[n].snapshot, (s: int) => if s < limit - 1 then 1 else 0);
      } else {
        assert Snapshots(execs, j) == Snapshots(execs[..n], j);
      }
    }
  }

  lemma AttemptsBound(q: Queue, j: int)
    requires JobRow(q.rows, j) && JobOk(q, j)
    ensures Spent(q.execs, j) <= Retries(q.rows[j])
    ensures q.rows[j].attempts <= 2 * Retries(q.rows[j]) + 1
  {
    SpentBound(q.execs, j, q.rows[j].maxAttempts);
    BelowBound(Snapshots(q.execs, j), q.rows[j].maxAttempts - 1);
  }

  // ---- the steps ----

  lemma {:induction false} PhaseKeepsSnapshots(execs: seq<Exec>, e: int, phase: Phase, j: int)
    requires 0 <= e < |execs|
    ensures Snapshots(execs[e := execs[e].(phase := phase)], j) == Snapshots(execs, j)
  {
    var n := |execs| - 1;
    var execs' := execs[e := execs[e].(phase := phase)];
    if e == n {
      assert execs'[..n] == execs[..n];
    } else {
      assert execs'[..n] == execs[..n][e := execs[e].(phase := phase)];
      PhaseKeepsSnapshots(execs[..n], e, phase, j);
    }
  }

  lemma PhaseSpends(execs: seq<Exec>, e: int, phase: Phase, j: int)
    requires 0 <= e < |execs| && execs[e].phase != Settled
    ensures Spent(execs[e := execs[e].(phase := phase)], j) ==
            Spent(execs, j) + if phase == Settled && execs[e].job == j && execs[e].snapshot + 1 < execs[e].limit then 1 else 0
  {
    SumUpdate(execs, e, execs[e].(phase := phase),
              (x: Exec) => if x.job == j && x.phase == Settled && x.snapshot + 1 < x.limit then 1 else 0);
  }

  lemma ExecsAppend(execs: seq<Exec>, e: Exec, k: int)
    ensures Spent(execs + [e], k) ==
            Spent(execs, k) + if e.job == k && e.phase == Settled && e.snapshot + 1 < e.limit then 1 else 0
    ensures Snapshots(execs + [e], k) == if e.job == k then Snapshots(execs, k) + [e.snapshot] else Snapshots(execs, k)
  {
  }

  /** A pending row has room for one more claim, with a snapshot above all earlier ones. */
  lemma RoomForClaim(q: Queue, j: int)
    requires JobRow(q.rows, j) && q.rows[j].status == Pending && JobOk(q, j)
    ensures |Snapshots(q.execs, j)| <= 2 * Retries(q.rows[j])
    ensures Increasing(Snapshots(q.execs, j) + [q.rows[j].attempts])
  {
    AttemptsBound(q, j);
    var s := Snapshots(q.execs, j);
    BelowBound(s, q.rows[j].attempts);
    assert forall i :: 0 <= i < |s| ==> s[i] in s;
  }

  lemma AccountClaim(r: Row, s: seq<int>, spent: int, worker: int, now: int)
    requires Accounted(r, s, spent) && r.status == Pending && |s| <= 2 * Retries(r) && Increasing(s + [r.attempts])
    ensures Accounted(ClaimRow(r, worker, now), s + [r.attempts], spent)
  {
    assert forall x :: x in s + [r.attempts] ==> x in s || x == r.attempts;
  }

  lemma ClaimedJobOk(q: Queue, j: int, worker: int, now: int)
    requires JobRow(q.rows, j) && Due(q.rows[j], now) && JobOk(q, j)
    ensures JobOk(ClaimOne(q, j, worker, now), j)
  {
    RoomForClaim(q, j);
    ExecsAppend(q.execs, Exec(j, q.rows[j].attempts, q.rows[j].maxAttempts, Claimed), j);
    AccountClaim(q.rows[j], Snapshots(q.execs, j), Spent(q.execs, j), worker, now);
  }

  lemma OtherJobOk(q: Queue, j: int, worker: int, now: int, k: int)
    requires JobRow(q.rows, j) && Due(q.rows[j], now) && JobRow(q.rows, k) && k != j && JobOk(q, k)
    ensures JobOk(ClaimOne(q, j, worker, now), k)
  {
  }

  lemma ClaimOneKeeps(q: Queue, j: int, worker: int, now: int)
    requires Valid(q)
    ensures Valid(ClaimOne(q, j, worker, now))
  {
    if JobRow(q.rows, j) && Due(q.rows[j], now) {
      forall k | JobRow(q.rows, k) ensures JobOk(ClaimOne(q, j, worker, now), k) {
        if k == j {
          ClaimedJobOk(q, j, worker, now);
        } else {
          OtherJobOk(q, j, worker, now, k);
        }
      }
    }
  }

  lemma {:induction false} ClaimAllKeeps(q: Queue, batch: seq<int>, worker: int, now: int)
    requires Valid(q)
    ensures Valid(ClaimAll(q, batch, worker, now))
  {
    if batch != [] {
      ClaimAllKeeps(q, batch[..|batch| - 1], worker, now);
      ClaimOneKeeps(ClaimAll(q, batch[..|batch| - 1], worker, now), batch[|batch| - 1], worker, now);
    }
  }

  lemma SettleKeeps(q: Queue, e: int, phase: Phase, row: Row)
    requires Valid(q) && 0 <= e < |q.execs| && q.execs[e].phase != Settled
    requires var r := q.rows[q.execs[e].job];
             row.maxAttempts == r.maxAttempts &&
             if row.attempts == r.attempts
             then (row.status == Pending ==> r.status == Pending) && (r.status == Dead ==> row.status == Dead)
             else row.attempts == r.attempts + 1 && r.status == Running && phase == Settled
                  && q.execs[e].snapshot + 1 < q.execs[e].limit
    ensures Valid(Settle(q, e, phase, row))
  {
    var q' := Settle(q, e, phase, row);
    forall k | JobRow(q'.rows, k) ensures JobOk(q', k) {
      assert JobOk(q, k);
      PhaseKeepsSnapshots(q.execs, e, phase, k);
      PhaseSpends(q.execs, e, phase, k);
    }
  }

  lemma EnqueueKeeps(q: Queue, priority: int, maxAttempts: int, delay: int, now: int)
    requires Valid(q)
    ensures Valid(Next(q, Enqueue(priority, maxAttempts, delay, now)))
  {
    var q' := Next(q, Enqueue(priority, maxAttempts, delay, now));
    forall k | JobRow(q'.rows, k) ensures JobOk(q', k) {
      if k < |q.rows| {
        assert JobOk(q, k);
      } else {
        NoClaims(q.execs, k);
      }
    }
  }

  lemma StaleKeeps(q: Queue, now: int)
    requires Valid(q)
    ensures Valid(Next(q, Stale(now)))
  {
    var q' := Next(q, Stale(now));
    forall k | JobRow(q'.rows, k) ensures JobOk(q', k) {
      assert JobOk(q, k);
      SumNonNegative(q.execs, (x: Exec) => if x.job == k && x.phase == Settled && x.snapshot + 1 < x.limit then 1 else 0);
    }
  }

  lemma StepKeeps(q: Queue, step: Step)
    requires Valid(q)
    ensures Valid(Next(q, step))
  {
    match step
    case Enqueue(priority, maxAttempts, delay, now) => EnqueueKeeps(q, priority, maxAttempts, delay, now);
    case Stale(now) => StaleKeeps(q, now);
    case Claim(batch, worker, now) => ClaimAllKeeps(q, batch, worker, now);
    case Begin(e, now) =>
      if InPhase(q, e, Claimed) {
        SettleKeeps(q, e, Begun, BeginRow(q.rows[q.execs[e].job], now));
      }
    case Complete(e, now) =>
      if InPhase(q, e, Begun) {
        SettleKeeps(q, e, Settled, CompleteRow(q.rows[q.execs[e].job], now));
      }
    case Fail(e, now, error) =>
      if InPhase(q, e, Begun) {
        SettleKeeps(q, e, Settled, FailRow(q.rows[q.execs[e].job], q.execs[e], now, error));
      }
  }

  lemma {:induction false} NoClaims(execs: seq<Exec>, j: int)
    requires forall e :: 0 <= e < |execs| ==> execs[e].job != j
    ensures Snapshots(execs, j) == [] && Spent(execs, j) == 0
  {
    if execs != [] {
      NoClaims(execs[..|execs| - 1], j);
    }
  }

  lemma {:induction false} RunKeeps(q: Queue, steps: seq<Step>)
    requires Valid(q)
    ensures Valid(Run(q, steps))
  {
    if steps != [] {
      RunKeeps(q, steps[..|steps| - 1]);
      StepKeeps(Run(q, steps[..|steps| - 1]), steps[|steps| - 1]);
    }
  }

  /** For any number of workers and any interleaving, stale requeues and late workers included: a job with
      max_attempts m >= 1 is claimed at most 2m - 1 times and its attempts never exceed 2m - 1. */
  lemma ClaimsBounded(steps: seq<Step>, j: int)
    requires JobRow(Run(Queue([], []), steps).rows, j)
    ensures var q := Run(Queue([], []), steps);
            var m := q.rows[j].maxAttempts;
            && |Snapshots(q.execs, j)| <= (if m >= 1 then 2 * m - 1 else 1)
            && 0 <= q.rows[j].attempts <= (if m >= 1 then 2 * m - 1 else 1)
  {
    RunKeeps(Queue([], []), steps);
    AttemptsBound(Run(Queue([], []), steps), j);
  }
}
