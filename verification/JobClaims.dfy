/** The claim itself: `SELECT ... ORDER BY priority DESC, created_at LIMIT n FOR UPDATE SKIP LOCKED`, then the
    UPDATE, then the commit, as three steps that any number of claimers interleave. */
module JobClaims {
  import opened Options
  import opened Sums
  import opened JobQueue

  /** `a` is served strictly before `b`. */
  predicate Before(a: Row, b: Row) {
    a.priority > b.priority || (a.priority == b.priority && a.createdAt < b.createdAt)
  }

  predicate Eligible(rows: seq<Row>, locked: set<int>, j: int, now: int) {
    JobRow(rows, j) && Due(rows[j], now) && j !in locked
  }

  predicate Distinct(batch: seq<int>) {
    forall i, k :: 0 <= i < k < |batch| ==> batch[i] != batch[k]
  }

  /** `batch` is a prefix of the eligible jobs in serving order, of `size` jobs if there are that many. */
  ghost predicate IsBatch(rows: seq<Row>, locked: set<int>, batch: seq<int>, size: int, now: int) {
    && Distinct(batch)
    && |batch| <= size
    && (forall j :: j in batch ==> Eligible(rows, locked, j, now))
    && (forall i, k :: 0 <= i < k < |batch| && JobRow(rows, batch[i]) && JobRow(rows, batch[k]) ==>
          !Before(rows[batch[k]], rows[batch[i]]))
    && (forall d, j :: j in batch && d !in batch && Eligible(rows, locked, d, now) ==> !Before(rows[d], rows[j]))
    && (forall d :: d !in batch && Eligible(rows, locked, d, now) ==> |batch| == size)
  }

  // ---- lock, mark, commit ----

  datatype Txn = Txn(batch: seq<int>, worker: int, now: int, marked: bool)

  /** The committed queue, and the open claim transactions; each holds the row locks of its batch. */
  datatype System = System(queue: Queue, open: map<int, Txn>)

  datatype Event =
    | Lock(t: int, batch: seq<int>, size: int, worker: int, now: int)
    | Mark(t: int)
    | Commit(t: int)
    | Abort(t: int)
    | Other(step: Step)

  function Locked(s: System): set<int> {
    set t, j | t in s.open && j in s.open[t].batch :: j
  }

  /** A statement of another transaction waits while it would write a locked row. Locked rows are pending, so
      that is only a begin. */
  predicate Waits(s: System, step: Step) {
    step.Begin? && InPhase(s.queue, step.e, Claimed) && s.queue.execs[step.e].job in Locked(s)
  }

  ghost function Next(s: System, e: Event): System {
    match e
    case Lock(t, batch, size, worker, now) =>
      if t !in s.open && IsBatch(s.queue.rows, Locked(s), batch, size, now)
      then s.(open := s.open[t := Txn(batch, worker, now, false)]) else s
    case Mark(t) => if t in s.open then s.(open := s.open[t := s.open[t].(marked := true)]) else s
    case Commit(t) =>
      if t in s.open && s.open[t].marked
      then System(ClaimAll(s.queue, s.open[t].batch, s.open[t].worker, s.open[t].now), s.open - {t}) else s
    case Abort(t) => if t in s.open then s.(open := s.open - {t}) else s
    case Other(step) => if step.Claim? || Waits(s, step) then s else s.(queue := JobQueue.Next(s.queue, step))
  }

  ghost function Reach(s: System, events: seq<Event>): System {
    if events == [] then s else Next(Reach(s, events[..|events| - 1]), events[|events| - 1])
  }

  ghost predicate Holds(s: System, t: int, j: int) {
    t in s.open && j in s.open[t].batch
  }

  /** Open batches are disjoint, and every row they hold is still as the lock found it: pending and due. */
  ghost predicate Valid(s: System) {
    && (forall t, u, j :: Holds(s, t, j) && Holds(s, u, j) ==> t == u)
    && (forall t :: t in s.open ==> Distinct(s.open[t].batch))
    && (forall t, j :: Holds(s, t, j) ==> JobRow(s.queue.rows, j) && Due(s.queue.rows[j], s.open[t].now))
  }

  lemma {:induction false} ClaimAllEffect(q: Queue, batch: seq<int>, worker: int, now: int)
    requires Distinct(batch) && forall j :: j in batch ==> JobRow(q.rows, j) && Due(q.rows[j], now)
    ensures var q' := ClaimAll(q, batch, worker, now);
            && |q'.rows| == |q.rows|
            && |q'.execs| == |q.execs| + |batch| && q'.execs[..|q.execs|] == q.execs
            && (forall i :: 0 <= i < |batch| ==>
                  JobRow(q.rows, batch[i]) &&
                  q'.execs[|q.execs| + i] == Exec(batch[i], q.rows[batch[i]].attempts, q.rows[batch[i]].maxAttempts, Claimed))
            && forall j :: JobRow(q.rows, j) ==> q'.rows[j] == if j in batch then ClaimRow(q.rows[j], worker, now) else q.rows[j]
  {
    if batch != [] {
      var n := |batch| - 1;
      assert forall j :: j in batch[..n] ==> j in batch;
      assert forall j :: j in batch <==> j in batch[..n] || j == batch[n];
      assert batch[n] !in batch[..n];
      ClaimAllEffect(q, batch[..n], worker, now);
    }
  }

  /** A statement that does not wait leaves every locked row alone. */
  lemma OthersLeaveLocked(s: System, step: Step, t: int, j: int)
    requires Valid(s) && Holds(s, t, j) && !step.Claim? && !Waits(s, step)
    ensures JobRow(JobQueue.Next(s.queue, step).rows, j) && JobQueue.Next(s.queue, step).rows[j] == s.queue.rows[j]
  {
  }

  lemma StepKeeps(s: System, e: Event)
    requires Valid(s)
    ensures Valid(Next(s, e))
  {
    var s' := Next(s, e);
    match e
    case Lock(t, batch, size, worker, now) =>
      assert forall u, j :: Holds(s, u, j) ==> j in Locked(s);
      assert forall u, j :: Holds(s', u, j) && !Holds(s, u, j) ==> u == t && j in batch;
    case Mark(t) =>
      assert forall u, j :: Holds(s', u, j) <==> Holds(s, u, j);
    case Commit(t) =>
      if s' != s {
        ClaimAllEffect(s.queue, s.open[t].batch, s.open[t].worker, s.open[t].now) by {
          assert forall j :: j in s.open[t].batch ==> Holds(s, t, j);
        }
        assert forall u, j :: Holds(s', u, j) ==> Holds(s, u, j) && u != t;
        forall u, j | Holds(s', u, j) ensures JobRow(s'.queue.rows, j) && Due(s'.queue.rows[j], s'.open[u].now) {
          assert Holds(s, u, j) && !Holds(s, t, j);
        }
      }
    case Abort(t) =>
      assert forall u, j :: Holds(s', u, j) ==> Holds(s, u, j);
    case Other(step) =>
      assert forall u, j :: Holds(s', u, j) ==> Holds(s, u, j);
      if s' != s {
        forall u, j | Holds(s', u, j) ensures JobRow(s'.queue.rows, j) && Due(s'.queue.rows[j], s'.open[u].now) {
          assert Holds(s, u, j);
          OthersLeaveLocked(s, step, u, j);
        }
      }
  }

  /** The whole-claim step event `e` amounts to. */
  ghost function Atomic(s: System, e: Event): seq<Step> {
    match e
    case Commit(t) =>
      if t in s.open && s.open[t].marked then [Claim(s.open[t].batch, s.open[t].worker, s.open[t].now)] else []
    case Other(step) => if step.Claim? || Waits(s, step) then [] else [step]
    case _ => []
  }

  ghost function AtomicRun(s: System, events: seq<Event>): seq<Step> {
    if events == [] then []
    else AtomicRun(s, events[..|events| - 1]) + Atomic(Reach(s, events[..|events| - 1]), events[|events| - 1])
  }

  lemma AtomicStep(s: System, e: Event)
    ensures |Atomic(s, e)| <= 1
    ensures Next(s, e).queue == if Atomic(s, e) == [] then s.queue else JobQueue.Next(s.queue, Atomic(s, e)[0])
  {
  }

  lemma RunLast(q: Queue, steps: seq<Step>, step: Step)
    ensures JobQueue.Run(q, steps + [step]) == JobQueue.Next(JobQueue.Run(q, steps), step)
  {
  }

  /** Any number of claimers interleaving lock, mark and commit: their open batches stay disjoint and intact,
      and the committed queue goes through whole claims only, each taking every row of its batch. */
  lemma {:induction false} SplitRefinesAtomic(s: System, events: seq<Event>)
    requires s.open == map[]
    ensures Valid(Reach(s, events))
    ensures Reach(s, events).queue == JobQueue.Run(s.queue, AtomicRun(s, events))
  {
    if events != [] {
      var n := |events| - 1;
      var before := Reach(s, events[..n]);
      SplitRefinesAtomic(s, events[..n]);
      StepKeeps(before, events[n]);
      AtomicStep(before, events[n]);
      var steps, more := AtomicRun(s, events[..n]), Atomic(before, events[n]);
      assert AtomicRun(s, events) == steps + more;
      if more == [] {
        assert steps + more == steps;
      } else {
        assert more == [more[0]];
        RunLast(s.queue, steps, more[0]);
      }
    }
  }

  /** At commit every row of the batch goes from pending to running, once, for this claimer. */
  lemma CommitTakesWholeBatch(s: System, t: int)
    requires Valid(s) && t in s.open && s.open[t].marked
    ensures var s' := Next(s, Commit(t));
            var x := s.open[t];
            && |s'.queue.execs| == |s.queue.execs| + |x.batch|
            && (forall i :: 0 <= i < |x.batch| ==> s'.queue.execs[|s.queue.execs| + i].job == x.batch[i])
            && |s'.queue.rows| == |s.queue.rows|
            && (forall j :: j in x.batch ==>
                  JobRow(s.queue.rows, j) && s.queue.rows[j].status == Pending &&
                  s'.queue.rows[j] == ClaimRow(s.queue.rows[j], x.worker, x.now))
  {
    assert forall j :: j in s.open[t].batch ==> Holds(s, t, j);
    ClaimAllEffect(s.queue, s.open[t].batch, s.open[t].worker, s.open[t].now);
  }

  // ---- a due job is served ----

  /** `a` has a higher priority than `b`, or the same and was created no later. */
  predicate NotAfter(a: Row, b: Row) {
    a.priority > b.priority || (a.priority == b.priority && a.createdAt <= b.createdAt)
  }

  /** A batch by the columns: its jobs are due, priorities do not rise, and at equal priority creation times do not
      fall; a due job it leaves out comes after every job it takes, and it leaves one out only when it is full. */
  lemma BatchOrder(rows: seq<Row>, batch: seq<int>, size: int, now: int)
    requires IsBatch(rows, {}, batch, size, now)
    ensures |batch| <= size && forall i :: 0 <= i < |batch| ==> 0 <= batch[i] < |rows|
    ensures forall i :: 0 <= i < |batch| ==> rows[batch[i]].status == Pending && rows[batch[i]].nextRun <= now
    ensures forall i, k :: 0 <= i < k < |batch| ==> batch[i] != batch[k] && NotAfter(rows[batch[i]], rows[batch[k]])
    ensures forall d :: 0 <= d < |rows| && rows[d].status == Pending && rows[d].nextRun <= now && d !in batch ==>
              |batch| == size && forall i :: 0 <= i < |batch| ==> NotAfter(rows[batch[i]], rows[d])
  {
    assert forall i :: 0 <= i < |batch| ==> batch[i] in batch && Eligible(rows, {}, batch[i], now);
    forall d | 0 <= d < |rows| && rows[d].status == Pending && rows[d].nextRun <= now && d !in batch
      ensures |batch| == size && forall i :: 0 <= i < |batch| ==> NotAfter(rows[batch[i]], rows[d])
    {
      assert Eligible(rows, {}, d, now);
    }
  }

  /** What a claim writes: every job of its batch runs for this worker from now on, with its attempts as they were,
      and is handed out with those attempts and its limit; no other row moves. */
  lemma ClaimExactly(q: Queue, batch: seq<int>, size: int, worker: int, now: int)
    requires IsBatch(q.rows, {}, batch, size, now)
    ensures var q' := JobQueue.Next(q, Claim(batch, worker, now));
            && |q'.rows| == |q.rows| && |q'.execs| == |q.execs| + |batch| && q'.execs[..|q.execs|] == q.execs
            && (forall j :: 0 <= j < |q.rows| && j !in batch ==> q'.rows[j] == q.rows[j])
            && (forall i :: 0 <= i < |batch| ==>
                  0 <= batch[i] < |q.rows|
                  && var r, r', x := q.rows[batch[i]], q'.rows[batch[i]], q'.execs[|q.execs| + i];
                     r'.status == Running && r'.startedAt == Some(now) && r'.lockedBy == Some(worker) && r'.lockedAt == Some(now)
                     && r'.attempts == r.attempts && r'.maxAttempts == r.maxAttempts && r'.priority == r.priority
                     && x.job == batch[i] && x.snapshot == r.attempts && x.limit == r.maxAttempts && x.phase == Claimed)
  {
    BatchOrder(q.rows, batch, size, now);
    ClaimAllEffect(q, batch, worker, now);
    assert forall i :: 0 <= i < |batch| ==> batch[i] in batch;
  }

  /** The due job with the highest priority, the earliest created of them, comes first. */
  lemma HeadOfQueue(rows: seq<Row>, batch: seq<int>, size: int, now: int, h: int)
    requires IsBatch(rows, {}, batch, size, now) && size >= 1
    requires 0 <= h < |rows| && rows[h].status == Pending && rows[h].nextRun <= now
    requires forall d :: 0 <= d < |rows| && d != h && rows[d].status == Pending && rows[d].nextRun <= now ==>
               rows[d].priority < rows[h].priority
               || (rows[d].priority == rows[h].priority && rows[d].createdAt > rows[h].createdAt)
    ensures batch != [] && batch[0] == h
  {
    BatchOrder(rows, batch, size, now);
    assert batch != [];
    if h in batch {
      var i :| 0 <= i < |batch| && batch[i] == h;
      assert i > 0 ==> NotAfter(rows[batch[0]], rows[batch[i]]);
    } else {
      assert NotAfter(rows[batch[0]], rows[h]);
    }
  }

  /** Other due jobs that may be served before `j`. */
  ghost function Ahead(rows: seq<Row>, j: int, now: int): set<int>
    requires JobRow(rows, j)
  {
    set d | 0 <= d < |rows| && d != j && rows[d].status == Pending && rows[d].nextRun <= now && NotAfter(rows[d], rows[j])
  }

  /** A claim that passes over a due job takes a full batch of jobs ahead of it. */
  lemma PassedOver(rows: seq<Row>, batch: seq<int>, size: int, now: int, j: int)
    requires IsBatch(rows, {}, batch, size, now) && Eligible(rows, {}, j, now) && j !in batch
    ensures |batch| == size && (set b | b in batch) <= Ahead(rows, j, now)
    ensures |set b | b in batch| == size
  {
    DistinctSize(batch);
  }

  lemma {:induction false} DistinctSize(batch: seq<int>)
    requires Distinct(batch)
    ensures |set b | b in batch| == |batch|
  {
    if batch != [] {
      var n := |batch| - 1;
      DistinctSize(batch[..n]);
      assert (set b | b in batch) == (set b | b in batch[..n]) + {batch[n]};
    }
  }

  /** A claim of a run: the rows before and after it, the batch it takes and its clock. */
  datatype Call = Call(rows: seq<Row>, batch: seq<int>, now: int, after: seq<Row>)

  /** The claims of a run of the queue, in order. */
  function CallsOf(q: Queue, steps: seq<Step>): seq<Call> {
    if steps == [] then []
    else
      var n := |steps| - 1;
      var before := Run(q, steps[..n]);
      CallsOf(q, steps[..n]) +
      if steps[n].Claim?
      then [Call(before.rows, steps[n].batch, steps[n].now, JobQueue.Next(before, steps[n]).rows)]
      else []
  }

  /** Jobs ahead of `j` that the call did not take. */
  ghost function Left(call: Call, j: int): set<int>
    requires JobRow(call.rows, j)
  {
    Ahead(call.rows, j, call.now) - set b | b in call.batch
  }

  predicate Waiting(calls: seq<Call>, i: int, j: int)
    requires i <= |calls|
  {
    forall h :: 0 <= h < i ==> j !in calls[h].batch
  }

  /** One claimer with batches of `size`, whose clock does not go back; every other step of the run may be any. */
  ghost predicate OneClaimer(calls: seq<Call>, size: int) {
    && (forall i :: 0 <= i < |calls| ==> IsBatch(calls[i].rows, {}, calls[i].batch, size, calls[i].now))
    && (forall i, k :: 0 <= i < k < |calls| ==> calls[i].now <= calls[k].now)
  }

  /** What is due ahead of `j` at a call was due ahead of it right after the call before. */
  ghost predicate NothingJoins(calls: seq<Call>, j: int) {
    forall i :: 1 <= i < |calls| && JobRow(calls[i].rows, j) && JobRow(calls[i - 1].after, j) ==>
      Ahead(calls[i].rows, j, calls[i].now) <= Ahead(calls[i - 1].after, j, calls[i - 1].now)
  }

  /** `j` is pending and no earlier claim of it is still in a worker's hands. */
  ghost predicate Idle(q: Queue, j: int) {
    && JobRow(q.rows, j) && q.rows[j].status == Pending
    && forall e :: 0 <= e < |q.execs| && q.execs[e].job == j ==> q.execs[e].phase == Settled
  }

  lemma IdleStep(q: Queue, step: Step, size: int, j: int)
    requires Idle(q, j)
    requires step.Claim? ==> j !in step.batch && IsBatch(q.rows, {}, step.batch, size, step.now)
    ensures Idle(JobQueue.Next(q, step), j) && JobQueue.Next(q, step).rows[j] == q.rows[j]
  {
    if step.Claim? {
      ClaimAllEffect(q, step.batch, step.worker, step.now);
      var execs := JobQueue.Next(q, step).execs;
      assert forall e :: 0 <= e < |q.execs| ==> execs[e] == execs[..|q.execs|][e];
      forall e | |q.execs| <= e < |execs| ensures execs[e].job != j {
        var i := e - |q.execs|;
        assert execs[|q.execs| + i].job == step.batch[i];
      }
    }
  }

  lemma CallsGrow(q: Queue, steps: seq<Step>)
    requires steps != []
    ensures var n := |steps| - 1;
            var before, calls := CallsOf(q, steps[..n]), CallsOf(q, steps);
            && |before| <= |calls| <= |before| + 1 && (|calls| > |before| <==> steps[n].Claim?)
            && (forall i :: 0 <= i < |before| ==> calls[i] == before[i])
            && (steps[n].Claim? ==> calls[|before|].rows == Run(q, steps[..n]).rows && calls[|before|].batch == steps[n].batch
                                    && calls[|before|].now == steps[n].now)
  {
  }

  /** Until it is taken, an idle job stays as it is. */
  lemma {:induction false} IdleRun(q: Queue, steps: seq<Step>, size: int, j: int)
    requires Idle(q, j) && OneClaimer(CallsOf(q, steps), size) && Waiting(CallsOf(q, steps), |CallsOf(q, steps)|, j)
    ensures Idle(Run(q, steps), j) && Run(q, steps).rows[j] == q.rows[j]
  {
    if steps != [] {
      CallsGrow(q, steps);
      IdleRun(q, steps[..|steps| - 1], size, j);
      IdleStep(Run(q, steps[..|steps| - 1]), steps[|steps| - 1], size, j);
    }
  }

  lemma {:induction false} IdleCalls(q: Queue, steps: seq<Step>, size: int, j: int, i: nat)
    requires Idle(q, j) && OneClaimer(CallsOf(q, steps), size) && i < |CallsOf(q, steps)| && Waiting(CallsOf(q, steps), i, j)
    ensures JobRow(CallsOf(q, steps)[i].rows, j) && CallsOf(q, steps)[i].rows[j] == q.rows[j]
  {
    CallsGrow(q, steps);
    var front := steps[..|steps| - 1];
    if i < |CallsOf(q, front)| {
      IdleCalls(q, front, size, j, i);
    } else {
      IdleRun(q, front, size, j);
    }
  }

  /** A claim leaves due, ahead of a job it passes over, exactly what it did not take. */
  lemma AheadAfter(q: Queue, step: Step, size: int, j: int)
    requires step.Claim? && IsBatch(q.rows, {}, step.batch, size, step.now) && JobRow(q.rows, j) && j !in step.batch
    ensures var after := JobQueue.Next(q, step).rows;
            JobRow(after, j) && Ahead(after, j, step.now) == Left(Call(q.rows, step.batch, step.now, after), j)
  {
    ClaimAllEffect(q, step.batch, step.worker, step.now);
  }

  lemma {:induction false} CallsLeave(q: Queue, steps: seq<Step>, size: int, j: int)
    requires OneClaimer(CallsOf(q, steps), size)
    ensures var calls := CallsOf(q, steps);
            forall i :: 0 <= i < |calls| && JobRow(calls[i].rows, j) && j !in calls[i].batch ==>
              JobRow(calls[i].after, j) && Ahead(calls[i].after, j, calls[i].now) == Left(calls[i], j)
  {
    if steps != [] {
      var n := |steps| - 1;
      var before, calls := CallsOf(q, steps[..n]), CallsOf(q, steps);
      assert forall i :: 0 <= i < |before| ==> calls[i] == before[i];
      CallsLeave(q, steps[..n], size, j);
      if steps[n].Claim? {
        var rows := Run(q, steps[..n]).rows;
        assert IsBatch(calls[|before|].rows, {}, calls[|before|].batch, size, calls[|before|].now);
        if JobRow(rows, j) && j !in steps[n].batch {
          AheadAfter(Run(q, steps[..n]), steps[n], size, j);
        }
      }
    }
  }

  /** What the counting needs of the calls: a prefix each time, `j` due until taken, and nothing new ahead of it. */
  ghost predicate NoArrivalsAhead(calls: seq<Call>, size: int, j: int) {
    && (forall i :: 0 <= i < |calls| ==> IsBatch(calls[i].rows, {}, calls[i].batch, size, calls[i].now))
    && (forall i :: 0 <= i < |calls| && Waiting(calls, i, j) ==> Eligible(calls[i].rows, {}, j, calls[i].now))
    && (forall i :: 1 <= i < |calls| && Waiting(calls, i, j) ==> Handover(calls[i - 1], calls[i], j))
  }

  ghost predicate Handover(call: Call, next: Call, j: int) {
    JobRow(call.rows, j) && JobRow(next.rows, j) && Ahead(next.rows, j, next.now) <= Left(call, j)
  }

  lemma RunHasNoArrivals(q: Queue, steps: seq<Step>, size: int, j: int)
    requires var calls := CallsOf(q, steps);
             OneClaimer(calls, size) && NothingJoins(calls, j) && Idle(q, j)
             && (calls != [] ==> q.rows[j].nextRun <= calls[0].now)
    ensures NoArrivalsAhead(CallsOf(q, steps), size, j)
  {
    var calls := CallsOf(q, steps);
    forall i | 0 <= i < |calls| && Waiting(calls, i, j) ensures JobRow(calls[i].rows, j) && calls[i].rows[j] == q.rows[j] {
      IdleCalls(q, steps, size, j, i);
    }
    CallsLeave(q, steps, size, j);
    forall i | 1 <= i < |calls| && Waiting(calls, i, j) ensures Handover(calls[i - 1], calls[i], j) {
      assert Waiting(calls, i - 1, j) && j !in calls[i - 1].batch;
    }
  }

  lemma TakesFullBatch(call: Call, size: int, j: int)
    requires IsBatch(call.rows, {}, call.batch, size, call.now) && Eligible(call.rows, {}, j, call.now) && j !in call.batch
    ensures |Ahead(call.rows, j, call.now)| == size + |Left(call, j)|
  {
    var ahead := Ahead(call.rows, j, call.now);
    var taken := set b | b in call.batch;
    PassedOver(call.rows, call.batch, size, call.now, j);
    assert ahead == taken + (ahead - taken);
  }

  lemma {:induction false} PassedOverOften(calls: seq<Call>, size: int, j: int, n: nat)
    requires size >= 1 && n < |calls| && NoArrivalsAhead(calls, size, j) && Waiting(calls, n + 1, j)
    ensures JobRow(calls[0].rows, j) && JobRow(calls[n].rows, j)
    ensures |Left(calls[n], j)| + (n + 1) * size <= |Ahead(calls[0].rows, j, calls[0].now)|
    decreases n
  {
    assert Waiting(calls, n, j) && Waiting(calls, 0, j);
    TakesFullBatch(calls[n], size, j);
    if n > 0 {
      PassedOverOften(calls, size, j, n - 1);
      assert Handover(calls[n - 1], calls[n], j);
      SubsetSize(Ahead(calls[n].rows, j, calls[n].now), Left(calls[n - 1], j));
      Distribute(n, size);
    }
  }

  lemma Distribute(n: int, size: int)
    ensures (n + 1) * size == n * size + size
  {
  }

  lemma NextMultiple(k: int, size: int)
    requires k >= 0 && size >= 1
    ensures k < (k / size + 1) * size
  {
  }

  lemma CountedOut(calls: seq<Call>, size: int, j: int, k: nat)
    requires size >= 1 && NoArrivalsAhead(calls, size, j) && calls != []
    requires JobRow(calls[0].rows, j) && k == |Ahead(calls[0].rows, j, calls[0].now)| && |calls| > k / size
    ensures !Waiting(calls, k / size + 1, j)
  {
    var n := k / size;
    NextMultiple(k, size);
    if Waiting(calls, n + 1, j) {
      PassedOverOften(calls, size, j, n);
    }
  }

  /** In any run with one claimer, a due job with k jobs ahead of it at the first claim is taken by one of the
      first k / size + 1 claims, if nothing joins the jobs ahead of it meanwhile. */
  lemma ServedInTurn(q: Queue, steps: seq<Step>, size: int, j: int)
    requires size >= 1 && Idle(q, j)
    requires var calls := CallsOf(q, steps);
             && OneClaimer(calls, size) && NothingJoins(calls, j)
             && calls != [] && q.rows[j].nextRun <= calls[0].now
             && JobRow(calls[0].rows, j) && |calls| > |Ahead(calls[0].rows, j, calls[0].now)| / size
    ensures var calls := CallsOf(q, steps);
            !Waiting(calls, |Ahead(calls[0].rows, j, calls[0].now)| / size + 1, j)
  {
    var calls := CallsOf(q, steps);
    RunHasNoArrivals(q, steps, size, j);
    CountedOut(calls, size, j, |Ahead(calls[0].rows, j, calls[0].now)|);
  }
}
