/** Receiving goods end to end: any number of browser requests, each wrapped by the idempotency protocol,
    sizing the receive from one stale read, pre-checking it on another, and then calling
    `sp_po_transition` with the request's key, interleaved with each other and with any other
    purchasing step. */
module ExactlyOnce {
  import opened Options
  import P = Purchasing
  import PI = PurchasingInvariants
  import PR = PurchasingRuns
  import H = Idempotency

  /** How far the view of a request has come. */
  datatype Stage = Entered | Sized(units: int) | Cleared(units: int) | TurnedAway | Called

  datatype Job = Job(order: int, units: Option<int>, stage: Stage)

  datatype System = System(db: P.Db, http: H.State, jobs: seq<Job>)

  datatype Event =
    | Submit(slot: H.Slot, order: int, units: Option<int>)
    | Http(step: H.Step)
    | Size(i: int)
    | PreCheck(i: int)
    | Call(i: int)
    | Other(tables: P.Step)

  predicate InView(s: System, i: int) {
    H.At(s.http, i, H.Running) && 0 <= i < |s.jobs|
  }

  predicate Live(db: P.Db, order: int) {
    P.OrderRow(db.orders, order) && !db.orders[order].deleted
  }

  function SetStage(s: System, i: int, stage: Stage): System
    requires 0 <= i < |s.jobs|
  {
    s.(jobs := s.jobs[i := s.jobs[i].(stage := stage)])
  }

  /** The route's read: an absent quantity means whatever is outstanding now; only positive ones go on. */
  function SizeStage(db: P.Db, job: Job): Stage {
    if job.units.Some? then (if job.units.value <= 0 then TurnedAway else Sized(job.units.value))
    else if !Live(db, job.order) then TurnedAway
    else if P.Outstanding(db.orders[job.order]) <= 0 then TurnedAway
    else Sized(P.Outstanding(db.orders[job.order]))
  }

  /** The service's read: known user, live in-transit order, enough outstanding. */
  function PreCheckStage(db: P.Db, job: Job, user: int): Stage
    requires job.stage.Sized?
  {
    if user !in db.users || !Live(db, job.order) then TurnedAway
    else if db.orders[job.order].status != P.InTransit then TurnedAway
    else if job.stage.units > P.Outstanding(db.orders[job.order]) then TurnedAway
    else Cleared(job.stage.units)
  }

  predicate CanCall(s: System, i: int) {
    InView(s, i) && s.jobs[i].stage.Cleared?
  }

  function CallStep(s: System, i: int): P.Step
    requires CanCall(s, i)
  {
    var slot := s.http.requests[i].slot;
    P.Move(s.jobs[i].order, P.Received, Some(s.jobs[i].stage.units), Some(slot.user), Some(slot.key))
  }

  function Next(s: System, e: Event): System {
    match e
    case Submit(slot, order, units) =>
      s.(http := H.Next(s.http, H.Arrive(slot)), jobs := s.jobs + [Job(order, units, Entered)])
    case Http(step) => if step.Arrive? then s else s.(http := H.Next(s.http, step))
    case Size(i) =>
      if InView(s, i) && s.jobs[i].stage.Entered? then SetStage(s, i, SizeStage(s.db, s.jobs[i])) else s
    case PreCheck(i) =>
      if InView(s, i) && s.jobs[i].stage.Sized?
      then SetStage(s, i, PreCheckStage(s.db, s.jobs[i], s.http.requests[i].slot.user)) else s
    case Call(i) =>
      if CanCall(s, i) then SetStage(s, i, Called).(db := P.Next(s.db, CallStep(s, i))) else s
    case Other(step) => s.(db := P.Next(s.db, step))
  }

  function Exec(s: System, events: seq<Event>): System {
    if events == [] then s else Next(Exec(s, events[..|events| - 1]), events[|events| - 1])
  }

  /** What event `e` asks of the tables. */
  function Issues(s: System, e: Event): seq<P.Step> {
    match e
    case Call(i) => if CanCall(s, i) then [CallStep(s, i)] else []
    case Other(step) => [step]
    case _ => []
  }

  function Issued(s: System, events: seq<Event>): seq<P.Step> {
    if events == [] then []
    else Issued(s, events[..|events| - 1]) + Issues(Exec(s, events[..|events| - 1]), events[|events| - 1])
  }

  /** However the requests interleave, the tables see one sequence of whole procedure calls. */
  lemma {:induction false} TablesSeeARun(s: System, events: seq<Event>)
    ensures Exec(s, events).db == P.Run(s.db, Issued(s, events))
  {
    if events != [] {
      var n := |events| - 1;
      TablesSeeARun(s, events[..n]);
      var before := Issued(s, events[..n]);
      var more := Issues(Exec(s, events[..n]), events[n]);
      if more == [] {
        assert before + more == before;
      } else {
        assert (before + more)[..|before|] == before;
      }
    }
  }

  /** One key, any number of requests carrying it from any users and for any orders, any interleaving,
      crashes, releases and retries: at most one of their receives changes any table, and the tables end
      as if every later one had never reached them. */
  lemma ReceiveAppliesOnce(s: System, events: seq<Event>, key: string)
    ensures PR.EffectiveReceives(s.db, Issued(s, events), key) <= 1
    ensures Exec(s, events).db == P.Run(s.db, PR.WithoutReplays(s.db, Issued(s, events), key))
  {
    TablesSeeARun(s, events);
    PR.KeyAppliesOnce(s.db, Issued(s, events), key);
  }

  /** Stale reads never cost consistency: whatever the pre-checks saw, every order, product, ledger and
      receipt row of the reached tables satisfies the purchasing invariant and keeps both offsets. */
  lemma StaleReadsAreHarmless(s: System, events: seq<Event>)
    requires PI.Valid(s.db)
    ensures PI.Valid(Exec(s, events).db) && PI.Conserves(s.db, Exec(s, events).db)
  {
    TablesSeeARun(s, events);
    PI.RunConserves(s.db, Issued(s, events));
  }

  // ---- the two layers together ----

  /** Calls made by requests of `slot`. */
  function Calls(s: System, events: seq<Event>, slot: H.Slot): nat {
    if events == [] then 0
    else
      var n := |events| - 1;
      var before := Exec(s, events[..n]);
      Calls(s, events[..n], slot) +
      if events[n].Call? && CanCall(before, events[n].i) && before.http.requests[events[n].i].slot == slot then 1 else 0
  }

  function HttpPart(e: Event): seq<H.Step> {
    match e
    case Submit(slot, _, _) => [H.Arrive(slot)]
    case Http(step) => if step.Arrive? then [] else [step]
    case _ => []
  }

  function HttpSteps(events: seq<Event>): seq<H.Step> {
    if events == [] then [] else HttpSteps(events[..|events| - 1]) + HttpPart(events[|events| - 1])
  }

  lemma HttpNext(s: System, e: Event)
    ensures Next(s, e).http == if HttpPart(e) == [] then s.http else H.Next(s.http, HttpPart(e)[0])
  {
  }

  lemma {:induction false} HttpSeesARun(s: System, events: seq<Event>)
    ensures Exec(s, events).http == H.Run(s.http, HttpSteps(events))
  {
    if events != [] {
      var n := |events| - 1;
      HttpSeesARun(s, events[..n]);
      HttpNext(Exec(s, events[..n]), events[n]);
      var before := HttpSteps(events[..n]);
      if HttpPart(events[n]) == [] {
        assert HttpSteps(events) == before;
      } else {
        assert HttpSteps(events)[..|before|] == before;
      }
    }
  }

  /** A recorded response settles the matter: no request of that (key, user) calls the tables again, so
      a receive that had no effect by then never gets one through that slot. */
  lemma {:induction false} RecordedStopsCalls(s: System, events: seq<Event>, slot: H.Slot, response: H.Response)
    requires H.Valid(s.http) && slot in s.http.rows && s.http.rows[slot] == Some(response)
    ensures Calls(s, events, slot) == 0
  {
    if events != [] {
      var n := |events| - 1;
      RecordedStopsCalls(s, events[..n], slot, response);
      HttpSeesARun(s, events[..n]);
      H.RecordedIsFinal(s.http, HttpSteps(events[..n]), slot, response);
      var before := Exec(s, events[..n]);
      assert forall i :: InView(before, i) && before.http.requests[i].slot == slot ==> H.Executing(before.http, i, slot);
    }
  }

  // ---- exactly once, exactly when ----

  predicate CallOf(s: System, e: Event, slot: H.Slot) {
    e.Call? && CanCall(s, e.i) && s.http.requests[e.i].slot == slot
  }

  /** The call meets the procedure's guard. */
  predicate CallReceives(s: System, e: Event, slot: H.Slot) {
    CallOf(s, e, slot) && PR.Receivable(s.db, s.jobs[e.i].order, s.jobs[e.i].stage.units, slot.user, slot.key)
  }

  /** Receives issued through `slot` that changed a table. */
  function Effects(s: System, events: seq<Event>, slot: H.Slot): nat {
    if events == [] then 0
    else
      var n := |events| - 1;
      var before := Exec(s, events[..n]);
      Effects(s, events[..n], slot) +
      if CallOf(before, events[n], slot) && Next(before, events[n]).db != before.db then 1 else 0
  }

  /** Some call of `slot` met the guard when its turn came. */
  ghost predicate GuardMet(s: System, events: seq<Event>, slot: H.Slot) {
    exists n :: 0 <= n < |events| && CallReceives(Exec(s, events[..n]), events[n], slot)
  }

  lemma GuardMetLast(s: System, events: seq<Event>, slot: H.Slot)
    requires events != []
    ensures var n := |events| - 1;
            GuardMet(s, events, slot) <==>
            GuardMet(s, events[..n], slot) || CallReceives(Exec(s, events[..n]), events[n], slot)
  {
    var front := events[..|events| - 1];
    assert forall n :: 0 <= n < |front| ==> front[..n] == events[..n] && front[n] == events[n];
  }

  /** A call has an effect if and only if it meets the guard. */
  lemma CallEffect(s: System, e: Event, slot: H.Slot)
    requires PI.Valid(s.db) && CallOf(s, e, slot)
    ensures Next(s, e).db != s.db <==> CallReceives(s, e, slot)
  {
    PR.EffectExactly(s.db, s.jobs[e.i].order, s.jobs[e.i].stage.units, slot.user, slot.key);
  }

  lemma IssuedLast(db: P.Db, steps: seq<P.Step>, more: seq<P.Step>, key: string)
    requires |more| <= 1
    ensures PR.EffectiveReceives(db, steps + more, key) ==
            PR.EffectiveReceives(db, steps, key) +
            if more != [] && PR.KeyedReceive(more[0], key) && P.Next(P.Run(db, steps), more[0]) != P.Run(db, steps) then 1 else 0
  {
    if more == [] {
      assert steps + more == steps;
    } else {
      assert (steps + more)[..|steps|] == steps;
    }
  }

  lemma {:induction false} EffectsCounted(s: System, events: seq<Event>, slot: H.Slot)
    requires PI.Valid(s.db)
    ensures Effects(s, events, slot) <= PR.EffectiveReceives(s.db, Issued(s, events), slot.key)
    ensures Effects(s, events, slot) > 0 <==> GuardMet(s, events, slot)
  {
    if events != [] {
      var n := |events| - 1;
      var before := Exec(s, events[..n]);
      EffectsCounted(s, events[..n], slot);
      TablesSeeARun(s, events[..n]);
      StaleReadsAreHarmless(s, events[..n]);
      GuardMetLast(s, events, slot);
      IssuedLast(s.db, Issued(s, events[..n]), Issues(before, events[n]), slot.key);
      if CallOf(before, events[n], slot) {
        CallEffect(before, events[n], slot);
      }
    }
  }

  lemma {:induction false} ExecMore(s: System, events: seq<Event>, more: seq<Event>, slot: H.Slot)
    ensures Exec(s, events + more) == Exec(Exec(s, events), more)
    ensures Effects(s, events + more, slot) == Effects(s, events, slot) + Effects(Exec(s, events), more, slot)
    decreases |more|
  {
    if more == [] {
      assert events + more == events;
    } else {
      var n := |more| - 1;
      assert (events + more)[..|events + more| - 1] == events + more[..n];
      ExecMore(s, events, more[..n], slot);
    }
  }

  lemma {:induction false} EffectsAreCalls(s: System, events: seq<Event>, slot: H.Slot)
    ensures Effects(s, events, slot) <= Calls(s, events, slot)
  {
    if events != [] {
      EffectsAreCalls(s, events[..|events| - 1], slot);
    }
  }

  /** After its response is recorded a slot's receives are over: the count stays what it is. */
  lemma RecordedEffects(s: System, events: seq<Event>, slot: H.Slot, more: seq<Event>)
    requires PI.Valid(s.db) && H.Fresh(s.http)
    requires slot in Exec(s, events).http.rows && Exec(s, events).http.rows[slot].Some?
    ensures Effects(s, events + more, slot) == (if GuardMet(s, events, slot) then 1 else 0)
  {
    var end := Exec(s, events);
    HttpSeesARun(s, events);
    H.OneInFlight(s.http, HttpSteps(events));
    RecordedStopsCalls(end, more, slot, end.http.rows[slot].value);
    EffectsAreCalls(end, more, slot);
    ExecMore(s, events, more, slot);
    EffectsCounted(s, events, slot);
    ReceiveAppliesOnce(s, events, slot.key);
  }

  /** Once a slot holds a response, its goods are received exactly once over every continuation if and only if
      some call of the slot met the procedure's guard before the record; otherwise never. */
  lemma ExactlyOnceExactly(s: System, events: seq<Event>, slot: H.Slot)
    requires PI.Valid(s.db) && H.Fresh(s.http)
    requires slot in Exec(s, events).http.rows && Exec(s, events).http.rows[slot].Some?
    ensures (forall more :: Effects(s, events + more, slot) == 1) <==> GuardMet(s, events, slot)
    ensures (forall more :: Effects(s, events + more, slot) == 0) <==> !GuardMet(s, events, slot)
  {
    forall more ensures Effects(s, events + more, slot) == (if GuardMet(s, events, slot) then 1 else 0) {
      RecordedEffects(s, events, slot, more);
    }
    assert Effects(s, events + [], slot) == (if GuardMet(s, events, slot) then 1 else 0);
  }

  /** A recorded refusal hides every later receive: the procedure would book the goods now, and no retry of the
      slot ever reaches it. */
  lemma RefusalHidesAReceive(s: System, events: seq<Event>, slot: H.Slot, order: int, units: int, more: seq<Event>)
    requires PI.Valid(s.db) && H.Fresh(s.http)
    requires slot in Exec(s, events).http.rows && Exec(s, events).http.rows[slot].Some?
    requires !GuardMet(s, events, slot) && PR.Receivable(Exec(s, events).db, order, units, slot.user, slot.key)
    ensures Effects(s, events + more, slot) == 0
    ensures var db := Exec(s, events).db;
            P.Next(db, P.Move(order, P.Received, Some(units), Some(slot.user), Some(slot.key))) ==
            PI.Booked(db, order, units, Some(slot.user), Some(slot.key))
  {
    RecordedEffects(s, events, slot, more);
    StaleReadsAreHarmless(s, events);
    PR.EffectExactly(Exec(s, events).db, order, units, slot.user, slot.key);
  }

  // ---- what the reads decide ----

  /** The route goes on with the units asked for, or with all that is outstanding now, when that is positive. */
  lemma SizeExactly(db: P.Db, job: Job)
    ensures var open := 0 <= job.order < |db.orders| && !db.orders[job.order].deleted;
            var left := if open then db.orders[job.order].quantity - db.orders[job.order].received else 0;
            var units := if job.units.Some? then job.units.value else left;
            SizeStage(db, job) == if units > 0 then Sized(units) else TurnedAway
  {
  }

  /** The service goes on for a known user and a live order in transit that has the units outstanding. */
  lemma PreCheckExactly(db: P.Db, job: Job, user: int)
    requires job.stage.Sized?
    ensures PreCheckStage(db, job, user) ==
            if user in db.users && 0 <= job.order < |db.orders| && !db.orders[job.order].deleted
               && db.orders[job.order].status == P.InTransit
               && job.stage.units <= db.orders[job.order].quantity - db.orders[job.order].received
            then Cleared(job.stage.units) else TurnedAway
  {
  }

  /** On tables that do not change in between, a request with a fresh key for a live product that passes both
      reads books its units. */
  lemma FreshReadsBook(db: P.Db, job: Job, slot: H.Slot)
    requires PI.Valid(db) && SizeStage(db, job).Sized?
    requires PreCheckStage(db, job.(stage := SizeStage(db, job)), slot.user).Cleared?
    requires !db.products[db.orders[job.order].product].deleted && forall r :: r in db.receipts ==> r.key != Some(slot.key)
    ensures var u := SizeStage(db, job).units;
            P.Next(db, P.Move(job.order, P.Received, Some(u), Some(slot.user), Some(slot.key))) ==
            PI.Booked(db, job.order, u, Some(slot.user), Some(slot.key))
  {
    var u := SizeStage(db, job).units;
    assert PI.OrderOk(db, job.order);
    SizeExactly(db, job);
    PR.EffectExactly(db, job.order, u, slot.user, slot.key);
  }

  // ---- the service as it runs ----

  /** One receive of the service: its checks on the rows of an earlier state `seen`, then the procedure. */
  method ServeReceive(tables: P.Tables, seen: P.Db, job: Job, slot: H.Slot) returns (called: bool)
    requires job.stage.Sized?
    modifies tables
    ensures called <==> job.stage.units > 0 && PreCheckStage(seen, job, slot.user).Cleared?
    ensures tables.View() ==
            if called then P.Next(old(tables.View()), P.Move(job.order, P.Received, Some(job.stage.units), Some(slot.user), Some(slot.key)))
            else old(tables.View())
  {
    if job.stage.units <= 0 {
      return false;
    }
    if slot.user !in seen.users {
      return false;
    }
    if !P.OrderRow(seen.orders, job.order) || seen.orders[job.order].deleted {
      return false;
    }
    var o := seen.orders[job.order];
    if o.status != P.InTransit {
      return false;
    }
    if job.stage.units > o.quantity - o.received {
      return false;
    }
    var reply := tables.PoTransition(job.order, P.Received, Some(job.stage.units), Some(slot.user), Some(slot.key));
    return true;
  }

  // ---- a refusal that is recorded ----

  /** One product, one approved order of `quantity` units, the slot's user, no request yet. */
  function TooEarly(slot: H.Slot, quantity: int): System {
    System(P.Db([P.Product(0, quantity, false)], [P.Order("PO-1", 0, quantity, P.Approved, 0, false, P.Approved)], [], [], {slot.user}),
           H.State(map[], [], [], []), [])
  }

  const BOARD := H.Redirect("/purchase-orders")

  /** The request comes before the order is in transit, its refusal is answered by a redirect, the redirect
      is recorded, and only then does the order ship; the retry is answered from the record. */
  function EarlyReceive(slot: H.Slot, units: int): seq<Event> {
    [Submit(slot, 0, Some(units)), Http(H.TryReserve(0)), Size(0), PreCheck(0),
     Http(H.RecordResponse(0, BOARD, false)), Other(P.Move(0, P.InTransit, None, None, None)),
     Submit(slot, 0, Some(units)), Http(H.TryReserve(1)), Http(H.Check(1))]
  }

  lemma {:induction false} ExecLast(s: System, events: seq<Event>, n: nat)
    requires n < |events|
    ensures Exec(s, events[..n + 1]) == Next(Exec(s, events[..n]), events[n])
  {
    assert events[..n + 1][..n] == events[..n];
  }

  function Early(slot: H.Slot, quantity: int, units: int, status: P.Status, row: Option<Option<H.Response>>,
                 phases: seq<H.Phase>, stages: seq<Stage>): System
  {
    System(TooEarly(slot, quantity).db.(orders := [P.Order("PO-1", 0, quantity, status, 0, false, P.Approved)]),
           H.State(if row == None then map[] else map[slot := row.value],
                   seq(|phases|, k requires 0 <= k < |phases| => H.Request(slot, phases[k])),
                   if row == None then [] else [slot], []),
           seq(|stages|, k requires 0 <= k < |stages| => Job(0, Some(units), stages[k])))
  }

  /** The system after the first `n` of those events. */
  function EarlyState(slot: H.Slot, quantity: int, units: int, n: nat): System
    requires n <= 9
  {
    if n == 0 then Early(slot, quantity, units, P.Approved, None, [], [])
    else if n == 1 then Early(slot, quantity, units, P.Approved, None, [H.New], [Entered])
    else if n == 2 then Early(slot, quantity, units, P.Approved, Some(None), [H.Running], [Entered])
    else if n == 3 then Early(slot, quantity, units, P.Approved, Some(None), [H.Running], [Sized(units)])
    else if n == 4 then Early(slot, quantity, units, P.Approved, Some(None), [H.Running], [TurnedAway])
    else if n == 5 then Early(slot, quantity, units, P.Approved, Some(Some(BOARD)), [H.Answered], [TurnedAway])
    else if n == 6 then Early(slot, quantity, units, P.InTransit, Some(Some(BOARD)), [H.Answered], [TurnedAway])
    else if n == 7 then Early(slot, quantity, units, P.InTransit, Some(Some(BOARD)), [H.Answered, H.New], [TurnedAway, Entered])
    else if n == 8 then Early(slot, quantity, units, P.InTransit, Some(Some(BOARD)), [H.Answered, H.Refused], [TurnedAway, Entered])
    else Early(slot, quantity, units, P.InTransit, Some(Some(BOARD)), [H.Answered, H.Replayed(BOARD)], [TurnedAway, Entered])
  }

  lemma FirstEarlySteps(slot: H.Slot, quantity: int, units: int, n: nat)
    requires n < 5 && 0 < units <= quantity
    ensures Next(EarlyState(slot, quantity, units, n), EarlyReceive(slot, units)[n]) == EarlyState(slot, quantity, units, n + 1)
  {
  }

  lemma LastEarlySteps(slot: H.Slot, quantity: int, units: int, n: nat)
    requires 5 <= n < 9 && 0 < units <= quantity
    ensures Next(EarlyState(slot, quantity, units, n), EarlyReceive(slot, units)[n]) == EarlyState(slot, quantity, units, n + 1)
  {
  }

  lemma EarlyNext(slot: H.Slot, quantity: int, units: int, n: nat)
    requires n < 9 && 0 < units <= quantity
    ensures Next(EarlyState(slot, quantity, units, n), EarlyReceive(slot, units)[n]) == EarlyState(slot, quantity, units, n + 1)
  {
    if n < 5 {
      FirstEarlySteps(slot, quantity, units, n);
    } else {
      LastEarlySteps(slot, quantity, units, n);
    }
  }

  lemma {:induction false} EarlyRun(s: System, events: seq<Event>, slot: H.Slot, quantity: int, units: int, n: nat)
    requires s == TooEarly(slot, quantity) && events == EarlyReceive(slot, units) && n <= 9 && 0 < units <= quantity
    ensures Exec(s, events[..n]) == EarlyState(slot, quantity, units, n)
  {
    if n == 0 {
      assert s == EarlyState(slot, quantity, units, 0);
    } else {
      EarlyRun(s, events, slot, quantity, units, n - 1);
      ExecLast(s, events, n - 1);
      EarlyNext(slot, quantity, units, n - 1);
    }
  }

  /** For every key, user and quantity: the recorded refusal is replayed although the receive would now succeed,
      so by RefusalHidesAReceive nothing is ever received through this slot. */
  lemma RefusalIsReplayed(slot: H.Slot, quantity: int, units: int, more: seq<Event>)
    requires 0 < units <= quantity
    ensures var s, events := TooEarly(slot, quantity), EarlyReceive(slot, units);
            var end := Exec(s, events);
            && |end.http.requests| == 2 && end.http.requests[1] == H.Request(slot, H.Replayed(BOARD))
            && PR.Receivable(end.db, 0, units, slot.user, slot.key)
            && Effects(s, events + more, slot) == 0
  {
    var s, events := TooEarly(slot, quantity), EarlyReceive(slot, units);
    EarlyRun(s, events, slot, quantity, units, 9);
    assert events[..9] == events;
    assert forall n :: 0 <= n < |events| ==> !events[n].Call?;
    TooEarlyIsValid(slot, quantity);
    RefusalHidesAReceive(s, events, slot, 0, units, more);
  }

  lemma TooEarlyIsValid(slot: H.Slot, quantity: int)
    requires quantity > 0
    ensures PI.Valid(TooEarly(slot, quantity).db)
  {
    var db := TooEarly(slot, quantity).db;
    PI.OrdersAppend([], db.orders[0]);
    assert [] + [db.orders[0]] == db.orders;
  }
}
