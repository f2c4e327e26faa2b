/** Idempotent requests: reserve the key, run the view, then record its response or release the key.
    One row per (key, user); its response is None while the key is only reserved. */
module Idempotency {
  import opened Options
  import opened Sums

  datatype Slot = Slot(key: string, user: int)

  /** What a replay needs: the redirect target, or the data, status and message of an API answer. */
  datatype Response = Redirect(location: string) | Payload(data: string, status: int, message: string)

  type KeyTable = map<Slot, Option<Response>>

  // ---- the four statements ----

  function Reserve(rows: KeyTable, slot: Slot): KeyTable {
    if slot in rows then rows else rows[slot := None]
  }

  function Recorded(rows: KeyTable, slot: Slot): Option<Response> {
    if slot in rows then rows[slot] else None
  }

  function Record(rows: KeyTable, slot: Slot, response: Response): KeyTable {
    rows[slot := Some(response)]
  }

  function Release(rows: KeyTable, slot: Slot): KeyTable {
    if slot in rows && rows[slot].None? then rows - {slot} else rows
  }

  // ---- any number of requests, interleaved statement by statement ----

  /** Where a request stands in the wrapper. Refused lost the reservation; Releasing is past the view
      with nothing it knows to be recorded. */
  datatype Phase = New | Refused | Running | Releasing | Replayed(response: Response) | Conflict | Answered | Crashed

  datatype Request = Request(slot: Slot, phase: Phase)

  /** `started` and `released` are history fields: the slots reserved and released, in order. */
  datatype State = State(rows: KeyTable, requests: seq<Request>, started: seq<Slot>, released: seq<Slot>)

  /** RecordResponse with `raised` is a record that committed and then failed to say so; GiveUp covers a
      view that raised, a response that cannot be recorded and a record that did not commit; DoRelease with
      `done` false is a release that failed. */
  datatype Step =
    | Arrive(slot: Slot)
    | TryReserve(i: int)
    | Check(i: int)
    | RecordResponse(i: int, response: Response, raised: bool)
    | GiveUp(i: int)
    | DoRelease(i: int, done: bool)
    | Crash(i: int)

  predicate At(s: State, i: int, phase: Phase) {
    0 <= i < |s.requests| && s.requests[i].phase == phase
  }

  function Goto(s: State, i: int, phase: Phase): State
    requires 0 <= i < |s.requests|
  {
    s.(requests := s.requests[i := s.requests[i].(phase := phase)])
  }

  function Next(s: State, step: Step): State {
    match step
    case Arrive(slot) => s.(requests := s.requests + [Request(slot, New)])
    case TryReserve(i) =>
      if !At(s, i, New) then s
      else
        var slot := s.requests[i].slot;
        if slot in s.rows then Goto(s, i, Refused)
        else Goto(s, i, Running).(rows := Reserve(s.rows, slot), started := s.started + [slot])
    case Check(i) =>
      if !At(s, i, Refused) then s
      else
        var found := Recorded(s.rows, s.requests[i].slot);
        Goto(s, i, if found.Some? then Replayed(found.value) else Conflict)
    case RecordResponse(i, response, raised) =>
      if !At(s, i, Running) then s
      else Goto(s, i, if raised then Releasing else Answered).(rows := Record(s.rows, s.requests[i].slot, response))
    case GiveUp(i) =>
      if At(s, i, Running) then Goto(s, i, Releasing) else s
    case DoRelease(i, done) =>
      if !At(s, i, Releasing) then s
      else
        var slot := s.requests[i].slot;
        if done && Recorded(s.rows, slot).None? && slot in s.rows
        then Goto(s, i, Answered).(rows := Release(s.rows, slot), released := s.released + [slot])
        else Goto(s, i, Answered)
    case Crash(i) =>
      if 0 <= i < |s.requests| && s.requests[i].phase in {New, Refused, Running, Releasing}
      then Goto(s, i, Crashed) else s
  }

  function Run(s: State, steps: seq<Step>): State {
    if steps == [] then s else Next(Run(s, steps[..|steps| - 1]), steps[|steps| - 1])
  }

  function Count(slots: seq<Slot>, slot: Slot): int {
    Sum(slots, (x: Slot) => if x == slot then 1 else 0)
  }

  predicate Executing(s: State, i: int, slot: Slot) {
    0 <= i < |s.requests| && s.requests[i].slot == slot && (s.requests[i].phase == Running || s.requests[i].phase == Releasing)
  }

  ghost predicate Fresh(s: State) {
    s.rows == map[] && s.requests == [] && s.started == [] && s.released == []
  }

  ghost predicate Valid(s: State) {
    && (forall i, slot :: Executing(s, i, slot) ==> slot in s.rows)
    && (forall i, slot :: Executing(s, i, slot) && s.requests[i].phase == Running ==> s.rows[slot].None?)
    && (forall i, j, slot :: Executing(s, i, slot) && Executing(s, j, slot) ==> i == j)
    && (forall slot :: Count(s.started, slot) == Count(s.released, slot) + if slot in s.rows then 1 else 0)
  }

  lemma CountAppend(slots: seq<Slot>, x: Slot)
    ensures forall slot :: Count(slots + [x], slot) == Count(slots, slot) + if x == slot then 1 else 0
  {
  }

  /** An execution in progress after a step was in progress before it, unless the step reserved its slot. */
  lemma ExecutingStep(s: State, step: Step, i: int, slot: Slot)
    requires Executing(Next(s, step), i, slot)
    ensures Executing(s, i, slot) || (step == TryReserve(i) && At(s, i, New) && slot !in s.rows)
  {
  }

  lemma RowsStep(s: State, step: Step, i: int, slot: Slot)
    requires Valid(s) && Executing(Next(s, step), i, slot)
    ensures var s' := Next(s, step); slot in s'.rows && (s'.requests[i].phase == Running ==> s'.rows[slot].None?)
  {
    ExecutingStep(s, step, i, slot);
    if step.RecordResponse? && At(s, step.i, Running) {
      assert Executing(s, step.i, s.requests[step.i].slot);
    }
    if step.DoRelease? && At(s, step.i, Releasing) {
      assert Executing(s, step.i, s.requests[step.i].slot);
    }
  }

  lemma CountsStep(s: State, step: Step, slot: Slot)
    requires Valid(s)
    ensures var s' := Next(s, step); Count(s'.started, slot) == Count(s'.released, slot) + if slot in s'.rows then 1 else 0
  {
    if step.TryReserve? && At(s, step.i, New) {
      CountAppend(s.started, s.requests[step.i].slot);
    }
    if step.DoRelease? && At(s, step.i, Releasing) {
      CountAppend(s.released, s.requests[step.i].slot);
    }
    if step.RecordResponse? && At(s, step.i, Running) {
      assert Executing(s, step.i, s.requests[step.i].slot);
    }
  }

  lemma StepKeeps(s: State, step: Step)
    requires Valid(s)
    ensures Valid(Next(s, step))
  {
    var s' := Next(s, step);
    forall i, slot | Executing(s', i, slot)
      ensures slot in s'.rows && (s'.requests[i].phase == Running ==> s'.rows[slot].None?)
    {
      RowsStep(s, step, i, slot);
    }
    forall i, j, slot | Executing(s', i, slot) && Executing(s', j, slot) ensures i == j {
      ExecutingStep(s, step, i, slot);
      ExecutingStep(s, step, j, slot);
    }
    forall slot ensures Count(s'.started, slot) == Count(s'.released, slot) + if slot in s'.rows then 1 else 0 {
      CountsStep(s, step, slot);
    }
  }

  /** In every reachable state, for each (key, user): at most one execution is between its reservation and
      its end, and executions started exceed reservations released by at most one. */
  lemma {:induction false} OneInFlight(s: State, steps: seq<Step>)
    requires Fresh(s)
    ensures Valid(Run(s, steps))
    ensures forall slot :: Count(Run(s, steps).started, slot) <= Count(Run(s, steps).released, slot) + 1
  {
    if steps == [] {
      forall i, slot | Executing(s, i, slot) ensures false {
      }
    } else {
      OneInFlight(s, steps[..|steps| - 1]);
      StepKeeps(Run(s, steps[..|steps| - 1]), steps[|steps| - 1]);
    }
  }

  /** What a request of `slot` that had not started when `response` was recorded can come to. */
  predicate OnlyReplays(phase: Phase, response: Response) {
    phase in {New, Refused, Crashed, Replayed(response)}
  }

  /** `slot` holds `response` and nothing of `slot` beyond the first `n` requests, or among those still
      waiting in `s0`, has ended otherwise. */
  ghost predicate Settled(s0: State, s: State, slot: Slot, response: Response) {
    && slot in s.rows && s.rows[slot] == Some(response)
    && Count(s.started, slot) == Count(s0.started, slot)
    && |s.requests| >= |s0.requests|
    && (forall i :: 0 <= i < |s0.requests| ==> s.requests[i].slot == s0.requests[i].slot)
    && (forall i :: 0 <= i < |s.requests| && s.requests[i].slot == slot &&
                    (i < |s0.requests| ==> OnlyReplays(s0.requests[i].phase, response)) ==>
          OnlyReplays(s.requests[i].phase, response))
  }

  lemma SettledRows(s: State, step: Step, slot: Slot, response: Response)
    requires Valid(s) && slot in s.rows && s.rows[slot] == Some(response)
    ensures var s' := Next(s, step);
            slot in s'.rows && s'.rows[slot] == Some(response) && Count(s'.started, slot) == Count(s.started, slot)
  {
    if step.TryReserve? && At(s, step.i, New) {
      CountAppend(s.started, s.requests[step.i].slot);
    } else {
      assert Next(s, step).started == s.started;
      if step.RecordResponse? && At(s, step.i, Running) {
        assert Executing(s, step.i, s.requests[step.i].slot);
      }
    }
  }

  lemma SettledRequest(s: State, step: Step, i: int, response: Response)
    requires 0 <= i < |Next(s, step).requests|
    requires var slot := Next(s, step).requests[i].slot; slot in s.rows && s.rows[slot] == Some(response)
    requires i < |s.requests| ==> OnlyReplays(s.requests[i].phase, response)
    ensures OnlyReplays(Next(s, step).requests[i].phase, response)
  {
  }

  lemma RequestsStep(s: State, step: Step)
    ensures |Next(s, step).requests| >= |s.requests|
    ensures forall i :: 0 <= i < |s.requests| ==> Next(s, step).requests[i].slot == s.requests[i].slot
  {
  }

  lemma SettledStep(s0: State, s: State, step: Step, slot: Slot, response: Response)
    requires Valid(s) && Settled(s0, s, slot, response)
    ensures Settled(s0, Next(s, step), slot, response)
  {
    var requests := Next(s, step).requests;
    SettledRows(s, step, slot, response);
    RequestsStep(s, step);
    forall i | 0 <= i < |requests| && requests[i].slot == slot &&
               (i < |s0.requests| ==> OnlyReplays(s0.requests[i].phase, response))
      ensures OnlyReplays(requests[i].phase, response)
    {
      SettledRequest(s, step, i, response);
    }
  }

  /** Once a response is recorded no execution of that (key, user) starts again, the response never
      changes, and every request not yet started, or arriving later, ends in that response or crashes. */
  lemma {:induction false} RecordedIsFinal(s: State, steps: seq<Step>, slot: Slot, response: Response)
    requires Valid(s) && slot in s.rows && s.rows[slot] == Some(response)
    ensures Valid(Run(s, steps)) && Settled(s, Run(s, steps), slot, response)
  {
    if steps != [] {
      var n := |steps| - 1;
      RecordedIsFinal(s, steps[..n], slot, response);
      StepKeeps(Run(s, steps[..n]), steps[n]);
      SettledStep(s, Run(s, steps[..n]), steps[n], slot, response);
    }
  }

  // ---- the wrapper as it runs ----

  /** What a view can come back with: an exception, a page or other answer without a status, an answer
      with a JSON body (`success` is its flag), or one with a Location header. */
  datatype ViewResult = Raises | Bare | Json(status: int, success: bool, data: string, message: string)
                      | Located(status: int, location: string)

  datatype Answer = FromView(result: ViewResult) | KeyRequired | Unauthorized | Replay(response: Response) | InProgress

  function Recordable(result: ViewResult): Option<Response> {
    match result
    case Json(status, success, data, message) =>
      if 200 <= status < 300 && success then Some(Payload(data, status, message)) else None
    case Located(status, location) =>
      if status in {301, 302, 303, 307, 308} && location != "" then Some(Redirect(location)) else None
    case _ => None
  }

  /** The answers worth repeating: a JSON success, or a redirect that says where to. */
  predicate Succeeds(view: ViewResult) {
    || (view.Json? && 200 <= view.status <= 299 && view.success)
    || (view.Located? && view.location != "" &&
        (view.status == 301 || view.status == 302 || view.status == 303 || view.status == 307 || view.status == 308))
  }

  function ReplayOf(view: ViewResult): Response
    requires Succeeds(view)
  {
    if view.Json? then Payload(view.data, view.status, view.message) else Redirect(view.location)
  }

  class KeyStore {
    var rows: KeyTable

    method ReserveKey(slot: Slot) returns (owned: bool)
      modifies this
      ensures owned <==> slot !in old(rows)
      ensures rows == Reserve(old(rows), slot)
      ensures slot in rows && rows[slot] == (if owned then None else old(rows)[slot]) && rows - {slot} == old(rows) - {slot}
    {
      owned := slot !in rows;
      if owned {
        rows := rows[slot := None];
      }
    }

    method CheckKey(slot: Slot) returns (cached: Option<Response>)
      ensures cached == Recorded(rows, slot)
      ensures cached.Some? <==> slot in rows && rows[slot].Some?
      ensures cached.Some? ==> rows[slot] == cached
    {
      cached := if slot in rows then rows[slot] else None;
    }

    /** An upsert: `ok` false is a record that did not commit. */
    method RecordKey(slot: Slot, response: Response, ok: bool)
      modifies this
      ensures rows == if ok then Record(old(rows), slot, response) else old(rows)
      ensures ok ==> slot in rows && rows[slot] == Some(response) && rows - {slot} == old(rows) - {slot}
    {
      if ok {
        rows := rows[slot := Some(response)];
      }
    }

    method ReleaseKey(slot: Slot, ok: bool)
      modifies this
      ensures rows == if ok then Release(old(rows), slot) else old(rows)
      ensures slot in old(rows) && old(rows)[slot].Some? ==> rows == old(rows)
      ensures ok && slot in old(rows) && old(rows)[slot].None? ==> slot !in rows
      ensures rows - {slot} == old(rows) - {slot}
    {
      if ok && slot in rows && rows[slot].None? {
        rows := rows - {slot};
      }
    }

    /** One request with no other between its statements. `recordOk` and `releaseOk` say whether those
        statements commit. The key table ends as the protocol above leaves it. */
    method Handle(key: string, user: Option<int>, required: bool, view: ViewResult, recordOk: bool, releaseOk: bool)
      returns (answer: Answer, executed: bool)
      modifies this
      ensures key == "" || user.None? ==> rows == old(rows)
      ensures key == "" ==> executed == !required && answer == if required then KeyRequired else FromView(view)
      ensures key != "" && user.None? ==> !executed && answer == Unauthorized
      ensures key != "" && user.Some? ==>
                var slot := Slot(key, user.value);
                && (executed <==> slot !in old(rows))
                && (executed ==> answer == FromView(view))
                && (!executed ==> answer == (if old(rows)[slot].Some? then Replay(old(rows)[slot].value) else InProgress))
                && rows == Run(State(old(rows), [], [], []), Script(slot, view, recordOk, releaseOk)).rows
                && rows - {slot} == old(rows) - {slot}
                && (slot in old(rows) ==> rows == old(rows))
                && (executed && recordOk && Succeeds(view) ==> slot in rows && rows[slot] == Some(ReplayOf(view)))
                && (executed && !(recordOk && Succeeds(view)) ==>
                      (slot !in rows <==> releaseOk) && (slot in rows ==> rows[slot] == None))
    {
      executed := false;
      if key == "" {
        if required {
          return KeyRequired, false;
        }
        return FromView(view), true;
      }
      if user.None? {
        return Unauthorized, false;
      }
      var slot := Slot(key, user.value);
      ScriptRows(rows, slot, view, recordOk, releaseOk);
      var owned := ReserveKey(slot);
      if !owned {
        var cached := CheckKey(slot);
        return if cached.Some? then Replay(cached.value) else InProgress, false;
      }
      if view.Raises? {
        ReleaseKey(slot, releaseOk);
        return FromView(view), true;
      }
      var recorded := false;
      var response := Recordable(view);
      if response.Some? {
        RecordKey(slot, response.value, recordOk);
        recorded := recordOk;
      }
      if !recorded {
        ReleaseKey(slot, releaseOk);
      }
      return FromView(view), true;
    }
  }

  /** A request with a fresh key, and its retry. A view that succeeded and whose record committed is never
      executed again: the retry gets that redirect or payload. After any other view the retry executes its own,
      provided the key was released; if it was not, the retry is told to wait. */
  method RequestAndRetry(store: KeyStore, slot: Slot, first: ViewResult, second: ViewResult, recordOk: bool, releaseOk: bool)
    returns (answer: Answer, retried: Answer, again: bool)
    requires slot.key != "" && slot !in store.rows
    modifies store
    ensures answer == FromView(first)
    ensures recordOk && first.Json? && 200 <= first.status <= 299 && first.success ==>
              !again && retried == Replay(Payload(first.data, first.status, first.message))
    ensures recordOk && first.Located? && first.status in {301, 302, 303, 307, 308} && first.location != "" ==>
              !again && retried == Replay(Redirect(first.location))
    ensures !(recordOk && ((first.Json? && 200 <= first.status <= 299 && first.success)
                           || (first.Located? && first.status in {301, 302, 303, 307, 308} && first.location != ""))) ==>
              (again <==> releaseOk) && retried == if releaseOk then FromView(second) else InProgress
  {
    var executed;
    answer, executed := store.Handle(slot.key, Some(slot.user), true, first, recordOk, releaseOk);
    assert Slot(slot.key, slot.user) == slot;
    retried, again := store.Handle(slot.key, Some(slot.user), true, second, recordOk, releaseOk);
  }

  /** The protocol steps of one request on its own. */
  function Script(slot: Slot, view: ViewResult, recordOk: bool, releaseOk: bool): seq<Step> {
    var response := Recordable(view);
    [Arrive(slot), TryReserve(0)] +
    (if response.Some? && recordOk then [RecordResponse(0, response.value, false)] else [GiveUp(0), DoRelease(0, releaseOk)])
  }

  /** The state once one request has arrived and tried to reserve. */
  function Reserved(rows: KeyTable, slot: Slot): State {
    State(Reserve(rows, slot), [Request(slot, if slot in rows then Refused else Running)],
          if slot in rows then [] else [slot], [])
  }

  lemma TryAlone(rows: KeyTable, slot: Slot)
    ensures Next(State(rows, [Request(slot, New)], [], []), TryReserve(0)) == Reserved(rows, slot)
  {
  }

  lemma ReservedFirst(rows: KeyTable, slot: Slot)
    ensures Run(State(rows, [], [], []), [Arrive(slot), TryReserve(0)]) == Reserved(rows, slot)
  {
    var s := State(rows, [], [], []);
    var arrived := State(rows, [Request(slot, New)], [], []);
    assert Next(s, Arrive(slot)) == arrived by {
      assert [] + [Request(slot, New)] == [Request(slot, New)];
    }
    TryAlone(rows, slot);
    RunTwo(s, Arrive(slot), TryReserve(0));
  }

  lemma ScriptRows(rows: KeyTable, slot: Slot, view: ViewResult, recordOk: bool, releaseOk: bool)
    ensures Run(State(rows, [], [], []), Script(slot, view, recordOk, releaseOk)).rows ==
            if slot in rows then rows
            else if Recordable(view).Some? && recordOk then rows[slot := Some(Recordable(view).value)]
            else if releaseOk then rows[slot := None] - {slot}
            else rows[slot := None]
  {
    var s := State(rows, [], [], []);
    var reserved := [Arrive(slot), TryReserve(0)];
    ReservedFirst(rows, slot);
    var response := Recordable(view);
    if response.Some? && recordOk {
      RunLast(s, reserved, RecordResponse(0, response.value, false));
    } else {
      RunLast(s, reserved, GiveUp(0));
      RunLast(s, reserved + [GiveUp(0)], DoRelease(0, releaseOk));
      assert Script(slot, view, recordOk, releaseOk) == reserved + [GiveUp(0)] + [DoRelease(0, releaseOk)];
    }
  }

  lemma RunLast(s: State, steps: seq<Step>, step: Step)
    ensures Run(s, steps + [step]) == Next(Run(s, steps), step)
  {
  }

  lemma RunTwo(s: State, first: Step, second: Step)
    ensures Run(s, [first, second]) == Next(Next(s, first), second)
  {
    RunLast(s, [], first);
    RunLast(s, [first], second);
    assert [] + [first] == [first] && [first] + [second] == [first, second];
  }
}
