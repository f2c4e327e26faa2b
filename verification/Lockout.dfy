/** The login lockout: an in-process list of failure times and a database counter, both fixed windows.
    Times are microseconds. */
module Lockout {
  import opened Options

  const MINUTE := 60_000_000
  const MAX_FAILED_ATTEMPTS := 5
  const WINDOW := 15 * MINUTE

  datatype Row = Row(count: int, windowStart: int, expiresAt: int)

  /** What the two layers hold for one user; `times` is empty when the user has no list. */
  datatype State = State(times: seq<int>, row: Option<Row>)

  /** One attempt with the clock readings it makes, in order. */
  datatype Attempt = Attempt(gate1: int, gate2: int, record: int, append: int, correct: bool)
  datatype Outcome = Refused(minutes: int) | LoggedIn | Failed

  function CeilDiv(a: int, b: int): int
    requires b > 0
  {
    -((-a) / b)
  }

  function AtLeastOne(n: int): int { if n < 1 then 1 else n }

  predicate Elapsed(times: seq<int>, now: int) {
    times != [] && times[0] < now - WINDOW
  }

  predicate ListLocks(times: seq<int>, now: int) {
    times != [] && !Elapsed(times, now) && |times| >= MAX_FAILED_ATTEMPTS
  }

  function Pruned(times: seq<int>, now: int): seq<int> {
    if Elapsed(times, now) then [] else times
  }

  function CountAt(row: Option<Row>, now: int): int {
    if row == None || row.value.windowStart < now - WINDOW || row.value.expiresAt < now then 0 else row.value.count
  }

  predicate RowLocks(row: Option<Row>, now: int) {
    CountAt(row, now) >= MAX_FAILED_ATTEMPTS
  }

  /** The upsert of a failed attempt. */
  function Recorded(row: Option<Row>, now: int): Row {
    if row == None || row.value.windowStart < now - WINDOW then Row(1, now, now + WINDOW)
    else Row(row.value.count + 1, row.value.windowStart, now + WINDOW)
  }

  function Verdict(s: State, a: Attempt): Outcome {
    if ListLocks(s.times, a.gate1) then Refused(AtLeastOne(CeilDiv(s.times[0] + WINDOW - a.gate1, MINUTE)))
    else if RowLocks(s.row, a.gate2) then Refused(AtLeastOne(CeilDiv((s.row.value.expiresAt - a.gate2) / 1_000_000 + 1, 60)))
    else if a.correct then LoggedIn
    else Failed
  }

  function After(s: State, a: Attempt): State {
    if ListLocks(s.times, a.gate1) then s
    else if RowLocks(s.row, a.gate2) then s.(times := Pruned(s.times, a.gate1))
    else if a.correct then State([], None)
    else State(Pruned(s.times, a.gate1) + [a.append], Some(Recorded(s.row, a.record)))
  }

  /** A user row as the lookup finds it. */
  datatype User = User(id: int, isActive: bool, hasPassword: bool)

  class AuthService {
    var failedLogins: map<int, seq<int>>
    var rateLimits: map<string, Row>

    constructor ()
      ensures failedLogins == map[] && rateLimits == map[]
    {
      failedLogins, rateLimits := map[], map[];
    }

    function Of(uid: int, key: string): State
      reads this
    {
      State(if uid in failedLogins then failedLogins[uid] else [],
            if key in rateLimits then Some(rateLimits[key]) else None)
    }

    method CheckRateLimit(key: string, now: int) returns (locked: bool, minutes: int)
      ensures locked == RowLocks(if key in rateLimits then Some(rateLimits[key]) else None, now)
      ensures locked ==> minutes == AtLeastOne(CeilDiv((rateLimits[key].expiresAt - now) / 1_000_000 + 1, 60))
    {
      if key !in rateLimits {
        return false, 0;
      }
      var row := rateLimits[key];
      var count := row.count;
      if row.windowStart < now - WINDOW {
        count := 0;
      }
      if row.expiresAt < now {
        count := 0;
      }
      if count >= MAX_FAILED_ATTEMPTS {
        return true, AtLeastOne(CeilDiv((row.expiresAt - now) / 1_000_000 + 1, 60));
      }
      return false, 0;
    }

    method RecordFailedAttempt(key: string, now: int) returns (count: int)
      modifies this`rateLimits
      ensures rateLimits == old(rateLimits)[key := Recorded(if key in old(rateLimits) then Some(old(rateLimits[key])) else None, now)]
      ensures count == rateLimits[key].count
    {
      if key !in rateLimits {
        rateLimits := rateLimits[key := Row(1, now, now + WINDOW)];
      } else {
        var row := rateLimits[key];
        var stale := row.windowStart < now - WINDOW;
        rateLimits := rateLimits[key := Row(if stale then 1 else row.count + 1,
                                            if stale then now else row.windowStart, now + WINDOW)];
      }
      count := rateLimits[key].count;
    }

    method ClearRateLimit(key: string)
      modifies this`rateLimits
      ensures rateLimits == old(rateLimits) - {key}
    {
      rateLimits := rateLimits - {key};
    }

    /** None stands for the refusal of an unknown, inactive or password-less user. */
    method Authenticate(user: Option<User>, key: string, a: Attempt) returns (outcome: Option<Outcome>)
      modifies this
      ensures outcome == None <==> user == None || !user.value.isActive || !user.value.hasPassword
      ensures outcome == None ==> failedLogins == old(failedLogins) && rateLimits == old(rateLimits)
      ensures outcome != None ==>
                outcome == Some(Verdict(old(Of(user.value.id, key)), a)) && Of(user.value.id, key) == After(old(Of(user.value.id, key)), a)
      ensures outcome != None ==> failedLogins - {user.value.id} == old(failedLogins) - {user.value.id}
      ensures rateLimits - {key} == old(rateLimits) - {key}
    {
      if user == None || !user.value.isActive || !user.value.hasPassword {
        return None;
      }
      var uid := user.value.id;
      if uid in failedLogins && failedLogins[uid] != [] {
        var entries := failedLogins[uid];
        var first := entries[0];
        if first < a.gate1 - WINDOW {
          failedLogins := failedLogins - {uid};
        } else if |entries| >= MAX_FAILED_ATTEMPTS {
          return Some(Refused(AtLeastOne(CeilDiv(first + WINDOW - a.gate1, MINUTE))));
        }
      }
      var locked, minutes := CheckRateLimit(key, a.gate2);
      if locked {
        return Some(Refused(minutes));
      }
      if a.correct {
        ClearRateLimit(key);
        failedLogins := failedLogins - {uid};
        return Some(LoggedIn);
      }
      var count := RecordFailedAttempt(key, a.record);
      failedLogins := failedLogins[uid := (if uid in failedLogins then failedLogins[uid] else []) + [a.append]];
      return Some(Failed);
    }
  }
}

/** The two layers agree, and together they bound the failures of every interval of one window's length. */
module LockoutRuns {
  import opened Options
  import opened Lockout

  /** What can happen to one user's state: an attempt, or anything at all to the shared database row. */
  datatype Event = Try(attempt: Attempt) | Outside(row: Option<Row>)

  function Step(s: State, e: Event): State {
    match e
    case Try(a) => After(s, a)
    case Outside(row) => s.(row := row)
  }

  function Run(events: seq<Event>): State {
    if events == [] then State([], None) else Step(Run(events[..|events| - 1]), events[|events| - 1])
  }

  predicate Ordered(a: Attempt) {
    a.gate1 <= a.gate2 <= a.record <= a.append
  }

  /** The clock never goes back: within an attempt, nor from one attempt to the next. */
  ghost predicate Clocked(events: seq<Event>) {
    && (forall i :: 0 <= i < |events| && events[i].Try? ==> Ordered(events[i].attempt))
    && (forall i, j :: 0 <= i < j < |events| && events[i].Try? && events[j].Try? ==>
          events[i].attempt.append <= events[j].attempt.gate1)
  }

  // ---- one attempt ----

  const FIFTEEN_MINUTES := 15 * 60 * 1_000_000

  /** Five failures whose first is at most fifteen minutes old. */
  predicate ListFull(s: State, now: int) {
    |s.times| >= 5 && now - s.times[0] <= FIFTEEN_MINUTES
  }

  /** A count of five in a window that began at most fifteen minutes ago and has not expired. */
  predicate RowFull(s: State, now: int) {
    s.row != None && s.row.value.count >= 5 && now - s.row.value.windowStart <= FIFTEEN_MINUTES && now <= s.row.value.expiresAt
  }

  /** An attempt is refused exactly when one of the two layers is full, whatever the password; otherwise the
      password decides. The announced minutes are the least that cover what is left of the window. */
  lemma VerdictExactly(s: State, a: Attempt)
    ensures Verdict(s, a).Refused? <==> ListFull(s, a.gate1) || RowFull(s, a.gate2)
    ensures !Verdict(s, a).Refused? ==> Verdict(s, a) == if a.correct then LoggedIn else Failed
    ensures ListFull(s, a.gate1) ==>
              var left, m := s.times[0] + FIFTEEN_MINUTES - a.gate1, Verdict(s, a).minutes;
              m >= 1 && m * 60_000_000 >= left && (m > 1 ==> (m - 1) * 60_000_000 < left)
    ensures !ListFull(s, a.gate1) && RowFull(s, a.gate2) ==>
              var left, m := (s.row.value.expiresAt - a.gate2) / 1_000_000 + 1, Verdict(s, a).minutes;
              m >= 1 && m * 60 >= left && (m > 1 ==> (m - 1) * 60 < left)
  {
  }

  /** What an attempt leaves: a refusal by the list nothing new; a refusal by the counter at most an emptied list; a
      login neither; a failure one more in both, in a new window if the old one is over. */
  lemma AfterExactly(s: State, a: Attempt)
    ensures var over15 := s.times != [] && a.gate1 - s.times[0] > FIFTEEN_MINUTES;
            var kept := if over15 then [] else s.times;
            && (ListFull(s, a.gate1) ==> After(s, a) == s)
            && (!ListFull(s, a.gate1) && RowFull(s, a.gate2) ==> After(s, a) == State(kept, s.row))
            && (Verdict(s, a) == LoggedIn ==> After(s, a) == State([], None))
            && (Verdict(s, a) == Failed ==>
                  var over := s.row == None || a.record - s.row.value.windowStart > FIFTEEN_MINUTES;
                  After(s, a) == State(
                    kept + [a.append],
                    Some(Row(if over then 1 else s.row.value.count + 1, if over then a.record else s.row.value.windowStart,
                             a.record + FIFTEEN_MINUTES))))
  {
  }

  // ---- agreement ----

  /** One clock reading per attempt, and nobody else touches the row. */
  ghost predicate Alone(events: seq<Event>) {
    forall i :: 0 <= i < |events| ==> events[i].Try? && events[i].attempt.gate1 == events[i].attempt.append
  }

  /** The row counts the list. */
  ghost predicate Agree(s: State) {
    if s.times == [] then s.row == None
    else s.row == Some(Row(|s.times|, s.times[0], s.times[|s.times| - 1] + WINDOW)) && s.times[0] <= s.times[|s.times| - 1]
  }

  lemma AgreeStep(s: State, a: Attempt)
    requires Agree(s) && (s.times != [] ==> s.times[|s.times| - 1] <= a.gate1)
    requires Ordered(a) && a.gate1 == a.append
    ensures Agree(After(s, a))
    ensures var t := After(s, a).times; t != [] ==> t[|t| - 1] <= a.append
  {
  }

  lemma {:induction false} AlwaysAgree(events: seq<Event>)
    requires Clocked(events) && Alone(events)
    ensures Agree(Run(events))
    ensures var t := Run(events).times; t != [] ==> events != [] && t[|t| - 1] <= events[|events| - 1].attempt.append
  {
    if events != [] {
      var n := |events| - 1;
      assert forall j :: 0 <= j < n ==> events[..n][j] == events[j];
      AlwaysAgree(events[..n]);
      assert n > 0 ==> events[n - 1].Try? && events[n - 1].attempt.append <= events[n].attempt.gate1;
      AgreeStep(Run(events[..n]), events[n].attempt);
    }
  }

  /** In one process, with one clock reading per attempt, list and counter give every attempt the same verdict. */
  lemma SameVerdict(events: seq<Event>, a: Attempt)
    requires Clocked(events + [Try(a)]) && Alone(events + [Try(a)])
    ensures ListLocks(Run(events).times, a.gate1) <==> RowLocks(Run(events).row, a.gate2)
  {
    var all := events + [Try(a)];
    assert forall i :: 0 <= i < |events| ==> all[i] == events[i];
    assert all[|events|].attempt == a;
    assert events != [] ==> all[|events| - 1].attempt.append <= all[|events|].attempt.gate1;
    AlwaysAgree(events);
  }

  // ---- the sliding bound ----

  predicate In(t: int, from: int) {
    from <= t <= from + 15 * 60 * 1_000_000
  }

  function CountIn(times: seq<int>, from: int): (n: nat)
    ensures n <= |times|
  {
    if times == [] then 0 else CountIn(times[..|times| - 1], from) + if In(times[|times| - 1], from) then 1 else 0
  }

  /** The failed password checks between `from` and `from + WINDOW`. */
  function FailuresIn(events: seq<Event>, from: int): nat {
    if events == [] then 0
    else
      var e := events[|events| - 1];
      FailuresIn(events[..|events| - 1], from)
      + if e.Try? && Verdict(Run(events[..|events| - 1]), e.attempt) == Failed && In(e.attempt.append, from) then 1 else 0
  }

  ghost predicate NoLoginIn(events: seq<Event>, from: int) {
    forall i :: 0 <= i < |events| && events[i].Try? && In(events[i].attempt.append, from) ==>
      Verdict(Run(events[..i]), events[i].attempt) != LoggedIn
  }

  function Latest(events: seq<Event>, start: int): int {
    if events == [] then start
    else match events[|events| - 1]
      case Try(a) => a.append
      case Outside(_) => Latest(events[..|events| - 1], start)
  }

  lemma {:induction false} FewBeforeFirst(times: seq<int>, from: int)
    requires times != [] && times[0] < from
    ensures CountIn(times, from) <= |times| - 1
  {
    if |times| > 1 {
      FewBeforeFirst(times[..|times| - 1], from);
    }
  }

  lemma {:induction false} NoneIn(times: seq<int>, from: int)
    requires forall i :: 0 <= i < |times| ==> !In(times[i], from)
    ensures CountIn(times, from) == 0
  {
    if times != [] {
      NoneIn(times[..|times| - 1], from);
    }
  }

  ghost predicate ListKept(times: seq<int>, latest: int) {
    |times| <= MAX_FAILED_ATTEMPTS && forall i :: 0 <= i < |times| ==> times[i] <= latest
  }

  /** `n` failures so far: all of them still in the list; or a list that began inside the interval and at most
      four others; or the interval is over. */
  ghost predicate Bounded(n: int, times: seq<int>, latest: int, from: int) {
    || n == CountIn(times, from)
    || (n <= 4 + CountIn(times, from) && latest >= from && (times == [] || times[0] >= from))
    || (n <= 9 && latest > from + WINDOW)
  }

  lemma CountMore(times: seq<int>, t: int, from: int)
    ensures CountIn(times + [t], from) == CountIn(times, from) + if In(t, from) then 1 else 0
  {
  }

  lemma FailureBounded(s: State, a: Attempt, n: nat, latest: int, from: int)
    requires ListKept(s.times, latest) && Bounded(n, s.times, latest, from)
    requires n > 0 ==> latest >= from
    requires Ordered(a) && latest <= a.gate1 && Verdict(s, a) == Failed
    ensures var more := if In(a.append, from) then 1 else 0;
            ListKept(After(s, a).times, a.append) && Bounded(n + more, After(s, a).times, a.append, from)
  {
    CountMore(Pruned(s.times, a.gate1), a.append, from);
    if s.times != [] && s.times[0] < from {
      FewBeforeFirst(s.times, from);
    }
    if latest < from {
      NoneIn(s.times, from);
    }
  }

  lemma AttemptBounded(s: State, a: Attempt, n: nat, latest: int, from: int)
    requires ListKept(s.times, latest) && Bounded(n, s.times, latest, from)
    requires n > 0 ==> latest >= from
    requires Ordered(a) && latest <= a.gate1
    requires In(a.append, from) ==> Verdict(s, a) != LoggedIn
    ensures var more := if Verdict(s, a) == Failed && In(a.append, from) then 1 else 0;
            ListKept(After(s, a).times, a.append) && Bounded(n + more, After(s, a).times, a.append, from)
            && (n + more > 0 ==> a.append >= from)
  {
    if Verdict(s, a) == Failed {
      FailureBounded(s, a, n, latest, from);
    } else {
      if s.times != [] && s.times[0] < from {
        FewBeforeFirst(s.times, from);
      }
      if latest < from {
        NoneIn(s.times, from);
      }
    }
  }

  lemma {:induction false} RunBounded(events: seq<Event>, from: int, start: int)
    requires Clocked(events) && NoLoginIn(events, from)
    requires forall i :: 0 <= i < |events| && events[i].Try? ==> start <= events[i].attempt.gate1
    ensures ListKept(Run(events).times, Latest(events, start))
    ensures Bounded(FailuresIn(events, from), Run(events).times, Latest(events, start), from)
    ensures FailuresIn(events, from) > 0 ==> Latest(events, start) >= from
    ensures Latest(events, start) == start || exists i :: 0 <= i < |events| && events[i].Try? && events[i].attempt.append == Latest(events, start)
  {
    if events != [] {
      var n := |events| - 1;
      var front := events[..n];
      assert forall i :: 0 <= i < n ==> front[i] == events[i];
      forall i | 0 <= i < n && front[i].Try? && In(front[i].attempt.append, from)
        ensures Verdict(Run(front[..i]), front[i].attempt) != LoggedIn
      {
        assert front[..i] == events[..i];
      }
      RunBounded(front, from, start);
      if events[n].Try? {
        AttemptBounded(Run(front), events[n].attempt, FailuresIn(front, from), Latest(front, start), from);
      }
    }
  }

  /** Any closed interval of 15 minutes without a successful login holds at most nine failed password checks,
      whatever the other workers do to the shared row. */
  lemma AtMostNine(events: seq<Event>, from: int)
    requires Clocked(events) && NoLoginIn(events, from)
    ensures FailuresIn(events, from) <= 9
  {
    var start := Earliest(events);
    RunBounded(events, from, start);
  }

  lemma {:induction false} Earliest(events: seq<Event>) returns (start: int)
    ensures forall i :: 0 <= i < |events| && events[i].Try? ==> start <= events[i].attempt.gate1
  {
    start := 0;
    if events != [] {
      start := Earliest(events[..|events| - 1]);
      var e := events[|events| - 1];
      if e.Try? && e.attempt.gate1 < start {
        start := e.attempt.gate1;
      }
      assert forall i :: 0 <= i < |events| - 1 ==> events[..|events| - 1][i] == events[i];
    }
  }

  /** Nine do happen: one failure, four more at the end of its window, five right after it. */
  function Burst(count: nat, at: int): seq<Event> {
    seq(count, i => Try(Attempt(at, at, at, at, false)))
  }

  lemma TryLast(events: seq<Event>, a: Attempt, from: int)
    ensures Run(events + [Try(a)]) == After(Run(events), a)
    ensures FailuresIn(events + [Try(a)], from) ==
            FailuresIn(events, from) + if Verdict(Run(events), a) == Failed && In(a.append, from) then 1 else 0
  {
  }

  ghost predicate Counting(s: State, n: int, at: int) {
    Agree(s) && |s.times| == n > 0 && !Elapsed(s.times, at) && s.times[n - 1] <= at
  }

  lemma OneMore(s: State, n: int, at: int)
    requires Counting(s, n, at) && n < MAX_FAILED_ATTEMPTS
    ensures var a := Attempt(at, at, at, at, false);
            Verdict(s, a) == Failed && Counting(After(s, a), n + 1, at) && After(s, a).times[0] == s.times[0]
  {
  }

  lemma FailOnce(events: seq<Event>, u: State, failed: nat, n: int, at: int, from: int) returns (t: State)
    requires Run(events) == u && FailuresIn(events, from) == failed
    requires Counting(u, n, at) && n < MAX_FAILED_ATTEMPTS
    ensures var more := events + [Try(Attempt(at, at, at, at, false))];
            Run(more) == t && FailuresIn(more, from) == failed + if In(at, from) then 1 else 0
    ensures Counting(t, n + 1, at) && t.times[0] == u.times[0]
  {
    var a := Attempt(at, at, at, at, false);
    TryLast(events, a, from);
    OneMore(u, n, at);
    t := After(u, a);
  }

  lemma FailFourTimes(events: seq<Event>, s: State, failed: nat, at: int, from: int) returns (t: State)
    requires Run(events) == s && FailuresIn(events, from) == failed
    requires Counting(s, 1, at) && In(at, from)
    ensures Run(events + Burst(4, at)) == t && FailuresIn(events + Burst(4, at), from) == failed + 4
    ensures Counting(t, 5, at) && t.times[0] == s.times[0]
  {
    var e := [Try(Attempt(at, at, at, at, false))];
    var t1 := FailOnce(events, s, failed, 1, at, from);
    var t2 := FailOnce(events + e, t1, failed + 1, 2, at, from);
    var t3 := FailOnce(events + e + e, t2, failed + 2, 3, at, from);
    t := FailOnce(events + e + e + e, t3, failed + 3, 4, at, from);
    assert events + Burst(4, at) == events + e + e + e + e;
  }

  function Nine(): seq<Event> {
    var late := WINDOW + 1;
    [Try(Attempt(0, 0, 0, 0, false))] + Burst(4, WINDOW) + [Try(Attempt(late, late, late, late, false))] + Burst(4, late)
  }

  lemma EightMore(a: seq<Event>, s: State, again: Attempt)
    requires Run(a) == s && FailuresIn(a, WINDOW) == 0
    requires Counting(s, 1, WINDOW) && s.times[0] == 0
    requires again == Attempt(WINDOW + 1, WINDOW + 1, WINDOW + 1, WINDOW + 1, false)
    ensures FailuresIn(a + Burst(4, WINDOW) + [Try(again)] + Burst(4, WINDOW + 1), WINDOW) == 9
  {
    var t := FailFourTimes(a, s, 0, WINDOW, WINDOW);
    var b := a + Burst(4, WINDOW);
    TryLast(b, again, WINDOW);
    LateStartsOver(t, again);
    var u := FailFourTimes(b + [Try(again)], After(t, again), 5, WINDOW + 1, WINDOW);
  }

  lemma NineFail()
    ensures FailuresIn(Nine(), WINDOW) == 9
  {
    var first := Attempt(0, 0, 0, 0, false);
    assert [] + [Try(first)] == [Try(first)];
    TryLast([], first, WINDOW);
    EightMore([Try(first)], After(State([], None), first), Attempt(WINDOW + 1, WINDOW + 1, WINDOW + 1, WINDOW + 1, false));
  }

  lemma LateStartsOver(t: State, again: Attempt)
    requires Agree(t) && t.times != [] && t.times[0] == 0
    requires again == Attempt(WINDOW + 1, WINDOW + 1, WINDOW + 1, WINDOW + 1, false)
    ensures Verdict(t, again) == Failed && Counting(After(t, again), 1, WINDOW + 1) && |After(t, again).times| == 1
  {
  }

  function NineTime(i: int): int {
    if i == 0 then 0 else if i < 5 then WINDOW else WINDOW + 1
  }

  lemma NineAt(i: nat)
    requires i < |Nine()|
    ensures Nine()[i] == Try(Attempt(NineTime(i), NineTime(i), NineTime(i), NineTime(i), false))
  {
  }

  lemma InTime(events: seq<Event>)
    requires forall i: nat :: i < |events| ==>
               events[i] == Try(Attempt(NineTime(i), NineTime(i), NineTime(i), NineTime(i), false))
    ensures Clocked(events)
  {
  }

  lemma WrongPasswords(events: seq<Event>, from: int)
    requires forall i :: 0 <= i < |events| ==> events[i].Try? && !events[i].attempt.correct
    ensures NoLoginIn(events, from)
  {
  }

  lemma NineIsReached()
    ensures Clocked(Nine()) && NoLoginIn(Nine(), WINDOW) && FailuresIn(Nine(), WINDOW) == 9
  {
    NineFail();
    forall i: nat | i < |Nine()|
      ensures Nine()[i] == Try(Attempt(NineTime(i), NineTime(i), NineTime(i), NineTime(i), false))
    {
      NineAt(i);
    }
    InTime(Nine());
    WrongPasswords(Nine(), WINDOW);
  }

  // ---- the announced wait ----

  /** A refusal by the list announces between 1 and 15 minutes, and any time after them the list no longer refuses. */
  lemma WaitIsEnough(s: State, a: Attempt, later: int)
    requires ListLocks(s.times, a.gate1) && s.times[0] <= a.gate1
    ensures Verdict(s, a).Refused? && 1 <= Verdict(s, a).minutes <= 15
    ensures later > a.gate1 + Verdict(s, a).minutes * MINUTE ==> !ListLocks(After(s, a).times, later)
  {
  }

  /** A refusal by the counter announces between 1 and 16 minutes, after which the row no longer refuses. */
  lemma RowWaitIsEnough(s: State, a: Attempt, later: int)
    requires !ListLocks(s.times, a.gate1) && RowLocks(s.row, a.gate2) && s.row.value.expiresAt <= a.gate2 + WINDOW
    ensures Verdict(s, a).Refused? && 1 <= Verdict(s, a).minutes <= 16
    ensures later >= a.gate2 + Verdict(s, a).minutes * MINUTE ==> !RowLocks(After(s, a).row, later)
  {
  }
}
