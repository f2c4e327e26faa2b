/** Concurrent requests that set a manager: every lookup of the walk and the final write is a step of its own,
    and any other step may come in between. */
module HierarchyRequests {
  import opened Options
  import opened Hierarchy
  import opened HierarchyResults

  datatype Phase = Asked | Walking(current: int, chain: seq<int>, left: nat) | Cleared(chain: seq<int>)
                 | TurnedAway(refusal: Refusal) | Written

  /** `since` is a history field: the users whose link was written since the request first looked. */
  datatype Request = Request(user: int, manager: int, phase: Phase, since: set<int>)

  datatype State = State(users: Users, requests: seq<Request>)

  datatype Step = Submit(user: int, manager: int) | Look(r: int) | Write(r: int) | Unlink(user: int)

  function Judged(q: Request, chain: seq<int>): Phase {
    if q.user in chain then TurnedAway(Circular) else Cleared(chain)
  }

  /** One read: the manager's row, or the next link of the walk. */
  function Looked(users: Users, q: Request): Request {
    match q.phase
    case Asked =>
      q.(since := {},
         phase := if q.user == q.manager then TurnedAway(SelfReport)
                  else if q.manager !in users || users[q.manager].isDeleted then TurnedAway(NotFound)
                  else if !users[q.manager].isActive then TurnedAway(Inactive)
                  else Walking(q.manager, [], MAX_DEPTH))
    case Walking(current, chain, left) =>
      var next := ManagerOf(users, current);
      q.(phase := if left == 0 || next == None || next.value in chain then Judged(q, chain)
                  else Walking(next.value, chain + [next.value], left - 1))
    case _ => q
  }

  function Touch(requests: seq<Request>, user: int): seq<Request> {
    seq(|requests|, i requires 0 <= i < |requests| => requests[i].(since := requests[i].since + {user}))
  }

  predicate Pending(s: State, r: int) {
    0 <= r < |s.requests|
  }

  function Next(s: State, step: Step): State {
    match step
    case Submit(user, manager) => s.(requests := s.requests + [Request(user, manager, Asked, {})])
    case Look(r) => if Pending(s, r) then s.(requests := s.requests[r := Looked(s.users, s.requests[r])]) else s
    case Write(r) =>
      if !Pending(s, r) || !s.requests[r].phase.Cleared? then s
      else
        var q := s.requests[r];
        State(Linked(s.users, q.user, Some(q.manager)), Touch(s.requests[r := q.(phase := Written)], q.user))
    case Unlink(user) => State(Linked(s.users, user, None), Touch(s.requests, user))
  }

  function Exec(s: State, steps: seq<Step>): State
    decreases |steps|
  {
    if steps == [] then s else Exec(Next(s, steps[0]), steps[1..])
  }

  lemma {:induction false} ExecConcat(s: State, a: seq<Step>, b: seq<Step>)
    ensures Exec(s, a + b) == Exec(Exec(s, a), b)
    decreases |a|
  {
    if a == [] {
      assert a + b == b;
    } else {
      assert (a + b)[1..] == a[1..] + b;
      ExecConcat(Next(s, a[0]), a[1..], b);
    }
  }

  // ---- a request alone ----

  /** The lookups of a request that nothing disturbs are the walk. */
  lemma {:induction false} LooksAreTheWalk(s: State, r: int) returns (steps: seq<Step>)
    requires Pending(s, r) && s.requests[r].phase.Walking?
    ensures var q := s.requests[r];
            var chain := Walk(s.users, q.phase.current, q.phase.chain, q.phase.left);
            Exec(s, steps) == s.(requests := s.requests[r := q.(phase := Judged(q, chain))])
    decreases s.requests[r].phase.left
  {
    var next := Next(s, Look(r));
    if next.requests[r].phase.Walking? {
      steps := LooksAreTheWalk(next, r);
      steps := [Look(r)] + steps;
    } else {
      steps := [Look(r)];
      assert Exec(next, steps[1..]) == next;
    }
  }

  /** Asked and answered without interference, the guard is `Refused`. */
  lemma LooksAreTheGuard(s: State, r: int) returns (steps: seq<Step>)
    requires Pending(s, r) && s.requests[r].phase.Asked?
    ensures var q := s.requests[r];
            var refusal := Refused(s.users, q.user, q.manager);
            var phase := if refusal == None then Cleared(Walk(s.users, q.manager, [], MAX_DEPTH)) else TurnedAway(refusal.value);
            Exec(s, steps) == s.(requests := s.requests[r := q.(phase := phase, since := {})])
  {
    var next := Next(s, Look(r));
    steps := [];
    if next.requests[r].phase.Walking? {
      steps := LooksAreTheWalk(next, r);
    }
    steps := [Look(r)] + steps;
  }

  /** With its write it is the assignment as one step. */
  lemma AloneIsAssign(s: State, r: int) returns (steps: seq<Step>)
    requires Pending(s, r) && s.requests[r].phase.Asked?
    ensures Exec(s, steps).users == Do(s.users, Assign(s.requests[r].user, s.requests[r].manager))
  {
    var looks := LooksAreTheGuard(s, r);
    steps := looks + [Write(r)];
    ExecConcat(s, looks, [Write(r)]);
  }

  // ---- what a cleared request still knows ----

  /** The user whose link the walk read as its `i`-th. */
  function Read(q: Request, chain: seq<int>, i: nat): int
    requires i <= |chain|
  {
    if i == 0 then q.manager else chain[i - 1]
  }

  /** A link the walk read is still there unless it was written since. */
  ghost predicate LinkKnown(users: Users, q: Request, chain: seq<int>, i: nat)
    requires i < |chain|
  {
    Read(q, chain, i) in q.since || ManagerOf(users, Read(q, chain, i)) == Some(chain[i])
  }

  ghost predicate ChainKnown(users: Users, q: Request, chain: seq<int>) {
    q.manager in users && forall i :: 0 <= i < |chain| ==> LinkKnown(users, q, chain, i)
  }

  /** So is the reason why it stopped. */
  ghost predicate EndKnown(users: Users, q: Request, chain: seq<int>) {
    var next := ManagerOf(users, Read(q, chain, |chain|));
    Read(q, chain, |chain|) in q.since || |chain| == MAX_DEPTH || next == None || next.value in chain
  }

  ghost predicate RequestOk(users: Users, q: Request) {
    match q.phase
    case Walking(current, chain, left) =>
      q.user != q.manager && ChainKnown(users, q, chain)
      && |chain| + left == MAX_DEPTH && current == Read(q, chain, |chain|)
    case Cleared(chain) =>
      q.user != q.manager && ChainKnown(users, q, chain) && EndKnown(users, q, chain) && q.user !in chain
    case _ => true
  }

  ghost predicate Valid(s: State) {
    LinksInside(s.users) && forall r :: Pending(s, r) ==> RequestOk(s.users, s.requests[r])
  }

  lemma LookedOk(users: Users, q: Request)
    requires RequestOk(users, q)
    ensures RequestOk(users, Looked(users, q))
  {
    if q.phase.Walking? {
      var chain, after := q.phase.chain, Looked(users, q);
      var next := ManagerOf(users, q.phase.current);
      var longer := if after.phase.Walking? then after.phase.chain else chain;
      forall i | 0 <= i < |longer| ensures LinkKnown(users, after, longer, i) {
        assert i < |chain| ==> LinkKnown(users, q, chain, i);
      }
    }
  }

  /** A link written meanwhile is one the request no longer counts on. */
  lemma TouchedOk(users: Users, q: Request, user: int, manager: Option<int>)
    requires RequestOk(users, q)
    ensures RequestOk(Linked(users, user, manager), q.(since := q.since + {user}))
  {
    var after, q' := Linked(users, user, manager), q.(since := q.since + {user});
    if q.phase.Walking? || q.phase.Cleared? {
      var chain := q.phase.chain;
      forall i | 0 <= i < |chain| ensures LinkKnown(after, q', chain, i) {
        assert LinkKnown(users, q, chain, i);
      }
    }
  }

  lemma StepKeeps(s: State, step: Step)
    requires Valid(s)
    ensures Valid(Next(s, step)) && Next(s, step).users.Keys == s.users.Keys
  {
    var next := Next(s, step);
    forall r | Pending(next, r) ensures RequestOk(next.users, next.requests[r]) {
      if r < |s.requests| {
        var q := s.requests[r];
        assert RequestOk(s.users, q);
        match step
        case Submit(_, _) =>
        case Look(i) => LookedOk(s.users, q);
        case Write(i) =>
          if next != s {
            TouchedOk(s.users, if r == i then q.(phase := Written) else q, s.requests[i].user, Some(s.requests[i].manager));
          }
        case Unlink(user) => TouchedOk(s.users, q, user, None);
      }
    }
    if step.Write? && next != s {
      assert RequestOk(s.users, s.requests[step.r]);
    }
  }

  // ---- when a write closes a cycle ----

  /** A user from the manager's line up to `user` whose link was written since the request first looked. */
  ghost predicate Overtaken(users: Users, q: Request, k: nat) {
    exists i: nat :: i < k && Up(users, q.manager, i) != None && Up(users, q.manager, i).value in q.since
  }

  /** While nothing on the line was written, the chain is the line. */
  lemma {:induction false} ChainIsLine(users: Users, q: Request, chain: seq<int>, k: nat, i: nat)
    requires ChainKnown(users, q, chain) && !Overtaken(users, q, k) && i <= |chain| && i <= k
    ensures Up(users, q.manager, i) == Some(Read(q, chain, i))
  {
    if i > 0 {
      ChainIsLine(users, q, chain, k, i - 1);
      assert LinkKnown(users, q, chain, i - 1);
      assert Read(q, chain, i - 1) !in q.since;
    }
  }

  /** A cleared request finds its user above the manager only if a link in between was written since it looked. */
  lemma ClearedIsOvertaken(users: Users, q: Request, k: nat)
    requires q.phase.Cleared? && RequestOk(users, q) && Acyclic(users)
    requires 1 <= k <= MAX_DEPTH && Up(users, q.manager, k) == Some(q.user)
    ensures Overtaken(users, q, k)
  {
    var chain := q.phase.chain;
    if !Overtaken(users, q, k) {
      if k <= |chain| {
        ChainIsLine(users, q, chain, k, k);
        assert false;
      } else {
        var n := |chain|;
        ChainIsLine(users, q, chain, k, n);
        var next := Up(users, q.manager, n + 1);
        assert next == ManagerOf(users, Read(q, chain, n));
        assert Read(q, chain, n) !in q.since;
        if next == None {
          NoneStays(users, q.manager, n + 1, k);
        } else {
          var j :| 0 <= j < n && chain[j] == next.value;
          ChainIsLine(users, q, chain, k, j + 1);
          UpSum(users, q.manager, j + 1, n - j);
        }
        assert false;
      }
    }
  }

  /** With at most 51 users: the write of a cleared request closes a cycle if and only if its user is above the
      manager by now, and that takes a link on the way from the manager up to the user that was written since
      the request first looked. */
  lemma WriteExactly(s: State, r: int)
    requires Valid(s) && Acyclic(s.users) && |s.users.Keys| <= MAX_DEPTH + 1
    requires Pending(s, r) && s.requests[r].phase.Cleared? && s.requests[r].user in s.users
    ensures var q := s.requests[r];
            && (Acyclic(Next(s, Write(r)).users) <==> !IsAbove(s.users, q.manager, q.user))
            && (forall k: nat :: k > 0 && Up(s.users, q.manager, k) == Some(q.user) ==> Overtaken(s.users, q, k))
  {
    var q := s.requests[r];
    assert RequestOk(s.users, q);
    if k: nat :| k > 0 && Up(s.users, q.manager, k) == Some(q.user) {
      NewCycle(s.users, q.user, q.manager, k);
    } else {
      NoNewCycle(s.users, q.user, q.manager);
    }
    forall k: nat | k > 0 && Up(s.users, q.manager, k) == Some(q.user) ensures Overtaken(s.users, q, k) {
      if k > MAX_DEPTH {
        ChainFits(s.users, q.manager, k);
      }
      ClearedIsOvertaken(s.users, q, k);
    }
  }

  /** No write of the run is overtaken on its manager's line. */
  ghost predicate NoneOvertaken(s: State, steps: seq<Step>)
    decreases |steps|
  {
    steps == [] ||
    ((steps[0].Write? && Pending(s, steps[0].r) && s.requests[steps[0].r].phase.Cleared? ==>
        forall k: nat :: Up(s.users, s.requests[steps[0].r].manager, k) == Some(s.requests[steps[0].r].user) ==>
          !Overtaken(s.users, s.requests[steps[0].r], k))
     && NoneOvertaken(Next(s, steps[0]), steps[1..]))
  }

  /** So with at most 51 users no run of interleaved requests closes a cycle unless one overtakes another. */
  lemma {:induction false} InterleavedStaysAcyclic(s: State, steps: seq<Step>)
    requires Valid(s) && Acyclic(s.users) && |s.users.Keys| <= MAX_DEPTH + 1 && NoneOvertaken(s, steps)
    ensures Acyclic(Exec(s, steps).users)
    decreases |steps|
  {
    if steps != [] {
      StepKeeps(s, steps[0]);
      StepAcyclic(s, steps[0]);
      InterleavedStaysAcyclic(Next(s, steps[0]), steps[1..]);
    }
  }

  lemma StepAcyclic(s: State, step: Step)
    requires Valid(s) && Acyclic(s.users) && |s.users.Keys| <= MAX_DEPTH + 1 && NoneOvertaken(s, [step])
    ensures Acyclic(Next(s, step).users)
  {
    match step
    case Submit(_, _) =>
    case Look(_) =>
    case Unlink(user) => UnassignKeeps(s.users, user);
    case Write(r) =>
      if Pending(s, r) && s.requests[r].phase.Cleared? && s.requests[r].user in s.users {
        WriteExactly(s, r);
      }
  }

  /** Two requests that the guard accepts on the same hierarchy, each looking before the other writes, close a cycle. */
  lemma CrossedRequests(users: Users, a: int, b: int) returns (steps: seq<Step>)
    requires a in users && b in users && Refused(users, a, b) == None && Refused(users, b, a) == None
    ensures !Acyclic(Exec(State(users, []), [Submit(a, b), Submit(b, a)] + steps).users)
  {
    var s0 := State(users, []);
    var s := State(users, [Request(a, b, Asked, {}), Request(b, a, Asked, {})]);
    TwoSubmits(s0, a, b);
    assert s0.requests + s.requests == s.requests;
    var first := LooksAreTheGuard(s, 0);
    var t := Exec(s, first);
    var second := LooksAreTheGuard(t, 1);
    var u := Exec(t, second);
    var writes := [Write(0), Write(1)];
    steps := first + second + writes;
    ExecConcat(s0, [Submit(a, b), Submit(b, a)], steps);
    assert steps == first + (second + writes);
    ExecConcat(s, first, second + writes);
    ExecConcat(t, second, writes);
    TwoLinks(users, a, b);
    TwoWrites(u, a, b);
  }

  lemma TwoSubmits(s: State, a: int, b: int)
    ensures Exec(s, [Submit(a, b), Submit(b, a)]) ==
            s.(requests := s.requests + [Request(a, b, Asked, {}), Request(b, a, Asked, {})])
  {
    assert [Submit(a, b), Submit(b, a)][1..] == [Submit(b, a)];
    assert Exec(Next(s, Submit(a, b)), [Submit(b, a)]) == Next(Next(s, Submit(a, b)), Submit(b, a));
  }

  lemma TwoWrites(u: State, a: int, b: int)
    requires |u.requests| == 2 && u.requests[0].phase.Cleared? && u.requests[1].phase.Cleared?
    requires u.requests[0].user == a == u.requests[1].manager && u.requests[0].manager == b == u.requests[1].user
    ensures Exec(u, [Write(0), Write(1)]).users == Linked(Linked(u.users, a, Some(b)), b, Some(a))
  {
    var v := Next(u, Write(0));
    assert v.requests[1].phase.Cleared?;
    assert [Write(0), Write(1)][1..] == [Write(1)];
    assert Exec(v, [Write(1)]) == Next(v, Write(1));
  }

  lemma TwoLinks(users: Users, a: int, b: int)
    requires a in users && b in users && a != b
    ensures !Acyclic(Linked(Linked(users, a, Some(b)), b, Some(a)))
  {
    var after := Linked(Linked(users, a, Some(b)), b, Some(a));
    assert Up(after, a, 0) == Some(a);
    assert Up(after, a, 1) == Some(b);
    assert Up(after, a, 2) == Some(a);
  }
}
