/** The reporting hierarchy: a bounded walk up the manager links guards each new link against cycles. */
module Hierarchy {
  import opened Options

  datatype User = User(manager: Option<int>, isActive: bool, isDeleted: bool)
  type Users = map<int, User>

  const MAX_DEPTH := 50

  function ManagerOf(users: Users, u: int): Option<int> {
    if u in users then users[u].manager else None
  }

  /** The walk from `current` with `fuel` lookups left. */
  function Walk(users: Users, current: int, chain: seq<int>, fuel: nat): seq<int>
    decreases fuel
  {
    if fuel == 0 then chain
    else
      var next := ManagerOf(users, current);
      if next == None || next.value in chain then chain
      else Walk(users, next.value, chain + [next.value], fuel - 1)
  }

  datatype Refusal = SelfReport | NotFound | Inactive | Circular

  /** The guard of a new link; None when it is accepted. */
  function Refused(users: Users, user: int, manager: int): Option<Refusal> {
    if user == manager then Some(SelfReport)
    else if manager !in users || users[manager].isDeleted then Some(NotFound)
    else if !users[manager].isActive then Some(Inactive)
    else if user in Walk(users, manager, [], MAX_DEPTH) then Some(Circular)
    else None
  }

  function Linked(users: Users, user: int, manager: Option<int>): Users {
    if user in users then users[user := users[user].(manager := manager)] else users
  }

  class UserService {
    var users: Users

    constructor (users: Users)
      ensures this.users == users
    {
      this.users := users;
    }

    method ManagerChain(userId: int, maxDepth: nat) returns (chain: seq<int>)
      ensures chain == Walk(users, userId, [], maxDepth)
    {
      chain := [];
      var current := userId;
      for i := 0 to maxDepth
        invariant Walk(users, userId, [], maxDepth) == Walk(users, current, chain, maxDepth - i)
      {
        var next := ManagerOf(users, current);
        if next == None {
          break;
        }
        if next.value in chain {
          break;
        }
        chain := chain + [next.value];
        current := next.value;
      }
    }

    method SetReportingManager(user: int, manager: int) returns (refusal: Option<Refusal>)
      modifies this
      ensures refusal == Refused(old(users), user, manager)
      ensures users == if refusal == None then Linked(old(users), user, Some(manager)) else old(users)
      ensures users.Keys == old(users).Keys && users - {user} == old(users) - {user}
      ensures refusal == None && user in users ==> users[user] == User(Some(manager), old(users)[user].isActive, old(users)[user].isDeleted)
    {
      if user == manager {
        return Some(SelfReport);
      }
      if manager !in users || users[manager].isDeleted {
        return Some(NotFound);
      }
      if !users[manager].isActive {
        return Some(Inactive);
      }
      var chain := ManagerChain(manager, MAX_DEPTH);
      if user in chain {
        return Some(Circular);
      }
      if user in users {
        users := users[user := users[user].(manager := Some(manager))];
      }
      return None;
    }
  }
}

/** What the walk finds and when an accepted link keeps the hierarchy free of cycles. */
module HierarchyResults {
  import opened Options
  import opened Sums
  import opened Hierarchy

  /** The manager `n` links above `u`. */
  function Up(users: Users, u: int, n: nat): Option<int> {
    if n == 0 then Some(u)
    else
      var below := Up(users, u, n - 1);
      if below == None then None else ManagerOf(users, below.value)
  }

  ghost predicate Acyclic(users: Users) {
    forall u, n: nat :: n > 0 ==> Up(users, u, n) != Some(u)
  }

  /** Every manager is a user: the link is a foreign key. */
  ghost predicate LinksInside(users: Users) {
    forall u :: u in users && users[u].manager != None ==> users[u].manager.value in users
  }

  lemma {:induction false} UpSum(users: Users, u: int, a: nat, b: nat)
    ensures Up(users, u, a + b) == if Up(users, u, a) == None then None else Up(users, Up(users, u, a).value, b)
  {
    if b > 0 {
      UpSum(users, u, a, b - 1);
    }
  }

  // ---- the walk ----

  /** `chain` holds the first managers above `u`, each once. */
  ghost predicate Above(users: Users, u: int, chain: seq<int>) {
    && (forall i :: 0 <= i < |chain| ==> Up(users, u, i + 1) == Some(chain[i]))
    && (forall i, j :: 0 <= i < j < |chain| ==> chain[i] != chain[j])
  }

  /** The walk stops for want of a manager, at a repeat, or out of fuel. */
  lemma {:induction false} WalkSpec(users: Users, u: int, current: int, chain: seq<int>, fuel: nat)
    requires Above(users, u, chain) && Up(users, u, |chain|) == Some(current)
    ensures var r := Walk(users, current, chain, fuel);
            Above(users, u, r) && |r| <= |chain| + fuel
            && (|r| == |chain| + fuel || Up(users, u, |r| + 1) == None || Up(users, u, |r| + 1).value in r)
    decreases fuel
  {
    if fuel > 0 {
      var next := ManagerOf(users, current);
      assert Up(users, u, |chain| + 1) == next;
      if next != None && next.value !in chain {
        WalkSpec(users, u, next.value, chain + [next.value], fuel - 1);
      }
    }
  }

  /** Once the next manager repeats, all further ones do. */
  lemma {:induction false} RepeatStays(users: Users, u: int, chain: seq<int>, k: nat)
    requires Above(users, u, chain) && k > |chain|
    requires Up(users, u, |chain| + 1) != None && Up(users, u, |chain| + 1).value in chain
    ensures Up(users, u, k) != None && Up(users, u, k).value in chain
    decreases k
  {
    if k > |chain| + 1 {
      RepeatStays(users, u, chain, k - 1);
      var i :| 0 <= i < |chain| && chain[i] == Up(users, u, k - 1).value;
      assert Up(users, u, i + 1) == Some(chain[i]);
      assert Up(users, u, k) == Up(users, u, i + 2);
      assert i + 1 < |chain| ==> Up(users, u, (i + 1) + 1) == Some(chain[i + 1]);
    }
  }

  lemma {:induction false} NoneStays(users: Users, u: int, n: nat, k: nat)
    requires Up(users, u, n) == None && k >= n
    ensures Up(users, u, k) == None
    decreases k
  {
    if k > n {
      NoneStays(users, u, n, k - 1);
    }
  }

  lemma WalkFinds(users: Users, u: int, depth: nat, k: nat)
    requires 1 <= k <= depth && Up(users, u, k) != None
    ensures Up(users, u, k).value in Walk(users, u, [], depth)
  {
    WalkSpec(users, u, u, [], depth);
    var chain := Walk(users, u, [], depth);
    if k <= |chain| {
      assert Up(users, u, (k - 1) + 1) == Some(chain[k - 1]);
    } else if Up(users, u, |chain| + 1) == None {
      NoneStays(users, u, |chain| + 1, k);
    } else {
      RepeatStays(users, u, chain, k);
    }
  }

  /** `a` is between 1 and `depth` links above `u`. */
  ghost predicate WithinReach(users: Users, u: int, depth: nat, a: int) {
    exists k: nat :: 1 <= k <= depth && Up(users, u, k) == Some(a)
  }

  /** On every graph, cyclic or not, the walk ends without duplicates and finds exactly the managers within its depth. */
  lemma WalkExact(users: Users, u: int, depth: nat, a: int)
    ensures |Walk(users, u, [], depth)| <= depth
    ensures var chain := Walk(users, u, [], depth); forall i, j :: 0 <= i < j < |chain| ==> chain[i] != chain[j]
    ensures a in Walk(users, u, [], depth) <==> WithinReach(users, u, depth, a)
  {
    WalkSpec(users, u, u, [], depth);
    var chain := Walk(users, u, [], depth);
    if a in chain {
      var i :| 0 <= i < |chain| && chain[i] == a;
      assert Up(users, u, i + 1) == Some(chain[i]);
    }
    if WithinReach(users, u, depth, a) {
      var k: nat :| 1 <= k <= depth && Up(users, u, k) == Some(a);
      WalkFinds(users, u, depth, k);
    }
  }

  /** Which link is refused, and why first: a self report, a missing or deleted manager, an inactive one, and a user
      found within 50 links above the manager. Every other link is accepted. */
  lemma RefusedExactly(users: Users, user: int, manager: int)
    ensures var present := manager in users && !users[manager].isDeleted;
            var active := present && users[manager].isActive;
            && (Refused(users, user, manager) == Some(SelfReport) <==> user == manager)
            && (Refused(users, user, manager) == Some(NotFound) <==> user != manager && !present)
            && (Refused(users, user, manager) == Some(Inactive) <==> user != manager && present && !active)
            && (Refused(users, user, manager) == Some(Circular) <==>
                  user != manager && active && WithinReach(users, manager, 50, user))
  {
    WalkExact(users, manager, 50, user);
  }

  // ---- a new link ----

  /** A path that does not leave `user` is the same with and without the new link. */
  lemma {:induction false} SamePath(users: Users, user: int, manager: Option<int>, u: int, n: nat)
    requires forall i: nat :: i < n ==> Up(users, u, i) != Some(user)
    ensures Up(Linked(users, user, manager), u, n) == Up(users, u, n)
  {
    if n > 0 {
      SamePath(users, user, manager, u, n - 1);
      assert Up(users, u, n - 1) != Some(user);
    }
  }

  /** `user` is at least one link above `manager`. */
  ghost predicate IsAbove(users: Users, manager: int, user: int) {
    exists k: nat :: k > 0 && Up(users, manager, k) == Some(user)
  }

  lemma NewCycle(users: Users, user: int, manager: int, k: nat)
    requires user in users && Up(users, manager, k) == Some(user)
    ensures !Acyclic(Linked(users, user, Some(manager)))
  {
    var least := LeastStep(users, manager, user, k);
    var after := Linked(users, user, Some(manager));
    SamePath(users, user, Some(manager), manager, least);
    assert Up(after, user, 0) == Some(user);
    assert Up(after, user, 1) == Some(manager);
    UpSum(after, user, 1, least);
    assert Up(after, user, 1 + least) == Some(user);
  }

  lemma {:induction false} LeastStep(users: Users, u: int, target: int, k: nat) returns (least: nat)
    requires Up(users, u, k) == Some(target)
    ensures least <= k && Up(users, u, least) == Some(target)
    ensures forall i: nat :: i < least ==> Up(users, u, i) != Some(target)
    decreases k
  {
    if i: nat :| i < k && Up(users, u, i) == Some(target) {
      least := LeastStep(users, u, target, i);
    } else {
      least := k;
    }
  }

  lemma NoNewCycle(users: Users, user: int, manager: int)
    requires Acyclic(users) && user != manager && !IsAbove(users, manager, user)
    ensures Acyclic(Linked(users, user, Some(manager)))
  {
    var after := Linked(users, user, Some(manager));
    assert Up(users, manager, 0) == Some(manager);
    forall n: nat ensures Up(after, manager, n) != Some(user) {
      SamePath(users, user, Some(manager), manager, n);
    }
    forall u, n: nat | n > 0 ensures Up(after, u, n) != Some(u) {
      NotOnCycle(users, user, manager, u, n);
    }
  }

  lemma NotOnCycle(users: Users, user: int, manager: int, u: int, n: nat)
    requires Acyclic(users) && n > 0
    requires forall k: nat :: Up(Linked(users, user, Some(manager)), manager, k) != Some(user)
    ensures Up(Linked(users, user, Some(manager)), u, n) != Some(u)
  {
    var after := Linked(users, user, Some(manager));
    if Up(after, u, n) == Some(u) && user in users {
      if i: nat :| i < n && Up(after, u, i) == Some(user) {
        UpSum(after, u, n, i);
        UpSum(after, u, i + 1, n - 1);
      } else {
        BackSamePath(users, user, Some(manager), u, n);
      }
    }
  }

  lemma {:induction false} BackSamePath(users: Users, user: int, manager: Option<int>, u: int, n: nat)
    requires forall i: nat :: i < n ==> Up(Linked(users, user, manager), u, i) != Some(user)
    ensures Up(Linked(users, user, manager), u, n) == Up(users, u, n)
  {
    if n > 0 {
      BackSamePath(users, user, manager, u, n - 1);
      assert Up(Linked(users, user, manager), u, n - 1) != Some(user);
    }
  }

  /** An accepted link keeps an acyclic hierarchy acyclic exactly when the user is not more than 50 links above
      the new manager, where the guard does not look. */
  lemma AcceptedKeepsAcyclicExactly(users: Users, user: int, manager: int)
    requires Acyclic(users) && user in users && Refused(users, user, manager) == None
    ensures Acyclic(Linked(users, user, Some(manager))) <==>
            !exists k: nat :: k > MAX_DEPTH && Up(users, manager, k) == Some(user)
  {
    WalkExact(users, manager, MAX_DEPTH, user);
    if k: nat :| k > MAX_DEPTH && Up(users, manager, k) == Some(user) {
      NewCycle(users, user, manager, k);
    } else {
      forall k: nat | k > 0 ensures Up(users, manager, k) != Some(user) {
        assert k <= MAX_DEPTH || Up(users, manager, k) != Some(user);
      }
      NoNewCycle(users, user, manager);
    }
  }

  /** The guard refuses no link for circularity that would have kept the hierarchy acyclic. */
  lemma CircularMeansCycle(users: Users, user: int, manager: int)
    requires user in users && Refused(users, user, manager) == Some(Circular)
    ensures !Acyclic(Linked(users, user, Some(manager)))
  {
    WalkExact(users, manager, MAX_DEPTH, user);
    var k :| 1 <= k <= MAX_DEPTH && Up(users, manager, k) == Some(user);
    NewCycle(users, user, manager, k);
  }

  // ---- small organisations ----

  lemma {:induction false} InsideUp(users: Users, u: int, n: nat)
    requires LinksInside(users) && u in users && Up(users, u, n) != None
    ensures Up(users, u, n).value in users
  {
  }

  /** The users on the first `n` links above `u`. */
  ghost function Path(users: Users, u: int, n: nat): set<int> {
    if Up(users, u, n) == None then {}
    else {Up(users, u, n).value} + if n == 0 then {} else Path(users, u, n - 1)
  }

  lemma {:induction false} PathMember(users: Users, u: int, n: nat, x: int)
    requires x in Path(users, u, n)
    ensures exists i: nat :: i <= n && Up(users, u, i) == Some(x)
  {
    if Up(users, u, n) == Some(x) {
    } else {
      PathMember(users, u, n - 1, x);
    }
  }

  lemma {:induction false} PathSize(users: Users, u: int, n: nat)
    requires Acyclic(users) && LinksInside(users) && u in users && Up(users, u, n) != None
    ensures |Path(users, u, n)| == n + 1 && Path(users, u, n) <= users.Keys
  {
    InsideUp(users, u, n);
    if n > 0 {
      PathSize(users, u, n - 1);
      var top := Up(users, u, n).value;
      if top in Path(users, u, n - 1) {
        PathMember(users, u, n - 1, top);
        var i: nat :| i <= n - 1 && Up(users, u, i) == Some(top);
        UpSum(users, u, i, n - i);
      }
    }
  }

  lemma ChainFits(users: Users, u: int, n: nat)
    requires Acyclic(users) && LinksInside(users) && u in users && n >= |users.Keys|
    ensures Up(users, u, n) == None
  {
    if Up(users, u, n) != None {
      PathSize(users, u, n);
      SubsetSize(Path(users, u, n), users.Keys);
      assert false;
    }
  }

  /** What the administration can do to the links. */
  datatype Change = Assign(user: int, manager: int) | Unassign(user: int)

  function Do(users: Users, c: Change): Users {
    match c
    case Assign(user, manager) => if Refused(users, user, manager) == None then Linked(users, user, Some(manager)) else users
    case Unassign(user) => Linked(users, user, None)
  }

  function Run(users: Users, changes: seq<Change>): Users {
    if changes == [] then users else Do(Run(users, changes[..|changes| - 1]), changes[|changes| - 1])
  }

  lemma UnassignKeeps(users: Users, user: int)
    requires Acyclic(users)
    ensures Acyclic(Linked(users, user, None))
  {
    var after := Linked(users, user, None);
    forall u, n: nat | n > 0 ensures Up(after, u, n) != Some(u) {
      if i: nat :| i < n && Up(after, u, i) == Some(user) {
        if user in users {
          assert Up(after, u, i + 1) == None;
          NoneStays(after, u, i + 1, n);
        }
      } else {
        BackSamePath(users, user, None, u, n);
      }
    }
  }

  /** With at most 51 users the guard is complete: no sequence of changes ever closes a cycle. */
  lemma {:induction false} SmallStaysAcyclic(users: Users, changes: seq<Change>)
    requires Acyclic(users) && LinksInside(users) && |users.Keys| <= MAX_DEPTH + 1
    ensures var after := Run(users, changes);
            Acyclic(after) && LinksInside(after) && after.Keys == users.Keys
  {
    if changes != [] {
      SmallStaysAcyclic(users, changes[..|changes| - 1]);
      var before := Run(users, changes[..|changes| - 1]);
      match changes[|changes| - 1]
      case Unassign(user) => UnassignKeeps(before, user);
      case Assign(user, manager) =>
        if Refused(before, user, manager) == None && user in before {
          forall k: nat | k > MAX_DEPTH ensures Up(before, manager, k) != Some(user) {
            ChainFits(before, manager, k);
          }
          AcceptedKeepsAcyclicExactly(before, user, manager);
        }
    }
  }

  /** Fifty-two users in a line, the last at the top. */
  predicate InLine(i: int) {
    0 <= i <= MAX_DEPTH + 1
  }

  function Line(): Users {
    map i: int | 0 <= i <= MAX_DEPTH + 1 && InLine(i) :: User(if i <= MAX_DEPTH then Some(i + 1) else None, true, false)
  }

  lemma {:induction false} LineUp(u: int, n: nat)
    requires 0 <= u <= MAX_DEPTH + 1
    ensures Up(Line(), u, n) == if u + n <= MAX_DEPTH + 1 then Some(u + n) else None
  {
    if n > 0 {
      LineUp(u, n - 1);
    }
  }

  lemma {:induction false} OutsideUp(users: Users, u: int, n: nat)
    requires u !in users && n > 0
    ensures Up(users, u, n) == None
  {
    if n > 1 {
      OutsideUp(users, u, n - 1);
    }
  }

  /** One user more is enough: the guard accepts the link from the top of the line to its foot. */
  lemma LongLineCloses()
    ensures Acyclic(Line()) && Refused(Line(), MAX_DEPTH + 1, 0) == None
    ensures !Acyclic(Linked(Line(), MAX_DEPTH + 1, Some(0)))
  {
    forall u, n: nat | n > 0 ensures Up(Line(), u, n) != Some(u) {
      if u in Line() {
        LineUp(u, n);
      } else {
        OutsideUp(Line(), u, n);
      }
    }
    WalkExact(Line(), 0, MAX_DEPTH, MAX_DEPTH + 1);
    forall k: nat ensures Up(Line(), 0, k) == if k <= MAX_DEPTH + 1 then Some(k) else None {
      LineUp(0, k);
    }
    NewCycle(Line(), MAX_DEPTH + 1, 0, MAX_DEPTH + 1);
  }
}
