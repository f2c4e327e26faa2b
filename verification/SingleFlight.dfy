/** `get_or_set` among any number of threads: the per-key locks live in a weak map, whose entry may vanish
    whenever no thread holds a reference to its lock. */
module SingleFlight {
  import opened Options
  import opened Sums
  import opened TtlCache
  import opened LruInclusion

  type Thread = nat
  type Lock = nat

  /** Where a thread stands in `get_or_set`. A thread refers to its lock from Waiting on and owns it from Inside on. */
  datatype Phase<V> =
    | Idle
    | Missed(key: string)
    | Waiting(key: string, lock: Lock)
    | Inside(key: string, lock: Lock)
    | Producing(key: string, lock: Lock)
    | Leaving(key: string, lock: Lock, value: V)
  {
    predicate Refers() { !Idle? && !Missed? }
    predicate Owns() { Inside? || Producing? || Leaving? }
  }

  datatype State<V> = State(max: nat, store: Store<V>, locks: map<string, Lock>, nextLock: Lock, phases: map<Thread, Phase<V>>) {
    function Phase(t: Thread): Phase<V> { if t in phases then phases[t] else Idle }
  }

  /** The steps, one for each stretch under a lock. */
  datatype Action<V> =
    | Begin(t: Thread, key: string, now: real)
    | Obtain(t: Thread)
    | Collect(key: string)
    | Acquire(t: Thread)
    | Check(t: Thread, now: real)
    | Finish(t: Thread, value: V, expiry: real)
    | Fail(t: Thread)
    | Leave(t: Thread)
    | Outside(op: Op<V>)

  ghost predicate Enabled<V>(s: State<V>, a: Action<V>) {
    match a
    case Begin(t, _, _) => s.Phase(t).Idle?
    case Obtain(t) => s.Phase(t).Missed?
    case Collect(key) => key in s.locks && forall t :: s.Phase(t).Refers() ==> s.Phase(t).lock != s.locks[key]
    case Acquire(t) => s.Phase(t).Waiting? && forall u :: s.Phase(u).Owns() ==> s.Phase(u).lock != s.Phase(t).lock
    case Check(t, _) => s.Phase(t).Inside?
    case Finish(t, _, _) => s.Phase(t).Producing?
    case Fail(t) => s.Phase(t).Producing?
    case Leave(t) => s.Phase(t).Leaving?
    case Outside(_) => true
  }

  /** The cache call an action makes. */
  function Call<V>(s: State<V>, a: Action<V>): Option<Op<V>> {
    match a
    case Begin(_, key, now) => Some(Lookup(key, now))
    case Check(t, now) => if s.Phase(t).Idle? then None else Some(Lookup(s.Phase(t).key, now))
    case Finish(t, value, expiry) => if s.Phase(t).Idle? then None else Some(Op.Store(s.Phase(t).key, value, expiry))
    case Outside(op) => Some(op)
    case _ => None
  }

  function Stored<V>(s: State<V>, a: Action<V>): State<V> {
    match Call(s, a)
    case None => s
    case Some(op) => s.(store := Apply(s.store, s.max, op))
  }

  function Moved<V>(s: State<V>, t: Thread, p: Phase<V>): State<V> {
    s.(phases := s.phases[t := p])
  }

  ghost function Do<V>(s: State<V>, a: Action<V>): State<V> {
    if !Enabled(s, a) then s else
    var next := Stored(s, a);
    match a
    case Begin(t, key, now) => if Live(s.store, key, now) != None then next else Moved(next, t, Missed(key))
    case Obtain(t) =>
      var key := s.Phase(t).key;
      if key in s.locks then Moved(s, t, Waiting(key, s.locks[key]))
      else Moved(s.(locks := s.locks[key := s.nextLock], nextLock := s.nextLock + 1), t, Waiting(key, s.nextLock))
    case Collect(key) => s.(locks := s.locks - {key})
    case Acquire(t) => Moved(s, t, Inside(s.Phase(t).key, s.Phase(t).lock))
    case Check(t, now) =>
      var p := s.Phase(t);
      var e := Live(s.store, p.key, now);
      Moved(next, t, if e != None then Leaving(p.key, p.lock, e.value.value) else Producing(p.key, p.lock))
    case Finish(t, value, _) => Moved(next, t, Leaving(s.Phase(t).key, s.Phase(t).lock, value))
    case Fail(t) => Moved(s, t, Idle)
    case Leave(t) => Moved(s, t, Idle)
    case Outside(_) => next
  }

  ghost function Exec<V>(s: State<V>, actions: seq<Action<V>>): State<V> {
    if actions == [] then s else Do(Exec(s, actions[..|actions| - 1]), actions[|actions| - 1])
  }

  function Init<V>(max: nat): State<V> {
    State(max, [], map[], 0, map[])
  }

  ghost predicate LocksKept<V>(s: State<V>) {
    forall t: Thread :: s.Phase(t).Refers() ==> s.Phase(t).key in s.locks && s.locks[s.Phase(t).key] == s.Phase(t).lock
  }

  ghost predicate LocksDistinct<V>(s: State<V>) {
    && (forall k :: k in s.locks ==> s.locks[k] < s.nextLock)
    && (forall j, k :: j in s.locks && k in s.locks && s.locks[j] == s.locks[k] ==> j == k)
  }

  ghost predicate OneOwner<V>(s: State<V>) {
    forall t: Thread, u: Thread :: s.Phase(t).Owns() && s.Phase(u).Owns() && s.Phase(t).lock == s.Phase(u).lock ==> t == u
  }

  ghost predicate Inv<V>(s: State<V>) {
    LocksKept(s) && LocksDistinct(s) && OneOwner(s) && UniqueKeys(s.store)
  }

  lemma ApplyUnique<V>(s: Store<V>, max: nat, op: Op<V>)
    requires UniqueKeys(s)
    ensures UniqueKeys(Apply(s, max, op))
  {
    match op
    case Lookup(key, now) =>
      FilterSpec(s, Except(key));
      FindSpec(s, key);
      if Find(s, key) != None {
        AppendUnique(s, Find(s, key).value);
      }
    case Store(key, value, expiry) =>
      AppendUnique(s, Entry(key, expiry, value));
      EvictDrops(Without(s, key) + [Entry(key, expiry, value)], max);
    case Invalidate(prefix) => FilterSpec(s, NotUnder(prefix));
    case Clear =>
  }

  lemma MoveKeeps<V>(s: State<V>, t: Thread, p: Phase<V>)
    requires LocksKept(s) && OneOwner(s)
    requires p.Refers() ==> p.key in s.locks && s.locks[p.key] == p.lock
    requires p.Owns() ==> forall u: Thread :: u != t && s.Phase(u).Owns() ==> s.Phase(u).lock != p.lock
    ensures LocksKept(Moved(s, t, p)) && OneOwner(Moved(s, t, p))
  {
    assert forall u: Thread :: Moved(s, t, p).Phase(u) == if u == t then p else s.Phase(u);
  }

  lemma DoKeeps<V>(s: State<V>, a: Action<V>)
    requires Inv(s)
    ensures Inv(Do(s, a))
  {
    if Enabled(s, a) {
      if Call(s, a) != None {
        ApplyUnique(s.store, s.max, Call(s, a).value);
      }
      var next := Stored(s, a);
      assert forall u: Thread :: next.Phase(u) == s.Phase(u);
      match a
      case Begin(t, key, now) => MoveKeeps(next, t, Missed(key));
      case Obtain(t) => ObtainKeeps(s, t);
      case Acquire(t) => MoveKeeps(s, t, Inside(s.Phase(t).key, s.Phase(t).lock));
      case Check(t, now) => MoveKeeps(next, t, Do(s, a).Phase(t));
      case Finish(t, value, expiry) => MoveKeeps(next, t, Do(s, a).Phase(t));
      case Fail(t) => MoveKeeps(s, t, Idle);
      case Leave(t) => MoveKeeps(s, t, Idle);
      case Collect(key) => CollectKeeps(s, key);
      case Outside(op) =>
    }
  }

  lemma ObtainKeeps<V>(s: State<V>, t: Thread)
    requires Inv(s) && s.Phase(t).Missed?
    ensures Inv(Do(s, Obtain(t)))
  {
    var key := s.Phase(t).key;
    if key in s.locks {
      MoveKeeps(s, t, Waiting(key, s.locks[key]));
    } else {
      var next := s.(locks := s.locks[key := s.nextLock], nextLock := s.nextLock + 1);
      assert forall u: Thread :: next.Phase(u) == s.Phase(u);
      MoveKeeps(next, t, Waiting(key, s.nextLock));
    }
  }

  lemma CollectKeeps<V>(s: State<V>, key: string)
    requires Inv(s) && Enabled(s, Collect(key))
    ensures Inv(Do(s, Collect(key)))
  {
    var next := Do(s, Collect(key));
    assert forall u: Thread :: next.Phase(u) == s.Phase(u);
    forall t: Thread | s.Phase(t).Refers() ensures s.Phase(t).key != key {
      assert s.Phase(t).lock != s.locks[key];
    }
  }

  lemma {:induction false} ExecKeeps<V>(s: State<V>, actions: seq<Action<V>>)
    requires Inv(s)
    ensures Inv(Exec(s, actions))
  {
    if actions != [] {
      ExecKeeps(s, actions[..|actions| - 1]);
      DoKeeps(Exec(s, actions[..|actions| - 1]), actions[|actions| - 1]);
    }
  }

  /** Two producers for one key never overlap. */
  lemma OneProducer<V>(max: nat, actions: seq<Action<V>>, t: Thread, u: Thread)
    requires var s := Exec(Init(max), actions); s.Phase(t).Producing? && s.Phase(u).Producing? && s.Phase(t).key == s.Phase(u).key
    ensures t == u
  {
    ExecKeeps(Init<V>(max), actions);
  }

  // ---- what a waiter reads ----

  ghost predicate NoProducer<V>(s: State<V>, key: string) {
    forall t: Thread :: s.Phase(t).Producing? ==> s.Phase(t).key != key
  }

  /** The cache calls of a run. */
  ghost function Calls<V>(s: State<V>, actions: seq<Action<V>>): seq<Op<V>> {
    if actions == [] then []
    else
      var before := Exec(s, actions[..|actions| - 1]);
      var a := actions[|actions| - 1];
      Calls(s, actions[..|actions| - 1])
      + if Enabled(before, a) && Call(before, a) != None then [Call(before, a).value] else []
  }

  /** No action of the run removes `e` on purpose. Producers are not constrained: that they leave `e` alone is proved. */
  ghost predicate Undisturbed<V>(s: State<V>, actions: seq<Action<V>>, e: Entry<V>) {
    actions == [] ||
    (var before := Exec(s, actions[..|actions| - 1]);
     var a := actions[|actions| - 1];
     && Undisturbed(s, actions[..|actions| - 1], e)
     && (Enabled(before, a) && !a.Finish? && Call(before, a) != None ==> Spares(Call(before, a).value, e)))
  }

  lemma QuietStep<V>(s: State<V>, a: Action<V>, e: Entry<V>, newer: set<string>)
    requires Inv(s) && Recent(s.store, e, newer) && NoProducer(s, e.key) && Enabled(s, a)
    requires !a.Finish? && Call(s, a) != None ==> Spares(Call(s, a).value, e)
    ensures Call(s, a) != None ==> Spares(Call(s, a).value, e)
    ensures NoProducer(Do(s, a), e.key)
    ensures Do(s, a).store == Stored(s, a).store
  {
    var next := Do(s, a);
    if a.Check? && s.Phase(a.t).key == e.key {
      FindSpec(s.store, e.key);
      var x, y := RecentSplit(s.store, e, newer);
      assert e in s.store;
    }
    forall t: Thread | next.Phase(t).Producing? ensures next.Phase(t).key != e.key {
      if s.Phase(t) == next.Phase(t) {
      } else {
        assert a.Check? && t == a.t;
      }
    }
  }

  lemma {:induction false} QuietRun<V>(s: State<V>, actions: seq<Action<V>>, e: Entry<V>)
    requires Inv(s) && Recent(s.store, e, {}) && NoProducer(s, e.key)
    requires Undisturbed(s, actions, e) && |Touched(Calls(s, actions), e.key)| < s.max
    ensures var after := Exec(s, actions);
            Inv(after) && after.max == s.max && NoProducer(after, e.key)
            && Recent(after.store, e, Touched(Calls(s, actions), e.key))
  {
    if actions != [] {
      var front, a := actions[..|actions| - 1], actions[|actions| - 1];
      var before := Exec(s, front);
      var newer := Touched(Calls(s, front), e.key);
      var call := Call(before, a);
      if Enabled(before, a) && call != None {
        assert Calls(s, actions) == Calls(s, front) + [call.value];
        assert Calls(s, actions)[..|Calls(s, front)|] == Calls(s, front);
      } else {
        assert Calls(s, actions) == Calls(s, front);
      }
      SubsetSize(newer, Touched(Calls(s, actions), e.key));
      QuietRun(s, front, e);
      DoKeeps(before, a);
      if Enabled(before, a) {
        QuietStep(before, a, e, newer);
        if call != None {
          RecentStep(before.store, e, newer, s.max, call.value);
        }
      }
    }
  }

  /** A waiter returns the value that was rebuilt while it waited, and nothing is rebuilt again, unless the entry
      expired, was overwritten or invalidated from outside, or `max` other keys came after it. */
  lemma WaiterReadsRebuilt<V>(max: nat, before: seq<Action<V>>, done: Action<V>, meanwhile: seq<Action<V>>, w: Thread, now: real)
    requires var s := Exec(Init(max), before);
             && done.Finish? && Enabled(s, done) && now < done.expiry
             && Undisturbed(Do(s, done), meanwhile, Entry(s.Phase(done.t).key, done.expiry, done.value))
             && |Touched(Calls(Do(s, done), meanwhile), s.Phase(done.t).key)| < max
             && Exec(Do(s, done), meanwhile).Phase(w) == Inside(s.Phase(done.t).key, s.Phase(done.t).lock)
    ensures var s := Exec(Init(max), before);
            var after := Exec(Do(s, done), meanwhile);
            && NoProducer(after, s.Phase(done.t).key)
            && Do(after, Check(w, now)).Phase(w) == Leaving(s.Phase(done.t).key, s.Phase(done.t).lock, done.value)
  {
    ExecKeeps(Init<V>(max), before);
    ExecMax(Init<V>(max), before);
    var s := Exec(Init(max), before);
    var e := Entry(s.Phase(done.t).key, done.expiry, done.value);
    var s1 := Do(s, done);
    FinishLeaves(s, done);
    QuietRun(s1, meanwhile, e);
    var after := Exec(s1, meanwhile);
    CheckReads(after, w, now, e, Touched(Calls(s1, meanwhile), e.key));
  }

  /** The second lookup of a waiter that holds the lock. */
  lemma CheckReads<V>(s: State<V>, w: Thread, now: real, e: Entry<V>, newer: set<string>)
    requires Recent(s.store, e, newer) && now < e.expiry && s.Phase(w).Inside? && s.Phase(w).key == e.key
    ensures Do(s, Check(w, now)).Phase(w) == Leaving(e.key, s.Phase(w).lock, e.value)
  {
    FindSpec(s.store, e.key);
  }

  /** After a rebuild the entry is the newest, and nobody is producing its key. */
  lemma FinishLeaves<V>(s: State<V>, done: Action<V>)
    requires Inv(s) && done.Finish? && Enabled(s, done) && s.max > 0
    ensures var e := Entry(s.Phase(done.t).key, done.expiry, done.value);
            var s1 := Do(s, done);
            Inv(s1) && Recent(s1.store, e, {}) && NoProducer(s1, e.key) && s1.max == s.max
  {
    var key := s.Phase(done.t).key;
    var e := Entry(key, done.expiry, done.value);
    var s1 := Do(s, done);
    DoKeeps(s, done);
    forall t: Thread | s1.Phase(t).Producing? ensures s1.Phase(t).key != key {
      assert s.Phase(t) == s1.Phase(t);
    }
    var full := Without(s.store, key) + [e];
    AppendUnique(s.store, e);
    RecentJoin(full, Without(s.store, key), e, [], {});
    RecentEvict(full, e, {}, s.max);
  }

  lemma {:induction false} ExecMax<V>(s: State<V>, actions: seq<Action<V>>)
    ensures Exec(s, actions).max == s.max
  {
    if actions != [] {
      ExecMax(s, actions[..|actions| - 1]);
    }
  }
}
