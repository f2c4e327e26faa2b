/** What the eviction order guarantees: a larger cache holds whatever a smaller one holds, and an entry
    outlives fewer than `maxEntries` other keys. */
module LruInclusion {
  import opened Options
  import opened Sums
  import opened TtlCache

  datatype Op<V> =
    | Lookup(key: string, now: real)
    | Store(key: string, value: V, expiry: real)
    | Invalidate(prefix: string)
    | Clear

  function Apply<V>(s: Store<V>, max: nat, op: Op<V>): Store<V> {
    match op
    case Lookup(key, now) => AfterGet(s, key, now)
    case Store(key, value, expiry) => AfterSet(s, max, key, value, expiry)
    case Invalidate(prefix) => AfterInvalidate(s, prefix)
    case Clear => []
  }

  function Run<V>(max: nat, ops: seq<Op<V>>): Store<V> {
    if ops == [] then [] else Apply(Run(max, ops[..|ops| - 1]), max, ops[|ops| - 1])
  }

  /** `a` is a subsequence of `b`. */
  ghost predicate Within<V>(a: Store<V>, b: Store<V>) {
    a == [] ||
    (b != [] &&
     if a[|a| - 1] == b[|b| - 1] then Within(a[..|a| - 1], b[..|b| - 1]) else Within(a, b[..|b| - 1]))
  }

  lemma {:induction false} WithinMember<V>(a: Store<V>, b: Store<V>)
    requires Within(a, b)
    ensures |a| <= |b|
    ensures forall e :: e in a ==> e in b
    decreases |b|
  {
    if a != [] {
      var x, y := a[..|a| - 1], b[..|b| - 1];
      assert a == x + [a[|a| - 1]] && b == y + [b[|b| - 1]];
      if a[|a| - 1] == b[|b| - 1] {
        WithinMember(x, y);
      } else {
        WithinMember(a, y);
      }
    }
  }

  lemma {:induction false} WithinShorter<V>(a: Store<V>, b: Store<V>)
    requires a != [] && Within(a, b)
    ensures Within(a[..|a| - 1], b)
    decreases |b|, 0
  {
    var x, y := a[..|a| - 1], b[..|b| - 1];
    if x != [] {
      if a[|a| - 1] == b[|b| - 1] {
        WithinSkip(x, y, b[|b| - 1]);
        assert y + [b[|b| - 1]] == b;
      } else {
        WithinShorter(a, y);
        WithinSkip(x, y, b[|b| - 1]);
        assert y + [b[|b| - 1]] == b;
      }
    }
  }

  lemma {:induction false} WithinSkip<V>(a: Store<V>, b: Store<V>, e: Entry<V>)
    requires Within(a, b)
    ensures Within(a, b + [e])
    decreases |b|, 1
  {
    assert (b + [e])[..|b|] == b;
    if a != [] && a[|a| - 1] == e {
      WithinShorter(a, b);
    }
  }

  lemma WithinBoth<V>(a: Store<V>, b: Store<V>, e: Entry<V>)
    requires Within(a, b)
    ensures Within(a + [e], b + [e])
  {
  }

  lemma {:induction false} WithinFilter<V>(a: Store<V>, b: Store<V>, keep: string -> bool)
    requires Within(a, b)
    ensures Within(Filter(a, keep), Filter(b, keep))
    decreases |b|
  {
    if a != [] {
      var x, y, e := a[..|a| - 1], b[..|b| - 1], b[|b| - 1];
      assert Filter(b, keep) == if keep(e.key) then Filter(y, keep) + [e] else Filter(y, keep);
      if a[|a| - 1] == e {
        WithinFilter(x, y, keep);
        assert Filter(a, keep) == if keep(e.key) then Filter(x, keep) + [e] else Filter(x, keep);
        if keep(e.key) {
          WithinBoth(Filter(x, keep), Filter(y, keep), e);
        }
      } else {
        WithinFilter(a, y, keep);
        if keep(e.key) {
          WithinSkip(Filter(a, keep), Filter(y, keep), e);
        }
      }
    }
  }

  lemma {:induction false} WithinDropFirst<V>(a: Store<V>, b: Store<V>)
    requires a != [] && Within(a, b)
    ensures Within(a[1..], b[1..])
    decreases |b|
  {
    if |a| > 1 {
      WithinMember(a, b);
      var x, y := a[..|a| - 1], b[..|b| - 1];
      assert a[1..][..|a| - 2] == x[1..] && b[1..][..|b| - 2] == y[1..];
      if a[|a| - 1] == b[|b| - 1] {
        WithinDropFirst(x, y);
      } else {
        WithinMember(a, y);
        WithinDropFirst(a, y);
      }
    }
  }

  lemma {:induction false} WithinDropSmall<V>(a: Store<V>, b: Store<V>)
    requires a != [] && Within(a, b)
    ensures Within(a[1..], b)
  {
    WithinDropFirst(a, b);
    WithinFront(a[1..], b[1..], b[0]);
    assert [b[0]] + b[1..] == b;
  }

  lemma {:induction false} WithinFront<V>(a: Store<V>, b: Store<V>, e: Entry<V>)
    requires Within(a, b)
    ensures Within(a, [e] + b)
    decreases |b|
  {
    if a != [] {
      var x, y := a[..|a| - 1], b[..|b| - 1];
      assert ([e] + b)[..|b|] == [e] + y;
      if a[|a| - 1] == b[|b| - 1] {
        WithinFront(x, y, e);
      } else {
        WithinFront(a, y, e);
      }
    }
  }

  /** The small cache sits in the large one and has no more room left than it. */
  ghost predicate Nested<V>(small: Store<V>, least: nat, large: Store<V>, most: nat) {
    && UniqueKeys(small) && UniqueKeys(large)
    && Within(small, large)
    && |small| <= least && |large| <= most
    && least - |small| <= most - |large|
  }

  lemma SameEntry<V>(small: Store<V>, large: Store<V>, key: string)
    requires UniqueKeys(small) && UniqueKeys(large) && Within(small, large)
    ensures Find(small, key) == None || Find(small, key) == Find(large, key)
  {
    FindSpec(small, key);
    FindSpec(large, key);
    WithinMember(small, large);
  }

  lemma {:induction false} FilterRoom<V>(a: Store<V>, b: Store<V>, keep: string -> bool)
    requires Within(a, b)
    ensures |a| - |Filter(a, keep)| <= |b| - |Filter(b, keep)|
    decreases |b|
  {
    if a != [] {
      if a[|a| - 1] == b[|b| - 1] {
        FilterRoom(a[..|a| - 1], b[..|b| - 1], keep);
      } else {
        FilterRoom(a, b[..|b| - 1], keep);
      }
    }
  }

  lemma FilterNested<V>(small: Store<V>, least: nat, large: Store<V>, most: nat, keep: string -> bool)
    requires Nested(small, least, large, most)
    ensures Nested(Filter(small, keep), least, Filter(large, keep), most)
  {
    FilterSpec(small, keep);
    FilterSpec(large, keep);
    WithinFilter(small, large, keep);
    FilterRoom(small, large, keep);
  }

  lemma LookupNested<V>(small: Store<V>, least: nat, large: Store<V>, most: nat, key: string, now: real)
    requires Nested(small, least, large, most)
    ensures Nested(AfterGet(small, key, now), least, AfterGet(large, key, now), most)
  {
    SameEntry(small, large, key);
    FilterNested(small, least, large, most, Except(key));
    FindSpec(small, key);
    if Find(small, key) == None {
      FilterAll(small, Except(key));
    }
    var found := Find(large, key);
    if found != None {
      FindSpec(large, key);
      WithoutOne(small, key);
      WithoutOne(large, key);
      if Live(large, key, now) != None {
        AppendUnique(large, found.value);
        if Find(small, key) == None {
          WithinSkip(small, Without(large, key), found.value);
        } else {
          AppendUnique(small, found.value);
          WithinBoth(Without(small, key), Without(large, key), found.value);
        }
      }
    }
  }

  /** One entry too many in the small store goes, with or without one in the large. */
  lemma EvictNested<V>(a: Store<V>, least: nat, b: Store<V>, most: nat)
    requires UniqueKeys(a) && UniqueKeys(b) && Within(a, b)
    requires |a| <= least + 1 && |b| <= most + 1 && (least < |a| || least - |a| <= most - |b|)
    ensures Nested(Evict(a, least), least, Evict(b, most), most)
  {
    EvictDrops(a, least);
    EvictDrops(b, most);
    if |a| > least {
      WithinDropFirst(a, b);
      WithinDropSmall(a, b);
    }
  }

  lemma StoreNested<V>(small: Store<V>, least: nat, large: Store<V>, most: nat, e: Entry<V>)
    requires Nested(small, least, large, most) && least <= most
    ensures Nested(AfterSet(small, least, e.key, e.value, e.expiry), least, AfterSet(large, most, e.key, e.value, e.expiry), most)
  {
    SameEntry(small, large, e.key);
    FilterNested(small, least, large, most, Except(e.key));
    WithoutOne(small, e.key);
    WithoutOne(large, e.key);
    AppendUnique(small, e);
    AppendUnique(large, e);
    WithinBoth(Without(small, e.key), Without(large, e.key), e);
    EvictNested(Without(small, e.key) + [e], least, Without(large, e.key) + [e], most);
  }

  lemma ApplyNested<V>(small: Store<V>, least: nat, large: Store<V>, most: nat, op: Op<V>)
    requires Nested(small, least, large, most) && least <= most
    ensures Nested(Apply(small, least, op), least, Apply(large, most, op), most)
  {
    match op
    case Lookup(key, now) => LookupNested(small, least, large, most, key, now);
    case Store(key, value, expiry) => StoreNested(small, least, large, most, Entry(key, expiry, value));
    case Invalidate(prefix) => FilterNested(small, least, large, most, NotUnder(prefix));
    case Clear =>
  }

  /** After any one sequence of operations the entries of a smaller cache are entries of a larger one, in the
      same order, with the same values and expiries. */
  lemma {:induction false} LargerHoldsMore<V>(least: nat, most: nat, ops: seq<Op<V>>)
    requires least <= most
    ensures Nested(Run(least, ops), least, Run(most, ops), most)
  {
    if ops != [] {
      LargerHoldsMore(least, most, ops[..|ops| - 1]);
      ApplyNested(Run(least, ops[..|ops| - 1]), least, Run(most, ops[..|ops| - 1]), most, ops[|ops| - 1]);
    }
  }

  /** So every hit of the smaller cache is the same hit in the larger one. */
  lemma SmallHitIsLargeHit<V>(least: nat, most: nat, ops: seq<Op<V>>, key: string, now: real)
    requires least <= most
    ensures Live(Run(least, ops), key, now) != None ==> Live(Run(most, ops), key, now) == Live(Run(least, ops), key, now)
  {
    LargerHoldsMore(least, most, ops);
    SameEntry(Run(least, ops), Run(most, ops), key);
  }

  // ---- recency ----

  /** The other keys that `ops` look up or store. */
  function Touched<V>(ops: seq<Op<V>>, key: string): set<string> {
    if ops == [] then {}
    else
      var op := ops[|ops| - 1];
      Touched(ops[..|ops| - 1], key) + if (op.Lookup? || op.Store?) && op.key != key then {op.key} else {}
  }

  /** `op` does not itself remove or replace the entry `e`. */
  predicate Spares<V>(op: Op<V>, e: Entry<V>) {
    match op
    case Lookup(key, now) => key == e.key ==> now < e.expiry
    case Store(key, _, _) => key != e.key
    case Invalidate(prefix) => !(prefix <= e.key)
    case Clear => false
  }

  function ApplyAll<V>(s: Store<V>, max: nat, ops: seq<Op<V>>): Store<V> {
    if ops == [] then s else Apply(ApplyAll(s, max, ops[..|ops| - 1]), max, ops[|ops| - 1])
  }

  /** `e` sits in the store and everything newer has a key in `newer`. */
  ghost predicate Recent<V>(s: Store<V>, e: Entry<V>, newer: set<string>) {
    && UniqueKeys(s)
    && exists i :: 0 <= i < |s| && s[i] == e && forall j :: i < j < |s| ==> s[j].key in newer
  }

  lemma RecentSplit<V>(s: Store<V>, e: Entry<V>, newer: set<string>) returns (a: Store<V>, b: Store<V>)
    requires Recent(s, e, newer)
    ensures s == a + [e] + b && forall x :: x in b ==> x.key in newer
  {
    var i :| 0 <= i < |s| && s[i] == e && forall j :: i < j < |s| ==> s[j].key in newer;
    a, b := s[..i], s[i + 1..];
  }

  lemma RecentJoin<V>(s: Store<V>, a: Store<V>, e: Entry<V>, b: Store<V>, newer: set<string>)
    requires UniqueKeys(s) && s == a + [e] + b && forall x :: x in b ==> x.key in newer
    ensures Recent(s, e, newer)
  {
    assert s[|a|] == e;
    forall j | |a| < j < |s| ensures s[j].key in newer {
      assert s[j] == b[j - |a| - 1];
    }
  }

  lemma RecentFilter<V>(s: Store<V>, e: Entry<V>, newer: set<string>, keep: string -> bool)
    requires Recent(s, e, newer) && keep(e.key)
    ensures Recent(Filter(s, keep), e, newer)
  {
    var a, b := RecentSplit(s, e, newer);
    FilterAppend(a + [e], b, keep);
    FilterAppend(a, [e], keep);
    assert Filter([e][..0], keep) == [];
    FilterSpec(s, keep);
    FilterSpec(b, keep);
    RecentJoin(Filter(s, keep), Filter(a, keep), e, Filter(b, keep), newer);
  }

  lemma RecentAppend<V>(s: Store<V>, e: Entry<V>, newer: set<string>, x: Entry<V>)
    requires Recent(s, e, newer) && x.key != e.key
    ensures Recent(Without(s, x.key) + [x], e, newer + {x.key})
  {
    RecentFilter(s, e, newer, Except(x.key));
    AppendUnique(s, x);
    var a, b := RecentSplit(Without(s, x.key), e, newer);
    assert Without(s, x.key) + [x] == a + [e] + (b + [x]);
    RecentJoin(Without(s, x.key) + [x], a, e, b + [x], newer + {x.key});
  }

  lemma RecentEvict<V>(s: Store<V>, e: Entry<V>, newer: set<string>, max: nat)
    requires Recent(s, e, newer) && |newer| < max
    ensures Recent(Evict(s, max), e, newer)
  {
    EvictDrops(s, max);
    if |s| > max {
      var a, b := RecentSplit(s, e, newer);
      assert |b| <= |newer| by {
        var keys := set x | x in b :: x.key;
        assert keys <= newer;
        forall i, j | 0 <= i < j < |b| ensures b[i].key != b[j].key {
          assert s[|a| + 1 + i] == b[i] && s[|a| + 1 + j] == b[j];
        }
        DistinctKeys(b);
        SubsetSize(keys, newer);
      }
      var drop := |s| - max;
      assert s[drop..] == a[drop..] + [e] + b;
      RecentJoin(s[drop..], a[drop..], e, b, newer);
    }
  }

  lemma {:induction false} DistinctKeys<V>(b: Store<V>)
    requires UniqueKeys(b)
    ensures |set x | x in b :: x.key| == |b|
  {
    if b != [] {
      var n := |b| - 1;
      DistinctKeys(b[..n]);
      var front := set x | x in b[..n] :: x.key;
      assert b == b[..n] + [b[n]];
      assert (set x | x in b :: x.key) == front + {b[n].key};
      assert b[n].key !in front;
    }
  }

  lemma RecentStep<V>(s: Store<V>, e: Entry<V>, newer: set<string>, max: nat, op: Op<V>)
    requires Recent(s, e, newer) && Spares(op, e)
    requires |newer + if (op.Lookup? || op.Store?) && op.key != e.key then {op.key} else {}| < max
    ensures Recent(Apply(s, max, op), e, newer + if (op.Lookup? || op.Store?) && op.key != e.key then {op.key} else {})
  {
    match op
    case Lookup(key, now) => RecentLookup(s, e, newer, key, now);
    case Store(key, value, expiry) =>
      RecentAppend(s, e, newer, Entry(key, expiry, value));
      RecentEvict(Without(s, key) + [Entry(key, expiry, value)], e, newer + {key}, max);
    case Invalidate(prefix) => RecentFilter(s, e, newer, NotUnder(prefix));
  }

  lemma RecentLookup<V>(s: Store<V>, e: Entry<V>, newer: set<string>, key: string, now: real)
    requires Recent(s, e, newer) && (key == e.key ==> now < e.expiry)
    ensures Recent(AfterGet(s, key, now), e, if key == e.key then newer else newer + {key})
  {
    FindSpec(s, key);
    var found := Find(s, key);
    if key == e.key {
      var a, b := RecentSplit(s, e, newer);
      assert e in s;
      AppendUnique(s, e);
      RecentJoin(Without(s, key) + [e], Without(s, key), e, [], newer);
    } else if found != None && now < found.value.expiry {
      RecentAppend(s, e, newer, found.value);
    } else {
      if found != None {
        RecentFilter(s, e, newer, Except(key));
      }
      var t := AfterGet(s, key, now);
      var a, b := RecentSplit(t, e, newer);
      RecentJoin(t, a, e, b, newer + {key});
    }
  }

  lemma {:induction false} RecentRun<V>(s: Store<V>, e: Entry<V>, max: nat, ops: seq<Op<V>>)
    requires Recent(s, e, {}) && |Touched(ops, e.key)| < max
    requires forall i :: 0 <= i < |ops| ==> Spares(ops[i], e)
    ensures Recent(ApplyAll(s, max, ops), e, Touched(ops, e.key))
  {
    if ops != [] {
      SubsetSize(Touched(ops[..|ops| - 1], e.key), Touched(ops, e.key));
      RecentRun(s, e, max, ops[..|ops| - 1]);
      RecentStep(ApplyAll(s, max, ops[..|ops| - 1]), e, Touched(ops[..|ops| - 1], e.key), max, ops[|ops| - 1]);
    }
  }

  /** An entry just stored survives every run that touches fewer than `max` other keys, unless an operation
      aims at it: overwrites it, invalidates it, clears the cache, or looks it up after its expiry. */
  lemma RecentSurvives<V>(s: Store<V>, max: nat, e: Entry<V>, ops: seq<Op<V>>)
    requires UniqueKeys(s) && |Touched(ops, e.key)| < max
    requires forall i :: 0 <= i < |ops| ==> Spares(ops[i], e)
    ensures Find(ApplyAll(AfterSet(s, max, e.key, e.value, e.expiry), max, ops), e.key) == Some(e)
  {
    var full := Without(s, e.key) + [e];
    AppendUnique(s, e);
    RecentJoin(full, Without(s, e.key), e, [], {});
    RecentEvict(full, e, {}, max);
    RecentRun(Evict(full, max), e, max, ops);
    var t := ApplyAll(Evict(full, max), max, ops);
    var a, b := RecentSplit(t, e, Touched(ops, e.key));
    assert e in t;
    FindSpec(t, e.key);
  }

  // ---- expiry ----

  /** Keys are unique, and the only entry of the key of `e`, if any, is `e`. */
  ghost predicate Only<V>(s: Store<V>, e: Entry<V>) {
    UniqueKeys(s) && forall x :: x in s && x.key == e.key ==> x == e
  }

  ghost predicate StoresOthers<V>(ops: seq<Op<V>>, key: string) {
    forall i :: 0 <= i < |ops| && ops[i].Store? ==> ops[i].key != key
  }

  lemma ApplyOnly<V>(s: Store<V>, max: nat, e: Entry<V>, op: Op<V>)
    requires Only(s, e) && (op.Store? ==> op.key != e.key)
    ensures Only(Apply(s, max, op), e)
  {
    match op
    case Lookup(key, now) =>
      GetMeaning(s, key, now);
      FindSpec(s, key);
      FilterSpec(s, Except(key));
      if Find(s, key) != None {
        AppendUnique(s, Find(s, key).value);
      }
    case Store(key, value, expiry) =>
      SetMeaning(s, max, key, value, expiry);
      AppendUnique(s, Entry(key, expiry, value));
      EvictDrops(Without(s, key) + [Entry(key, expiry, value)], max);
    case Invalidate(prefix) => FilterSpec(s, NotUnder(prefix));
    case Clear =>
  }

  lemma OthersFront<V>(ops: seq<Op<V>>, key: string)
    requires ops != [] && StoresOthers(ops, key)
    ensures StoresOthers(ops[..|ops| - 1], key) && (ops[|ops| - 1].Store? ==> ops[|ops| - 1].key != key)
  {
  }

  lemma ApplyLast<V>(s: Store<V>, max: nat, ops: seq<Op<V>>)
    requires ops != []
    ensures ApplyAll(s, max, ops) == Apply(ApplyAll(s, max, ops[..|ops| - 1]), max, ops[|ops| - 1])
  {
  }

  lemma {:induction false} RunOnly<V>(s: Store<V>, max: nat, e: Entry<V>, ops: seq<Op<V>>)
    requires Only(s, e) && StoresOthers(ops, e.key)
    ensures Only(ApplyAll(s, max, ops), e)
  {
    if ops != [] {
      OthersFront(ops, e.key);
      RunOnly(s, max, e, ops[..|ops| - 1]);
      ApplyOnly(ApplyAll(s, max, ops[..|ops| - 1]), max, e, ops[|ops| - 1]);
      ApplyLast(s, max, ops);
    }
  }

  /** After a value is stored at `t` for `ttl`, and whatever operations follow that do not store the key again: a
      hit returns that value, and only before `t + ttl`. */
  lemma HitIsInTime<V>(s: Store<V>, max: nat, key: string, value: V, t: real, ttl: real, ops: seq<Op<V>>, now: real)
    requires UniqueKeys(s) && StoresOthers(ops, key)
    ensures var end := ApplyAll(AfterSet(s, max, key, value, t + ttl), max, ops);
            && (forall x :: x in end && x.key == key ==> x.expiry == t + ttl && x.value == value)
            && (Live(end, key, now) != None ==> now < t + ttl && Live(end, key, now).value.value == value)
  {
    var e := Entry(key, t + ttl, value);
    AppendUnique(s, e);
    EvictDrops(Without(s, key) + [e], max);
    SetMeaning(s, max, key, value, t + ttl);
    RunOnly(AfterSet(s, max, key, value, t + ttl), max, e, ops);
    LiveExactly(ApplyAll(AfterSet(s, max, key, value, t + ttl), max, ops), key, now);
  }
}
